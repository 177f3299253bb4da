# sync_ssd capture lifecycle, in Dafny

This project models the core of `data_sync/data_sync.py`, the script that runs
on a test car and moves finished data captures off the car's SSD. A capture is
a folder named `<label>@<timestamp>` inside the car folder. One run of the
script does four things:

1. It leaves at once if the lock file exists. Otherwise it creates the lock
   file, does the work inside `try`, and deletes the lock file in `finally`.
2. It lists the captures that are finished: those with an `@` in the name
   whose timestamp is strictly more than seven minutes old.
3. It classifies each finished capture. The capture's first `.txt` entry is
   its tag file. If that file contains the marker
   `[TAG],manual_annotation.Actuation_1,2,true`, the capture is moved into
   `criticalData`.
4. It calls `rsync` once for every finished capture, by its path in the car
   folder, and then once for `criticalData`.

Module by module:

- `Wrappers` holds `Option`, `Result` and `Outcome`. A Python exception
  becomes a `Failure`/`Fail` value carrying a `Fault`.
- `Text` holds the string operations the script uses:
  - `str.split` and its inverse;
  - the `in` substring test;
  - `str.endswith`;
  - `os.path.join`.
- `Seqs` holds sub-sequences, duplicate-free listings, and removal of one
  entry from a listing.
- `Capture` covers one capture: its timestamp field, `is_completed`,
  `get_tag_file_name`, and its classification.
- `Lifecycle` states the whole run on values. `Disk` is everything the script
  sees and changes: the car folder's listing, each folder's listing, file
  texts, the names under `criticalData`, the lock file, and the trace of
  `rsync` calls. `Completed`, `Relocations`, `Sync` and `Run` say what
  `get_list_completed_raw`, the classification loop,
  `move_parent_folder_of_txt_to_critical` and `main` do to it. The lemmas
  prove what those steps promise.
- `DataSync.Storage` is a class whose fields are that same state. Its methods
  perform the script's steps in place, with the source's loops. Each method
  is proved to change the state exactly as the matching `Lifecycle` function
  says.
- `Scenarios` states what one call of `main` does to a car folder with four
  captures:
  - a finished critical one;
  - a finished normal one;
  - one only a minute old;
  - a finished one without a tag file.

Two things are inputs rather than effects:

- The clock is a parameter `now`, counted in microseconds.
- `datetime.strptime` is an abstract partial function `parse`. `None` stands
  for the ValueError it raises.

In three places the code does not do what a reader might expect, and the
model follows the code:

- **An exception ends the whole run.** A reader might expect one bad
  capture not to stop the others. In the code, a malformed timestamp or an
  unreadable tag file raises inside the single outer `try`. The rest of the
  run is skipped and the lock is released.
- **An unreadable tag file raises.** It does not count as "not critical":
  `open` or `read` propagates its exception.
- **Moved captures are mirrored by their old path.** The work-list is not
  only the captures still in the car folder. It is every finished capture
  plus `criticalData`, each joined to the car folder. So a capture moved into
  `criticalData` is still passed to `rsync` as `car folder/name`, a path that
  no longer exists. `Lifecycle.SyncMirrorsStalePaths` and
  `Scenarios.FourCaptureRun` state this.

## Model

All source paths are in `data_sync/data_sync.py`.

| member | source | states |
|---|---|---|
| Text.Split | data_sync/data_sync.py:35 | `str.split(sep)`: at least one field, no field contains the separator, joining the fields with it gives back the string, and there is more than one field exactly when the separator occurs |
| Text.SplitJoin | data_sync/data_sync.py:35 | splitting a join of separator-free fields gives back those fields (round trip) |
| Text.EndsWith | data_sync/data_sync.py:29 | definition of `str.endswith`: the suffix is no longer than the string and equals its last characters |
| Text.PathJoin | data_sync/data_sync.py:66 | definition of `os.path.join` of two parts; its properties are `Text.PathJoinParts` |
| Text.Contains | data_sync/data_sync.py:72 | the `in` test is true exactly when the pattern occurs at some index of the text |
| Text.PathJoinParts | data_sync/data_sync.py:66 | `os.path.join`: the result ends with the name; an absolute name is the whole result; a relative name is put under the directory with exactly one `/` between them |
| Seqs.Remove | data_sync/data_sync.py:75 | the listing after a move holds exactly the other names, in their old order |
| Capture.TimestampField | data_sync/data_sync.py:35 | `split('@')[1]` fails exactly when there is no `@`; otherwise it is the `@`-free text between the first `@` and the next `@` or the end |
| Capture.IsCompleted | data_sync/data_sync.py:34-42 | raises exactly when the name has no `@` or its timestamp does not parse, and says which exception |
| Capture.CompletionBoundary | data_sync/data_sync.py:39-42 | an age of exactly seven minutes is not finished; one microsecond more is finished (strict `>`) |
| Capture.CompletionMonotone | data_sync/data_sync.py:39-42 | a finished capture stays finished as the clock advances |
| Capture.FirstTagFile | data_sync/data_sync.py:26-31 | `None` exactly when no entry ends in `.txt`; otherwise the first such entry in listing order, which ends in `.txt` |
| Capture.TagFileName | data_sync/data_sync.py:26-31 | the early-return scan returns the first `.txt` entry |
| Capture.Classify | data_sync/data_sync.py:66-72 | definition of one capture's classification: not a folder raises, no `.txt` entry is untagged, an unreadable first tag file raises, otherwise critical exactly when the marker occurs; characterised by `Capture.ClassifyCharacterised` |
| Capture.ClassifyCharacterised | data_sync/data_sync.py:65-79 | critical exactly when the first tag file is readable and contains the marker; untagged exactly when no entry ends in `.txt`; raises exactly when the folder cannot be listed or its first tag file cannot be read |
| Lifecycle.CriticalFolderIsPlain | data_sync/data_sync.py:48 | `criticalData` has no `@`, so it is never taken for a capture |
| Lifecycle.Completed | data_sync/data_sync.py:44-50 | definition of `get_list_completed_raw` on a listing: the finished `@`-names in listing order, or the first exception; its properties are the `Completed…` lemmas |
| Lifecycle.CompletedExactly | data_sync/data_sync.py:44-50 | the finished list is a sub-sequence of the listing in listing order, holding exactly the names with an `@` that are finished |
| Lifecycle.CompletedDistinct | data_sync/data_sync.py:44-50 | a duplicate-free listing gives a duplicate-free finished list |
| Lifecycle.CompletedFailure | data_sync/data_sync.py:48 | the listing raises exactly when some name with an `@` has a timestamp that does not parse; the error is the first such name's ValueError, never an IndexError, because `and` short-circuits |
| Lifecycle.CompletedIgnoresPlainName | data_sync/data_sync.py:48 | a name without `@` never changes the finished list |
| Lifecycle.EnsureCriticalFolder | data_sync/data_sync.py:55-59 | definition of the `os.path.exists` test and `os.makedirs`: the listing gains `criticalData` only when it is absent |
| Lifecycle.Relocate | data_sync/data_sync.py:74-75 | definition of `shutil.move` into `criticalData`: the name leaves the car folder listing and is added under `criticalData` |
| Lifecycle.Relocations | data_sync/data_sync.py:65-79 | definition of the classification loop: in order, a critical capture is moved, any other left, and the first exception stops the loop with earlier moves kept |
| Lifecycle.EnsureCriticalFolderIdempotent | data_sync/data_sync.py:55-59 | the critical folder exists afterwards; an existing one is left unchanged; creating it twice is the same as once |
| Lifecycle.EnsureCriticalFolderWellFormed | data_sync/data_sync.py:55-56 | creating the folder keeps listings duplicate-free |
| Lifecycle.RelocationsFrame | data_sync/data_sync.py:65-79 | the classification loop never changes folder listings, file texts, the lock or the transfer trace |
| Lifecycle.RelocatedIffCritical | data_sync/data_sync.py:65-78 | with no exception, a capture goes under `criticalData` exactly when it is finished and critical; every other entry stays, in order |
| Lifecycle.RelocationsFault | data_sync/data_sync.py:65-79 | the loop raises exactly when some capture's classification raises; it stops at the first such capture, keeping the moves made before it |
| Lifecycle.RelocationsWellFormed | data_sync/data_sync.py:74-75 | the moves keep listings duplicate-free and keep the car folder and `criticalData` disjoint |
| Lifecycle.Copies | data_sync/data_sync.py:83-87 | definition of the `rsync` loop: one call per name, in order, from the name joined to the car folder |
| Lifecycle.WorkList | data_sync/data_sync.py:83 | definition of the work-list: the finished captures followed by `criticalData` |
| Lifecycle.CopiesAt | data_sync/data_sync.py:83-87 | one `rsync` call per work-list entry, in order, on the entry's path under the car folder |
| Lifecycle.WorkListCopies | data_sync/data_sync.py:83-84 | the calls are the finished captures in order, then `criticalData`: `|completed| + 1` calls in all |
| Lifecycle.Sync | data_sync/data_sync.py:53-87 | definition of `move_parent_folder_of_txt_to_critical`: create `criticalData`, list the finished captures, move the critical ones, then mirror the work-list; an exception ends the call early |
| Lifecycle.SyncListing | data_sync/data_sync.py:55-61 | creating `criticalData` first does not change the finished list |
| Lifecycle.SyncWellFormed | data_sync/data_sync.py:53-87 | a call keeps the disk well formed, leaves `criticalData` in place, and never changes folder listings, file texts or the lock |
| Lifecycle.SyncMovesOnlyCritical | data_sync/data_sync.py:61-79 | on every path, including one that raises midway: only finished critical captures of the car folder are moved; an entry that leaves the car folder is under `criticalData`; the entries that stay keep their listing order |
| Lifecycle.SyncMovesAllCritical | data_sync/data_sync.py:61-79 | a completed call moves every finished critical capture; every other entry stays where it was, in listing order |
| Lifecycle.SyncTransfers | data_sync/data_sync.py:83-87 | a completed call appends the calls for the finished list plus `criticalData`, each made whatever the previous one returned; a call that raised made none |
| Lifecycle.SyncMirrorsStalePaths | data_sync/data_sync.py:74-84 | a moved capture is gone from the car folder, yet `rsync` is still called on its old path there |
| Lifecycle.Run | data_sync/data_sync.py:112-143 | definition of `main`: leave if the lock is held; otherwise take it, run setup and the sync, and release it whatever happened |
| Lifecycle.RunBlocked | data_sync/data_sync.py:114-116 | when the lock file exists, `main` leaves, changing nothing and leaving the lock in place |
| Lifecycle.RunReleasesLock | data_sync/data_sync.py:118-143 | a run that takes the lock releases it on every path: the sync completes, a capture raises, or setup raises; the next run is not turned away |
| Lifecycle.RunWellFormed | data_sync/data_sync.py:112-143 | a run keeps the disk well formed |
| DataSync.Storage.ListCompleted | data_sync/data_sync.py:44-50 | the filtering loop returns the `Completed` list of the car folder, or the first exception |
| DataSync.Storage.EnsureCriticalFolder | data_sync/data_sync.py:55-59 | `os.makedirs` only when `criticalData` is absent |
| DataSync.Storage.MoveToCritical | data_sync/data_sync.py:74-75 | `shutil.move` takes the capture out of the car folder and puts it under `criticalData` |
| DataSync.Storage.Transfer | data_sync/data_sync.py:87 | one `rsync` call is appended to the trace, and nothing else changes |
| DataSync.Storage.ClassifyCapture | data_sync/data_sync.py:66-72 | listing the folder, picking its tag file, reading it and testing for the marker gives `Classify` |
| DataSync.Storage.RelocateCritical | data_sync/data_sync.py:65-79 | the classification loop leaves the disk and the exception that `Relocations` gives |
| DataSync.Storage.TransferAll | data_sync/data_sync.py:83-87 | the `rsync` loop appends the calls of the whole work-list and changes nothing else |
| DataSync.Storage.SyncCaptures | data_sync/data_sync.py:53-87 | `move_parent_folder_of_txt_to_critical` leaves the disk and outcome that `Sync` gives, and keeps the state well formed |
| DataSync.Storage.OtherProcessRunning | data_sync/data_sync.py:90-93 | true exactly when the lock file exists |
| DataSync.Storage.MarkRunning | data_sync/data_sync.py:95-97 | creates the lock file and changes nothing else |
| DataSync.Storage.MarkNotRunning | data_sync/data_sync.py:99-100 | deletes the lock file, and raises if it was already gone |
| DataSync.Storage.RunOnce | data_sync/data_sync.py:112-143 | `main` keeps the disk well formed and ends in the state and exit that `Run` gives |
| Scenarios.ScenarioCompleted | data_sync/data_sync.py:44-50 | of the four captures, the three older than seven minutes are listed in order; `criticalData` is skipped |
| Scenarios.ScenarioClassify | data_sync/data_sync.py:65-78 | the marked capture is critical; the one with a `false` annotation is normal; the one without a `.txt` is untagged |
| Scenarios.ScenarioSync | data_sync/data_sync.py:53-87 | only the critical capture moves, and the trace holds the calls for the three finished captures and `criticalData` |
| Scenarios.FourCaptureRun | data_sync/data_sync.py:112-143 | after one `main` the critical capture is under `criticalData`; the others keep their order; the young capture is neither moved nor mirrored; four `rsync` calls are made, the first on the moved capture's old path; the lock is free |

## Left out

- Logging and `print`: the log set-up and every `logging` and `print` call
  produce output only. That includes `logging.info` with extra arguments,
  whose formatting error `logging` reports and swallows.
- `rsync` itself is left out. Each call is a `Copy(from, to)` record in the
  trace. Its exit status is ignored, as `os.system`'s result is in the
  source.
- `datetime.strptime` with format `%Y%m%d_%H%M%S%f` is the parameter
  `parse`, not a real parser.
- `Capture.IsCompleted`: the source calls `datetime.now()` once per capture.
  The model reads a single clock value for the whole run, so a capture that
  crosses the seven-minute mark during the run is not modelled.
- Mount discovery (`get_car_data_folder`, the external-drive lookup and the
  `BlockBlob` `mkdir`) is left out. Its outcome enters `Run` and
  `DataSync.Storage.RunOnce` as `setup`: either the two paths, or the
  exception it raised (`SetupFailed`).
- `shutil.move` onto an existing `criticalData/<name>`: `WellFormed` keeps
  the car folder and `criticalData` disjoint, so such a move never arises.
  Moving into an existing folder (nesting) or raising are not modelled.
- `Lifecycle.EnsureCriticalFolder`: `os.makedirs` always succeeds in the
  model. A failure for permissions or I/O would raise inside the `try` and
  skip the rest of the call; the model does not capture that failure.
- `Lifecycle.Relocate`: `shutil.move` always succeeds in the model. A move
  that fails for permissions, I/O or a busy folder would abort the loop and
  every `rsync` call, like an unreadable tag file; the model does not capture
  that failure.
- `DataSync.Storage.MarkRunning`: creating the lock file always succeeds in
  the model. In the source that `open` runs before the `try`, so a failure
  would end `main` without the `finally`; the model does not capture that
  failure.
- `Lifecycle.EnsureCriticalFolder`: `os.listdir` order for a new folder is
  unspecified. The model puts `criticalData` at the end of the listing.
- A regular file named `criticalData` is not modelled. The model treats any
  entry of that name as the folder.
- Real concurrency is left out. The lock file is a flag in the state, and
  `main`'s check-then-create is one step.
- `sys.exit()` on a held lock is the exit value `AlreadyRunning`.
- Folder contents other than the tag file are not modelled. They only travel
  with `shutil.move` and `rsync`.
