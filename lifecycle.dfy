/** The capture lifecycle of one sync run, stated on values: which captures of
    the car folder are finished (`get_list_completed_raw`), the relocation of
    critical ones into `criticalData` and the transfer work-list
    (`move_parent_folder_of_txt_to_critical`), and the lock around it all
    (`main`). The class in module DataSync performs these steps in place and is
    proved to agree with the functions here. */
module Lifecycle {
  import opened Wrappers
  import opened Text
  import opened Seqs
  import opened Capture

  /** The folder, under the car folder, that critical captures are moved into. */
  const CriticalFolder: string := "criticalData"

  /** The critical folder's name has no `@`, so it is never taken for a capture. */
  lemma CriticalFolderIsPlain()
    ensures '@' !in CriticalFolder
  {
    assert forall i :: 0 <= i < |CriticalFolder| ==> CriticalFolder[i] != '@';
  }

  /** One invocation of the external mirroring tool: `rsync … from to`. */
  datatype Copy = Copy(from: string, to: string)

  /** What the sync script can see and change of the machine:
      - `entries`: the listing of the car folder, in `os.listdir` order;
      - `files`: the listing of each folder among them;
      - `contents`: the text of every readable file, by (folder, file name);
      - `critical`: the names of the folders under `criticalData`;
      - `locked`: whether the lock file exists;
      - `transfers`: every mirroring call made so far, in order. */
  datatype Disk = Disk(
    entries: seq<string>,
    files: map<string, seq<string>>,
    contents: map<(string, string), string>,
    critical: set<string>,
    locked: bool,
    transfers: seq<Copy>)

  /** A directory listing never repeats a name; a capture is either in the car
      folder or under `criticalData`, never both (so a move never lands on an
      existing folder); and nothing is under `criticalData` before it exists. */
  ghost predicate WellFormed(d: Disk)
  {
    Distinct(d.entries) &&
    (forall n :: n in d.critical ==> n !in d.entries) &&
    (CriticalFolder !in d.entries ==> d.critical == {})
  }

  // ---------------------------------------------------------------------------
  // get_list_completed_raw

  /** The finished captures among `names`, in listing order; a name without `@`
      is skipped before its timestamp is looked at, and the first timestamp
      that does not parse aborts the listing. */
  function Completed(names: seq<string>, now: int, parse: Parser): Result<seq<string>, Fault>
    decreases |names|
  {
    if |names| == 0 then Success([])
    else
      match Completed(names[..|names| - 1], now, parse)
      case Failure(f) => Failure(f)
      case Success(done) =>
        var name := names[|names| - 1];
        if '@' !in name then Success(done)
        else
          match IsCompleted(name, now, parse)
          case Failure(f) => Failure(f)
          case Success(finished) => Success(if finished then done + [name] else done)
  }

  /** Once a prefix of the listing has raised, the whole listing raises the same. */
  lemma {:induction false} CompletedPrefixFailure(names: seq<string>, k: nat, now: int, parse: Parser)
    requires k <= |names|
    requires Completed(names[..k], now, parse).Failure?
    ensures Completed(names, now, parse) == Completed(names[..k], now, parse)
    decreases |names| - k
  {
    if k < |names| {
      assert names[..k + 1][..k] == names[..k];
      CompletedPrefixFailure(names, k + 1, now, parse);
    } else {
      assert names[..k] == names;
    }
  }

  /** The completed list is a sub-sequence of the listing, in listing order, and
      holds exactly the names that have an `@` and are older than seven minutes. */
  lemma {:induction false} CompletedExactly(names: seq<string>, now: int, parse: Parser)
    requires Completed(names, now, parse).Success?
    ensures Subseq(Completed(names, now, parse).value, names)
    ensures forall n :: n in Completed(names, now, parse).value <==>
                        n in names && '@' in n && IsCompleted(n, now, parse) == Success(true)
    decreases |names|
  {
    if |names| > 0 {
      var init, last := names[..|names| - 1], names[|names| - 1];
      assert names == init + [last];
      CompletedExactly(init, now, parse);
      SubseqSnoc(Completed(init, now, parse).value, init, last);
    }
  }

  /** Duplicate-free listings give duplicate-free completed lists. */
  lemma CompletedDistinct(names: seq<string>, now: int, parse: Parser)
    requires Distinct(names) && Completed(names, now, parse).Success?
    ensures Distinct(Completed(names, now, parse).value)
  {
    CompletedExactly(names, now, parse);
    SubseqDistinct(Completed(names, now, parse).value, names);
  }

  /** The listing raises exactly when some name with an `@` has a timestamp that
      does not parse, and then with the first such name's ValueError: the
      `'@' in name and …` test never evaluates `split('@')[1]` on a name
      without `@`, so IndexError cannot occur. */
  lemma {:induction false} CompletedFailure(names: seq<string>, now: int, parse: Parser)
    ensures Completed(names, now, parse).Failure? <==>
              exists k :: 0 <= k < |names| && '@' in names[k] && IsCompleted(names[k], now, parse).Failure?
    ensures Completed(names, now, parse).Failure? ==>
              exists k :: 0 <= k < |names| && '@' in names[k] &&
                          IsCompleted(names[k], now, parse).Failure? &&
                          Completed(names, now, parse).error == IsCompleted(names[k], now, parse).error &&
                          Completed(names, now, parse).error.BadTimestamp? &&
                          forall j :: 0 <= j < k ==> '@' !in names[j] || IsCompleted(names[j], now, parse).Success?
    decreases |names|
  {
    if |names| > 0 {
      var init := names[..|names| - 1];
      CompletedFailure(init, now, parse);
      assert forall k :: 0 <= k < |init| ==> init[k] == names[k];
    }
  }

  /** A name without `@`, such as `criticalData`, never changes the completed list. */
  lemma CompletedIgnoresPlainName(names: seq<string>, plain: string, now: int, parse: Parser)
    requires '@' !in plain
    ensures Completed(names + [plain], now, parse) == Completed(names, now, parse)
  {
    assert (names + [plain])[..|names|] == names;
  }

  // ---------------------------------------------------------------------------
  // move_parent_folder_of_txt_to_critical

  /** `os.makedirs(critical folder)` when it does not exist yet; a new folder
      shows up in the car folder's listing (here, at its end). */
  function EnsureCriticalFolder(d: Disk): Disk
  {
    if CriticalFolder in d.entries then d
    else d.(entries := d.entries + [CriticalFolder])
  }

  /** Creating the critical folder is idempotent: it exists afterwards, an
      existing one is left as it was, and a second creation changes nothing. */
  lemma EnsureCriticalFolderIdempotent(d: Disk)
    ensures CriticalFolder in EnsureCriticalFolder(d).entries
    ensures CriticalFolder in d.entries ==> EnsureCriticalFolder(d) == d
    ensures EnsureCriticalFolder(EnsureCriticalFolder(d)) == EnsureCriticalFolder(d)
    ensures EnsureCriticalFolder(d).critical == d.critical
  {
  }

  /** Creating the critical folder keeps the disk well formed. */
  lemma EnsureCriticalFolderWellFormed(d: Disk)
    requires WellFormed(d)
    ensures WellFormed(EnsureCriticalFolder(d))
  {
    if CriticalFolder !in d.entries {
      var e := d.entries + [CriticalFolder];
      forall i, j | 0 <= i < j < |e| ensures e[i] != e[j] {
        if j == |d.entries| { assert e[i] in d.entries; }
      }
    }
  }

  /** `shutil.move(car folder/name, criticalData/name)`. */
  function Relocate(d: Disk, name: string): Disk
  {
    d.(entries := Remove(d.entries, name), critical := d.critical + {name})
  }

  /** The disk after classifying some captures, and the exception that stopped
      the classification loop, if any. */
  datatype Triage = Triage(disk: Disk, fault: Option<Fault>)

  /** The classification loop over the completed captures `done`, in order:
      a critical capture is moved, any other is left in place, and the first
      exception ends the loop with the moves made so far kept. */
  function Relocations(d: Disk, done: seq<string>): Triage
    decreases |done|
  {
    if |done| == 0 then Triage(d, None)
    else
      var t := Relocations(d, done[..|done| - 1]);
      if t.fault.Some? then t
      else
        var name := done[|done| - 1];
        match Classify(t.disk.files, t.disk.contents, name)
        case Failure(f) => Triage(t.disk, Some(f))
        case Success(tag) => if tag == Critical then Triage(Relocate(t.disk, name), None) else t
  }

  /** Once the loop has raised, later captures are not looked at. */
  lemma {:induction false} RelocationsFaultPersists(d: Disk, done: seq<string>, k: nat)
    requires k <= |done| && Relocations(d, done[..k]).fault.Some?
    ensures Relocations(d, done) == Relocations(d, done[..k])
    decreases |done| - k
  {
    if k < |done| {
      assert done[..k + 1][..k] == done[..k];
      RelocationsFaultPersists(d, done, k + 1);
    } else {
      assert done[..k] == done;
    }
  }

  /** Moves change only where folders are: listings of folders, file contents,
      the lock and the transfer trace stay as they were. */
  lemma {:induction false} RelocationsFrame(d: Disk, done: seq<string>)
    ensures var d' := Relocations(d, done).disk;
            d'.files == d.files && d'.contents == d.contents &&
            d'.locked == d.locked && d'.transfers == d.transfers
    decreases |done|
  {
    if |done| > 0 {
      RelocationsFrame(d, done[..|done| - 1]);
    }
  }

  /** One more turn of the classification loop, read off the disk the loop
      started from (classification never changes folder listings or files). */
  lemma RelocationsNext(d: Disk, done: seq<string>, i: int)
    requires 0 <= i < |done| && Relocations(d, done[..i]).fault.None?
    ensures var t := Relocations(d, done[..i]);
            Relocations(d, done[..i + 1]) ==
              match Classify(d.files, d.contents, done[i])
              case Failure(f) => Triage(t.disk, Some(f))
              case Success(tag) => if tag == Critical then Triage(Relocate(t.disk, done[i]), None) else t
  {
    assert done[..i + 1][..i] == done[..i];
    RelocationsFrame(d, done[..i]);
  }

  /** A capture whose classification is critical. */
  ghost predicate IsCriticalCapture(d: Disk, name: string)
  {
    Classify(d.files, d.contents, name) == Success(Critical)
  }

  /** When no exception occurs, exactly the critical captures among `done` leave
      the car folder and appear under `criticalData`; every other name keeps its
      place, and the listing keeps its order. */
  lemma {:induction false} RelocatedIffCritical(d: Disk, done: seq<string>)
    requires Relocations(d, done).fault.None?
    ensures var d' := Relocations(d, done).disk;
            Subseq(d'.entries, d.entries) &&
            (forall n :: n in d'.critical <==> n in d.critical || (n in done && IsCriticalCapture(d, n))) &&
            (forall n :: n in d'.entries <==> n in d.entries && !(n in done && IsCriticalCapture(d, n)))
    decreases |done|
  {
    if |done| == 0 {
      SubseqRefl(d.entries);
    } else {
      var init, last := done[..|done| - 1], done[|done| - 1];
      assert done == init + [last];
      RelocatedIffCritical(d, init);
      RelocationsFrame(d, init);
      var d1 := Relocations(d, init).disk;
      if IsCriticalCapture(d, last) {
        SubseqTrans(Remove(d1.entries, last), d1.entries, d.entries);
      }
    }
  }

  /** The loop stops at the first capture whose classification raises; the disk
      is then what classifying the captures before it gave. */
  lemma {:induction false} RelocationsFault(d: Disk, done: seq<string>)
    ensures Relocations(d, done).fault.Some? <==>
              exists k :: 0 <= k < |done| && Classify(d.files, d.contents, done[k]).Failure?
    ensures Relocations(d, done).fault.Some? ==>
              exists k :: 0 <= k < |done| &&
                          Classify(d.files, d.contents, done[k]) == Failure(Relocations(d, done).fault.value) &&
                          (forall j :: 0 <= j < k ==> Classify(d.files, d.contents, done[j]).Success?) &&
                          Relocations(d, done[..k]) == Triage(Relocations(d, done).disk, None)
    decreases |done|
  {
    if |done| > 0 {
      var init := done[..|done| - 1];
      RelocationsFault(d, init);
      RelocationsFrame(d, init);
      assert forall k :: 0 <= k < |init| ==> init[k] == done[k];
      assert forall k :: 0 <= k <= |init| ==> init[..k] == done[..k];
      assert done[..|init|] == init;
    }
  }

  /** Relocating completed captures, all of them in the car folder and none of
      them the critical folder itself, keeps the disk well formed. */
  lemma {:induction false} RelocationsWellFormed(d: Disk, done: seq<string>)
    requires WellFormed(d) && CriticalFolder in d.entries
    requires CriticalFolder !in done
    ensures WellFormed(Relocations(d, done).disk)
    ensures CriticalFolder in Relocations(d, done).disk.entries
    decreases |done|
  {
    if |done| > 0 {
      var init, last := done[..|done| - 1], done[|done| - 1];
      assert last in done;
      assert CriticalFolder !in init by { assert forall x :: x in init ==> x in done; }
      RelocationsWellFormed(d, init);
      var d1 := Relocations(d, init).disk;
      SubseqDistinct(Remove(d1.entries, last), d1.entries);
    }
  }

  /** The paths handed to the mirroring tool for `names`, in order. */
  function Copies(source: string, dst: string, names: seq<string>): seq<Copy>
    decreases |names|
  {
    if |names| == 0 then []
    else Copies(source, dst, names[..|names| - 1]) + [Copy(PathJoin(source, names[|names| - 1]), dst)]
  }

  /** One mirroring call per name, in order, with the name's path under `source`. */
  lemma {:induction false} CopiesAt(source: string, dst: string, names: seq<string>)
    ensures |Copies(source, dst, names)| == |names|
    ensures forall i :: 0 <= i < |names| ==> Copies(source, dst, names)[i] == Copy(PathJoin(source, names[i]), dst)
    decreases |names|
  {
    if |names| > 0 {
      CopiesAt(source, dst, names[..|names| - 1]);
    }
  }

  /** The transfer work-list: every completed capture, then the critical folder. */
  function WorkList(done: seq<string>): seq<string>
  {
    done + [CriticalFolder]
  }

  /** The result of one call of `move_parent_folder_of_txt_to_critical`. */
  datatype Step = Step(disk: Disk, outcome: Outcome<Fault>)

  /** `move_parent_folder_of_txt_to_critical(source, source/criticalData, dst)`:
      create the critical folder, list the finished captures, move the critical
      ones, then mirror every completed capture (by its original path, even when
      it was moved) and the critical folder. Each mirroring call is made
      whatever the previous one returned. An exception ends the call early. */
  function Sync(d: Disk, source: string, dst: string, now: int, parse: Parser): Step
  {
    var d1 := EnsureCriticalFolder(d);
    match Completed(d1.entries, now, parse)
    case Failure(f) => Step(d1, Fail(f))
    case Success(done) =>
      var t := Relocations(d1, done);
      if t.fault.Some? then Step(t.disk, Fail(t.fault.value))
      else Step(t.disk.(transfers := t.disk.transfers + Copies(source, dst, WorkList(done))), Pass)
  }

  /** The completed list that `Sync` works on is the one of the car folder as
      it was before the critical folder was created. */
  lemma SyncListing(d: Disk, now: int, parse: Parser)
    ensures Completed(EnsureCriticalFolder(d).entries, now, parse) == Completed(d.entries, now, parse)
  {
    if CriticalFolder !in d.entries {
      CriticalFolderIsPlain();
      CompletedIgnoresPlainName(d.entries, CriticalFolder, now, parse);
    }
  }

  /** A sync call keeps the disk well formed, leaves the critical folder in
      place, and never touches folder listings, file contents or the lock. */
  lemma SyncWellFormed(d: Disk, source: string, dst: string, now: int, parse: Parser)
    requires WellFormed(d)
    ensures var d' := Sync(d, source, dst, now, parse).disk;
            WellFormed(d') && CriticalFolder in d'.entries &&
            d'.files == d.files && d'.contents == d.contents && d'.locked == d.locked
  {
    var d1 := EnsureCriticalFolder(d);
    EnsureCriticalFolderWellFormed(d);
    match Completed(d1.entries, now, parse)
    case Failure(f) =>
      assert Sync(d, source, dst, now, parse).disk == d1;
    case Success(done) =>
      CompletedExactly(d1.entries, now, parse);
      CriticalFolderIsPlain();
      assert CriticalFolder !in done;
      RelocationsWellFormed(d1, done);
      RelocationsFrame(d1, done);
      var t := Relocations(d1, done);
      var d2 := if t.fault.Some? then t.disk
                else t.disk.(transfers := t.disk.transfers + Copies(source, dst, WorkList(done)));
      assert Sync(d, source, dst, now, parse).disk == d2;
  }

  /** Only finished, critical captures of the car folder are ever moved, on
      every path, also when an exception ends the call midway; an entry that
      leaves the car folder is found under `criticalData`, and the entries that
      stay keep their listing order. */
  lemma SyncMovesOnlyCritical(d: Disk, source: string, dst: string, now: int, parse: Parser)
    ensures var d' := Sync(d, source, dst, now, parse).disk;
            forall n :: n in d'.critical && n !in d.critical ==>
              n in d.entries && '@' in n && IsCompleted(n, now, parse) == Success(true) &&
              IsCriticalCapture(d, n)
    ensures var d' := Sync(d, source, dst, now, parse).disk;
            forall n :: n in d.entries && n !in d'.entries ==> n in d'.critical
    ensures Subseq(Sync(d, source, dst, now, parse).disk.entries, EnsureCriticalFolder(d).entries)
  {
    var d1 := EnsureCriticalFolder(d);
    assert forall n :: n in d.entries ==> n in d1.entries;
    SyncListing(d, now, parse);
    CriticalFolderIsPlain();
    match Completed(d1.entries, now, parse)
    case Failure(f) =>
      assert Sync(d, source, dst, now, parse).disk == d1;
      SubseqRefl(d1.entries);
    case Success(done) =>
      CompletedExactly(d1.entries, now, parse);
      var t := Relocations(d1, done);
      var d2 := if t.fault.Some? then t.disk
                else t.disk.(transfers := t.disk.transfers + Copies(source, dst, WorkList(done)));
      assert Sync(d, source, dst, now, parse).disk == d2;
      if t.fault.None? {
        RelocatedIffCritical(d1, done);
      } else {
        var k :| 0 <= k < |done| &&
                 Classify(d1.files, d1.contents, done[k]) == Failure(t.fault.value) &&
                 (forall j :: 0 <= j < k ==> Classify(d1.files, d1.contents, done[j]).Success?) &&
                 Relocations(d1, done[..k]) == Triage(t.disk, None) by {
          RelocationsFault(d1, done);
        }
        RelocatedIffCritical(d1, done[..k]);
        assert forall n :: n in done[..k] ==> n in done;
      }
  }

  /** When the call completes, every finished critical capture has left the car
      folder for `criticalData`, and every other entry is where it was, in the
      same listing order, with the critical folder among them. */
  lemma SyncMovesAllCritical(d: Disk, source: string, dst: string, now: int, parse: Parser)
    ensures var s := Sync(d, source, dst, now, parse);
            s.outcome.Pass? ==>
              Completed(d.entries, now, parse).Success? &&
              var done := Completed(d.entries, now, parse).value;
              (forall n :: n in s.disk.critical <==> n in d.critical || (n in done && IsCriticalCapture(d, n))) &&
              (forall n :: n in s.disk.entries <==>
                 (n in d.entries || n == CriticalFolder) && !(n in done && IsCriticalCapture(d, n))) &&
              Subseq(s.disk.entries, EnsureCriticalFolder(d).entries)
  {
    if Sync(d, source, dst, now, parse).outcome.Pass? {
      SyncPassed(d, source, dst, now, parse);
      SyncListing(d, now, parse);
      var d1 := EnsureCriticalFolder(d);
      var done := Completed(d1.entries, now, parse).value;
      assert CriticalFolder !in done by {
        CompletedExactly(d1.entries, now, parse);
        CriticalFolderIsPlain();
      }
      RelocatedIffCritical(d1, done);
      assert forall n :: IsCriticalCapture(d1, n) == IsCriticalCapture(d, n) by {
        assert d1.files == d.files && d1.contents == d.contents;
      }
    }
  }

  /** A call that completes went through every stage without an exception. */
  lemma SyncPassed(d: Disk, source: string, dst: string, now: int, parse: Parser)
    requires Sync(d, source, dst, now, parse).outcome.Pass?
    ensures var d1 := EnsureCriticalFolder(d);
            Completed(d1.entries, now, parse).Success? &&
            var done := Completed(d1.entries, now, parse).value;
            var t := Relocations(d1, done);
            t.fault.None? &&
            Sync(d, source, dst, now, parse).disk ==
              t.disk.(transfers := t.disk.transfers + Copies(source, dst, WorkList(done)))
  {
  }

  /** The mirroring calls for a work-list: one per completed capture, in
      order, with the capture's path under the car folder, then one for the
      critical folder, `|done| + 1` in all. */
  lemma WorkListCopies(source: string, dst: string, done: seq<string>)
    ensures var cs := Copies(source, dst, WorkList(done));
            |cs| == |done| + 1 &&
            (forall i :: 0 <= i < |done| ==> cs[i] == Copy(PathJoin(source, done[i]), dst)) &&
            cs[|done|] == Copy(PathJoin(source, CriticalFolder), dst)
  {
    var work := WorkList(done);
    CopiesAt(source, dst, work);
    assert forall i :: 0 <= i < |done| ==> work[i] == done[i];
    assert work[|done|] == CriticalFolder;
  }

  /** When the call completes, the mirroring calls of the work-list of the
      completed captures have been appended to the trace, each one whatever
      the previous one returned; when an exception ends the call, none has
      been made. */
  lemma SyncTransfers(d: Disk, source: string, dst: string, now: int, parse: Parser)
    ensures var s := Sync(d, source, dst, now, parse);
            s.outcome.Pass? ==>
              Completed(d.entries, now, parse).Success? &&
              s.disk.transfers ==
                d.transfers + Copies(source, dst, WorkList(Completed(d.entries, now, parse).value))
    ensures var s := Sync(d, source, dst, now, parse);
            s.outcome.Fail? ==> s.disk.transfers == d.transfers
  {
    var d1 := EnsureCriticalFolder(d);
    SyncListing(d, now, parse);
    match Completed(d1.entries, now, parse)
    case Failure(f) =>
    case Success(done) =>
      RelocationsFrame(d1, done);
  }

  /** A capture moved into `criticalData` is still mirrored by its old path in
      the car folder, which no longer exists after the move. */
  lemma SyncMirrorsStalePaths(d: Disk, source: string, dst: string, now: int, parse: Parser, n: string)
    requires WellFormed(d)
    requires Sync(d, source, dst, now, parse).outcome.Pass?
    requires n in Sync(d, source, dst, now, parse).disk.critical && n !in d.critical
    ensures n !in Sync(d, source, dst, now, parse).disk.entries
    ensures Copy(PathJoin(source, n), dst) in Sync(d, source, dst, now, parse).disk.transfers
  {
    SyncMovesAllCritical(d, source, dst, now, parse);
    SyncTransfers(d, source, dst, now, parse);
    SyncWellFormed(d, source, dst, now, parse);
    var done := Completed(d.entries, now, parse).value;
    WorkListCopies(source, dst, done);
    var i :| 0 <= i < |done| && done[i] == n;
    var s := Sync(d, source, dst, now, parse);
    assert s.disk.transfers[|d.transfers| + i] == Copy(PathJoin(source, n), dst);
  }

  // ---------------------------------------------------------------------------
  // main

  /** Where the script found the car folder and the external drive. */
  datatype Paths = Paths(source: string, destination: string)

  /** How `main` ended: at once, because the lock was held, or after a run
      whose exception (if any) was caught and logged. */
  datatype Exit = AlreadyRunning | Finished(outcome: Outcome<Fault>)

  datatype RunResult = RunResult(disk: Disk, exit: Exit)

  /** `main`: leave at once if the lock file exists; otherwise create it, run
      the sync inside `try` and delete the lock file in `finally`. `setup` is
      the outcome of mount discovery, which may itself raise. */
  function Run(d: Disk, setup: Result<Paths, Fault>, now: int, parse: Parser): RunResult
  {
    if d.locked then RunResult(d, AlreadyRunning)
    else
      var held := d.(locked := true);
      var s := match setup
               case Failure(f) => Step(held, Fail(f))
               case Success(p) => Sync(held, p.source, p.destination, now, parse);
      RunResult(s.disk.(locked := false), Finished(s.outcome))
  }

  /** A run that finds the lock held changes nothing, the lock included. */
  lemma RunBlocked(d: Disk, setup: Result<Paths, Fault>, now: int, parse: Parser)
    requires d.locked
    ensures Run(d, setup, now, parse) == RunResult(d, AlreadyRunning)
  {
  }

  /** A run that takes the lock gives it back on every path, whether the sync
      completes, a capture raises midway, or setup raises, and a run right
      after it is not turned away. */
  lemma RunReleasesLock(d: Disk, setup: Result<Paths, Fault>, now: int, parse: Parser,
                        setup2: Result<Paths, Fault>, now2: int)
    requires !d.locked
    ensures Run(d, setup, now, parse).exit.Finished?
    ensures !Run(d, setup, now, parse).disk.locked
    ensures Run(Run(d, setup, now, parse).disk, setup2, now2, parse).exit.Finished?
  {
  }

  /** A run keeps the disk well formed. */
  lemma RunWellFormed(d: Disk, setup: Result<Paths, Fault>, now: int, parse: Parser)
    requires WellFormed(d)
    ensures WellFormed(Run(d, setup, now, parse).disk)
  {
    if !d.locked && setup.Success? {
      SyncWellFormed(d.(locked := true), setup.value.source, setup.value.destination, now, parse);
    }
  }
}
