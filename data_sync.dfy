/** The sync script acting in place on the machine's filesystem: the car
    folder, its capture folders, the `criticalData` folder, the lock file and
    the calls to the mirroring tool. Every method is proved to change the
    state exactly as the matching function of module Lifecycle says. */
module DataSync {
  import opened Wrappers
  import opened Text
  import opened Seqs
  import opened Capture
  import opened Lifecycle

  class Storage {
    /** Listing of the car folder, in `os.listdir` order. */
    var entries: seq<string>
    /** Listing of each folder, by folder name. */
    var files: map<string, seq<string>>
    /** Text of each readable file, by (folder name, file name). */
    var contents: map<(string, string), string>
    /** Names of the folders under `criticalData`. */
    var critical: set<string>
    /** Whether the lock file exists. */
    var lockExists: bool
    /** Every call of the mirroring tool so far, in order. */
    var transfers: seq<Copy>

    /** The state as a value. */
    function Snapshot(): Disk
      reads this
    {
      Disk(entries, files, contents, critical, lockExists, transfers)
    }

    ghost predicate Valid()
      reads this
    {
      WellFormed(Snapshot())
    }

    constructor (d: Disk)
      requires WellFormed(d)
      ensures Valid() && Snapshot() == d
    {
      entries, files, contents := d.entries, d.files, d.contents;
      critical, lockExists, transfers := d.critical, d.locked, d.transfers;
    }

    /** `get_list_completed_raw(car folder)`: the finished captures, in listing
        order, or the exception of the first timestamp that does not parse. */
    method ListCompleted(now: int, parse: Parser) returns (r: Result<seq<string>, Fault>)
      ensures r == Completed(entries, now, parse)
    {
      var done: seq<string> := [];
      var i := 0;
      while i < |entries|
        invariant 0 <= i <= |entries|
        invariant Completed(entries[..i], now, parse) == Success(done)
      {
        var name := entries[i];
        assert entries[..i + 1][..i] == entries[..i];
        if '@' in name {
          var finished := IsCompleted(name, now, parse);
          if finished.Failure? {
            CompletedPrefixFailure(entries, i + 1, now, parse);
            return Failure(finished.error);
          }
          if finished.value {
            done := done + [name];
          }
        }
        i := i + 1;
      }
      assert entries[..i] == entries;
      r := Success(done);
    }

    /** Create `criticalData` unless it exists. */
    method EnsureCriticalFolder()
      modifies this
      ensures Snapshot() == Lifecycle.EnsureCriticalFolder(old(Snapshot()))
    {
      if CriticalFolder !in entries {
        entries := entries + [CriticalFolder];
      }
    }

    /** `shutil.move` of a capture into `criticalData`: the capture must exist
        and the destination must not. */
    method MoveToCritical(name: string)
      requires name in entries && name !in critical
      modifies this
      ensures Snapshot() == Relocate(old(Snapshot()), name)
    {
      entries := Remove(entries, name);
      critical := critical + {name};
    }

    /** One call of the mirroring tool; its exit status is not looked at. */
    method Transfer(from: string, to: string)
      modifies this
      ensures transfers == old(transfers) + [Copy(from, to)]
      ensures entries == old(entries) && files == old(files) && contents == old(contents)
      ensures critical == old(critical) && lockExists == old(lockExists)
    {
      transfers := transfers + [Copy(from, to)];
    }

    /** The body of the first loop of `move_parent_folder_of_txt_to_critical`
        for one capture: list its folder, find the tag file, read it and look
        for the critical marker. */
    method ClassifyCapture(name: string) returns (r: Result<Tag, Fault>)
      ensures r == Classify(files, contents, name)
    {
      if name !in files {
        return Failure(NotAFolder(name));
      }
      var tag := TagFileName(files[name]);
      if tag.None? {
        return Success(Untagged);
      }
      if (name, tag.value) !in contents {
        return Failure(Unreadable(name, tag.value));
      }
      var content := contents[(name, tag.value)];
      r := if Contains(content, CriticalMarker) then Success(Critical) else Success(Normal);
    }

    /** The first loop of `move_parent_folder_of_txt_to_critical`: classify
        each completed capture in order and move the critical ones into
        `criticalData`, stopping at the first exception. */
    method RelocateCritical(done: seq<string>) returns (fault: Option<Fault>)
      requires Distinct(done)
      requires forall k :: 0 <= k < |done| ==> done[k] in entries && done[k] !in critical
      modifies this
      ensures Triage(Snapshot(), fault) == Relocations(old(Snapshot()), done)
    {
      ghost var d0 := Snapshot();
      var i := 0;
      while i < |done|
        invariant 0 <= i <= |done|
        invariant Relocations(d0, done[..i]) == Triage(Snapshot(), None)
        invariant files == d0.files && contents == d0.contents
        invariant forall k :: i <= k < |done| ==> done[k] in entries && done[k] !in critical
      {
        var name := done[i];
        RelocationsNext(d0, done, i);
        var tag := ClassifyCapture(name);
        if tag.Failure? {
          RelocationsFaultPersists(d0, done, i + 1);
          return Some(tag.error);
        }
        if tag.value == Critical {
          MoveToCritical(name);
        }
        i := i + 1;
      }
      assert done[..i] == done;
      fault := None;
    }

    /** The second loop of `move_parent_folder_of_txt_to_critical`: one
        mirroring call per work-list entry, each made whatever the previous one
        returned. */
    method TransferAll(source: string, dst: string, work: seq<string>)
      modifies this
      ensures transfers == old(transfers) + Copies(source, dst, work)
      ensures entries == old(entries) && files == old(files) && contents == old(contents)
      ensures critical == old(critical) && lockExists == old(lockExists)
    {
      var j := 0;
      while j < |work|
        invariant 0 <= j <= |work|
        invariant transfers == old(transfers) + Copies(source, dst, work[..j])
        invariant entries == old(entries) && files == old(files) && contents == old(contents)
        invariant critical == old(critical) && lockExists == old(lockExists)
      {
        assert work[..j + 1][..j] == work[..j];
        Transfer(PathJoin(source, work[j]), dst);
        j := j + 1;
      }
      assert work[..j] == work;
    }

    /** `move_parent_folder_of_txt_to_critical(source, source/criticalData, dst)`. */
    method SyncCaptures(source: string, dst: string, now: int, parse: Parser)
      returns (outcome: Outcome<Fault>)
      requires Valid()
      modifies this
      ensures Snapshot() == Sync(old(Snapshot()), source, dst, now, parse).disk
      ensures outcome == Sync(old(Snapshot()), source, dst, now, parse).outcome
      ensures Valid()
    {
      ghost var d := Snapshot();
      assert WellFormed(Sync(d, source, dst, now, parse).disk) by {
        SyncWellFormed(d, source, dst, now, parse);
      }
      EnsureCriticalFolder();
      var listed := ListCompleted(now, parse);
      if listed.Failure? {
        return Fail(listed.error);
      }
      var done := listed.value;
      assert Distinct(done) && forall k :: 0 <= k < |done| ==> done[k] in entries && done[k] !in critical by {
        EnsureCriticalFolderWellFormed(d);
        CompletedExactly(entries, now, parse);
        CompletedDistinct(entries, now, parse);
        assert forall k :: 0 <= k < |done| ==> done[k] in done;
      }
      var fault := RelocateCritical(done);
      if fault.Some? {
        return Fail(fault.value);
      }
      ghost var moved := Snapshot();
      TransferAll(source, dst, WorkList(done));
      assert Snapshot() == moved.(transfers := moved.transfers + Copies(source, dst, WorkList(done)));
      outcome := Pass;
    }

    /** `other_process_running()`: whether the lock file exists. */
    method OtherProcessRunning() returns (running: bool)
      ensures running <==> lockExists
    {
      running := lockExists;
    }

    /** `mark_there_is_running_process()`: create the lock file. */
    method MarkRunning()
      modifies this
      ensures Snapshot() == old(Snapshot()).(locked := true)
    {
      lockExists := true;
    }

    /** `mark_there_is_no_process_running()`: delete the lock file;
        `os.remove` raises when it is already gone. */
    method MarkNotRunning() returns (outcome: Outcome<Fault>)
      modifies this
      ensures Snapshot() == old(Snapshot()).(locked := false)
      ensures outcome == if old(lockExists) then Pass else Fail(LockMissing)
    {
      outcome := if lockExists then Pass else Fail(LockMissing);
      lockExists := false;
    }

    /** `main()`: leave at once when another run holds the lock; otherwise
        take it, run the sync inside `try`, and release it in `finally`.
        `setup` is what mount discovery produced, or the exception it raised. */
    method RunOnce(setup: Result<Paths, Fault>, now: int, parse: Parser) returns (exit: Exit)
      requires Valid()
      modifies this
      ensures Valid()
      ensures Snapshot() == Run(old(Snapshot()), setup, now, parse).disk
      ensures exit == Run(old(Snapshot()), setup, now, parse).exit
    {
      RunWellFormed(Snapshot(), setup, now, parse);
      var running := OtherProcessRunning();
      if running {
        return AlreadyRunning;
      }
      MarkRunning();
      var outcome: Outcome<Fault>;
      match setup {
        case Failure(f) =>
          outcome := Fail(f);
        case Success(paths) =>
          SyncWellFormed(Snapshot(), paths.source, paths.destination, now, parse);
          outcome := SyncCaptures(paths.source, paths.destination, now, parse);
      }
      // finally:
      var released := MarkNotRunning();
      assert released == Pass;
      exit := Finished(outcome);
    }
  }
}
