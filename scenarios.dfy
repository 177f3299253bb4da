/** One whole run of `main` on a car folder holding four captures: one
    finished and tagged critical, one finished and tagged normal, one only a
    minute old, and one finished without a tag file. */
module Scenarios {
  import opened Wrappers
  import opened Text
  import opened Seqs
  import opened Capture
  import opened Lifecycle

  const TagName: string := "tag.txt"
  const NormalTag: string := "[TAG],manual_annotation.Actuation_1,2,false"

  function ScenarioDisk(crit: string, normal: string, young: string, untagged: string): Disk
  {
    Disk([crit, normal, young, untagged],
         map[crit := [TagName], normal := ["data.bin", TagName], young := [TagName], untagged := ["data.bin"]],
         map[(crit, TagName) := "[INFO] " + CriticalMarker, (normal, TagName) := NormalTag],
         {}, false, [])
  }

  lemma TagNames()
    ensures EndsWith(TagName, TagSuffix) && !EndsWith("data.bin", TagSuffix)
  {
    assert TagName[|TagName| - 4..] == TagSuffix;
    assert "data.bin"[4..][1] != TagSuffix[1];
  }

  lemma MarkerSearch()
    ensures Contains("[INFO] " + CriticalMarker, CriticalMarker)
    ensures !Contains(NormalTag, CriticalMarker)
  {
    var s := "[INFO] " + CriticalMarker;
    assert OccursAt(s, CriticalMarker, 7) by {
      assert s[7..7 + |CriticalMarker|] == CriticalMarker;
    }
    forall i ensures !OccursAt(NormalTag, CriticalMarker, i) {
      if 0 <= i && i + |CriticalMarker| <= |NormalTag| {
        assert i == 0 || i == 1;
        if i == 0 {
          assert NormalTag[i..i + |CriticalMarker|][38] != CriticalMarker[38];
        } else {
          assert NormalTag[1] == 'T' && CriticalMarker[0] == '[';
          assert NormalTag[i..i + |CriticalMarker|][0] != CriticalMarker[0];
        }
      }
    }
  }

  /** The captures that `get_list_completed_raw` reports: the three older than
      seven minutes, in listing order; the critical folder is skipped. */
  lemma ScenarioCompleted(crit: string, normal: string, young: string, untagged: string,
                          now: int, parse: Parser)
    requires '@' in crit && '@' in normal && '@' in young && '@' in untagged
    requires IsCompleted(crit, now, parse) == Success(true)
    requires IsCompleted(normal, now, parse) == Success(true)
    requires IsCompleted(young, now, parse) == Success(false)
    requires IsCompleted(untagged, now, parse) == Success(true)
    ensures Completed([crit, normal, young, untagged, CriticalFolder], now, parse) ==
            Success([crit, normal, untagged])
  {
    CriticalFolderIsPlain();
    var names := [crit, normal, young, untagged, CriticalFolder];
    var p1, p2, p3, p4 := [crit], [crit, normal], [crit, normal, young], [crit, normal, young, untagged];
    assert p1[..0] == [] && p2[..1] == p1 && p3[..2] == p2 && p4[..3] == p3 && names[..4] == p4;
    var none: seq<string> := [];
    assert none + [crit] == p1 && p1 + [normal] == p2 && p2 + [untagged] == [crit, normal, untagged];
    assert Completed(p1, now, parse) == Success([crit]);
    assert Completed(p2, now, parse) == Success([crit, normal]);
    assert Completed(p3, now, parse) == Success([crit, normal]);
    assert Completed(p4, now, parse) == Success([crit, normal, untagged]);
  }

  /** How each finished capture of the scenario is classified. */
  lemma ScenarioClassify(crit: string, normal: string, young: string, untagged: string)
    requires crit != normal && crit != young && crit != untagged
    requires normal != young && normal != untagged && young != untagged
    ensures var d := ScenarioDisk(crit, normal, young, untagged);
            Classify(d.files, d.contents, crit) == Success(Critical) &&
            Classify(d.files, d.contents, normal) == Success(Normal) &&
            Classify(d.files, d.contents, untagged) == Success(Untagged)
  {
    var d := ScenarioDisk(crit, normal, young, untagged);
    TagNames();
    MarkerSearch();
    assert FirstTagFile([TagName]) == Some(TagName);
    assert FirstTagFile(["data.bin", TagName]) == Some(TagName) by {
      assert ["data.bin", TagName][1..] == [TagName];
    }
    assert FirstTagFile(["data.bin"]) == None;
    ClassifyAs(d.files, d.contents, crit, [TagName], "[INFO] " + CriticalMarker);
    ClassifyAs(d.files, d.contents, normal, ["data.bin", TagName], NormalTag);
    assert d.files[untagged] == ["data.bin"];
  }

  /** Classification of a folder whose first tag file is `tag.txt`. */
  lemma ClassifyAs(files: map<string, seq<string>>, contents: map<(string, string), string>,
                   name: string, listing: seq<string>, text: string)
    requires name in files && files[name] == listing && FirstTagFile(listing) == Some(TagName)
    requires (name, TagName) in contents && contents[(name, TagName)] == text
    ensures Classify(files, contents, name) ==
            Success(if Contains(text, CriticalMarker) then Critical else Normal)
  {
  }

  /** Moving the critical capture out of the car folder leaves the other
      entries in their order. */
  lemma ScenarioRemove(crit: string, normal: string, young: string, untagged: string)
    requires Distinct([crit, normal, young, untagged, CriticalFolder])
    ensures Remove([crit, normal, young, untagged, CriticalFolder], crit) ==
            [normal, young, untagged, CriticalFolder]
  {
    var e := [crit, normal, young, untagged, CriticalFolder];
    assert crit != normal && crit != young && crit != untagged && crit != CriticalFolder by {
      assert e[0] != e[1] && e[0] != e[2] && e[0] != e[3] && e[0] != e[4];
    }
    assert e[..1][..0] == [] && e[..2][..1] == e[..1] && e[..3][..2] == e[..2];
    assert e[..4][..3] == e[..3] && e[..5] == e && e[..5][..4] == e[..4];
    var none: seq<string> := [];
    assert Remove(e[..1], crit) == none;
    assert none + [normal] == [normal];
    assert Remove(e[..2], crit) == [normal];
    assert Remove(e[..3], crit) == [normal, young];
    assert Remove(e[..4], crit) == [normal, young, untagged];
  }

  /** The scenario's car folder, once `criticalData` is created. */
  function Listing(crit: string, normal: string, young: string, untagged: string): seq<string>
  {
    [crit, normal, young, untagged, CriticalFolder]
  }

  /** A capture name, which holds an `@`, is never the critical folder's. */
  lemma NotCriticalFolder(name: string)
    requires '@' in name
    ensures name != CriticalFolder
  {
    CriticalFolderIsPlain();
  }

  /** No capture is named like the critical folder, so the listing stays
      duplicate-free once the critical folder is created. */
  lemma ListingDistinct(crit: string, normal: string, young: string, untagged: string)
    requires Distinct([crit, normal, young, untagged])
    requires '@' in crit && '@' in normal && '@' in young && '@' in untagged
    ensures Distinct(Listing(crit, normal, young, untagged))
  {
    NotCriticalFolder(crit);
    NotCriticalFolder(normal);
    NotCriticalFolder(young);
    NotCriticalFolder(untagged);
    var e := Listing(crit, normal, young, untagged);
    var c := [crit, normal, young, untagged];
    forall i, j | 0 <= i < j < 5 ensures e[i] != e[j] {
      if j == 4 {
        assert e[i] == c[i];
      } else {
        assert e[i] == c[i] && e[j] == c[j];
      }
    }
  }

  /** The critical capture, and only it, is moved. */
  lemma ScenarioRelocations(d1: Disk, crit: string, normal: string, young: string, untagged: string)
    requires d1.entries == Listing(crit, normal, young, untagged)
    requires Distinct(Listing(crit, normal, young, untagged))
    requires Classify(d1.files, d1.contents, crit) == Success(Critical)
    requires Classify(d1.files, d1.contents, normal) == Success(Normal)
    requires Classify(d1.files, d1.contents, untagged) == Success(Untagged)
    ensures Relocations(d1, [crit, normal, untagged]) ==
            Triage(d1.(entries := [normal, young, untagged, CriticalFolder],
                       critical := d1.critical + {crit}), None)
  {
    ScenarioRemove(crit, normal, young, untagged);
    var done := [crit, normal, untagged];
    assert done[..1] == [crit] && done[..2] == [crit, normal] && done[..3] == done;
    assert [crit][..0] == [];
    var moved := Relocate(d1, crit);
    assert Relocations(d1, done[..1]) == Triage(moved, None);
    assert Relocations(d1, done[..2]) == Triage(moved, None);
  }

  /** `os.makedirs` adds the critical folder to the car folder's listing. */
  lemma ScenarioCreate(held: Disk, crit: string, normal: string, young: string, untagged: string)
    requires held.entries == [crit, normal, young, untagged]
    requires Distinct(Listing(crit, normal, young, untagged))
    ensures EnsureCriticalFolder(held) == held.(entries := Listing(crit, normal, young, untagged))
  {
    var listing := Listing(crit, normal, young, untagged);
    assert CriticalFolder !in held.entries by {
      assert forall i :: 0 <= i < 4 ==> listing[i] == held.entries[i] && listing[i] != listing[4];
    }
    assert held.entries + [CriticalFolder] == listing;
  }

  /** One call of `move_parent_folder_of_txt_to_critical` on a car folder
      holding the four captures. */
  lemma ScenarioSync(held: Disk, crit: string, normal: string, young: string, untagged: string,
                     now: int, parse: Parser, source: string, dst: string)
    requires held.entries == [crit, normal, young, untagged] && held.critical == {} && held.transfers == []
    requires Distinct(Listing(crit, normal, young, untagged))
    requires IsCompleted(crit, now, parse) == Success(true)
    requires IsCompleted(normal, now, parse) == Success(true)
    requires IsCompleted(young, now, parse) == Success(false)
    requires IsCompleted(untagged, now, parse) == Success(true)
    requires Classify(held.files, held.contents, crit) == Success(Critical)
    requires Classify(held.files, held.contents, normal) == Success(Normal)
    requires Classify(held.files, held.contents, untagged) == Success(Untagged)
    ensures Sync(held, source, dst, now, parse) ==
            Step(held.(entries := [normal, young, untagged, CriticalFolder], critical := {crit},
                       transfers := Copies(source, dst, WorkList([crit, normal, untagged]))),
                 Pass)
  {
    var d1 := held.(entries := Listing(crit, normal, young, untagged));
    var done := [crit, normal, untagged];
    ScenarioCreate(held, crit, normal, young, untagged);
    ScenarioCompleted(crit, normal, young, untagged, now, parse);
    var moved := d1.(entries := [normal, young, untagged, CriticalFolder], critical := {crit});
    assert Relocations(d1, done) == Triage(moved, None) by {
      ScenarioRelocations(d1, crit, normal, young, untagged);
      assert held.critical + {crit} == {crit};
    }
    SyncPasses(held, source, dst, now, parse, done, moved);
    var none: seq<Copy> := [];
    assert none + Copies(source, dst, WorkList(done)) == Copies(source, dst, WorkList(done));
  }

  /** `Sync` in terms of its stages, when none of them raises. */
  lemma SyncPasses(d: Disk, source: string, dst: string, now: int, parse: Parser,
                   done: seq<string>, moved: Disk)
    requires Completed(EnsureCriticalFolder(d).entries, now, parse) == Success(done)
    requires Relocations(EnsureCriticalFolder(d), done) == Triage(moved, None)
    ensures Sync(d, source, dst, now, parse) ==
            Step(moved.(transfers := moved.transfers + Copies(source, dst, WorkList(done))), Pass)
  {
  }

  /** The critical capture ends up under `criticalData`, the others stay in the
      car folder in their listing order, the young capture is neither moved nor
      mirrored, and the mirroring tool is called for every finished capture
      (the moved one by its old path) and then for `criticalData`. The lock is
      free again afterwards. */
  lemma FourCaptureRun(crit: string, normal: string, young: string, untagged: string,
                       now: int, parse: Parser, source: string, dst: string)
    requires Distinct([crit, normal, young, untagged])
    requires '@' in crit && '@' in normal && '@' in young && '@' in untagged
    requires IsCompleted(crit, now, parse) == Success(true)
    requires IsCompleted(normal, now, parse) == Success(true)
    requires IsCompleted(young, now, parse) == Success(false)
    requires IsCompleted(untagged, now, parse) == Success(true)
    ensures var d := ScenarioDisk(crit, normal, young, untagged);
            var r := Run(d, Success(Paths(source, dst)), now, parse);
            r.exit == Finished(Pass) && !r.disk.locked &&
            r.disk.entries == [normal, young, untagged, CriticalFolder] &&
            r.disk.critical == {crit} &&
            r.disk.files == d.files && r.disk.contents == d.contents &&
            |r.disk.transfers| == 4 &&
            r.disk.transfers[0] == Copy(PathJoin(source, crit), dst) &&
            r.disk.transfers[1] == Copy(PathJoin(source, normal), dst) &&
            r.disk.transfers[2] == Copy(PathJoin(source, untagged), dst) &&
            r.disk.transfers[3] == Copy(PathJoin(source, CriticalFolder), dst)
  {
    var d := ScenarioDisk(crit, normal, young, untagged);
    var work := Copies(source, dst, WorkList([crit, normal, untagged]));
    var final := d.(entries := [normal, young, untagged, CriticalFolder], critical := {crit},
                    transfers := work);
    var listing := [crit, normal, young, untagged];
    assert crit != normal && crit != young && crit != untagged by {
      assert listing[0] != listing[1] && listing[0] != listing[2] && listing[0] != listing[3];
    }
    assert normal != young && normal != untagged && young != untagged by {
      assert listing[1] != listing[2] && listing[1] != listing[3] && listing[2] != listing[3];
    }
    ScenarioClassify(crit, normal, young, untagged);
    ListingDistinct(crit, normal, young, untagged);
    ScenarioSync(d.(locked := true), crit, normal, young, untagged, now, parse, source, dst);
    assert Run(d, Success(Paths(source, dst)), now, parse) == RunResult(final, Finished(Pass));
    WorkListCopies(source, dst, [crit, normal, untagged]);
  }
}
