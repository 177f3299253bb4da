/** The string operations of Python that the sync script relies on:
    `str.split(sep)`, `substring in text`, `str.endswith` and `os.path.join`. */
module Text {

  /** Python's `sep.join(parts)` for a one-character separator. */
  function Join(parts: seq<string>, sep: char): string
  {
    if |parts| == 0 then ""
    else if |parts| == 1 then parts[0]
    else parts[0] + [sep] + Join(parts[1..], sep)
  }

  /** Python's `s.split(sep)`: the maximal separator-free fields of `s`, in order.
      There is always at least one field, and there are several exactly when
      `sep` occurs in `s`. */
  function Split(s: string, sep: char): (fields: seq<string>)
    ensures |fields| >= 1
    ensures forall k :: 0 <= k < |fields| ==> sep !in fields[k]
    ensures Join(fields, sep) == s
    ensures |fields| > 1 <==> sep in s
    decreases |s|
  {
    if |s| == 0 then [""]
    else
      var rest := Split(s[1..], sep);
      assert s == [s[0]] + s[1..];
      if s[0] == sep then
        assert ([""] + rest)[1..] == rest;
        [""] + rest
      else
        var fields := [[s[0]] + rest[0]] + rest[1..];
        assert fields[1..] == rest[1..];
        assert |rest| > 1 ==> Join(rest, sep) == rest[0] + [sep] + Join(rest[1..], sep);
        fields
  }

  /** A separator-free prefix followed by the separator splits off as the first field. */
  lemma {:induction false} SplitCons(a: string, sep: char, t: string)
    requires sep !in a
    ensures Split(a + [sep] + t, sep) == [a] + Split(t, sep)
    decreases |a|
  {
    var s := a + [sep] + t;
    if |a| == 0 {
      assert s[0] == sep && s[1..] == t;
    } else {
      assert s[0] == a[0] && s[1..] == a[1..] + [sep] + t;
      SplitCons(a[1..], sep, t);
      assert [a[0]] + a[1..] == a;
    }
  }

  /** A separator-free string is a single field. */
  lemma {:induction false} SplitSingle(a: string, sep: char)
    requires sep !in a
    ensures Split(a, sep) == [a]
    decreases |a|
  {
    if |a| > 0 {
      SplitSingle(a[1..], sep);
      assert [a[0]] + a[1..] == a;
    }
  }

  /** Splitting undoes joining: separator-free fields come back unchanged. */
  lemma {:induction false} SplitJoin(parts: seq<string>, sep: char)
    requires |parts| >= 1
    requires forall k :: 0 <= k < |parts| ==> sep !in parts[k]
    ensures Split(Join(parts, sep), sep) == parts
  {
    if |parts| == 1 {
      SplitSingle(parts[0], sep);
    } else {
      SplitJoin(parts[1..], sep);
      SplitCons(parts[0], sep, Join(parts[1..], sep));
      assert [parts[0]] + parts[1..] == parts;
    }
  }

  /** `pat` occurs in `s` starting at index `i`. */
  ghost predicate OccursAt(s: string, pat: string, i: int)
  {
    0 <= i && i + |pat| <= |s| && s[i..i + |pat|] == pat
  }

  lemma OccursShift(s: string, pat: string, i: int)
    requires |s| > 0 && 0 <= i
    ensures OccursAt(s[1..], pat, i) <==> OccursAt(s, pat, i + 1)
  {
    if 0 <= i && i + |pat| <= |s| - 1 {
      assert s[1..][i..i + |pat|] == s[i + 1..i + 1 + |pat|];
    }
  }

  /** Python's `pat in s` for strings: a case-sensitive substring test. */
  function Contains(s: string, pat: string): (found: bool)
    ensures found <==> exists i :: OccursAt(s, pat, i)
    decreases |s|
  {
    if |pat| > |s| then
      assert forall i :: !OccursAt(s, pat, i);
      false
    else if s[..|pat|] == pat then
      assert OccursAt(s, pat, 0);
      true
    else
      var found := Contains(s[1..], pat);
      assert forall i :: 0 <= i ==> (OccursAt(s[1..], pat, i) <==> OccursAt(s, pat, i + 1)) by {
        forall i | 0 <= i ensures OccursAt(s[1..], pat, i) <==> OccursAt(s, pat, i + 1) {
          OccursShift(s, pat, i);
        }
      }
      assert found ==> exists i :: OccursAt(s, pat, i);
      assert (exists i :: OccursAt(s, pat, i)) ==> found by {
        if i :| OccursAt(s, pat, i) {
          assert i != 0;
          assert OccursAt(s[1..], pat, i - 1);
        }
      }
      found
  }

  /** Python's `s.endswith(suffix)`. */
  predicate EndsWith(s: string, suffix: string)
  {
    |suffix| <= |s| && s[|s| - |suffix|..] == suffix
  }

  /** Python's `os.path.join(dir, name)` on POSIX: an absolute `name` replaces
      `dir`; otherwise a single `/` is inserted unless `dir` is empty or already
      ends with one. */
  function PathJoin(dir: string, name: string): string
  {
    if |name| > 0 && name[0] == '/' then name
    else if |dir| == 0 || dir[|dir| - 1] == '/' then dir + name
    else dir + "/" + name
  }

  /** The joined path ends with `name`; a relative `name` is placed under
      `dir`, separated by exactly one `/`; an absolute one is taken as is. */
  lemma PathJoinParts(dir: string, name: string)
    ensures EndsWith(PathJoin(dir, name), name)
    ensures |name| > 0 && name[0] == '/' ==> PathJoin(dir, name) == name
    ensures (|name| == 0 || name[0] != '/') ==>
              var path := PathJoin(dir, name);
              |dir| <= |path| && path[..|dir|] == dir &&
              (|dir| > 0 ==> path[|path| - |name| - 1] == '/') &&
              (|dir| == 0 || dir[|dir| - 1] == '/' ==> |path| == |dir| + |name|) &&
              (|dir| > 0 && dir[|dir| - 1] != '/' ==> |path| == |dir| + 1 + |name|)
  {
    var path := PathJoin(dir, name);
    if |name| == 0 || name[0] != '/' {
      if |dir| == 0 || dir[|dir| - 1] == '/' {
        assert path == dir + name;
        assert path[|path| - |name|..] == name;
      } else {
        assert path == dir + "/" + name;
        assert path[|path| - |name|..] == name;
      }
    }
  }
}
