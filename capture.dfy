/** One capture folder `<label>@<timestamp>`: when it counts as finished
    (`is_completed`), which file is its tag file (`get_tag_file_name`) and
    whether its tag marks it critical (the marker test of
    `move_parent_folder_of_txt_to_critical`). */
module Capture {
  import opened Wrappers
  import opened Text

  /** The annotation that promotes a capture to critical. */
  const CriticalMarker: string := "[TAG],manual_annotation.Actuation_1,2,true"

  /** A tag file is any entry whose name ends in this suffix. */
  const TagSuffix: string := ".txt"

  /** Times are counts of microseconds, the resolution of Python's `datetime`. */
  const MicrosPerMinute: int := 60 * 1000000

  /** A capture is finished once it is strictly older than seven minutes. */
  const CompletionThreshold: int := 7 * MicrosPerMinute

  /** `datetime.strptime(field, '%Y%m%d_%H%M%S%f')` on the microsecond scale;
      `None` stands for the ValueError it raises on a malformed field. */
  type Parser = string -> Option<int>

  /** The exceptions that abort a sync run. */
  datatype Fault =
    | NoTimestamp(name: string)                  // IndexError of split('@')[1]
    | BadTimestamp(name: string, field: string)  // ValueError of strptime
    | NotAFolder(name: string)                   // os.listdir of the capture path
    | Unreadable(name: string, file: string)     // open or read of the tag file
    | SetupFailed                                // mount discovery before the core runs
    | LockMissing                                // os.remove of an absent lock file

  /** What the tag file says about a capture. */
  datatype Tag = Untagged | Normal | Critical

  /** `field` is the text of `name` after its first `@`, at index `i`, up to
      the next `@` or the end. */
  ghost predicate FieldAfterFirstAt(name: string, i: int, field: string)
  {
    0 <= i < |name| && name[i] == '@' && '@' !in name[..i] &&
    i + 1 + |field| <= |name| && name[i + 1..i + 1 + |field|] == field &&
    (i + 1 + |field| == |name| || name[i + 1 + |field|] == '@')
  }

  /** `name.split('@')[1]`: the text after the first `@`, up to the next `@`
      or the end; `None` where Python raises IndexError (no `@` at all). */
  function TimestampField(name: string): (field: Option<string>)
    ensures field.None? <==> '@' !in name
    ensures field.Some? ==> '@' !in field.value && exists i :: FieldAfterFirstAt(name, i, field.value)
  {
    var parts := Split(name, '@');
    if |parts| < 2 then None
    else
      SecondFieldLocated(name, parts);
      Some(parts[1])
  }

  /** The second field of a split at `@` follows the first `@` of the name. */
  lemma SecondFieldLocated(name: string, parts: seq<string>)
    requires parts == Split(name, '@') && |parts| >= 2
    ensures FieldAfterFirstAt(name, |parts[0]|, parts[1])
  {
    var head, field := parts[0], parts[1];
    var rest := if |parts| == 2 then "" else ['@'] + Join(parts[2..], '@');
    assert Join(parts[1..], '@') == field + rest by {
      assert parts[1..][0] == field && parts[1..][1..] == parts[2..];
    }
    assert name == head + ['@'] + field + rest;
    FieldLocated(name, head, field, rest);
  }

  lemma FieldLocated(name: string, head: string, field: string, rest: string)
    requires '@' !in head && '@' !in field && (|rest| == 0 || rest[0] == '@')
    requires name == head + ['@'] + field + rest
    ensures FieldAfterFirstAt(name, |head|, field)
  {
    var i := |head|;
    assert name[..i] == head;
    assert name[i + 1..i + 1 + |field|] == field;
    if |rest| > 0 { assert name[i + 1 + |field|] == rest[0]; }
  }

  /** `is_completed(name)` at time `now`: parse the timestamp field and compare
      the age strictly against seven minutes. */
  function IsCompleted(name: string, now: int, parse: Parser): (r: Result<bool, Fault>)
    ensures r.Failure? <==> '@' !in name || parse(TimestampField(name).value).None?
    ensures r.Failure? ==> r.error == (if '@' !in name then NoTimestamp(name)
                                       else BadTimestamp(name, TimestampField(name).value))
  {
    match TimestampField(name)
    case None => Failure(NoTimestamp(name))
    case Some(field) =>
      match parse(field)
      case None => Failure(BadTimestamp(name, field))
      case Some(created) => Success(now - created > CompletionThreshold)
  }

  /** An age of exactly seven minutes is not yet finished; one microsecond more is. */
  lemma CompletionBoundary(name: string, parse: Parser, created: int)
    requires '@' in name && parse(TimestampField(name).value) == Some(created)
    ensures IsCompleted(name, created + 420000000, parse) == Success(false)
    ensures IsCompleted(name, created + 420000001, parse) == Success(true)
  {
  }

  /** A finished capture stays finished as the clock advances. */
  lemma CompletionMonotone(name: string, parse: Parser, now: int, later: int)
    requires now <= later
    requires IsCompleted(name, now, parse) == Success(true)
    ensures IsCompleted(name, later, parse) == Success(true)
  {
  }

  /** `listing[i]` is the tag file that `get_tag_file_name` returns: the first
      entry in listing order whose name ends in `.txt`. */
  ghost predicate IsFirstTagAt(listing: seq<string>, i: int)
  {
    0 <= i < |listing| && EndsWith(listing[i], TagSuffix) &&
    forall j :: 0 <= j < i ==> !EndsWith(listing[j], TagSuffix)
  }

  /** At most one entry is the first tag file. */
  lemma FirstTagUnique(listing: seq<string>, i: int, j: int)
    requires IsFirstTagAt(listing, i) && IsFirstTagAt(listing, j)
    ensures i == j
  {
  }

  /** `get_tag_file_name`: scan the capture's listing in order and return the
      first `.txt` entry, or `None` when there is none. */
  function FirstTagFile(listing: seq<string>): (tag: Option<string>)
    ensures tag.None? <==> forall i :: 0 <= i < |listing| ==> !EndsWith(listing[i], TagSuffix)
    ensures tag.Some? ==> EndsWith(tag.value, TagSuffix)
    ensures tag.Some? ==> exists i :: IsFirstTagAt(listing, i) && listing[i] == tag.value
  {
    if |listing| == 0 then None
    else if EndsWith(listing[0], TagSuffix) then
      assert IsFirstTagAt(listing, 0);
      Some(listing[0])
    else
      var tag := FirstTagFile(listing[1..]);
      assert tag.Some? ==> exists i :: IsFirstTagAt(listing, i) && listing[i] == tag.value by {
        if tag.Some? {
          var i :| IsFirstTagAt(listing[1..], i) && listing[1..][i] == tag.value;
          assert IsFirstTagAt(listing, i + 1);
        }
      }
      assert tag.None? ==> forall i :: 0 <= i < |listing| ==> !EndsWith(listing[i], TagSuffix) by {
        if tag.None? {
          forall i | 0 <= i < |listing| ensures !EndsWith(listing[i], TagSuffix) {
            if i > 0 { assert listing[i] == listing[1..][i - 1]; }
          }
        }
      }
      tag
  }

  /** `get_tag_file_name` as the scan it is: walk the listing in order and
      return at the first `.txt` entry. */
  method TagFileName(listing: seq<string>) returns (tag: Option<string>)
    ensures tag == FirstTagFile(listing)
  {
    var i := 0;
    while i < |listing|
      invariant 0 <= i <= |listing|
      invariant FirstTagFile(listing) == FirstTagFile(listing[i..])
    {
      assert listing[i..][1..] == listing[i + 1..];
      if EndsWith(listing[i], TagSuffix) {
        return Some(listing[i]);
      }
      i := i + 1;
    }
    tag := None;
  }

  /** Classification of one completed capture (the body of the first loop of
      `move_parent_folder_of_txt_to_critical`): list the capture folder, pick
      its tag file, read it and look for the critical marker. `files` maps each
      folder to its listing; `contents` holds the text of every readable file.
      A missing folder or an unreadable tag file raises. */
  function Classify(files: map<string, seq<string>>, contents: map<(string, string), string>,
                    name: string): Result<Tag, Fault>
  {
    if name !in files then Failure(NotAFolder(name))
    else
      match FirstTagFile(files[name])
      case None => Success(Untagged)
      case Some(tag) =>
        if (name, tag) !in contents then Failure(Unreadable(name, tag))
        else if Contains(contents[(name, tag)], CriticalMarker) then Success(Critical)
        else Success(Normal)
  }

  /** A capture is critical exactly when its folder lists a first `.txt` entry
      that can be read and whose text holds the marker; it is untagged exactly
      when no entry ends in `.txt`; classification raises exactly when the
      folder cannot be listed or that first tag file cannot be read. */
  lemma ClassifyCharacterised(files: map<string, seq<string>>, contents: map<(string, string), string>,
                              name: string)
    ensures Classify(files, contents, name) == Success(Critical) <==>
              name in files &&
              exists i :: IsFirstTagAt(files[name], i) && (name, files[name][i]) in contents &&
                          exists k :: OccursAt(contents[(name, files[name][i])], CriticalMarker, k)
    ensures Classify(files, contents, name) == Success(Untagged) <==>
              name in files && forall i :: 0 <= i < |files[name]| ==> !EndsWith(files[name][i], TagSuffix)
    ensures Classify(files, contents, name).Failure? <==>
              name !in files ||
              exists i :: IsFirstTagAt(files[name], i) && (name, files[name][i]) !in contents
  {
    if name in files {
      match FirstTagFile(files[name])
      case None =>
      case Some(tag) =>
        var j :| IsFirstTagAt(files[name], j) && files[name][j] == tag;
        forall i | IsFirstTagAt(files[name], i) ensures files[name][i] == tag {
          FirstTagUnique(files[name], i, j);
        }
    }
  }
}
