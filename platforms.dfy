/**
 * The platform allow-list: which read groups the walker calibrates, decided
 * by each group's PL attribute against the configured platform entries.
 */
module Platforms {
  import opened Covariates

  /** Java's `trim()` removes every leading and trailing char whose code is at most U+0020. */
  predicate IsTrimmed(c: char)
  {
    c <= ' '
  }

  function TrimStart(s: string): (r: string)
    ensures |r| <= |s| && r == s[|s| - |r|..]
    ensures r == [] || !IsTrimmed(r[0])
    ensures forall i :: 0 <= i < |s| - |r| ==> IsTrimmed(s[i])
  {
    if |s| > 0 && IsTrimmed(s[0]) then TrimStart(s[1..]) else s
  }

  function TrimEnd(s: string): (r: string)
    ensures |r| <= |s| && r == s[..|r|]
    ensures r == [] || !IsTrimmed(r[|r| - 1])
    ensures forall i :: |r| <= i < |s| ==> IsTrimmed(s[i])
  {
    if |s| > 0 && IsTrimmed(s[|s| - 1]) then TrimEnd(s[..|s| - 1]) else s
  }

  function Trim(s: string): string
  {
    TrimEnd(TrimStart(s))
  }

  /** Upper-case mapping of the ASCII letters; every other char maps to itself. */
  function UpperAscii(c: char): char
  {
    if 'a' <= c <= 'z' then (c as int - 32) as char else c
  }

  /** Java's `equalsIgnoreCase`, char by char, with ASCII case folding. */
  predicate EqualsIgnoreCase(a: string, b: string)
  {
    |a| == |b| && forall i :: 0 <= i < |a| ==> a[i] == b[i] || UpperAscii(a[i]) == UpperAscii(b[i])
  }

  /** One allow-list entry admits a group when the group has no PL, the trimmed entry is `*`, or it names the PL. */
  predicate PlatformMatches(group: ReadGroupRecord, entry: string)
  {
    group.platform.None? || Trim(entry) == "*" || EqualsIgnoreCase(group.platform.value, Trim(entry))
  }

  /** A read group is supported when some allow-list entry admits it. */
  predicate Supported(group: ReadGroupRecord, platforms: seq<string>)
  {
    exists i :: 0 <= i < |platforms| && PlatformMatches(group, platforms[i])
  }

  /** `isSupportedReadGroup`: scan the allow-list and stop at the first entry that admits the group. */
  method IsSupportedReadGroup(group: ReadGroupRecord, platforms: seq<string>) returns (supported: bool)
    ensures supported <==> exists i :: 0 <= i < |platforms| && PlatformMatches(group, platforms[i])
  {
    for i := 0 to |platforms|
      invariant forall j :: 0 <= j < i ==> !PlatformMatches(group, platforms[j])
    {
      var platform := Trim(platforms[i]);
      if group.platform.None? || platform == "*" || EqualsIgnoreCase(group.platform.value, platform) {
        return true;
      }
    }
    return false;
  }

  /** An empty allow-list supports no group, not even one whose PL is unset. */
  lemma EmptyAllowListSupportsNothing(group: ReadGroupRecord)
    ensures !Supported(group, [])
  {
  }

  /** A group with no PL attribute is supported exactly when the allow-list is not empty. */
  lemma UnsetPlatformSupportedIffNonEmpty(group: ReadGroupRecord, platforms: seq<string>)
    requires group.platform.None?
    ensures Supported(group, platforms) <==> |platforms| > 0
  {
    if |platforms| > 0 {
      assert PlatformMatches(group, platforms[0]);
    }
  }

  /** The default allow-list, the single entry `*`, supports every read group. */
  lemma DefaultAllowListSupportsAll(group: ReadGroupRecord)
    ensures Supported(group, ["*"])
  {
    assert TrimStart("*") == "*";
    assert TrimEnd("*") == "*";
    assert PlatformMatches(group, ["*"][0]);
  }

  /** Ids of the header read groups the allow-list supports: the groups `initialize` registers. */
  function RegisteredIds(header: seq<ReadGroupRecord>, platforms: seq<string>): set<string>
  {
    set i | 0 <= i < |header| && Supported(header[i], platforms) :: header[i].id
  }

  /** Registering one more header group adds its id exactly when it is supported. */
  lemma RegisteredIdsSnoc(header: seq<ReadGroupRecord>, group: ReadGroupRecord, platforms: seq<string>)
    ensures RegisteredIds(header + [group], platforms)
         == RegisteredIds(header, platforms) + (if Supported(group, platforms) then {group.id} else {})
  {
    var extended := header + [group];
    forall id | id in RegisteredIds(extended, platforms)
      ensures id in RegisteredIds(header, platforms) + (if Supported(group, platforms) then {group.id} else {})
    {
      var i :| 0 <= i < |extended| && Supported(extended[i], platforms) && extended[i].id == id;
      if i < |header| {
        assert extended[i] == header[i];
      }
    }
    forall id | id in RegisteredIds(header, platforms)
      ensures id in RegisteredIds(extended, platforms)
    {
      var i :| 0 <= i < |header| && Supported(header[i], platforms) && header[i].id == id;
      assert extended[i] == header[i];
    }
    if Supported(group, platforms) {
      assert extended[|header|] == group;
    }
  }
}
