/**
 Maildir names as text. Everywhere else a path is its parts (directory, timestamp, uuid, flags); here the string
 helpers are shown to read those parts back from the text the daemon writes, so nothing is lost by that.
 */
module MaildirNames {
  import opened Prelude
  import MailboxTree

  const MARK := ":2,"

  predicate MarkAt(s: string, i: nat) {
    i + 3 <= |s| && s[i] == ':' && s[i + 1] == '2' && s[i + 2] == ','
  }

  /** The last mark at or before `i`. */
  function LastMark(s: string, i: nat): (r: Option<nat>)
    ensures r.Some? ==> r.value <= i && MarkAt(s, r.value) && forall j: nat :: r.value < j <= i ==> !MarkAt(s, j)
    ensures r.None? ==> forall j: nat :: j <= i ==> !MarkAt(s, j)
  {
    if MarkAt(s, i) then Some(i) else if i == 0 then None else LastMark(s, i - 1)
  }

  function FirstMark(s: string, i: nat): (r: Option<nat>)
    requires i <= |s|
    ensures r.Some? ==> i <= r.value && MarkAt(s, r.value) && forall j: nat :: i <= j < r.value ==> !MarkAt(s, j)
    ensures r.None? ==> forall j: nat :: i <= j ==> !MarkAt(s, j)
    decreases |s| - i
  {
    if i == |s| then None else if MarkAt(s, i) then Some(i) else FirstMark(s, i + 1)
  }

  function LastChar(s: string, c: char): (r: Option<nat>)
    ensures r.Some? ==> r.value < |s| && s[r.value] == c && c !in s[r.value + 1..]
    ensures r.None? ==> c !in s
    decreases |s|
  {
    if s == "" then None
    else if s[|s| - 1] == c then Some(|s| - 1)
    else
      var r := LastChar(s[..|s| - 1], c);
      assert s == s[..|s| - 1] + [s[|s| - 1]];
      assert r.Some? ==> s[r.value + 1..] == s[..|s| - 1][r.value + 1..] + [s[|s| - 1]];
      r
  }

  function FirstChar(s: string, c: char): (r: Option<nat>)
    ensures r.Some? ==> r.value < |s| && s[r.value] == c && c !in s[..r.value]
    ensures r.None? ==> c !in s
  {
    if s == "" then None
    else if s[0] == c then Some(0)
    else
      var r := FirstChar(s[1..], c);
      assert s == [s[0]] + s[1..];
      if r.None? then None
      else
        assert s[..r.value + 1] == [s[0]] + s[1..][..r.value];
        Some(r.value + 1)
  }

  // ---- the helpers ----------------------------------------------------------

  function FilenameBase(name: string): string {
    match LastMark(name, |name|) case None => name case Some(i) => name[..i]
  }

  function FilenameFlags(name: string): string {
    match LastMark(name, |name|) case None => "" case Some(i) => name[i + 3..]
  }

  function RebuildPathWithFlags(path: string, flags: string): string {
    FilenameBase(path) + MARK + flags
  }

  function Filename(path: string): string {
    match LastChar(path, '/') case None => path case Some(i) => path[i + 1..]
  }

  function ExtractUuid(path: string): Option<string> {
    var name := Filename(path);
    var base := match FirstMark(name, 0) case None => name case Some(i) => name[..i];
    match FirstChar(base, '.') case None => None case Some(i) => Some(base[i + 1..])
  }

  /** The name the daemon writes. */
  function Format(dir: string, ts: string, uuid: string, flags: string): string {
    dir + "/cur/" + ts + "." + uuid + MARK + flags
  }

  /** Decimal timestamps, hyphenated hexadecimal uuids and letter flags have none of the separators. */
  ghost predicate PlainParts(ts: string, uuid: string, flags: string) {
    && '/' !in ts && '.' !in ts && ':' !in ts
    && '/' !in uuid && ':' !in uuid
    && '/' !in flags && ':' !in flags
  }

  // ---- what they give on such names -----------------------------------------

  lemma LastMarkOf(before: string, flags: string)
    requires ':' !in flags
    ensures LastMark(before + MARK + flags, |before + MARK + flags|) == Some(|before|)
  {
    var s := before + MARK + flags;
    assert MarkAt(s, |before|);
    forall j: nat | |before| < j <= |s| ensures !MarkAt(s, j) {
      if j < |s| {
        assert s[j] == (MARK + flags)[j - |before|];
        if j - |before| >= 3 { assert s[j] == flags[j - |before| - 3]; }
      }
    }
  }

  /** Reading the suffix and the base, and putting another suffix on. */
  lemma SuffixRoundTrip(before: string, flags: string, flags': string)
    requires ':' !in flags
    ensures FilenameFlags(before + MARK + flags) == flags && FilenameBase(before + MARK + flags) == before
    ensures RebuildPathWithFlags(before + MARK + flags, flags') == before + MARK + flags'
  {
    var s := before + MARK + flags;
    LastMarkOf(before, flags);
    assert s[..|before|] == before && s[|before| + 3..] == flags;
  }

  /** A name without a mark is all base; putting a suffix on gives it its first one. */
  lemma UnmarkedName(name: string, flags: string)
    requires forall i: nat :: !MarkAt(name, i)
    ensures FilenameFlags(name) == "" && FilenameBase(name) == name
    ensures RebuildPathWithFlags(name, flags) == name + ":2," + flags
  {
    assert LastMark(name, |name|).None?;
  }

  /** A path without a dot has no uuid in it. */
  lemma NoUuid(path: string)
    requires '.' !in path
    ensures ExtractUuid(path).None?
  {
    var name := Filename(path);
    assert forall c :: c in name ==> c in path;
    var mark := FirstMark(name, 0);
    var base := if mark.None? then name else name[..mark.value];
    assert forall c :: c in base ==> c in name;
  }

  lemma {:induction false} LastCharOf(a: string, c: char, b: string)
    requires c !in b
    ensures LastChar(a + [c] + b, c) == Some(|a|)
    decreases |b|
  {
    var s := a + [c] + b;
    if b == "" {
      assert s[|s| - 1] == c;
    } else {
      assert b[|b| - 1] in b && s[|s| - 1] == b[|b| - 1];
      assert s[..|s| - 1] == a + [c] + b[..|b| - 1];
      LastCharOf(a, c, b[..|b| - 1]);
    }
  }

  lemma FilenameOf(dir: string, name: string)
    requires '/' !in name
    ensures Filename(dir + "/" + name) == name
  {
    LastCharOf(dir, '/', name);
    assert dir + "/" + name == dir + ['/'] + name;
    assert (dir + "/" + name)[|dir| + 1..] == name;
  }

  lemma FirstMarkOf(before: string, flags: string)
    requires ':' !in before
    ensures FirstMark(before + MARK + flags, 0) == Some(|before|)
  {
    var s := before + MARK + flags;
    assert MarkAt(s, |before|);
    forall j: nat | j < |before| ensures !MarkAt(s, j) { assert s[j] == before[j]; }
  }

  lemma {:induction false} FirstCharOf(a: string, c: char, b: string)
    requires c !in a
    ensures FirstChar(a + [c] + b, c) == Some(|a|)
  {
    var s := a + [c] + b;
    if a != "" {
      assert a[0] in a;
      assert s[1..] == a[1..] + [c] + b;
      FirstCharOf(a[1..], c, b);
    }
  }

  /** The uuid is read back whole, whatever the mailbox directory is called. */
  lemma UuidRoundTrip(dir: string, ts: string, uuid: string, flags: string)
    requires PlainParts(ts, uuid, flags)
    ensures ExtractUuid(Format(dir, ts, uuid, flags)) == Some(uuid)
  {
    var base := ts + "." + uuid;
    var name := base + MARK + flags;
    assert Format(dir, ts, uuid, flags) == (dir + "/cur") + "/" + name;
    FilenameOf(dir + "/cur", name);
    FirstMarkOf(base, flags);
    assert name[..|base|] == base;
    FirstCharOf(ts, '.', uuid);
    assert base[|ts| + 1..] == uuid;
  }

  /** Between its slashes: the mailbox directory, `cur`, and the file name. */
  lemma FormatPieces(dir: string, ts: string, uuid: string, flags: string)
    requires PlainParts(ts, uuid, flags)
    ensures MailboxTree.Split(Format(dir, ts, uuid, flags)) ==
            MailboxTree.Split(dir) + ["cur", ts + "." + uuid + ":2," + flags]
  {
    var name := ts + "." + uuid + ":2," + flags;
    assert Format(dir, ts, uuid, flags) == (dir + "/" + "cur") + "/" + name;
    MailboxTree.SplitAppend(dir, "cur");
    MailboxTree.SplitAppend(dir + "/" + "cur", name);
    assert MailboxTree.Split(dir) + ["cur"] + [name] == MailboxTree.Split(dir) + ["cur", name];
  }

  lemma FormatShape(dir: string, ts: string, uuid: string, flags: string)
    ensures Format(dir, ts, uuid, flags) == (dir + ("/cur/" + (ts + "." + uuid))) + MARK + flags
  {
    assert dir + "/cur/" + ts + "." + uuid == dir + ("/cur/" + (ts + "." + uuid));
  }

  lemma DirShape(dir: string, name: string)
    requires '/' !in name
    ensures Filename(dir + ("/cur/" + name)) == name
  {
    assert "/cur/" == "/cur" + "/";
    Regroup(dir, "/cur", "/", name);
    FilenameOf(dir + "/cur", name);
  }

  lemma Regroup(a: string, b: string, c: string, d: string)
    ensures a + ((b + c) + d) == (a + b) + c + d
  {}

  lemma PartsOf(dir: string, ts: string, uuid: string, flags: string)
    requires PlainParts(ts, uuid, flags)
    ensures var p := Format(dir, ts, uuid, flags);
            var name := ts + "." + uuid;
            && FilenameFlags(p) == flags && FilenameBase(p) == dir + ("/cur/" + name)
            && Filename(FilenameBase(p)) == name && FirstChar(name, '.') == Some(|ts|)
  {
    var name := ts + "." + uuid;
    FormatShape(dir, ts, uuid, flags);
    SuffixRoundTrip(dir + ("/cur/" + name), flags, "");
    DirShape(dir, name);
    FirstCharOf(ts, '.', uuid);
    assert name == ts + ['.'] + uuid;
  }

  /** Two names are equal only if all their parts are, so a unique path column makes the parts unique. */
  lemma FormatInjective(d1: string, t1: string, u1: string, f1: string, d2: string, t2: string, u2: string, f2: string)
    requires PlainParts(t1, u1, f1) && PlainParts(t2, u2, f2)
    requires Format(d1, t1, u1, f1) == Format(d2, t2, u2, f2)
    ensures d1 == d2 && t1 == t2 && u1 == u2 && f1 == f2
  {
    PartsOf(d1, t1, u1, f1);
    PartsOf(d2, t2, u2, f2);
    var n1, n2 := t1 + "." + u1, t2 + "." + u2;
    assert n1 == n2 && |t1| == |t2|;
    assert t1 == n1[..|t1|] && t2 == n2[..|t2|];
    assert u1 == n1[|t1| + 1..] && u2 == n2[|t2| + 1..];
    SameTail(d1, d2, "/cur/" + n1);
  }

  lemma SameTail(a: string, b: string, tail: string)
    requires a + tail == b + tail
    ensures a == b
  {
    assert |a + tail| == |a| + |tail| && |b + tail| == |b| + |tail|;
    assert a == (a + tail)[..|a|] && b == (b + tail)[..|b|];
  }
}
