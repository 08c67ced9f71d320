/** Message bytes as logical header fields: a line and the folded lines that follow it (section 2.2.3 of RFC 5322). */
module HeaderFields {
  import opened Prelude

  const TAB: Byte := 9
  const LF: Byte := 10
  const CR: Byte := 13
  const SP: Byte := 32
  const COLON: Byte := 58

  const CRLFCRLF: Bytes := [CR, LF, CR, LF]
  const LFLF: Bytes := [LF, LF]

  predicate OccursAt(b: Bytes, needle: Bytes, i: nat) {
    i + |needle| <= |b| && b[i..i + |needle|] == needle
  }

  /** Position of the first occurrence. */
  function FindSubseq(b: Bytes, needle: Bytes): (r: Option<nat>)
    ensures r.Some? ==> OccursAt(b, needle, r.value) && forall j: nat :: j < r.value ==> !OccursAt(b, needle, j)
    ensures r.None? ==> forall j: nat :: !OccursAt(b, needle, j)
  {
    FindFrom(b, needle, 0)
  }

  function FindFrom(b: Bytes, needle: Bytes, i: nat): (r: Option<nat>)
    ensures r.Some? ==> i <= r.value && OccursAt(b, needle, r.value) &&
                        forall j: nat :: i <= j < r.value ==> !OccursAt(b, needle, j)
    ensures r.None? ==> forall j: nat :: i <= j ==> !OccursAt(b, needle, j)
    decreases |b| - i
  {
    if |b| < i + |needle| then None
    else if OccursAt(b, needle, i) then Some(i)
    else FindFrom(b, needle, i + 1)
  }

  /** Length of the first line with its LF; all of it if there is no LF. */
  function FindLineEnd(b: Bytes): (n: nat)
    ensures n <= |b| && (b != [] ==> 0 < n)
  {
    if b == [] then 0 else if b[0] == LF then 1 else 1 + FindLineEnd(b[1..])
  }

  predicate IsContinuation(b: Bytes) {
    b != [] && (b[0] == SP || b[0] == TAB)
  }

  /** From `n`, past all folded lines. */
  function SkipFolded(h: Bytes, n: nat): (m: nat)
    requires n <= |h|
    ensures n <= m <= |h| && !IsContinuation(h[m..])
    decreases |h| - n
  {
    if IsContinuation(h[n..]) then SkipFolded(h, n + FindLineEnd(h[n..])) else n
  }

  function FieldEnd(h: Bytes): (n: nat)
    requires h != []
    ensures 0 < n <= |h| && !IsContinuation(h[n..])
  {
    SkipFolded(h, FindLineEnd(h))
  }

  /** The logical fields of a header, in order. */
  function Fields(h: Bytes): seq<Bytes>
    decreases |h|
  {
    if h == [] then [] else [h[..FieldEnd(h)]] + Fields(h[FieldEnd(h)..])
  }

  function Flatten(fs: seq<Bytes>): Bytes {
    if fs == [] then [] else fs[0] + Flatten(fs[1..])
  }

  function FirstLine(f: Bytes): Bytes {
    f[..FindLineEnd(f)]
  }

  /** The fields whose first line is not one to drop. */
  function Keep(fs: seq<Bytes>, drop: Bytes -> bool): seq<Bytes> {
    if fs == [] then [] else (if drop(FirstLine(fs[0])) then [] else [fs[0]]) + Keep(fs[1..], drop)
  }

  /** Where the body starts: after the first CRLF CRLF, else after the first LF LF, else nowhere. */
  function HeaderEnd(b: Bytes): (n: nat)
    ensures n <= |b|
  {
    match FindSubseq(b, CRLFCRLF)
    case Some(i) => i + 4
    case None =>
      match FindSubseq(b, LFLF)
      case Some(i) => i + 2
      case None => |b|
  }

  function Header(b: Bytes): Bytes { b[..HeaderEnd(b)] }

  function Body(b: Bytes): Bytes { b[HeaderEnd(b)..] }

  /** What stripping means: the logical fields whose first line is not to be dropped, then the body as it is. */
  function StripFields(b: Bytes, drop: Bytes -> bool): Bytes {
    Flatten(Keep(Fields(Header(b)), drop)) + Body(b)
  }

  // -------------------------------------------------------------------------
  // Fields cover the header
  // -------------------------------------------------------------------------

  lemma {:induction false} FlattenFields(h: Bytes)
    ensures Flatten(Fields(h)) == h
    decreases |h|
  {
    if h != [] {
      var n := FieldEnd(h);
      FlattenFields(h[n..]);
      assert h == h[..n] + h[n..];
      assert Fields(h)[1..] == Fields(h[n..]);
    }
  }

  lemma {:induction false} FlattenAppend(a: seq<Bytes>, b: seq<Bytes>)
    ensures Flatten(a + b) == Flatten(a) + Flatten(b)
  {
    if a == [] {
      assert a + b == b;
    } else {
      assert (a + b)[1..] == a[1..] + b;
      FlattenAppend(a[1..], b);
    }
  }

  lemma {:induction false} KeepAppend(a: seq<Bytes>, b: seq<Bytes>, drop: Bytes -> bool)
    ensures Keep(a + b, drop) == Keep(a, drop) + Keep(b, drop)
  {
    if a == [] {
      assert a + b == b;
    } else {
      assert (a + b)[1..] == a[1..] + b;
      KeepAppend(a[1..], b, drop);
    }
  }

  /** A line: one LF, at its end. */
  ghost predicate IsLine(l: Bytes) {
    l != [] && l[|l| - 1] == LF && LF !in l[..|l| - 1]
  }

  lemma {:induction false} LineEndOf(l: Bytes, rest: Bytes)
    requires IsLine(l)
    ensures FindLineEnd(l + rest) == |l| && FirstLine(l + rest) == l
  {
    var b := l + rest;
    if |l| > 1 {
      assert l[0] in l[..|l| - 1];
      assert b[1..] == l[1..] + rest;
      assert l[1..][..|l| - 2] == l[..|l| - 1][1..];
      LineEndOf(l[1..], rest);
    }
    assert (l + rest)[..|l|] == l;
  }

  /** A whole line not followed by a folded one is a field by itself. */
  lemma FieldsOfLine(l: Bytes, rest: Bytes)
    requires IsLine(l) && !IsContinuation(rest)
    ensures Fields(l + rest) == [l] + Fields(rest)
  {
    var h := l + rest;
    LineEndOf(l, rest);
    assert h[|l|..] == rest && h[..|l|] == l;
  }

  lemma {:induction false} LineEndIsLine(b: Bytes)
    ensures var n := FindLineEnd(b); LF !in b[..n] || IsLine(b[..n])
    ensures var n := FindLineEnd(b); n < |b| ==> IsLine(b[..n])
    ensures LF !in b ==> FindLineEnd(b) == |b|
  {
    if b != [] && b[0] != LF {
      LineEndIsLine(b[1..]);
      var n := FindLineEnd(b[1..]);
      assert b[..n + 1] == [b[0]] + b[1..][..n];
      assert n > 0 ==> b[..n + 1][..n] == [b[0]] + b[1..][..n][..n - 1];
    }
  }

  /** A field without a folded start contributes nothing to what comes after it. */
  lemma FieldsSplit(h: Bytes)
    requires h != []
    ensures var n := FieldEnd(h);
            Fields(h) == [h[..n]] + Fields(h[n..]) && FirstLine(h[..n]) == FirstLine(h) && h == h[..n] + h[n..]
  {
    var n := FieldEnd(h);
    FieldsNext(h);
    FirstLinePrefix(h, n);
    SplitAt(h, n);
  }

  lemma FieldsNext(h: Bytes)
    requires h != []
    ensures Fields(h) == [h[..FieldEnd(h)]] + Fields(h[FieldEnd(h)..])
  {}

  lemma SplitAt(h: Bytes, n: nat)
    requires n <= |h|
    ensures h == h[..n] + h[n..]
  {}

  lemma {:induction false} FirstLinePrefix(h: Bytes, n: nat)
    requires FindLineEnd(h) <= n <= |h|
    ensures FindLineEnd(h[..n]) == FindLineEnd(h) && FirstLine(h[..n]) == FirstLine(h)
    decreases |h|
  {
    if h != [] && h[0] != LF {
      assert h[..n][1..] == h[1..][..n - 1];
      FirstLinePrefix(h[1..], n - 1);
    }
    assert h[..n][..FindLineEnd(h)] == h[..FindLineEnd(h)];
  }

  lemma KeepCons(f: Bytes, rest: seq<Bytes>, drop: Bytes -> bool)
    ensures Flatten(Keep([f] + rest, drop)) == (if drop(FirstLine(f)) then [] else f) + Flatten(Keep(rest, drop))
  {
    assert ([f] + rest)[1..] == rest;
    var kept := Keep(rest, drop);
    assert [] + kept == kept && ([f] + kept)[1..] == kept;
  }

  lemma KeepOne(h: Bytes, drop: Bytes -> bool)
    requires h != []
    ensures var n := FieldEnd(h);
            Flatten(Keep(Fields(h), drop)) ==
            (if drop(FirstLine(h)) then [] else h[..n]) + Flatten(Keep(Fields(h[n..]), drop))
  {
    FieldsSplit(h);
    KeepCons(h[..FieldEnd(h)], Fields(h[FieldEnd(h)..]), drop);
  }

  /** The index loop over a header: take a line, swallow its folded lines, keep or drop them together. */
  method DropFields(header: Bytes, drop: Bytes -> bool) returns (out: Bytes)
    ensures out == Flatten(Keep(Fields(header), drop))
  {
    out := [];
    var i := 0;
    KeptFromEnds(header, drop);
    while i < |header|
      invariant i <= |header|
      invariant Flatten(Keep(Fields(header), drop)) == out + KeptFrom(header, i, drop)
    {
      var rest := header[i..];
      var lineEnd := FindLineEnd(rest);
      var skip := FoldedEnd(rest, lineEnd);
      DropOne(header, i, skip, out, drop);
      var kept: Bytes := if drop(rest[..lineEnd]) then [] else rest[..skip];
      out := out + kept;
      i := i + skip;
    }
  }

  function KeptFrom(header: Bytes, i: nat, drop: Bytes -> bool): Bytes
    requires i <= |header|
  {
    Flatten(Keep(Fields(header[i..]), drop))
  }

  lemma KeptFromEnds(header: Bytes, drop: Bytes -> bool)
    ensures [] + KeptFrom(header, 0, drop) == Flatten(Keep(Fields(header), drop))
    ensures KeptFrom(header, |header|, drop) == []
  {
    assert header[0..] == header;
  }

  /** One turn of the loop. */
  lemma DropOne(header: Bytes, i: nat, skip: nat, out: Bytes, drop: Bytes -> bool)
    requires i < |header| && skip == FieldEnd(header[i..])
    ensures var rest := header[i..];
            i + skip <= |header| &&
            out + KeptFrom(header, i, drop) ==
            (out + if drop(FirstLine(rest)) then [] else rest[..skip]) + KeptFrom(header, i + skip, drop)
  {
    var rest := header[i..];
    KeepOne(rest, drop);
    assert rest[skip..] == header[i + skip..];
    PlusAssoc(out, if drop(FirstLine(rest)) then [] else rest[..skip], Flatten(Keep(Fields(header[i + skip..]), drop)));
  }

  lemma PlusAssoc(a: Bytes, b: Bytes, c: Bytes)
    ensures a + (b + c) == (a + b) + c
  {}

  /** How many following folded lines go along with the first one. */
  method FoldedEnd(rest: Bytes, lineEnd: nat) returns (skip: nat)
    requires lineEnd <= |rest|
    ensures skip == SkipFolded(rest, lineEnd)
  {
    skip := lineEnd;
    while skip < |rest|
      invariant skip <= |rest| && SkipFolded(rest, skip) == SkipFolded(rest, lineEnd)
    {
      if !IsContinuation(rest[skip..]) { break; }
      skip := skip + FindLineEnd(rest[skip..]);
    }
  }
}
