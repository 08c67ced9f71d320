/** When stripping undoes injecting, for every message. */
module RoundTrip {
  import opened Prelude
  import opened HeaderFields
  import opened Family2

  // -------------------------------------------------------------------------
  // A block of lines put before a message
  // -------------------------------------------------------------------------

  /** Text, then CRLF. */
  ghost predicate TextLine(l: Bytes) {
    && |l| >= 3 && l[|l| - 1] == LF && l[|l| - 2] == CR
    && forall i :: 0 <= i < |l| - 2 ==> l[i] != CR && l[i] != LF
  }

  ghost predicate Starter(l: Bytes) {
    TextLine(l) && !IsContinuation(l)
  }

  /** Lines of text in a row: no separator inside, text before the final CRLF. */
  ghost predicate Block(p: Bytes) {
    && |p| >= 3 && p[|p| - 1] == LF && p[|p| - 2] == CR && p[|p| - 3] != CR
    && forall i :: 0 <= i < |p| && p[i] == LF ==> 2 <= i && p[i - 1] == CR && p[i - 2] != LF
  }

  lemma LineIsBlock(l: Bytes)
    requires TextLine(l)
    ensures Block(l) && IsLine(l) && l[0] != LF && l[0] != CR
  {}

  lemma BlockAppend(p: Bytes, l: Bytes)
    requires Block(p) && TextLine(l)
    ensures Block(p + l)
  {
    var q := p + l;
    forall i | 0 <= i < |q| && q[i] == LF ensures 2 <= i && q[i - 1] == CR && q[i - 2] != LF {
      if i >= |p| { assert l[i - |p|] == LF; }
    }
  }

  predicate StartsCrlf(b: Bytes) {
    |b| >= 2 && b[0] == CR && b[1] == LF
  }

  lemma OccursIs4(b: Bytes, j: nat)
    ensures OccursAt(b, CRLFCRLF, j) <==>
            j + 4 <= |b| && b[j] == CR && b[j + 1] == LF && b[j + 2] == CR && b[j + 3] == LF
  {
    if j + 4 <= |b| { assert b[j..j + 4] == [b[j], b[j + 1], b[j + 2], b[j + 3]]; }
  }

  lemma OccursIs2(b: Bytes, j: nat)
    ensures OccursAt(b, LFLF, j) <==> j + 2 <= |b| && b[j] == LF && b[j + 1] == LF
  {
    if j + 2 <= |b| { assert b[j..j + 2] == [b[j], b[j + 1]]; }
  }

  lemma Crossing4(p: Bytes, b: Bytes, j: nat)
    requires Block(p)
    ensures j < |p| ==> (OccursAt(p + b, CRLFCRLF, j) <==> j == |p| - 2 && StartsCrlf(b))
    ensures OccursAt(p + b, CRLFCRLF, |p| + j) <==> OccursAt(b, CRLFCRLF, j)
  {
    OccursIs4(p + b, j);
    OccursIs4(p + b, |p| + j);
    OccursIs4(b, j);
  }

  lemma Crossing2(p: Bytes, b: Bytes, j: nat)
    requires Block(p)
    ensures j < |p| ==> (OccursAt(p + b, LFLF, j) <==> j == |p| - 1 && b != [] && b[0] == LF)
    ensures OccursAt(p + b, LFLF, |p| + j) <==> OccursAt(b, LFLF, j)
  {
    OccursIs2(p + b, j);
    OccursIs2(p + b, |p| + j);
    OccursIs2(b, j);
  }

  lemma FindIs(b: Bytes, needle: Bytes, i: nat)
    requires OccursAt(b, needle, i) && forall j: nat :: j < i ==> !OccursAt(b, needle, j)
    ensures FindSubseq(b, needle) == Some(i)
  {}

  lemma FindNot(b: Bytes, needle: Bytes)
    requires forall j: nat :: !OccursAt(b, needle, j)
    ensures FindSubseq(b, needle) == None
  {}

  /** `x` starts with `n` bytes in which the needle occurs at most at `at`, and then occurs where it does in `b`. */
  lemma FindPast(x: Bytes, n: nat, b: Bytes, needle: Bytes, at: Option<nat>)
    requires at.Some? ==> at.value < n
    requires forall j: nat :: j < n ==> (OccursAt(x, needle, j) <==> at == Some(j))
    requires forall j: nat :: n <= j ==> (OccursAt(x, needle, j) <==> OccursAt(b, needle, j - n))
    ensures FindSubseq(x, needle) ==
            if at.Some? then at else match FindSubseq(b, needle) case None => None case Some(i) => Some(n + i)
  {
    if at.Some? {
      FindIs(x, needle, at.value);
    } else {
      match FindSubseq(b, needle) {
        case Some(i) => FindIs(x, needle, n + i);
        case None => FindNot(x, needle);
      }
    }
  }

  lemma Find4AfterBlock(p: Bytes, b: Bytes)
    requires Block(p)
    ensures FindSubseq(p + b, CRLFCRLF) ==
            if StartsCrlf(b) then Some(|p| - 2)
            else match FindSubseq(b, CRLFCRLF) case None => None case Some(i) => Some(|p| + i)
  {
    forall j: nat | j < |p| ensures OccursAt(p + b, CRLFCRLF, j) <==> j == |p| - 2 && StartsCrlf(b) { Crossing4(p, b, j); }
    forall j: nat | |p| <= j ensures OccursAt(p + b, CRLFCRLF, j) <==> OccursAt(b, CRLFCRLF, j - |p|) {
      Crossing4(p, b, j - |p|);
    }
    FindPast(p + b, |p|, b, CRLFCRLF, if StartsCrlf(b) then Some(|p| - 2) else None);
  }

  lemma Find2AfterBlock(p: Bytes, b: Bytes)
    requires Block(p)
    ensures FindSubseq(p + b, LFLF) ==
            if b != [] && b[0] == LF then Some(|p| - 1)
            else match FindSubseq(b, LFLF) case None => None case Some(i) => Some(|p| + i)
  {
    var starts := b != [] && b[0] == LF;
    forall j: nat | j < |p| ensures OccursAt(p + b, LFLF, j) <==> j == |p| - 1 && starts { Crossing2(p, b, j); }
    forall j: nat | |p| <= j ensures OccursAt(p + b, LFLF, j) <==> OccursAt(b, LFLF, j - |p|) {
      Crossing2(p, b, j - |p|);
    }
    FindPast(p + b, |p|, b, LFLF, if starts then Some(|p| - 1) else None);
  }

  /** The message opens with what reads as a blank line once lines stand before it. */
  predicate BlankFirst(b: Bytes) {
    StartsCrlf(b) || (b != [] && b[0] == LF && FindSubseq(b, CRLFCRLF).None?)
  }

  /** The blank line itself. */
  function Blank(b: Bytes): Bytes
    requires BlankFirst(b)
  {
    if StartsCrlf(b) then b[..2] else b[..1]
  }

  lemma HeaderEndAfterBlock(p: Bytes, b: Bytes)
    requires Block(p)
    ensures HeaderEnd(p + b) == |p| + if BlankFirst(b) then |Blank(b)| else HeaderEnd(b)
  {
    Find4AfterBlock(p, b);
    Find2AfterBlock(p, b);
  }

  lemma CutPast(p: Bytes, b: Bytes, n: nat)
    requires n <= |b|
    ensures (p + b)[..|p| + n] == p + b[..n] && (p + b)[|p| + n..] == b[n..]
  {}

  lemma HeaderAfterBlock(p: Bytes, b: Bytes)
    requires Block(p)
    ensures BlankFirst(b) ==> Header(p + b) == p + Blank(b) && Body(p + b) == b[|Blank(b)|..]
    ensures !BlankFirst(b) ==> Header(p + b) == p + Header(b) && Body(p + b) == Body(b)
  {
    HeaderEndAfterBlock(p, b);
    CutPast(p, b, if BlankFirst(b) then |Blank(b)| else HeaderEnd(b));
  }

  // -------------------------------------------------------------------------
  // Fields of a block and what follows
  // -------------------------------------------------------------------------

  lemma {:induction false} SkipShift(a: Bytes, h: Bytes, n: nat)
    requires n <= |h|
    ensures SkipFolded(a + h, |a| + n) == |a| + SkipFolded(h, n)
    decreases |h| - n
  {
    assert (a + h)[|a| + n..] == h[n..];
    if IsContinuation(h[n..]) { SkipShift(a, h, n + FindLineEnd(h[n..])); }
  }

  /** Folded lines after a line belong to its field. */
  lemma FieldsOfFolded(l: Bytes, rest: Bytes)
    requires IsLine(l) && IsContinuation(rest)
    ensures Fields(l + rest) == [l + rest[..FieldEnd(rest)]] + Fields(rest[FieldEnd(rest)..])
    ensures FirstLine(l + rest[..FieldEnd(rest)]) == l
  {
    var n := FieldEnd(rest);
    FieldEndOfFolded(l, rest);
    CutPast(l, rest, n);
    FieldsNext(l + rest);
    LineEndOf(l, rest[..n]);
  }

  lemma FieldEndOfFolded(l: Bytes, rest: Bytes)
    requires IsLine(l) && IsContinuation(rest)
    ensures FieldEnd(l + rest) == |l| + FieldEnd(rest)
  {
    LineEndOf(l, rest);
    SkipShift(l, rest, 0);
    assert rest[0..] == rest;
  }

  // -------------------------------------------------------------------------
  // Stripping after injecting
  // -------------------------------------------------------------------------

  /** Three lines that are dropped. */
  ghost predicate Dropped3(l1: Bytes, l2: Bytes, l3: Bytes, drop: Bytes -> bool) {
    Starter(l1) && Starter(l2) && Starter(l3) && drop(l1) && drop(l2) && drop(l3)
  }

  /** The filter never drops a line that opens with a blank, a tab or a line end. */
  ghost predicate KeepsBlanks(drop: Bytes -> bool) {
    forall l :: drop(l) ==> l != [] && l[0] != SP && l[0] != TAB && l[0] != CR && l[0] != LF
  }

  lemma DropLine(l: Bytes, rest: Bytes, drop: Bytes -> bool)
    requires IsLine(l) && drop(l) && !IsContinuation(rest)
    ensures Flatten(Keep(Fields(l + rest), drop)) == Flatten(Keep(Fields(rest), drop))
  {
    FieldsOfLine(l, rest);
    LineEndOf(l, []);
    assert l + [] == l;
    KeepCons(l, Fields(rest), drop);
  }

  lemma FoldedStart(rest: Bytes, drop: Bytes -> bool)
    requires IsContinuation(rest) && KeepsBlanks(drop)
    ensures Flatten(Keep(Fields(rest), drop)) == rest[..FieldEnd(rest)] + Flatten(Keep(Fields(rest[FieldEnd(rest)..]), drop))
  {
    assert FirstLine(rest)[0] == rest[0];
    KeepOne(rest, drop);
  }

  lemma FoldedDropped(l: Bytes, rest: Bytes, drop: Bytes -> bool)
    requires IsLine(l) && drop(l) && IsContinuation(rest)
    ensures Flatten(Keep(Fields(l + rest), drop)) == Flatten(Keep(Fields(rest[FieldEnd(rest)..]), drop))
  {
    FieldsOfFolded(l, rest);
    KeepCons(l + rest[..FieldEnd(rest)], Fields(rest[FieldEnd(rest)..]), drop);
  }

  /** The last line takes the folded lines that follow with it. */
  lemma DropFolded(l: Bytes, rest: Bytes, drop: Bytes -> bool)
    requires IsLine(l) && drop(l) && IsContinuation(rest) && KeepsBlanks(drop)
    ensures Flatten(Keep(Fields(rest), drop)) == rest[..FieldEnd(rest)] + Flatten(Keep(Fields(l + rest), drop))
  {
    FoldedDropped(l, rest, drop);
    FoldedStart(rest, drop);
  }

  lemma DropBlock(l1: Bytes, l2: Bytes, l3: Bytes, rest: Bytes, drop: Bytes -> bool)
    requires Dropped3(l1, l2, l3, drop) && KeepsBlanks(drop)
    ensures !IsContinuation(rest) ==>
              Flatten(Keep(Fields(l1 + l2 + l3 + rest), drop)) == Flatten(Keep(Fields(rest), drop))
    ensures IsContinuation(rest) ==>
              Flatten(Keep(Fields(rest), drop)) ==
              rest[..FieldEnd(rest)] + Flatten(Keep(Fields(l1 + l2 + l3 + rest), drop))
  {
    LineIsBlock(l1);
    LineIsBlock(l2);
    LineIsBlock(l3);
    assert l1 + l2 + l3 + rest == l1 + (l2 + (l3 + rest));
    DropLine(l1, l2 + (l3 + rest), drop);
    DropLine(l2, l3 + rest, drop);
    if IsContinuation(rest) { DropFolded(l3, rest, drop); } else { DropLine(l3, rest, drop); }
  }

  /** Some field of the message is one to drop. */
  ghost predicate Holds(b: Bytes, drop: Bytes -> bool) {
    exists f :: f in Fields(Header(b)) && drop(FirstLine(f))
  }

  lemma {:induction false} FieldsNonEmpty(h: Bytes)
    ensures forall f :: f in Fields(h) ==> f != []
    decreases |h|
  {
    if h != [] { FieldsNonEmpty(h[FieldEnd(h)..]); }
  }

  lemma {:induction false} KeepAll(fs: seq<Bytes>, drop: Bytes -> bool)
    requires forall f :: f in fs ==> f != []
    ensures |Flatten(Keep(fs, drop))| <= |Flatten(fs)|
    ensures (Flatten(Keep(fs, drop)) == Flatten(fs)) <==> forall f :: f in fs ==> !drop(FirstLine(f))
  {
    if fs != [] {
      assert fs == [fs[0]] + fs[1..];
      assert forall f :: f in fs[1..] ==> f in fs;
      KeepAll(fs[1..], drop);
      KeepCons(fs[0], fs[1..], drop);
      assert (forall f :: f in fs ==> !drop(FirstLine(f))) <==>
             !drop(FirstLine(fs[0])) && forall f :: f in fs[1..] ==> !drop(FirstLine(f));
      if !drop(FirstLine(fs[0])) && Flatten(Keep(fs, drop)) == Flatten(fs) {
        SamePrefix(fs[0], Flatten(Keep(fs[1..], drop)), Flatten(fs[1..]));
      }
    }
  }

  lemma SamePrefix(a: Bytes, b: Bytes, c: Bytes)
    requires a + b == a + c
    ensures b == c
  {
    assert b == (a + b)[|a|..] && c == (a + c)[|a|..];
  }

  /** Stripping leaves a message alone exactly when it holds none of the fields. */
  lemma StripUnchangedIff(b: Bytes, drop: Bytes -> bool)
    ensures StripFields(b, drop) == b <==> !Holds(b, drop)
  {
    var h := Header(b);
    FlattenFields(h);
    FieldsNonEmpty(h);
    KeepAll(Fields(h), drop);
    SameJoin(Flatten(Keep(Fields(h), drop)), h, Body(b), b);
  }

  lemma SameJoin(kept: Bytes, h: Bytes, body: Bytes, b: Bytes)
    requires b == h + body && |kept| <= |h|
    ensures kept + body == b <==> kept == h
  {
    if kept + body == b {
      assert |kept + body| == |h + body|;
      assert kept == b[..|h|] && h == b[..|h|];
    }
  }

  lemma BlankKept(blank: Bytes, drop: Bytes -> bool)
    requires KeepsBlanks(drop) && (blank == [CR, LF] || blank == [LF])
    ensures Flatten(Keep(Fields(blank), drop)) == blank
  {
    assert blank + [] == blank;
    FieldsOfLine(blank, []);
    LineEndOf(blank, []);
    KeepCons(blank, [], drop);
    assert [blank] + [] == [blank];
  }

  lemma AfterBlank(l1: Bytes, l2: Bytes, l3: Bytes, b: Bytes, drop: Bytes -> bool)
    requires Dropped3(l1, l2, l3, drop) && KeepsBlanks(drop) && BlankFirst(b)
    ensures StripFields(l1 + l2 + l3 + b, drop) == b
  {
    var p := l1 + l2 + l3;
    BlockOf3(l1, l2, l3);
    HeaderAfterBlock(p, b);
    DropBlock(l1, l2, l3, Blank(b), drop);
    BlankIs(b);
    BlankKept(Blank(b), drop);
  }

  lemma BlankIs(b: Bytes)
    requires BlankFirst(b)
    ensures Blank(b) == [CR, LF] || Blank(b) == [LF]
    ensures Blank(b) + b[|Blank(b)|..] == b
  {}

  lemma BlockOf3(l1: Bytes, l2: Bytes, l3: Bytes)
    requires TextLine(l1) && TextLine(l2) && TextLine(l3)
    ensures Block(l1 + l2 + l3)
  {
    LineIsBlock(l1);
    BlockAppend(l1, l2);
    BlockAppend(l1 + l2, l3);
  }

  lemma HeaderStart(b: Bytes)
    requires b != []
    ensures Header(b) != [] && Header(b)[0] == b[0]
  {}

  lemma AfterText(l1: Bytes, l2: Bytes, l3: Bytes, b: Bytes, drop: Bytes -> bool)
    requires Dropped3(l1, l2, l3, drop) && KeepsBlanks(drop) && !BlankFirst(b)
    ensures StripFields(l1 + l2 + l3 + b, drop) == StripFields(b, drop) <==> !IsContinuation(b)
  {
    BlockOf3(l1, l2, l3);
    HeaderAfterBlock(l1 + l2 + l3, b);
    var h := Header(b);
    DropBlock(l1, l2, l3, h, drop);
    if b != [] { HeaderStart(b); }
    if IsContinuation(b) {
      var kept := Flatten(Keep(Fields(l1 + l2 + l3 + h), drop));
      assert |h[..FieldEnd(h)] + kept| == FieldEnd(h) + |kept|;
      assert |StripFields(b, drop)| == |StripFields(l1 + l2 + l3 + b, drop)| + FieldEnd(h);
    }
  }

  /**
   Three dropped lines put before a message change nothing for the filter, exactly when the message does not open with
   a folded line, and, if it opens with a blank line, holds no field to drop.
   */
  lemma DroppedLinesVanishIff(l1: Bytes, l2: Bytes, l3: Bytes, b: Bytes, drop: Bytes -> bool)
    requires Dropped3(l1, l2, l3, drop) && KeepsBlanks(drop)
    ensures StripFields(l1 + l2 + l3 + b, drop) == StripFields(b, drop) <==>
            !IsContinuation(b) && (BlankFirst(b) ==> !Holds(b, drop))
  {
    if BlankFirst(b) {
      AfterBlank(l1, l2, l3, b, drop);
      StripUnchangedIff(b, drop);
    } else {
      AfterText(l1, l2, l3, b, drop);
    }
  }

  // -------------------------------------------------------------------------
  // The three headers
  // -------------------------------------------------------------------------

  ghost predicate OneLineText(s: string) {
    '\r' !in s && '\n' !in s
  }

  ghost predicate PlainName(name: Bytes) {
    |name| > 0 && name[0] == 88 && CR !in name && LF !in name
  }

  lemma HeaderLineStarts(name: Bytes, value: string)
    requires PlainName(name) && OneLineText(value)
    ensures var l := HeaderLine(name, value); Starter(l) && StartsWithHeader(l, name)
  {
    Utf8Low(value, '\r');
    Utf8Low(value, '\n');
    var m := name + [SP] + Utf8(value);
    var l := HeaderLine(name, value);
    assert l == m + [CR, LF];
    forall i | 0 <= i < |m| ensures m[i] != CR && m[i] != LF { assert m[i] in m; }
  }

  lemma NamesArePlain()
    ensures PlainName(FAILURE) && PlainName(FAILED_AT) && PlainName(ULID)
  {}

  lemma NamedLineStart(l: Bytes, name: Bytes)
    requires PlainName(name) && StartsWithHeader(l, name)
    ensures l != [] && l[0] != SP && l[0] != TAB && l[0] != CR && l[0] != LF
  {
    assert Lower(l[0]) == Lower(name[0]);
  }

  lemma Family2KeepsBlanks()
    ensures KeepsBlanks(IsFamily2)
  {
    NamesArePlain();
    forall l | IsFamily2(l) ensures l != [] && l[0] != SP && l[0] != TAB && l[0] != CR && l[0] != LF {
      NamedLineStart(l, if StartsWithHeader(l, FAILURE) then FAILURE
                        else if StartsWithHeader(l, FAILED_AT) then FAILED_AT else ULID);
    }
  }

  lemma InjectedLines(reason: string, now: string, ulid: string)
    requires OneLineText(now) && OneLineText(ulid)
    ensures Dropped3(HeaderLine(FAILURE, SanitizeReason(reason)), HeaderLine(FAILED_AT, now), HeaderLine(ULID, ulid), IsFamily2)
  {
    SanitizedIsOneLine(reason);
    NamesArePlain();
    HeaderLineStarts(FAILURE, SanitizeReason(reason));
    HeaderLineStarts(FAILED_AT, now);
    HeaderLineStarts(ULID, ulid);
  }

  /** Message content that neither opens with a folded line nor, opening with a blank line, holds a Family-2 field. */
  ghost predicate RoundTrips(b: Bytes) {
    !IsContinuation(b) && (BlankFirst(b) ==> !Holds(b, IsFamily2))
  }

  /** For every reason, stripping after injecting equals stripping the message itself exactly when it round-trips. */
  lemma StripInjectIff(b: Bytes, reason: string, now: string, ulid: string)
    requires OneLineText(now) && OneLineText(ulid)
    ensures Strip(Inject(b, reason, now, ulid)) == Strip(b) <==> RoundTrips(b)
  {
    InjectedLines(reason, now, ulid);
    Family2KeepsBlanks();
    DroppedLinesVanishIff(HeaderLine(FAILURE, SanitizeReason(reason)), HeaderLine(FAILED_AT, now), HeaderLine(ULID, ulid),
                          b, IsFamily2);
  }

  /** In particular for every message whose first byte is not a space, tab, CR or LF. */
  lemma StripInject(b: Bytes, reason: string, now: string, ulid: string)
    requires OneLineText(now) && OneLineText(ulid)
    requires b == [] || (b[0] != SP && b[0] != TAB && b[0] != CR && b[0] != LF)
    ensures Strip(Inject(b, reason, now, ulid)) == Strip(b)
    ensures !Holds(b, IsFamily2) ==> Strip(Inject(b, reason, now, ulid)) == b
  {
    StripInjectIff(b, reason, now, ulid);
    StripUnchangedIff(b, IsFamily2);
  }
}
