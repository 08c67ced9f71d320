/** When stripping twice is stripping once, for every message. */
module Idempotence {
  import opened Prelude
  import opened HeaderFields
  import opened Family2
  import opened RoundTrip
  import opened QueueStrip

  // -------------------------------------------------------------------------
  // Fields to drop, line by line
  // -------------------------------------------------------------------------

  /** A line to drop starts here. */
  ghost predicate DroppedAt(x: Bytes, i: nat, drop: Bytes -> bool) {
    i < |x| && (i == 0 || x[i - 1] == LF) && drop(FirstLine(x[i..]))
  }

  ghost predicate SomeDropped(x: Bytes, drop: Bytes -> bool) {
    exists i: nat :: DroppedAt(x, i, drop)
  }

  /** Some field is one to drop. */
  ghost predicate HoldsIn(x: Bytes, drop: Bytes -> bool) {
    exists f :: f in Fields(x) && drop(FirstLine(f))
  }

  /** Every line start inside folded lines is folded. */
  lemma {:induction false} FoldedInside(h: Bytes, k: nat, i: nat)
    requires k <= |h| && k <= i < SkipFolded(h, k) && (i == k || h[i - 1] == LF)
    ensures IsContinuation(h[i..])
    decreases |h| - k
  {
    var l := FindLineEnd(h[k..]);
    NoLfInside(h, k, l);
    if i > k { FoldedInside(h, k + l, i); }
  }

  lemma NoLfInside(h: Bytes, k: nat, l: nat)
    requires k <= |h| && l == FindLineEnd(h[k..])
    ensures forall j :: k <= j < k + l - 1 ==> h[j] != LF
  {
    LineEndIsLine(h[k..]);
    var line := h[k..][..l];
    forall j | k <= j < k + l - 1 ensures h[j] != LF {
      assert h[j] == line[j - k] && line[j - k] in line && line[j - k] in line[..|line| - 1];
    }
  }

  /** Only the first line of a field can be one to drop. */
  lemma OnlyFirstLine(h: Bytes, i: nat, drop: Bytes -> bool)
    requires h != [] && 0 < i < FieldEnd(h) && h[i - 1] == LF && KeepsBlanks(drop)
    ensures !DroppedAt(h, i, drop)
  {
    var l := FindLineEnd(h);
    assert h[0..] == h;
    NoLfInside(h, 0, l);
    FoldedInside(h, l, i);
    assert FirstLine(h[i..])[0] == h[i];
  }

  /** Lines after a line end do not look back. */
  lemma DroppedPast(h: Bytes, n: nat, i: nat, drop: Bytes -> bool)
    requires 0 < n <= i && n <= |h| && h[n - 1] == LF
    ensures DroppedAt(h, i, drop) <==> DroppedAt(h[n..], i - n, drop)
  {
    if i < |h| { assert h[n..][i - n..] == h[i..]; }
  }

  lemma SomeDroppedNext(h: Bytes, drop: Bytes -> bool)
    requires h != [] && KeepsBlanks(drop)
    ensures SomeDropped(h, drop) <==> drop(FirstLine(h)) || SomeDropped(h[FieldEnd(h)..], drop)
  {
    var n := FieldEnd(h);
    assert h[0..] == h;
    if n < |h| {
      FieldEndsInLf(h);
      assert h[..n][n - 1] == h[n - 1];
    }
    if i: nat :| DroppedAt(h, i, drop) {
      if i > 0 {
        if i < n { OnlyFirstLine(h, i, drop); }
        DroppedPast(h, n, i, drop);
      }
    }
    if i: nat :| DroppedAt(h[n..], i, drop) { DroppedPast(h, n, n + i, drop); }
    if drop(FirstLine(h)) { assert DroppedAt(h, 0, drop); }
  }

  /** A field to drop is a line to drop, for no folded line is one. */
  lemma {:induction false} HoldsIffLine(h: Bytes, drop: Bytes -> bool)
    requires KeepsBlanks(drop)
    ensures HoldsIn(h, drop) <==> SomeDropped(h, drop)
    decreases |h|
  {
    if h != [] {
      var n := FieldEnd(h);
      HoldsIffLine(h[n..], drop);
      SomeDroppedNext(h, drop);
      FieldsSplit(h);
      assert Fields(h)[0] == h[..n];
      assert forall f :: f in Fields(h) <==> f == h[..n] || f in Fields(h[n..]);
    }
  }

  // -------------------------------------------------------------------------
  // What is kept holds nothing to drop
  // -------------------------------------------------------------------------

  lemma DroppedInJoin(f: Bytes, rest: Bytes, i: nat, drop: Bytes -> bool)
    requires f == [] || EndsInLf(f)
    ensures i < |f| ==> (DroppedAt(f + rest, i, drop) <==> DroppedAt(f, i, drop))
    ensures DroppedAt(f + rest, |f| + i, drop) <==> DroppedAt(rest, i, drop)
  {
    var both := f + rest;
    if i < |f| {
      assert both[i..] == f[i..] + rest;
      LineEndInside(f[i..], rest);
      assert (f[i..] + rest)[..FindLineEnd(f[i..])] == f[i..][..FindLineEnd(f[i..])];
    }
    assert both[|f|..] == rest;
    if i < |rest| { assert both[|f| + i..] == rest[i..]; }
  }

  /** Some line of two joined parts is to drop when it is in one of them. */
  lemma SomeDroppedInJoin(f: Bytes, rest: Bytes, drop: Bytes -> bool)
    requires f == [] || EndsInLf(f)
    ensures SomeDropped(f + rest, drop) <==> SomeDropped(f, drop) || SomeDropped(rest, drop)
  {
    if i: nat :| DroppedAt(f + rest, i, drop) {
      if i < |f| {
        DroppedInJoin(f, rest, i, drop);
        assert DroppedAt(f, i, drop);
      } else {
        DroppedInJoin(f, rest, i - |f|, drop);
        assert DroppedAt(rest, i - |f|, drop);
      }
    }
    if i: nat :| DroppedAt(f, i, drop) {
      DroppedInJoin(f, rest, i, drop);
      assert DroppedAt(f + rest, i, drop);
    }
    if i: nat :| DroppedAt(rest, i, drop) {
      DroppedInJoin(f, rest, i, drop);
      assert DroppedAt(f + rest, |f| + i, drop);
    }
  }

  function Kept(h: Bytes, drop: Bytes -> bool): Bytes {
    Flatten(Keep(Fields(h), drop))
  }

  lemma OneFieldKept(h: Bytes, drop: Bytes -> bool)
    requires h != [] && KeepsBlanks(drop) && !drop(FirstLine(h))
    ensures !SomeDropped(h[..FieldEnd(h)], drop)
  {
    var n := FieldEnd(h);
    var f := h[..n];
    FirstLinePrefix(h, n);
    assert f[0..] == f;
    forall i: nat ensures !DroppedAt(f, i, drop) {
      if 0 < i < n && f[i - 1] == LF {
        FoldedFromFirst(h, n, i);
        assert FirstLine(f[i..])[0] == h[i];
      }
    }
  }

  lemma FoldedFromFirst(h: Bytes, n: nat, i: nat)
    requires h != [] && n == FieldEnd(h) && 0 < i < n && h[i - 1] == LF
    ensures h[i] == SP || h[i] == TAB
  {
    assert h[0..] == h;
    NoLfInside(h, 0, FindLineEnd(h));
    FoldedInside(h, FindLineEnd(h), i);
  }

  lemma {:induction false} KeptHoldsNone(h: Bytes, drop: Bytes -> bool)
    requires KeepsBlanks(drop)
    ensures !SomeDropped(Kept(h, drop), drop)
    ensures h == [] || EndsInLf(h) ==> Kept(h, drop) == [] || EndsInLf(Kept(h, drop))
    decreases |h|
  {
    if h != [] {
      var n := FieldEnd(h);
      KeptHoldsNone(h[n..], drop);
      if n < |h| && EndsInLf(h) { assert h[n..][|h| - n - 1] == h[|h| - 1]; }
      KeptOneMore(h, n, Kept(h[n..], drop), drop);
    }
  }

  lemma KeptOneMore(h: Bytes, n: nat, rest: Bytes, drop: Bytes -> bool)
    requires h != [] && n == FieldEnd(h) && KeepsBlanks(drop) && rest == Kept(h[n..], drop)
    requires !SomeDropped(rest, drop) && (EndsInLf(h) ==> rest == [] || EndsInLf(rest))
    ensures !SomeDropped(Kept(h, drop), drop)
    ensures EndsInLf(h) ==> Kept(h, drop) == [] || EndsInLf(Kept(h, drop))
  {
    KeepOne(h, drop);
    if drop(FirstLine(h)) { NothingPlus(rest); } else { KeptFieldHoldsNone(h, n, rest, drop); }
  }

  lemma KeptFieldHoldsNone(h: Bytes, n: nat, rest: Bytes, drop: Bytes -> bool)
    requires h != [] && n == FieldEnd(h) && KeepsBlanks(drop) && !drop(FirstLine(h))
    requires !SomeDropped(rest, drop) && (n == |h| ==> rest == [])
    ensures !SomeDropped(h[..n] + rest, drop)
    ensures EndsInLf(h) && (rest == [] || EndsInLf(rest)) ==> EndsInLf(h[..n] + rest)
  {
    OneFieldKept(h, drop);
    if n < |h| {
      FieldEndsInLf(h);
      SomeDroppedInJoin(h[..n], rest, drop);
    } else {
      assert h[..n] + [] == h[..n] && h[..n] == h;
    }
  }

  // -------------------------------------------------------------------------
  // Stripping twice
  // -------------------------------------------------------------------------

  lemma PrefixHoldsNone(x: Bytes, p: Bytes, rest: Bytes, drop: Bytes -> bool)
    requires x == p + rest && (p == x || EndsInLf(p)) && !SomeDropped(x, drop)
    ensures !SomeDropped(p, drop)
  {
    if p != x { SomeDroppedInJoin(p, rest, drop); }
  }

  /** A header that does not reach the end of its message ends with its separator. */
  lemma HeaderEndsInLf(b: Bytes)
    ensures Body(b) != [] ==> EndsInLf(Header(b))
    ensures Header(b) == b || EndsInLf(Header(b))
  {
    var r4, r2 := FindSubseq(b, CRLFCRLF), FindSubseq(b, LFLF);
    if r4.Some? {
      OccursIs4(b, r4.value);
    } else if r2.Some? {
      OccursIs2(b, r2.value);
    } else {
      assert b[..|b|] == b && b[|b|..] == [];
    }
  }

  /** The part of the body that the stripped message reads as header. */
  function Exposed(b: Bytes, drop: Bytes -> bool): Bytes {
    var kept, body := Kept(Header(b), drop), Body(b);
    var n := HeaderEnd(kept + body);
    if n <= |kept| then [] else body[..n - |kept|]
  }

  /**
   Stripping twice is stripping once exactly when the part of the body that has become header holds no field to drop;
   there is no such part when the kept fields still contain the end of the header.
   */
  lemma StripTwiceIff(b: Bytes, drop: Bytes -> bool)
    requires KeepsBlanks(drop)
    ensures StripFields(StripFields(b, drop), drop) == StripFields(b, drop) <==> !HoldsIn(Exposed(b, drop), drop)
  {
    var kept, body := Kept(Header(b), drop), Body(b);
    StripUnchangedIff(kept + body, drop);
    KeptHoldsNone(Header(b), drop);
    HeaderEndsInLf(b);
    ExposedDecides(kept, body, kept + body, Exposed(b, drop), drop);
  }

  /** Kept fields hold nothing to drop, so the rest of the new header decides. */
  lemma ExposedDecides(kept: Bytes, body: Bytes, once: Bytes, exposed: Bytes, drop: Bytes -> bool)
    requires KeepsBlanks(drop) && once == kept + body && !SomeDropped(kept, drop)
    requires body != [] ==> kept == [] || EndsInLf(kept)
    requires exposed == if HeaderEnd(once) <= |kept| then [] else body[..HeaderEnd(once) - |kept|]
    ensures Holds(once, drop) <==> HoldsIn(exposed, drop)
  {
    HoldsIffLine(Header(once), drop);
    HoldsIffLine(exposed, drop);
    LinesDecide(kept, body, HeaderEnd(once), exposed, drop);
  }

  lemma LinesDecide(kept: Bytes, body: Bytes, n: nat, exposed: Bytes, drop: Bytes -> bool)
    requires !SomeDropped(kept, drop) && n == HeaderEnd(kept + body) && (body != [] ==> kept == [] || EndsInLf(kept))
    requires n > |kept| ==> n - |kept| <= |body|
    requires exposed == if n <= |kept| then [] else body[..n - |kept|]
    ensures SomeDropped(Header(kept + body), drop) <==> SomeDropped(exposed, drop)
  {
    if n <= |kept| {
      HeaderEndsInLf(kept + body);
      EndsInKept(kept, body, drop);
    } else {
      BodyThere(kept, body);
      EndsInBody(kept, body, drop);
    }
  }

  lemma BodyThere(kept: Bytes, body: Bytes)
    requires HeaderEnd(kept + body) > |kept|
    ensures body != []
  {
    assert |kept + body| == |kept| + |body|;
  }

  lemma EndsInKept(kept: Bytes, body: Bytes, drop: Bytes -> bool)
    requires HeaderEnd(kept + body) <= |kept| && !SomeDropped(kept, drop)
    requires Header(kept + body) == kept + body || EndsInLf(Header(kept + body))
    ensures !SomeDropped(Header(kept + body), drop) && !SomeDropped([], drop)
  {
    var n := HeaderEnd(kept + body);
    var head := (kept + body)[..n];
    assert head == kept[..n] && kept == kept[..n] + kept[n..];
    if head == kept + body { assert head == kept; }
    PrefixHoldsNone(kept, kept[..n], kept[n..], drop);
    NothingHolds(drop);
  }

  lemma EndsInBody(kept: Bytes, body: Bytes, drop: Bytes -> bool)
    requires HeaderEnd(kept + body) > |kept| && !SomeDropped(kept, drop) && (kept == [] || EndsInLf(kept))
    ensures SomeDropped(Header(kept + body), drop) <==> SomeDropped(body[..HeaderEnd(kept + body) - |kept|], drop)
  {
    var n := HeaderEnd(kept + body);
    assert (kept + body)[..n] == kept + body[..n - |kept|];
    SomeDroppedInJoin(kept, body[..n - |kept|], drop);
  }

  lemma NothingHolds(drop: Bytes -> bool)
    ensures !SomeDropped([], drop)
  {}

  // -------------------------------------------------------------------------
  // For the caller
  // -------------------------------------------------------------------------

  lemma Family2IsEndBlind()
    ensures EndBlind(IsFamily2)
  {
    forall l, t | Terminator(t) && LF !in l ensures IsFamily2(l + t) == IsFamily2(l) {
      NameBeforeEnd(l, t, FAILURE);
      NameBeforeEnd(l, t, FAILED_AT);
      NameBeforeEnd(l, t, ULID);
    }
  }

  lemma NameBeforeEnd(l: Bytes, t: Bytes, name: Bytes)
    requires Terminator(t) && forall i :: 0 <= i < |name| ==> name[i] != CR && name[i] != LF
    ensures StartsWithHeader(l + t, name) == StartsWithHeader(l, name)
  {
    if |l| < |name| <= |l + t| {
      assert (l + t)[|l|] == t[0] && Lower(t[0]) != Lower(name[|l|]);
    }
    assert forall i :: 0 <= i < |l| ==> (l + t)[i] == l[i];
  }

  /** No separator starts past the end of kept fields that end with one. */
  lemma SeparatorStands(k0: Bytes, t: Bytes, body: Bytes)
    requires Terminator(t) && (t == [LF] ==> FindSubseq(body, CRLFCRLF).None?)
    ensures HeaderEnd(k0 + t + t + body) <= |k0 + t + t|
  {
    var s := k0 + t + t + body;
    if t == [CR, LF] {
      assert s[|k0|..|k0| + 4] == CRLFCRLF;
      assert OccursAt(s, CRLFCRLF, |k0|);
    } else {
      assert s[|k0|..|k0| + 2] == LFLF;
      assert OccursAt(s, LFLF, |k0|);
      var r := FindSubseq(s, CRLFCRLF);
      if r.Some? && r.value + 4 > |k0| + 2 {
        OccursIs4(s, r.value);
        var j := r.value - (|k0| + 2);
        assert s[|k0|] == LF && s[|k0| + 1] == LF;
        assert r.value >= |k0| + 2;
        assert s[r.value..r.value + 4] == body[j..j + 4];
        assert OccursAt(body, CRLFCRLF, j);
      }
    }
  }

  lemma BodyHasNoCrlf(b: Bytes)
    requires FindSubseq(b, CRLFCRLF).None?
    ensures FindSubseq(Body(b), CRLFCRLF).None?
  {
    var n := HeaderEnd(b);
    forall j: nat ensures !OccursAt(b[n..], CRLFCRLF, j) {
      OccursIs4(b[n..], j);
      OccursIs4(b, n + j);
    }
  }

  /** Stripping is idempotent on every message that keeps the last field before its blank line. */
  lemma IdempotentWhenLastKept(b: Bytes, drop: Bytes -> bool)
    requires KeepsBlanks(drop) && EndBlind(drop) && !LastFieldDropped(b[..QueueHeaderEnd(b)], drop)
    ensures StripFields(StripFields(b, drop), drop) == StripFields(b, drop)
  {
    StripTwiceIff(b, drop);
    var h0 := b[..QueueHeaderEnd(b)];
    var t := Separator(b);
    var kept := Kept(Header(b), drop);
    if t == [] {
      assert Header(b) == b by { assert h0 + t + t == h0; }
      assert Body(b) == [];
    } else {
      KeepWithSeparator(h0, t, drop);
      PlusNothing(kept);
      if t == [LF] { BodyHasNoCrlf(b); }
      SeparatorStands(Kept(h0, drop), t, Body(b));
    }
    HoldsIffLine([], drop);
    NothingHolds(drop);
  }

  /** The same for the three diagnostic headers. */
  lemma StripIdempotentIff(b: Bytes)
    ensures Strip(Strip(b)) == Strip(b) <==> !HoldsIn(Exposed(b, IsFamily2), IsFamily2)
    ensures !LastFieldDropped(b[..QueueHeaderEnd(b)], IsFamily2) ==> Strip(Strip(b)) == Strip(b)
  {
    Family2KeepsBlanks();
    Family2IsEndBlind();
    StripTwiceIff(b, IsFamily2);
    if !LastFieldDropped(b[..QueueHeaderEnd(b)], IsFamily2) { IdempotentWhenLastKept(b, IsFamily2); }
  }

  // -------------------------------------------------------------------------
  // Two inputs at which it fails
  // -------------------------------------------------------------------------

  const BLANK: Bytes := [CR, LF]

  /** A line that ends in LF alone, or nothing. */
  ghost predicate LooseStart(p: Bytes) {
    p == [] || (IsLine(p) && CR !in p)
  }

  /** A kept line or none, a dropped field, the blank line; the body looks like a header with the dropped field again. */
  function TwoHeaders(p: Bytes, l: Bytes): Bytes {
    p + (l + BLANK) + (l + BLANK)
  }

  lemma TwoHeadersSplit(p: Bytes, l: Bytes)
    requires LooseStart(p) && TextLine(l)
    ensures Header(TwoHeaders(p, l)) == p + (l + BLANK) && Body(TwoHeaders(p, l)) == l + BLANK
  {
    var b, n := TwoHeaders(p, l), |p| + |l| - 2;
    FirstHeaderEnds(p, l, l + BLANK, b);
    FindIs(b, CRLFCRLF, n);
    JoinSplits(p + (l + BLANK), l + BLANK);
  }

  /** The first blank line follows the first dropped field. */
  lemma FirstHeaderEnds(p: Bytes, l: Bytes, rest: Bytes, b: Bytes)
    requires LooseStart(p) && TextLine(l) && b == p + (l + BLANK) + rest
    ensures var n := |p| + |l| - 2; OccursAt(b, CRLFCRLF, n) && forall j: nat :: j < n ==> !OccursAt(b, CRLFCRLF, j)
  {
    var n := |p| + |l| - 2;
    assert forall i :: 0 <= i < |p| ==> b[i] == p[i] && p[i] in p;
    assert forall i :: 0 <= i < |l| ==> b[|p| + i] == l[i];
    assert b[|p| + |l|] == CR && b[|p| + |l| + 1] == LF;
    forall j: nat | j < n ensures !OccursAt(b, CRLFCRLF, j) { OccursIs4(b, j); }
    OccursIs4(b, n);
  }

  lemma JoinSplits(a: Bytes, b: Bytes)
    ensures (a + b)[..|a|] == a && (a + b)[|a|..] == b
  {}

  lemma RestSplit(p: Bytes, l: Bytes)
    requires LooseStart(p) && TextLine(l)
    ensures HeaderEnd((p + BLANK) + (l + BLANK)) == |(p + BLANK) + (l + BLANK)|
  {
    var b, n := (p + BLANK) + (l + BLANK), |p| + |l|;
    assert forall i :: 0 <= i < |p| ==> b[i] == p[i] && p[i] in p;
    assert forall i :: 0 <= i < |l| ==> b[|p| + 2 + i] == l[i];
    assert b[|p|] == CR && b[|p| + 1] == LF && b[n + 2] == CR && b[n + 3] == LF;
    forall j: nat | j < n ensures !OccursAt(b, CRLFCRLF, j) { OccursIs4(b, j); }
    OccursIs4(b, n);
    FindIs(b, CRLFCRLF, n);
  }

  lemma FieldsOfDropped(l: Bytes, drop: Bytes -> bool)
    requires TextLine(l) && drop(l) && KeepsBlanks(drop)
    ensures Kept(l + BLANK, drop) == BLANK && HoldsIn(l + BLANK, drop)
  {
    LineIsBlock(l);
    DropLine(l, BLANK, drop);
    BlankKept(BLANK, drop);
    FieldsOfLine(l, BLANK);
    LineEndOf(l, []);
    assert l + [] == l;
    assert Fields(l + BLANK)[0] == l;
  }

  /** Stripping twice takes away more, whether all headers are dropped (no `p`) or the line before ends in LF alone. */
  lemma StripTwiceTakesMore(p: Bytes, l: Bytes, drop: Bytes -> bool)
    requires LooseStart(p) && TextLine(l) && drop(l) && KeepsBlanks(drop) && (p != [] ==> !drop(p))
    ensures var b := TwoHeaders(p, l); StripFields(StripFields(b, drop), drop) != StripFields(b, drop)
  {
    ExposedOfTwo(p, l, drop);
    FieldsOfDropped(l, drop);
    StripTwiceIff(TwoHeaders(p, l), drop);
  }

  /** The whole body is read as header. */
  lemma ExposedOfTwo(p: Bytes, l: Bytes, drop: Bytes -> bool)
    requires LooseStart(p) && TextLine(l) && drop(l) && KeepsBlanks(drop) && (p != [] ==> !drop(p))
    ensures Exposed(TwoHeaders(p, l), drop) == l + BLANK
  {
    TwoHeadersSplit(p, l);
    FieldsOfDropped(l, drop);
    KeptAfterLine(p, l + BLANK, drop);
    RestSplit(p, l);
    ExposedIsBody(TwoHeaders(p, l), p + BLANK, l + BLANK, drop);
  }

  lemma ExposedIsBody(b: Bytes, kept: Bytes, body: Bytes, drop: Bytes -> bool)
    requires kept == Kept(Header(b), drop) && body == Body(b) && body != []
    requires HeaderEnd(kept + body) == |kept + body|
    ensures Exposed(b, drop) == body
  {
    assert body[..|body|] == body;
  }

  lemma KeptAfterLine(p: Bytes, rest: Bytes, drop: Bytes -> bool)
    requires LooseStart(p) && (p != [] ==> !drop(p)) && !IsContinuation(rest)
    ensures Kept(p + rest, drop) == p + Kept(rest, drop)
  {
    if p == [] {
      assert p + rest == rest && p + Kept(rest, drop) == Kept(rest, drop);
    } else {
      FieldsOfLine(p, rest);
      LineEndOf(p, []);
      assert p + [] == p;
      KeepCons(p, Fields(rest), drop);
    }
  }

  const BARE_ULID: Bytes := ULID + [SP] + BLANK

  /** X-JMAP-Ulid: alone in the header, and again in the body. */
  lemma AllDroppedTwice()
    ensures var b := TwoHeaders([], BARE_ULID); Strip(Strip(b)) != Strip(b)
  {
    BareUlid();
    Family2KeepsBlanks();
    StripTwiceTakesMore([], BARE_ULID, IsFamily2);
  }

  /** The same after the line A: that ends in LF alone: a header field is kept, and still. */
  lemma MixedEndingsTwice()
    ensures var b := TwoHeaders([65, COLON, LF], BARE_ULID); Strip(Strip(b)) != Strip(b)
  {
    var p: Bytes := [65, COLON, LF];
    BareUlid();
    Family2KeepsBlanks();
    assert p[..2] == [65, COLON];
    assert Lower(p[0]) == 97;
    StripTwiceTakesMore(p, BARE_ULID, IsFamily2);
  }

  lemma BareUlid()
    ensures TextLine(BARE_ULID) && IsFamily2(BARE_ULID)
  {
    HeaderLineStarts(ULID, "");
    assert HeaderLine(ULID, "") == BARE_ULID;
  }
}
