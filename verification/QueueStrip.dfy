/** jmapqueue's own header stripper, and how it agrees with the field filter. */
module QueueStrip {
  import opened Prelude
  import opened HeaderFields
  import opened Family2
  import opened RoundTrip

  // -------------------------------------------------------------------------
  // The stripper
  // -------------------------------------------------------------------------

  /** Split at the first CRLF CRLF, else the first LF LF; the separator stays with the body. */
  function QueueHeaderEnd(raw: Bytes): (n: nat)
    ensures n <= |raw|
  {
    match FindSubseq(raw, CRLFCRLF)
    case Some(i) => i
    case None => match FindSubseq(raw, LFLF) case Some(i) => i case None => |raw|
  }

  function FindColon(line: Bytes): (r: Option<nat>)
    ensures r.Some? ==> r.value < |line| && line[r.value] == COLON && forall i :: 0 <= i < r.value ==> line[i] != COLON
    ensures r.None? ==> COLON !in line
  {
    if line == [] then None
    else if line[0] == COLON then Some(0)
    else
      var r := FindColon(line[1..]);
      assert line == [line[0]] + line[1..];
      if r.None? then None else Some(r.value + 1)
  }

  /** The text before the first colon is the name, ignoring case; the name is given in lower case. */
  predicate LineStartsWithHeader(line: Bytes, nameLc: Bytes) {
    match FindColon(line)
    case None => false
    case Some(p) => p == |nameLc| && forall i :: 0 <= i < p ==> Lower(line[i]) == nameLc[i]
  }

  function Named(nameLc: Bytes): Bytes -> bool {
    (l: Bytes) => LineStartsWithHeader(l, nameLc)
  }

  function Lines(h: Bytes): seq<Bytes>
    decreases |h|
  {
    if h == [] then [] else [h[..FindLineEnd(h)]] + Lines(h[FindLineEnd(h)..])
  }

  /** Line by line: a folded line shares the fate of the line before it. */
  function SkipFilter(ls: seq<Bytes>, skip: bool, drop: Bytes -> bool): Bytes {
    if ls == [] then []
    else
      var skip' := if IsContinuation(ls[0]) then skip else drop(ls[0]);
      Unless(skip', ls[0]) + SkipFilter(ls[1..], skip', drop)
  }

  /** The loop over lines with its skip flag. */
  method DropLines(headers: Bytes, drop: Bytes -> bool) returns (out: Bytes)
    ensures out == SkipFilter(Lines(headers), false, drop)
  {
    var ls := Lines(headers);
    var skip := false;
    out := [];
    for i := 0 to |ls|
      invariant SkipFilter(ls, false, drop) == out + SkipFilter(ls[i..], skip, drop)
    {
      var line := ls[i];
      SkipNext(ls[i..], skip, drop);
      assert ls[i..][1..] == ls[i + 1..];
      if !IsContinuation(line) { skip := drop(line); }
      var kept := Unless(skip, line);
      PlusAssoc(out, kept, SkipFilter(ls[i + 1..], skip, drop));
      out := out + kept;
    }
    assert ls[|ls|..] == [];
  }

  lemma SkipNext(ls: seq<Bytes>, skip: bool, drop: Bytes -> bool)
    requires ls != []
    ensures var skip' := if IsContinuation(ls[0]) then skip else drop(ls[0]);
            SkipFilter(ls, skip, drop) == Unless(skip', ls[0]) + SkipFilter(ls[1..], skip', drop)
  {}

  method StripHeader(raw: Bytes, nameLc: Bytes) returns (out: Bytes)
    ensures out == QueueStripped(raw, Named(nameLc))
  {
    var n := QueueHeaderEnd(raw);
    out := DropLines(raw[..n], Named(nameLc));
    out := out + raw[n..];
  }

  function QueueStripped(raw: Bytes, drop: Bytes -> bool): Bytes {
    SkipFilter(Lines(raw[..QueueHeaderEnd(raw)]), false, drop) + raw[QueueHeaderEnd(raw)..]
  }

  // -------------------------------------------------------------------------
  // The skip flag filters fields
  // -------------------------------------------------------------------------

  lemma SkipOne(h: Bytes, skip: bool, drop: Bytes -> bool)
    requires h != []
    ensures var l := FindLineEnd(h);
            var skip' := if IsContinuation(h) then skip else drop(h[..l]);
            SkipFilter(Lines(h), skip, drop) == Unless(skip', h[..l]) + SkipFilter(Lines(h[l..]), skip', drop)
  {
    var l := FindLineEnd(h);
    assert Lines(h)[0] == h[..l] && h[..l][0] == h[0];
    assert Lines(h)[1..] == Lines(h[l..]);
    SkipNext(Lines(h), skip, drop);
  }

  lemma SkipForgets(h: Bytes, skip: bool, drop: Bytes -> bool)
    requires !IsContinuation(h)
    ensures SkipFilter(Lines(h), skip, drop) == SkipFilter(Lines(h), false, drop)
  {
    if h != [] {
      SkipOne(h, skip, drop);
      SkipOne(h, false, drop);
    }
  }

  /** What the flag lets through. */
  function Unless(skip: bool, b: Bytes): Bytes { if skip then [] else b }

  /** Over folded lines the flag stays. */
  lemma {:induction false} SkipOverFolded(h: Bytes, k: nat, n: nat, skip: bool, drop: Bytes -> bool)
    requires k <= |h| && n == SkipFolded(h, k)
    ensures SkipFilter(Lines(h[k..]), skip, drop) == Unless(skip, h[k..n]) + SkipFilter(Lines(h[n..]), skip, drop)
    decreases |h| - k
  {
    if IsContinuation(h[k..]) {
      var l := FindLineEnd(h[k..]);
      FoldedSlices(h, k, l, n);
      SkipOverFolded(h, k + l, n, skip, drop);
      SkipOneMore(h[k..], h[k + l..], h[k + l..n], h[k..n], SkipFilter(Lines(h[n..]), skip, drop), skip, drop);
    } else {
      NoSkip(h[k..n], SkipFilter(Lines(h[k..]), skip, drop), skip);
    }
  }

  lemma FoldedSlices(h: Bytes, k: nat, l: nat, n: nat)
    requires k + l <= n <= |h|
    ensures h[k..][l..] == h[k + l..] && h[k..n] == h[k..][..l] + h[k + l..n]
  {}

  lemma NoSkip(empty: Bytes, rest: Bytes, skip: bool)
    requires empty == []
    ensures Unless(skip, empty) + rest == rest
  {}

  lemma SkipJoin(a: Bytes, b: Bytes, both: Bytes, rest: Bytes, skip: bool)
    requires both == a + b
    ensures Unless(skip, a) + (Unless(skip, b) + rest) == Unless(skip, both) + rest
  {}

  lemma SkipOneMore(h: Bytes, after: Bytes, folded: Bytes, both: Bytes, rest: Bytes, skip: bool, drop: Bytes -> bool)
    requires IsContinuation(h) && h[FindLineEnd(h)..] == after && both == h[..FindLineEnd(h)] + folded
    requires SkipFilter(Lines(after), skip, drop) == Unless(skip, folded) + rest
    ensures SkipFilter(Lines(h), skip, drop) == Unless(skip, both) + rest
  {
    SkipOne(h, skip, drop);
    SkipJoin(h[..FindLineEnd(h)], folded, both, rest, skip);
  }

  lemma JoinSlices(h: Bytes, a: nat, b: nat, c: nat)
    requires a <= b <= c <= |h|
    ensures h[a..c] == h[a..b] + h[b..c] && h[a..][b - a..] == h[b..] && h[a..][..b - a] == h[a..b]
  {}

  lemma {:induction false} SkipIsKeep(h: Bytes, drop: Bytes -> bool)
    requires KeepsBlanks(drop)
    ensures SkipFilter(Lines(h), false, drop) == Flatten(Keep(Fields(h), drop))
    decreases |h|
  {
    if h != [] {
      var l, n := FindLineEnd(h), FieldEnd(h);
      var skip := drop(h[..l]);
      assert h[..l][0] == h[0];
      SkipOne(h, false, drop);
      SkipOverFolded(h, l, n, skip, drop);
      SkipForgets(h[n..], skip, drop);
      SkipIsKeep(h[n..], drop);
      KeepOne(h, drop);
      JoinSlices(h, 0, l, n);
      SkipJoin(h[..l], h[l..n], h[..n], SkipFilter(Lines(h[n..]), skip, drop), skip);
    }
  }

  // -------------------------------------------------------------------------
  // Where the separator goes
  // -------------------------------------------------------------------------

  ghost predicate Terminator(t: Bytes) {
    t == [CR, LF] || t == [LF]
  }

  ghost predicate EndsInLf(h: Bytes) {
    h != [] && h[|h| - 1] == LF
  }

  lemma {:induction false} LineEndInside(h: Bytes, x: Bytes)
    requires FindLineEnd(h) < |h| || EndsInLf(h)
    ensures FindLineEnd(h + x) == FindLineEnd(h)
    decreases |h|
  {
    if h != [] && h[0] != LF {
      assert (h + x)[1..] == h[1..] + x;
      LineEndInside(h[1..], x);
    }
  }

  lemma {:induction false} SkipInside(h: Bytes, x: Bytes, k: nat)
    requires EndsInLf(h) && !IsContinuation(x) && k <= |h|
    ensures SkipFolded(h + x, k) == SkipFolded(h, k)
    decreases |h| - k
  {
    assert (h + x)[k..] == h[k..] + x;
    if k < |h| && IsContinuation(h[k..]) {
      LineEndInside(h[k..], x);
      SkipInside(h, x, k + FindLineEnd(h[k..]));
    }
  }

  lemma {:induction false} LineEndsInLf(h: Bytes)
    requires FindLineEnd(h) < |h|
    ensures EndsInLf(h[..FindLineEnd(h)])
  {
    LineEndIsLine(h);
  }

  lemma {:induction false} SkipEndsInLf(h: Bytes, k: nat)
    requires k <= |h| && (k == 0 || EndsInLf(h[..k])) && SkipFolded(h, k) < |h|
    ensures var n := SkipFolded(h, k); n == 0 || EndsInLf(h[..n])
    decreases |h| - k
  {
    if IsContinuation(h[k..]) {
      var l := FindLineEnd(h[k..]);
      LineEndsInLf(h[k..]);
      assert h[..k + l][k + l - 1] == h[k..][..l][l - 1];
      SkipEndsInLf(h, k + l);
    }
  }

  lemma FieldEndsInLf(h: Bytes)
    requires h != [] && FieldEnd(h) < |h|
    ensures EndsInLf(h[..FieldEnd(h)])
  {
    LineEndsInLf(h);
    SkipEndsInLf(h, FindLineEnd(h));
  }

  /** Fields that are complete stay as they are when more follows. */
  lemma {:induction false} FieldsOfBoth(h: Bytes, x: Bytes)
    requires h == [] || (EndsInLf(h) && !IsContinuation(x))
    ensures Fields(h + x) == Fields(h) + Fields(x)
    decreases |h|
  {
    if h == [] {
      assert h + x == x;
    } else {
      FieldEndInside(h, x);
      var n := FieldEnd(h);
      TakeDropPlus(h, x, n);
      FieldsOfBoth(h[n..], x);
      FieldsJoin(h, h + x, h[..n], h[n..], h[n..] + x, Fields(x));
    }
  }

  lemma TakeDropPlus(h: Bytes, x: Bytes, n: nat)
    requires n <= |h|
    ensures (h + x)[..n] == h[..n] && (h + x)[n..] == h[n..] + x
  {}

  /** Two headers with the same first field. */
  lemma FieldsJoin(h: Bytes, hx: Bytes, f: Bytes, rest: Bytes, restx: Bytes, xs: seq<Bytes>)
    requires h != [] && hx != [] && FieldEnd(h) == FieldEnd(hx)
    requires h[..FieldEnd(h)] == f == hx[..FieldEnd(hx)] && h[FieldEnd(h)..] == rest && hx[FieldEnd(hx)..] == restx
    requires Fields(restx) == Fields(rest) + xs
    ensures Fields(hx) == Fields(h) + xs
  {
    FieldsNext(h);
    FieldsNext(hx);
    ConsAssoc(f, Fields(rest), xs);
  }

  lemma ConsAssoc(f: Bytes, rest: seq<Bytes>, xs: seq<Bytes>)
    ensures [f] + (rest + xs) == ([f] + rest) + xs
  {}

  lemma FieldEndInside(h: Bytes, x: Bytes)
    requires EndsInLf(h) && !IsContinuation(x)
    ensures FieldEnd(h + x) == FieldEnd(h)
  {
    LineEndInside(h, x);
    SkipInside(h, x, FindLineEnd(h));
  }

  lemma {:induction false} LineEndCompleted(h: Bytes, t: Bytes, x: Bytes)
    requires LF !in h && Terminator(t)
    ensures FindLineEnd(h + t + x) == |h| + |t|
    decreases |h|
  {
    if h == [] {
      assert h + t + x == t + x;
      if t == [CR, LF] { assert (t + x)[1..] == [LF] + x; }
    } else {
      assert h[0] in h;
      assert (h + t + x)[1..] == h[1..] + t + x;
      LineEndCompleted(h[1..], t, x);
    }
  }

  /** A line without LF at the end of `f` is completed by the terminator. */
  lemma LastLineCompleted(f: Bytes, k: nat, t: Bytes)
    requires k < |f| && f[|f| - 1] != LF && Terminator(t)
    ensures var l := FindLineEnd(f[k..]);
            FindLineEnd((f + t + t)[k..]) == if k + l < |f| then l else l + |t|
  {
    var rest := f[k..];
    LineEndIsLine(rest);
    var l := FindLineEnd(rest);
    assert (f + t + t)[k..] == rest + t + t;
    if k + l < |f| {
      assert rest + t + t == rest + (t + t);
      LineEndInside(rest, t + t);
    } else {
      assert rest[..l] == rest;
      LineEndCompleted(rest, t, t);
    }
  }

  lemma {:induction false} SkipCompleted(f: Bytes, k: nat, t: Bytes)
    requires k < |f| && f[|f| - 1] != LF && Terminator(t) && SkipFolded(f, k) == |f| && IsContinuation(f[k..])
    ensures SkipFolded(f + t + t, k) == |f| + |t|
    decreases |f| - k
  {
    var y := f + t + t;
    assert y[k..][0] == f[k..][0];
    var l := FindLineEnd(f[k..]);
    LastLineCompleted(f, k, t);
    if k + l < |f| { SkipCompleted(f, k + l, t); } else { SkipEnds(y, |f| + |t|, t); }
  }

  lemma SkipEnds(y: Bytes, n: nat, t: Bytes)
    requires n <= |y| && y[n..] == t && Terminator(t)
    ensures SkipFolded(y, n) == n
  {}

  /** The last field takes the first terminator, the second is a field by itself. */
  lemma LastFieldCompleted(f: Bytes, t: Bytes)
    requires f != [] && f[|f| - 1] != LF && FieldEnd(f) == |f| && Terminator(t)
    ensures Fields(f + t + t) == [f + t, t]
  {
    var y := f + t + t;
    var l := FindLineEnd(f);
    LastLineCompleted(f, 0, t);
    assert f[0..] == f && y[0..] == y;
    if l < |f| {
      SkipCompleted(f, l, t);
    } else {
      assert y[|f| + |t|..] == t;
    }
    assert FieldEnd(y) == |f| + |t|;
    assert y[..|f| + |t|] == f + t && y[|f| + |t|..] == t;
    FieldsOfTerminator(t);
  }

  lemma FieldsOfTerminator(t: Bytes)
    requires Terminator(t)
    ensures Fields(t) == [t]
  {
    assert t + [] == t;
    FieldsOfLine(t, []);
  }

  /** The header without its last field, and that field. */
  lemma {:induction false} LastField(h: Bytes) returns (before: Bytes, f: Bytes)
    requires h != []
    ensures h == before + f && Fields(h) == Fields(before) + [f] && f != [] && FieldEnd(f) == |f|
    ensures before == [] || (EndsInLf(before) && !IsContinuation(f))
    decreases |h|
  {
    var n := FieldEnd(h);
    if n == |h| {
      before, f := [], h;
      assert h[..n] == h && h[n..] == [];
    } else {
      var b;
      b, f := LastField(h[n..]);
      before := h[..n] + b;
      LastFieldNext(h, n, b, f);
    }
  }

  lemma LastFieldNext(h: Bytes, n: nat, b: Bytes, f: Bytes)
    requires h != [] && n == FieldEnd(h) < |h| && h[n..] == b + f && Fields(h[n..]) == Fields(b) + [f]
    requires b == [] || EndsInLf(b)
    ensures h == h[..n] + b + f && Fields(h) == Fields(h[..n] + b) + [f] && EndsInLf(h[..n] + b)
    ensures b == [] ==> !IsContinuation(f)
  {
    FieldEndsInLf(h);
    FieldsOfPrefix(h, n, b);
    FieldsNext(h);
    ConsAssoc(h[..n], Fields(b), [f]);
    SplitAgain(h, n, b, f);
  }

  lemma SplitAgain(h: Bytes, n: nat, b: Bytes, f: Bytes)
    requires n <= |h| && h[n..] == b + f
    ensures h == h[..n] + b + f && (b == [] ==> f == h[n..])
  {
    assert h == h[..n] + h[n..];
    PlusAssoc(h[..n], b, f);
  }

  lemma FieldsOfPrefix(h: Bytes, n: nat, b: Bytes)
    requires h != [] && n == FieldEnd(h) < |h| && (b == [] || EndsInLf(b)) && b <= h[n..]
    ensures Fields(h[..n] + b) == [h[..n]] + Fields(b)
    ensures b == [] || EndsInLf(h[..n] + b)
  {
    FieldEndsInLf(h);
    FieldIsOne(h);
    if b != [] { assert b[0] == h[n..][0]; }
    FieldsOfBoth(h[..n], b);
  }

  /** A field taken out of its header is still one field. */
  lemma FieldIsOne(h: Bytes)
    requires h != [] && EndsInLf(h[..FieldEnd(h)])
    ensures Fields(h[..FieldEnd(h)]) == [h[..FieldEnd(h)]]
  {
    var n := FieldEnd(h);
    var f := h[..n];
    FirstLinePrefix(h, n);
    SkipInside(f, h[n..], FindLineEnd(h));
    assert f + h[n..] == h;
    assert f[..n] == f && f[n..] == [];
  }

  // -------------------------------------------------------------------------
  // Agreement with the field filter
  // -------------------------------------------------------------------------

  /** The filter does not look at the line end. */
  ghost predicate EndBlind(drop: Bytes -> bool) {
    forall l, t :: Terminator(t) && LF !in l ==> drop(l + t) == drop(l)
  }

  lemma DropCompleted(f: Bytes, t: Bytes, drop: Bytes -> bool)
    requires f != [] && f[|f| - 1] != LF && Terminator(t) && EndBlind(drop)
    ensures drop(FirstLine(f + t)) == drop(FirstLine(f))
  {
    LineEndIsLine(f);
    if FindLineEnd(f) < |f| {
      LineEndInside(f, t);
      assert (f + t)[..FindLineEnd(f)] == f[..FindLineEnd(f)];
    } else {
      LineEndCompleted(f, t, []);
      assert f + t + [] == f + t;
      assert f[..|f|] == f && (f + t)[..|f| + |t|] == f + t;
    }
  }

  /** The header ends in the middle of a line and the field of that line is dropped. */
  ghost predicate LastFieldDropped(h: Bytes, drop: Bytes -> bool) {
    h != [] && h[|h| - 1] != LF && Fields(h) != [] && drop(FirstLine(Fields(h)[|Fields(h)| - 1]))
  }

  /** The kept fields of a header followed by its separator. */
  lemma KeepWithSeparator(h: Bytes, t: Bytes, drop: Bytes -> bool)
    requires Terminator(t) && KeepsBlanks(drop) && EndBlind(drop)
    ensures Flatten(Keep(Fields(h), drop)) + t + t ==
            Flatten(Keep(Fields(h + t + t), drop)) + (if LastFieldDropped(h, drop) then t else [])
  {
    if h == [] || EndsInLf(h) {
      FieldsWithSeparator(h, t);
      KeepTerminators(Fields(h), t, drop);
      PlusAssoc(Flatten(Keep(Fields(h), drop)), t, t);
      PlusNothing(Flatten(Keep(Fields(h + t + t), drop)));
    } else {
      var before, f := LastField(h);
      LastByteOf(before, f);
      FieldsCompleted(before, f, t);
      DropCompleted(f, t, drop);
      KeepLast(Fields(before), f, t, drop);
      assert Fields(h)[|Fields(h)| - 1] == f;
    }
  }

  lemma NothingPlus(a: Bytes)
    ensures [] + a == a
  {}

  lemma PlusNothing(a: Bytes)
    ensures a + [] == a
  {}

  lemma LastByteOf(before: Bytes, f: Bytes)
    requires f != []
    ensures f[|f| - 1] == (before + f)[|before + f| - 1]
  {}

  lemma FieldsWithSeparator(h: Bytes, t: Bytes)
    requires Terminator(t) && (h == [] || EndsInLf(h))
    ensures Fields(h + t + t) == Fields(h) + [t, t]
  {
    FieldsOfBoth(h, t + t);
    PlusAssoc(h, t, t);
    FieldsOfLine(t, t);
    FieldsOfTerminator(t);
    assert [t] + [t] == [t, t];
  }

  lemma FieldsCompleted(before: Bytes, f: Bytes, t: Bytes)
    requires f != [] && f[|f| - 1] != LF && FieldEnd(f) == |f| && Terminator(t)
    requires before == [] || (EndsInLf(before) && !IsContinuation(f))
    ensures Fields(before + f + t + t) == Fields(before) + [f + t, t]
  {
    assert before + f + t + t == before + (f + t + t);
    assert (f + t + t)[0] == f[0];
    FieldsOfBoth(before, f + t + t);
    LastFieldCompleted(f, t);
  }

  lemma KeepTerminators(fs: seq<Bytes>, t: Bytes, drop: Bytes -> bool)
    requires Terminator(t) && KeepsBlanks(drop)
    ensures Flatten(Keep(fs + [t, t], drop)) == Flatten(Keep(fs, drop)) + (t + t)
  {
    KeepAppend(fs, [t, t], drop);
    FlattenAppend(Keep(fs, drop), Keep([t, t], drop));
    TwoTerminators(t, drop);
  }

  lemma TwoTerminators(t: Bytes, drop: Bytes -> bool)
    requires Terminator(t) && KeepsBlanks(drop)
    ensures Flatten(Keep([t, t], drop)) == t + t && Flatten(Keep([t], drop)) == t
  {
    LineEndOf(t, []);
    assert t + [] == t;
    KeepCons(t, [], drop);
    KeepCons(t, [t], drop);
    assert [t] + [] == [t] && [t] + [t] == [t, t];
  }

  lemma KeepLast(fs: seq<Bytes>, f: Bytes, t: Bytes, drop: Bytes -> bool)
    requires Terminator(t) && KeepsBlanks(drop) && drop(FirstLine(f + t)) == drop(FirstLine(f))
    ensures Flatten(Keep(fs + [f], drop)) + t + t ==
            Flatten(Keep(fs + [f + t, t], drop)) + (if drop(FirstLine(f)) then t else [])
  {
    var kept, d := Flatten(Keep(fs, drop)), drop(FirstLine(f));
    FlattenKeepAppend(fs, [f], drop);
    KeepCons(f, [], drop);
    assert [f] + [] == [f];
    FlattenKeepAppend(fs, [f + t, t], drop);
    KeepCons(f + t, [t], drop);
    assert [f + t] + [t] == [f + t, t];
    TwoTerminators(t, drop);
    LastAndSeparator(kept, f, t, d);
  }

  lemma FlattenKeepAppend(fs: seq<Bytes>, more: seq<Bytes>, drop: Bytes -> bool)
    ensures Flatten(Keep(fs + more, drop)) == Flatten(Keep(fs, drop)) + Flatten(Keep(more, drop))
  {
    KeepAppend(fs, more, drop);
    FlattenAppend(Keep(fs, drop), Keep(more, drop));
  }

  lemma LastAndSeparator(kept: Bytes, f: Bytes, t: Bytes, dropped: bool)
    ensures (kept + ((if dropped then [] else f) + [])) + t + t ==
            (kept + ((if dropped then [] else f + t) + t)) + (if dropped then t else [])
  {
    if dropped {
      NothingPlus([]);
      NothingPlus(t);
    } else {
      PlusNothing(f);
      PlusAssoc(kept, f, t);
      PlusAssoc(kept, f + t, t);
    }
  }

  /** The header part as jmapqueue sees it, and the separator: two terminators, or nothing. */
  lemma Separator(raw: Bytes) returns (t: Bytes)
    ensures var h := raw[..QueueHeaderEnd(raw)];
            && (t == [] || Terminator(t)) && (t == [] ==> h == raw)
            && (t == [LF] ==> FindSubseq(raw, CRLFCRLF).None?)
            && Header(raw) == h + t + t && raw[QueueHeaderEnd(raw)..] == t + t + Body(raw)
  {
    var r4, r2 := FindSubseq(raw, CRLFCRLF), FindSubseq(raw, LFLF);
    if r4.Some? {
      t := [CR, LF];
      assert t + t == CRLFCRLF;
    } else if r2.Some? {
      t := [LF];
      assert t + t == LFLF;
    } else {
      t := [];
    }
    assert t + t == raw[QueueHeaderEnd(raw)..HeaderEnd(raw)];
    assert raw[..HeaderEnd(raw)] == raw[..QueueHeaderEnd(raw)] + raw[QueueHeaderEnd(raw)..HeaderEnd(raw)];
    assert raw[QueueHeaderEnd(raw)..] == raw[QueueHeaderEnd(raw)..HeaderEnd(raw)] + raw[HeaderEnd(raw)..];
  }

  lemma PlusAssoc4(a: Bytes, b: Bytes, c: Bytes, d: Bytes)
    ensures a + (b + c + d) == (a + b + c) + d
  {}

  /**
   jmapqueue's stripper is the field filter over the same message, except that when it drops a last header field it
   leaves that field's line terminator in front of the body.
   */
  lemma QueueStripIsFieldFilter(raw: Bytes, drop: Bytes -> bool) returns (t: Bytes)
    requires KeepsBlanks(drop) && EndBlind(drop)
    ensures t == [] || Terminator(t)
    ensures t == [] <==> QueueHeaderEnd(raw) == |raw|
    ensures var kept := Flatten(Keep(Fields(Header(raw)), drop));
            && StripFields(raw, drop) == kept + Body(raw)
            && QueueStripped(raw, drop) ==
               kept + (if t != [] && LastFieldDropped(raw[..QueueHeaderEnd(raw)], drop) then t else []) + Body(raw)
  {
    t := Separator(raw);
    var h := raw[..QueueHeaderEnd(raw)];
    SkipIsKeep(h, drop);
    var kept := Flatten(Keep(Fields(h), drop));
    if t != [] {
      KeepWithSeparator(h, t, drop);
      PlusAssoc4(kept, t, t, Body(raw));
    } else {
      assert h + t + t == h && t + t + Body(raw) == Body(raw) && kept + [] == kept;
    }
  }

  // -------------------------------------------------------------------------
  // Header names
  // -------------------------------------------------------------------------

  /** A field name in lower case (section 2.2 of RFC 5322): printable bytes without a colon. */
  ghost predicate FieldName(nameLc: Bytes) {
    nameLc != [] && forall i :: 0 <= i < |nameLc| ==> 33 <= nameLc[i] <= 126 && nameLc[i] != COLON && Lower(nameLc[i]) == nameLc[i]
  }

  /** The two programs recognise the same header lines. */
  lemma MatchersAgree(line: Bytes, nameLc: Bytes)
    requires FieldName(nameLc)
    ensures LineStartsWithHeader(line, nameLc) <==> StartsWithHeader(line, nameLc + [COLON])
  {
    var name := nameLc + [COLON];
    assert forall i :: 0 <= i < |nameLc| ==> name[i] == nameLc[i];
    if StartsWithHeader(line, name) {
      var p := |nameLc|;
      assert Lower(line[p]) == Lower(name[p]) && line[p] == COLON;
      forall i | 0 <= i < p ensures Lower(line[i]) == nameLc[i] && line[i] != COLON {
        assert Lower(line[i]) == Lower(name[i]);
      }
      ColonAt(line, p);
    }
    if LineStartsWithHeader(line, nameLc) {
      var p := FindColon(line).value;
      forall i | 0 <= i < |name| ensures Lower(line[i]) == Lower(name[i]) {
        if i < p { assert Lower(line[i]) == nameLc[i]; }
      }
      assert StartsWithHeader(line, name);
    }
  }

  lemma ColonAt(line: Bytes, p: nat)
    requires p < |line| && line[p] == COLON && forall i :: 0 <= i < p ==> line[i] != COLON
    ensures FindColon(line) == Some(p)
  {
    assert COLON in line;
  }

  lemma NamedKeepsBlanks(nameLc: Bytes)
    requires FieldName(nameLc)
    ensures KeepsBlanks(Named(nameLc))
  {
    forall l | LineStartsWithHeader(l, nameLc) ensures l != [] && l[0] != SP && l[0] != TAB && l[0] != CR && l[0] != LF {
      assert Lower(l[0]) == nameLc[0];
    }
  }

  lemma NamedIsEndBlind(nameLc: Bytes)
    requires FieldName(nameLc)
    ensures EndBlind(Named(nameLc))
  {
    forall l, t | Terminator(t) && LF !in l
      ensures LineStartsWithHeader(l + t, nameLc) == LineStartsWithHeader(l, nameLc)
    {
      ColonBeforeEnd(l, t);
    }
  }

  lemma ColonBeforeEnd(l: Bytes, t: Bytes)
    requires Terminator(t)
    ensures FindColon(l + t) == FindColon(l)
  {
    if COLON in l {
      var p := FindColon(l).value;
      assert forall i :: 0 <= i < p ==> (l + t)[i] == l[i];
      ColonAt(l + t, p);
    } else {
      assert COLON !in l + t;
    }
  }

  /** Stripping a header is filtering the fields of that name exactly when no terminator is left over. */
  lemma StripHeaderIff(raw: Bytes, nameLc: Bytes)
    requires FieldName(nameLc)
    ensures QueueStripped(raw, Named(nameLc)) == StripFields(raw, Named(nameLc)) <==>
            !(QueueHeaderEnd(raw) < |raw| && LastFieldDropped(raw[..QueueHeaderEnd(raw)], Named(nameLc)))
  {
    NamedKeepsBlanks(nameLc);
    NamedIsEndBlind(nameLc);
    var t := QueueStripIsFieldFilter(raw, Named(nameLc));
    var kept := Flatten(Keep(Fields(Header(raw)), Named(nameLc)));
    var dropped := t != [] && LastFieldDropped(raw[..QueueHeaderEnd(raw)], Named(nameLc));
    assert |kept + (if dropped then t else []) + Body(raw)| == |kept + Body(raw)| + (if dropped then |t| else 0);
    if !dropped { PlusNothing(kept); }
  }
}
