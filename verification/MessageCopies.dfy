/** What the file of a message can turn into, and when the message can be had back from it. */
module MessageCopies {
  import opened Prelude
  import opened HeaderFields
  import opened Family2
  import opened RoundTrip
  import opened Idempotence

  /** A failed attempt puts the three headers on; a drag-back takes them off. */
  datatype Change = Injected(reason: string, now: string, ulid: string) | Stripped

  ghost predicate OneLineChange(change: Change) {
    change.Injected? ==> OneLineText(change.now) && OneLineText(change.ulid)
  }

  function Changed(b: Bytes, change: Change): Bytes {
    match change
    case Injected(reason, now, ulid) => Inject(b, reason, now, ulid)
    case Stripped => Strip(b)
  }

  /** The first change first. */
  function ChangedAll(m: Bytes, changes: seq<Change>): Bytes {
    if changes == [] then m else Changed(ChangedAll(m, changes[..|changes| - 1]), changes[|changes| - 1])
  }

  ghost predicate OneLineChanges(changes: seq<Change>) {
    forall i :: 0 <= i < |changes| ==> OneLineChange(changes[i])
  }

  /** The bytes are the message's after some failures and drag-backs. */
  ghost predicate IsCopy(c: Bytes, m: Bytes) {
    exists changes :: OneLineChanges(changes) && ChangedAll(m, changes) == c
  }

  lemma MessageIsCopy(m: Bytes)
    ensures IsCopy(m, m)
  {
    assert ChangedAll(m, []) == m;
  }

  lemma ChangedIsCopy(c: Bytes, m: Bytes, change: Change)
    requires IsCopy(c, m) && OneLineChange(change)
    ensures IsCopy(Changed(c, change), m)
  {
    var changes :| OneLineChanges(changes) && ChangedAll(m, changes) == c;
    OneMoreChange(m, changes, change);
    assert OneLineChanges(changes + [change]);
  }

  lemma OneMoreChange(m: Bytes, changes: seq<Change>, change: Change)
    ensures ChangedAll(m, changes + [change]) == Changed(ChangedAll(m, changes), change)
  {
    assert (changes + [change])[..|changes|] == changes;
  }

  lemma AnnotatedIsCopy(c: Bytes, m: Bytes, reason: string, now: string, ulid: string)
    requires IsCopy(c, m) && OneLineText(now) && OneLineText(ulid)
    ensures IsCopy(Inject(c, reason, now, ulid), m)
  {
    ChangedIsCopy(c, m, Injected(reason, now, ulid));
  }

  lemma StrippedIsCopy(c: Bytes, m: Bytes)
    requires IsCopy(c, m)
    ensures IsCopy(Strip(c), m)
  {
    ChangedIsCopy(c, m, Stripped);
  }

  // -------------------------------------------------------------------------
  // Messages that survive
  // -------------------------------------------------------------------------

  /** One failure and drag-back, and one more drag-back, give what stripping the message gives. */
  ghost predicate Survives(m: Bytes) {
    RoundTrips(m) && Strip(Strip(m)) == Strip(m)
  }

  /** A header that ends with a blank line keeps something. */
  lemma {:induction false} BlankLineStays(h: Bytes, k: nat, drop: Bytes -> bool)
    requires k < |h| && (k == 0 || h[k - 1] == LF) && (h[k] == CR || h[k] == LF) && KeepsBlanks(drop)
    ensures Kept(h, drop) != []
    decreases |h|
  {
    var n := FieldEnd(h);
    var rest := h[n..];
    KeptNext(h, n, rest, drop);
    if drop(FirstLine(h)) {
      BlankPastField(h, k, n, rest, drop);
      BlankLineStays(rest, k - n, drop);
    }
  }

  lemma KeptNext(h: Bytes, n: nat, rest: Bytes, drop: Bytes -> bool)
    requires h != [] && n == FieldEnd(h) && rest == h[n..]
    ensures |rest| < |h| && (!drop(FirstLine(h)) || Kept(rest, drop) != [] ==> Kept(h, drop) != [])
  {
    KeepOne(h, drop);
    assert |Kept(h, drop)| == |if drop(FirstLine(h)) then [] else h[..n]| + |Kept(rest, drop)|;
  }

  /** A blank line is in no field that is dropped. */
  lemma BlankPastField(h: Bytes, k: nat, n: nat, rest: Bytes, drop: Bytes -> bool)
    requires k < |h| && (k == 0 || h[k - 1] == LF) && (h[k] == CR || h[k] == LF) && KeepsBlanks(drop)
    requires n == FieldEnd(h) && rest == h[n..] && drop(FirstLine(h))
    ensures n <= k && k - n < |rest| && rest[k - n] == h[k] && (k == n || rest[k - n - 1] == LF)
  {
    assert FirstLine(h)[0] == h[0];
    if 0 < k < n { FoldedFromFirst(h, n, k); }
  }

  /** What is kept of a header opens with a folded line only if the header does. */
  lemma {:induction false} KeptNotFolded(h: Bytes, drop: Bytes -> bool)
    requires !IsContinuation(h)
    ensures !IsContinuation(Kept(h, drop))
    decreases |h|
  {
    if h != [] {
      KeepOne(h, drop);
      KeptNotFolded(h[FieldEnd(h)..], drop);
    }
  }

  lemma BodyMeansKept(b: Bytes, drop: Bytes -> bool)
    requires Body(b) != [] && KeepsBlanks(drop)
    ensures Kept(Header(b), drop) != []
  {
    var r4, r2 := FindSubseq(b, CRLFCRLF), FindSubseq(b, LFLF);
    if r4.Some? {
      OccursIs4(b, r4.value);
      BlankLineStays(Header(b), r4.value + 2, drop);
    } else if r2.Some? {
      OccursIs2(b, r2.value);
      BlankLineStays(Header(b), r2.value + 1, drop);
    }
  }

  lemma StripNotFolded(b: Bytes, drop: Bytes -> bool)
    requires !IsContinuation(b) && KeepsBlanks(drop)
    ensures !IsContinuation(StripFields(b, drop))
  {
    KeptNotFolded(Header(b), drop);
    if Kept(Header(b), drop) == [] && Body(b) != [] { BodyMeansKept(b, drop); }
  }

  lemma StrippedRoundTrips(m: Bytes)
    requires Survives(m)
    ensures RoundTrips(Strip(m))
  {
    Family2KeepsBlanks();
    StripNotFolded(m, IsFamily2);
    StripUnchangedIff(Strip(m), IsFamily2);
  }

  /** Any first line of the three keeps the message from opening with a blank or folded line. */
  lemma AnnotatedRoundTrips(c: Bytes, reason: string, now: string, ulid: string)
    ensures RoundTrips(Inject(c, reason, now, ulid))
  {
    assert Inject(c, reason, now, ulid)[0] == FAILURE[0];
  }

  /** The same message by its content, and again after one more failure. */
  ghost predicate SameContent(c: Bytes, m: Bytes) {
    RoundTrips(c) && Strip(c) == Strip(m)
  }

  lemma ChangeKeepsContent(c: Bytes, m: Bytes, change: Change)
    requires Survives(m) && SameContent(c, m) && OneLineChange(change)
    ensures SameContent(Changed(c, change), m)
  {
    match change {
      case Injected(reason, now, ulid) =>
        StripInjectIff(c, reason, now, ulid);
        AnnotatedRoundTrips(c, reason, now, ulid);
      case Stripped => StrippedRoundTrips(m);
    }
  }

  lemma {:induction false} ChangesKeepContent(m: Bytes, changes: seq<Change>)
    requires Survives(m) && OneLineChanges(changes)
    ensures SameContent(ChangedAll(m, changes), m)
    decreases |changes|
  {
    if changes != [] {
      var n := |changes| - 1;
      ChangesKeepContent(m, changes[..n]);
      ChangeKeepsContent(ChangedAll(m, changes[..n]), m, changes[n]);
    }
  }

  lemma CopyHasContent(c: Bytes, m: Bytes)
    requires Survives(m) && IsCopy(c, m)
    ensures SameContent(c, m)
  {
    var changes :| OneLineChanges(changes) && ChangedAll(m, changes) == c;
    ChangesKeepContent(m, changes);
  }

  /** Every copy of a message, however often it failed and was dragged back, gives the same content exactly when it survives. */
  lemma CopiesAgreeIff(m: Bytes)
    ensures (forall c :: IsCopy(c, m) ==> Strip(c) == Strip(m)) <==> Survives(m)
  {
    if Survives(m) {
      forall c | IsCopy(c, m) ensures Strip(c) == Strip(m) { CopyHasContent(c, m); }
    } else {
      MessageIsCopy(m);
      AnnotatedIsCopy(m, m, "", "", "");
      StrippedIsCopy(m, m);
      StripInjectIff(m, "", "", "");
    }
  }

  /**
   The condition on the message: it opens with no folded line; if it opens with a blank line, its header holds none of
   the three fields; and no body line with one of the three names becomes header when the three fields are dropped.
   */
  lemma SurvivesIff(m: Bytes)
    ensures Survives(m) <==>
            !IsContinuation(m) && (BlankFirst(m) ==> !Holds(m, IsFamily2)) && !HoldsIn(Exposed(m, IsFamily2), IsFamily2)
  {
    StripIdempotentIff(m);
  }

  /** A message as composed, with none of the three fields. */
  lemma ComposedSurvives(m: Bytes)
    requires !IsContinuation(m) && !Holds(m, IsFamily2)
    ensures Survives(m) && Strip(m) == m
  {
    StripUnchangedIff(m, IsFamily2);
  }

  /** A failed message that was edited and queued again survives as well, with all its fields. */
  lemma AnnotatedSurvives(m: Bytes, reason: string, now: string, ulid: string)
    requires Survives(m) && OneLineText(now) && OneLineText(ulid)
    ensures Survives(Inject(m, reason, now, ulid))
  {
    AnnotatedRoundTrips(m, reason, now, ulid);
    StripInjectIff(m, reason, now, ulid);
  }

  // -------------------------------------------------------------------------
  // What is lost of the others
  // -------------------------------------------------------------------------

  /** A folded line at the start joins the last header line put before it, and goes with it. */
  lemma FoldedStartIsLost(m: Bytes, reason: string, now: string, ulid: string)
    requires IsContinuation(m) && OneLineText(now) && OneLineText(ulid)
    ensures Strip(m) == m[..FieldEnd(Header(m))] + Strip(Inject(m, reason, now, ulid))
  {
    HeaderStart(m);
    InjectedLines(reason, now, ulid);
    Family2KeepsBlanks();
    LosesFolded(HeaderLine(FAILURE, SanitizeReason(reason)), HeaderLine(FAILED_AT, now), HeaderLine(ULID, ulid), m, IsFamily2);
  }

  lemma LosesFolded(l1: Bytes, l2: Bytes, l3: Bytes, b: Bytes, drop: Bytes -> bool)
    requires Dropped3(l1, l2, l3, drop) && KeepsBlanks(drop) && IsContinuation(b) && IsContinuation(Header(b))
    ensures StripFields(b, drop) == b[..FieldEnd(Header(b))] + StripFields(l1 + l2 + l3 + b, drop)
  {
    var h := Header(b);
    BlockOf3(l1, l2, l3);
    HeaderAfterBlock(l1 + l2 + l3, b);
    DropBlock(l1, l2, l3, h, drop);
    assert h[..FieldEnd(h)] == b[..FieldEnd(h)];
    ThreeParts(h[..FieldEnd(h)], Kept(l1 + l2 + l3 + h, drop), Body(b));
  }

  lemma ThreeParts(a: Bytes, b: Bytes, c: Bytes)
    ensures (a + b) + c == a + (b + c)
  {}

  /** A message that opens with a blank line comes back as it was, with the fields that stripping takes. */
  lemma BlankStartComesBack(m: Bytes, reason: string, now: string, ulid: string)
    requires BlankFirst(m) && OneLineText(now) && OneLineText(ulid)
    ensures Strip(Inject(m, reason, now, ulid)) == m
  {
    InjectedLines(reason, now, ulid);
    Family2KeepsBlanks();
    AfterBlank(HeaderLine(FAILURE, SanitizeReason(reason)), HeaderLine(FAILED_AT, now), HeaderLine(ULID, ulid), m, IsFamily2);
  }

  /** One blank, a letter and a line end. */
  function Folded(letter: Byte): Bytes {
    [SP, letter, CR, LF]
  }

  lemma FoldedIsHeader(letter: Byte)
    requires letter != CR && letter != LF
    ensures var m := Folded(letter); Header(m) == m && FieldEnd(m) == |m|
  {
    var m := Folded(letter);
    forall j: nat ensures !OccursAt(m, CRLFCRLF, j) { OccursIs4(m, j); }
    forall j: nat ensures !OccursAt(m, LFLF, j) { OccursIs2(m, j); }
    assert m[..4] == m && m + [] == m;
    assert m[..3] == [SP, letter, CR];
    FieldsOfLine(m, []);
    FieldsNext(m);
    assert Fields(m)[0] == m[..FieldEnd(m)];
  }

  /** Of a message that is one folded line nothing is left after one failure and drag-back. */
  lemma FoldedLineIsLost(letter: Byte, reason: string, now: string, ulid: string)
    requires letter != CR && letter != LF && OneLineText(now) && OneLineText(ulid)
    ensures Strip(Folded(letter)) == Folded(letter) && Strip(Inject(Folded(letter), reason, now, ulid)) == []
  {
    var m := Folded(letter);
    FoldedStartIsLost(m, reason, now, ulid);
    FoldedIsHeader(letter);
    FoldedHoldsNone(letter);
    StripUnchangedIff(m, IsFamily2);
    NothingAfter(m, Strip(Inject(m, reason, now, ulid)));
  }

  lemma NothingAfter(a: Bytes, b: Bytes)
    requires a == a[..|a|] + b
    ensures b == []
  {
    assert |a| == |a| + |b|;
  }

  lemma FoldedHoldsNone(letter: Byte)
    requires letter != CR && letter != LF
    ensures !Holds(Folded(letter), IsFamily2)
  {
    var m := Folded(letter);
    FoldedIsHeader(letter);
    Family2KeepsBlanks();
    FieldsNext(m);
    assert m[4..] == [];
    FirstLinePrefix(m, 4);
    assert FirstLine(m)[0] == SP;
  }

  /** So two of them have a copy in common, the empty one. */
  lemma FoldedShareCopy(letter: Byte)
    requires letter != CR && letter != LF
    ensures IsCopy([], Folded(letter)) && !Survives(Folded(letter))
  {
    var m := Folded(letter);
    FoldedLineIsLost(letter, "", "", "");
    MessageIsCopy(m);
    AnnotatedIsCopy(m, m, "", "", "");
    StrippedIsCopy(Inject(m, "", "", ""), m);
  }
}
