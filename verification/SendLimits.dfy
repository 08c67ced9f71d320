/** Exactly which sets of messages the send path cannot lose: those in which only alike messages have a copy in common. */
module SendLimits {
  import opened Prelude
  import opened Sidecars
  import opened Outbox
  import opened OutboxSafety
  import opened MessageCopies
  import opened SendPath
  import Family2
  import Handshake

  // -------------------------------------------------------------------------
  // Copies in common
  // -------------------------------------------------------------------------

  /** Two messages that are not alike turn into the same bytes. */
  ghost predicate Confused(a: Bytes, b: Bytes, c: Bytes) {
    IsCopy(c, a) && IsCopy(c, b) && !Alike(a, b)
  }

  /** What stripping leaves of the same content is a copy of both. */
  lemma CommonCopy(a: Bytes, b: Bytes, c: Bytes)
    requires CopyOf(c, a) && CopyOf(c, b)
    ensures (IsCopy(c, a) && IsCopy(c, b)) || (IsCopy(Family2.Strip(c), a) && IsCopy(Family2.Strip(c), b))
  {
    StripIsCopy(c, a);
    StripIsCopy(c, b);
  }

  lemma StripIsCopy(c: Bytes, m: Bytes)
    requires CopyOf(c, m)
    ensures IsCopy(Family2.Strip(c), m)
  {
    if IsCopy(c, m) {
      StrippedIsCopy(c, m);
    } else {
      MessageIsCopy(m);
      StrippedIsCopy(m, m);
    }
  }

  lemma CompatibleIff(msgs: map<Name, Bytes>)
    ensures Compatible(msgs) <==> forall x, y, c :: x in msgs && y in msgs ==> !Confused(msgs[x], msgs[y], c)
  {
    if !Compatible(msgs) {
      var x, y, c :| x in msgs && y in msgs && CopyOf(c, msgs[x]) && CopyOf(c, msgs[y]) && !Alike(msgs[x], msgs[y]);
      CommonCopy(msgs[x], msgs[y], c);
      assert Confused(msgs[x], msgs[y], c) || Confused(msgs[x], msgs[y], Family2.Strip(c));
    }
    if x, y, c :| x in msgs && y in msgs && Confused(msgs[x], msgs[y], c) {
      assert CopyOf(c, msgs[x]) && CopyOf(c, msgs[y]);
    }
  }

  // -------------------------------------------------------------------------
  // How one of them is lost
  // -------------------------------------------------------------------------

  const CTX := Handshake.Context("drafts", "sent", None)

  /** An envelope with a sender and a recipient. */
  const SIDECAR := Sidecar(Envelope("a", ["b"]), None, None, None)

  const REFUSING := Handshake.Script(None, Handshake.Answered, Handshake.ImportExists("e"), Handshake.CreateRefused,
                                     Handshake.Answered, None, ["drafts"], ["x"],
                                     Handshake.Answered, {"x"}, Handshake.CreateRefused)

  /** The server has the bytes already, cancels the pending submission and refuses the new one; the disk does nothing. */
  function Surroundings(): Env {
    Env(true, Permanent("submission"), false, false, false, false, false, Unread, "", 0, "", (t: string) => true, false)
  }

  /** Every message not like the one to be lost has its file, the other one the common copy. */
  ghost function Folders(msgs: map<Name, Bytes>, lost: Bytes, other: Name, c: Bytes): map<Spot, Bytes> {
    map n | n in msgs && !Alike(msgs[n], lost) :: Spot(true, n, None) := if n == other then c else msgs[n]
  }

  ghost function Begin(msgs: map<Name, Bytes>, lost: Bytes, other: Name, c: Bytes): System {
    System(Mail(Folders(msgs, lost, other, c), map[], map[], map[other := SIDECAR], {}),
           Account(c))
  }

  function Attempting(other: Name): Move {
    Try(other, Some(Spot(true, other, None)), Surroundings(), REFUSING, 1)
  }

  lemma SidecarPasses(parses: string -> bool)
    ensures LocalRejection(SIDECAR, parses).None?
  {
    assert 'a' in SIDECAR.envelope.from && !Family2.IsWhitespace('a');
    assert "b" in SIDECAR.envelope.to && 'b' in "b" && !Family2.IsWhitespace('b');
    EnvelopeOkIff(SIDECAR.envelope);
  }

  /** The server holds these bytes as a draft with a pending submission. */
  function Account(c: Bytes): Handshake.Mailstore {
    Handshake.Mailstore(map["e" := Handshake.Email({"drafts"}, c)], map["x" := Handshake.Submission("e", true)])
  }

  /** The attempt is one exchange, and nothing on disk. */
  lemma OneExchange(w: Mail, n: Name, s: Spot)
    requires n in w.sidecars && w.sidecars[n] == SIDECAR && s in w.outbox && s.name == n
    ensures Actions(w, n, Some(s), Surroundings()) == [Exchange(n, false)]
  {
    SidecarPasses(Surroundings().parses);
  }

  /** On the server the pending submission goes and no other comes. */
  lemma Refused(c: Bytes)
    ensures Handshake.Conforming(Account(c), c, REFUSING)
    ensures Handshake.Submitted(Account(c), CTX, c, false, REFUSING) ==
            (Handshake.Mailstore(Account(c).emails, map[]), Permanent("submission"))
  {
    var s := Account(c);
    assert Elements(["drafts"]) == {"drafts"} && Elements(["x"]) == {"x"};
    assert Handshake.Pending(s, "e") == {"x"};
    Handshake.FirstVerdict(s, CTX, c, REFUSING.imported, REFUSING.create);
    ReconcileRefused(s);
  }

  lemma ReconcileRefused(s: Handshake.Mailstore)
    requires "e" in s.emails && s.submissions.Keys == {"x"}
    ensures Handshake.Reconciled(s, CTX, "e", false, REFUSING) == (Handshake.Mailstore(s.emails, map[]), Permanent("submission"))
  {
    assert REFUSING.listed == ["drafts"] && "sent" !in ["drafts"];
    assert Handshake.Reconcile(REFUSING.listed, REFUSING.pendingIds, CTX.sent) == Handshake.CancelAndResubmit(["x"]);
    assert Handshake.ExecDestroy(s, ["x"], {"x"}).submissions == map[];
  }

  /** Before the attempt no message is lost. */
  lemma NoneLostAtFirst(msgs: map<Name, Bytes>, lost: Name, other: Name, c: Bytes)
    requires lost in msgs && other in msgs && Confused(msgs[lost], msgs[other], c)
    ensures NoneLost(Begin(msgs, msgs[lost], other, c), CTX, msgs)
  {
    var sys := Begin(msgs, msgs[lost], other, c);
    forall s | s in sys.mail.outbox ensures s.name in msgs && IsCopy(sys.mail.outbox[s], msgs[s.name]) {
      MessageIsCopy(msgs[s.name]);
    }
    forall n | n in msgs ensures Served(sys.server, CTX, msgs[n]) || OnDisk(sys.mail, msgs, msgs[n]) {
      if Alike(msgs[n], msgs[lost]) {
        AlikeCopies(c, msgs[lost], msgs[n]);
        assert sys.server.submissions["x"].email == "e";
        assert ServedAs(sys.server, CTX, msgs[n], "e");
      } else {
        assert Spot(true, n, None) in sys.mail.outbox;
        assert Alike(msgs[n], msgs[n]) && Holding(sys.mail.outbox, n);
      }
    }
  }

  /** A system as at the beginning, as far as the attempt goes. */
  ghost predicate AtStart(sys: System, other: Name, c: Bytes) {
    && sys.mail.accepted == {} && sys.mail.sidecars == map[other := SIDECAR] && sys.server == Account(c)
    && Spot(true, other, None) in sys.mail.outbox && sys.mail.outbox[Spot(true, other, None)] == c
  }

  lemma CanAttempt(sys: System, msgs: map<Name, Bytes>, other: Name, c: Bytes)
    requires AtStart(sys, other, c)
    ensures CanMove(sys, CTX, Attempting(other), msgs)
  {
    var s := Spot(true, other, None);
    OneExchange(sys.mail, other, s);
    Refused(c);
    CanStart(sys.mail, other, s, msgs);
    assert !SendsAt(sys.mail, other);
  }

  lemma CanStart(w: Mail, n: Name, s: Spot, msgs: map<Name, Bytes>)
    requires s == Spot(true, n, None) && s in w.outbox && Actions(w, n, Some(s), Surroundings()) == [Exchange(n, false)]
    ensures CanStep(w, Attempt(n, Some(s), Surroundings(), 1), msgs)
  {}

  /** The folders are as they were, the submission is gone. */
  lemma Attempted(sys: System, msgs: map<Name, Bytes>, other: Name, c: Bytes)
    requires AtStart(sys, other, c) && CanMove(sys, CTX, Attempting(other), msgs)
    ensures Moved(sys, CTX, Attempting(other), msgs) == System(sys.mail, Handshake.Mailstore(sys.server.emails, map[]))
  {
    var s := Spot(true, other, None);
    OneExchange(sys.mail, other, s);
    ExchangeOnly(sys.mail, other);
    Refused(c);
    assert !SendsAt(sys.mail, other);
  }

  lemma ExchangeOnly(w: Mail, n: Name)
    requires w.accepted == {}
    ensures var actions := [Exchange(n, false)];
            actions[..1] == actions && DoAll(w, actions).(accepted := {}) == w && Exchanged(actions)
  {
    var actions := [Exchange(n, false)];
    assert actions[1..] == [] && actions[0].Exchange?;
  }

  /** Afterwards one is. */
  lemma LostAfter(msgs: map<Name, Bytes>, lost: Name, other: Name, c: Bytes)
    requires lost in msgs && other in msgs && Confused(msgs[lost], msgs[other], c)
    ensures var sys := Begin(msgs, msgs[lost], other, c);
            AtStart(sys, other, c) && CanMove(sys, CTX, Attempting(other), msgs) &&
            var after := Moved(sys, CTX, Attempting(other), msgs);
            !Served(after.server, CTX, msgs[lost]) && !OnDisk(after.mail, msgs, msgs[lost])
  {
    var sys := Begin(msgs, msgs[lost], other, c);
    assert Spot(true, other, None) in sys.mail.outbox;
    CanAttempt(sys, msgs, other, c);
    Attempted(sys, msgs, other, c);
    NotServed(c, msgs[lost]);
    NotOnDisk(sys.mail, msgs, msgs[lost], other, c);
  }

  lemma NotServed(c: Bytes, m: Bytes)
    ensures !Served(Handshake.Mailstore(Account(c).emails, map[]), CTX, m)
  {}

  lemma NotOnDisk(w: Mail, msgs: map<Name, Bytes>, lost: Bytes, other: Name, c: Bytes)
    requires w.outbox == Folders(msgs, lost, other, c) && w.failed == map[]
    ensures !OnDisk(w, msgs, lost)
  {
    assert forall t :: t in w.outbox ==> t.name in msgs && !Alike(msgs[t.name], lost);
  }

  /** The move loses a message, where none was lost before. */
  ghost predicate Loses(sys: System, ctx: Handshake.Context, move: Move, msgs: map<Name, Bytes>) {
    && NoneLost(sys, ctx, msgs) && CanMove(sys, ctx, move, msgs) && MovedMessages(msgs, move) == msgs
    && !NoneLost(Moved(sys, ctx, move, msgs), ctx, msgs)
  }

  lemma LosesOne(sys: System, ctx: Handshake.Context, move: Move, msgs: map<Name, Bytes>, lost: Name)
    requires NoneLost(sys, ctx, msgs) && CanMove(sys, ctx, move, msgs) && move.Try? && lost in msgs
    requires !Served(Moved(sys, ctx, move, msgs).server, ctx, msgs[lost]) && !OnDisk(Moved(sys, ctx, move, msgs).mail, msgs, msgs[lost])
    ensures Loses(sys, ctx, move, msgs)
  {}

  /**
   No move but composing can lose a message, in any state of folders and server in which none is lost, exactly when only
   alike messages have a copy in common.
   */
  lemma NeverLostIff(msgs: map<Name, Bytes>)
    ensures (forall sys, ctx, move :: !Loses(sys, ctx, move, msgs)) <==> Compatible(msgs)
  {
    if Compatible(msgs) {
      forall sys, ctx, move ensures !Loses(sys, ctx, move, msgs) {
        if NoneLost(sys, ctx, msgs) && CanMove(sys, ctx, move, msgs) { MoveKeepsWhole(sys, ctx, move, msgs); }
      }
    } else {
      CompatibleIff(msgs);
      var lost, other, c :| lost in msgs && other in msgs && Confused(msgs[lost], msgs[other], c);
      NoneLostAtFirst(msgs, lost, other, c);
      LostAfter(msgs, lost, other, c);
      LosesOne(Begin(msgs, msgs[lost], other, c), CTX, Attempting(other), msgs, lost);
    }
  }

  // -------------------------------------------------------------------------
  // At an input
  // -------------------------------------------------------------------------

  /** Two messages of one folded line each. */
  lemma FoldedLinesAreLost()
    ensures var msgs: map<Name, Bytes> := map["1" := Folded(65), "2" := Folded(66)];
            && Confused(msgs["1"], msgs["2"], []) && !Compatible(msgs)
  {
    var msgs: map<Name, Bytes> := map["1" := Folded(65), "2" := Folded(66)];
    FoldedShareCopy(65);
    FoldedShareCopy(66);
    FoldedDiffer();
    NotCompatible(msgs, "1", "2", []);
  }

  lemma FoldedDiffer()
    ensures Folded(65) != Folded(66)
  {
    assert Folded(65)[1] != Folded(66)[1];
  }

  lemma NotCompatible(msgs: map<Name, Bytes>, x: Name, y: Name, c: Bytes)
    requires x in msgs && y in msgs && Confused(msgs[x], msgs[y], c)
    ensures !Compatible(msgs)
  {
    CompatibleIff(msgs);
  }
}
