/** Outbox and server together: every message composed has a submission or a Sent copy on the server, or a copy on disk. */
module SendPath {
  import opened Prelude
  import opened Sidecars
  import opened Outbox
  import opened OutboxSafety
  import opened MessageCopies
  import Family2
  import Handshake
  import HandshakeTheorems

  /** The folders, and the account on the server. */
  datatype System = System(mail: Mail, server: Handshake.Mailstore)

  // -------------------------------------------------------------------------
  // Which bytes stand for which message
  // -------------------------------------------------------------------------

  /** The same message, or the same by content. */
  ghost predicate Alike(a: Bytes, b: Bytes) {
    a == b || (Survives(a) && Survives(b) && Family2.Strip(a) == Family2.Strip(b))
  }

  ghost predicate CopyOf(c: Bytes, m: Bytes) {
    IsCopy(c, m) || (Survives(m) && SameContent(c, m))
  }

  lemma AlikeCopies(c: Bytes, a: Bytes, b: Bytes)
    requires Alike(a, b) && CopyOf(c, a)
    ensures CopyOf(c, b)
  {
    if a != b && IsCopy(c, a) { CopyHasContent(c, a); }
  }

  /** Bytes that could be a copy of two messages are so only because the messages are alike. */
  ghost predicate Compatible(msgs: map<Name, Bytes>) {
    forall x, y, c :: x in msgs && y in msgs && CopyOf(c, msgs[x]) && CopyOf(c, msgs[y]) ==> Alike(msgs[x], msgs[y])
  }

  ghost predicate AllSurvive(msgs: map<Name, Bytes>) {
    forall n :: n in msgs ==> Survives(msgs[n])
  }

  /** In particular when every message survives. */
  lemma SurvivingAreCompatible(msgs: map<Name, Bytes>)
    requires AllSurvive(msgs)
    ensures Compatible(msgs)
  {
    forall x, y, c | x in msgs && y in msgs && CopyOf(c, msgs[x]) && CopyOf(c, msgs[y]) ensures Alike(msgs[x], msgs[y]) {
      if IsCopy(c, msgs[x]) { CopyHasContent(c, msgs[x]); }
      if IsCopy(c, msgs[y]) { CopyHasContent(c, msgs[y]); }
    }
  }

  // -------------------------------------------------------------------------
  // Where a message is
  // -------------------------------------------------------------------------

  /** The server has a submission record for an email that holds the message, or has that email in Sent. */
  ghost predicate Served(s: Handshake.Mailstore, ctx: Handshake.Context, m: Bytes) {
    exists e :: ServedAs(s, ctx, m, e)
  }

  ghost predicate ServedAs(s: Handshake.Mailstore, ctx: Handshake.Context, m: Bytes, e: Handshake.EmailId) {
    && e in s.emails && CopyOf(s.emails[e].blob, m)
    && (ctx.sent in s.emails[e].mailboxes || exists x :: x in s.submissions && s.submissions[x].email == e)
  }

  /** Some file holds the message, maybe under the name of one alike. */
  ghost predicate OnDisk(w: Mail, msgs: map<Name, Bytes>, m: Bytes) {
    exists x :: x in msgs && Alike(msgs[x], m) && (Holding(w.outbox, x) || Holding(w.failed, x))
  }

  /** No message is lost. `accepted` is not used here: the server's own state takes its place. */
  ghost predicate NoneLost(sys: System, ctx: Handshake.Context, msgs: map<Name, Bytes>) {
    && sys.mail.accepted == {} && Copies(sys.mail, msgs)
    && (forall n :: n in msgs ==> Served(sys.server, ctx, msgs[n]) || OnDisk(sys.mail, msgs, msgs[n]))
  }

  ghost predicate Whole(sys: System, ctx: Handshake.Context, msgs: map<Name, Bytes>) {
    NoneLost(sys, ctx, msgs) && Compatible(msgs)
  }

  // -------------------------------------------------------------------------
  // The server during an attempt
  // -------------------------------------------------------------------------

  /** Emails with other bytes keep their mailboxes and their records. */
  ghost predicate OthersAlone(s: Handshake.Mailstore, s': Handshake.Mailstore, blob: Bytes) {
    && (forall e :: e in s.emails && s.emails[e].blob != blob ==> e in s'.emails && s'.emails[e] == s.emails[e])
    && (forall x :: x in s.submissions && s.submissions[x].email in s.emails && s.emails[s.submissions[x].email].blob != blob ==>
          x in s'.submissions && s'.submissions[x] == s.submissions[x])
  }

  lemma FirstLeavesOthers(s: Handshake.Mailstore, ctx: Handshake.Context, blob: Bytes, target: Handshake.MailboxId,
                          i: Handshake.ImportChoice, c: Handshake.CreateChoice)
    requires (i.Imports? ==> i.id !in s.emails) && (c.Creates? ==> c.id !in s.submissions)
    ensures OthersAlone(s, Handshake.ExecFirst(s, ctx, blob, target, i, c), blob)
  {
    HandshakeTheorems.AfterFirst(s, ctx, blob, target, i, c);
  }

  lemma LastLeavesOthers(s: Handshake.Mailstore, ctx: Handshake.Context, blob: Bytes, e: Handshake.EmailId,
                         target: Handshake.MailboxId, destroys: seq<Handshake.SubmissionId>,
                         willing: set<Handshake.SubmissionId>, c: Handshake.CreateChoice)
    requires e in s.emails && s.emails[e].blob == blob && (c.Creates? ==> c.id !in s.submissions)
    requires forall x :: x in destroys ==> x in Handshake.Pending(s, e)
    ensures OthersAlone(s, Handshake.ExecLast(s, ctx, e, target, destroys, willing, c), blob)
  {
    HandshakeTheorems.AfterLast(s, ctx, e, target, destroys, willing, c);
  }

  lemma AttemptLeavesOthers(s: Handshake.Mailstore, ctx: Handshake.Context, blob: Bytes, hasSendAt: bool, script: Handshake.Script)
    requires Handshake.Conforming(s, blob, script)
    ensures OthersAlone(s, Handshake.Submitted(s, ctx, blob, hasSendAt, script).0, blob)
  {
    var target := Handshake.FileTarget(ctx, hasSendAt);
    Handshake.FirstVerdict(s, ctx, blob, script.imported, script.create);
    FirstLeavesOthers(s, ctx, blob, target, script.imported, script.create);
    if script.imported.ImportExists? {
      HandshakeTheorems.AfterFirst(s, ctx, blob, target, script.imported, script.create);
      var e := script.imported.id;
      var destroys := Handshake.DestroyIds(Handshake.Reconcile(script.listed, script.pendingIds, ctx.sent));
      forall x | x in destroys ensures x in Handshake.Pending(s, e) { assert x in Elements(script.pendingIds); }
      LastLeavesOthers(s, ctx, blob, e, target, destroys, script.willing, script.recreate);
    }
  }

  lemma OthersStayServed(s: Handshake.Mailstore, s': Handshake.Mailstore, ctx: Handshake.Context, blob: Bytes, m: Bytes)
    requires OthersAlone(s, s', blob) && Served(s, ctx, m) && !CopyOf(blob, m)
    ensures Served(s', ctx, m)
  {
    var e :| ServedAs(s, ctx, m, e);
    if x :| x in s.submissions && s.submissions[x].email == e { assert x in s'.submissions && s'.submissions[x].email == e; }
    assert ServedAs(s', ctx, m, e);
  }

  /** An email with these very bytes is in Sent or has a submission record. */
  ghost predicate OnServer(s: Handshake.Mailstore, ctx: Handshake.Context, blob: Bytes) {
    exists e :: OnServerAs(s, ctx, blob, e)
  }

  ghost predicate OnServerAs(s: Handshake.Mailstore, ctx: Handshake.Context, blob: Bytes, e: Handshake.EmailId) {
    && e in s.emails && s.emails[e].blob == blob
    && (ctx.sent in s.emails[e].mailboxes || exists x :: x in s.submissions && s.submissions[x].email == e)
  }

  lemma SuccessOnServer(s: Handshake.Mailstore, ctx: Handshake.Context, blob: Bytes, hasSendAt: bool, script: Handshake.Script)
    requires Handshake.Conforming(s, blob, script)
    requires Handshake.Submitted(s, ctx, blob, hasSendAt, script).1.Success?
    ensures OnServer(Handshake.Submitted(s, ctx, blob, hasSendAt, script).0, ctx, blob)
  {
    HandshakeTheorems.SuccessMeans(s, ctx, blob, hasSendAt, script);
    var s' := Handshake.Submitted(s, ctx, blob, hasSendAt, script).0;
    if Handshake.FoundInSent(s, ctx, blob, script) && s' == s {
      assert OnServerAs(s', ctx, blob, script.imported.id);
    } else {
      var x :| x in s'.submissions && x !in s.submissions && s'.submissions[x].email in s'.emails &&
        s'.emails[s'.submissions[x].email].blob == blob;
      assert OnServerAs(s', ctx, blob, s'.submissions[x].email);
    }
  }

  lemma SuccessServes(s: Handshake.Mailstore, ctx: Handshake.Context, blob: Bytes, hasSendAt: bool, script: Handshake.Script, m: Bytes)
    requires Handshake.Conforming(s, blob, script) && CopyOf(blob, m)
    requires Handshake.Submitted(s, ctx, blob, hasSendAt, script).1.Success?
    ensures Served(Handshake.Submitted(s, ctx, blob, hasSendAt, script).0, ctx, m)
  {
    SuccessOnServer(s, ctx, blob, hasSendAt, script);
    var s' := Handshake.Submitted(s, ctx, blob, hasSendAt, script).0;
    var e :| OnServerAs(s', ctx, blob, e);
    assert ServedAs(s', ctx, m, e);
  }

  // -------------------------------------------------------------------------
  // Steps
  // -------------------------------------------------------------------------

  datatype Move =
    /** An attempt, stopped after `k` actions, whose exchange goes by the script. */
    | Try(n: Name, spot: Option<Spot>, env: Env, script: Handshake.Script, k: nat)
    /** Anything else that happens to the folders. */
    | Local(step: Step)
    /** A scheduled submission goes out. */
    | Release(submission: Handshake.SubmissionId)

  function SendsAt(w: Mail, n: Name): bool { Load(w.sidecars, n).sendAt.Some? }

  ghost predicate CanMove(sys: System, ctx: Handshake.Context, move: Move, msgs: map<Name, Bytes>) {
    match move
    case Try(n, spot, env, script, k) =>
      && CanStep(sys.mail, Attempt(n, spot, env, k), msgs)
      && (env.taken <==> env.answer.Success?)
      && (spot.Some? ==>
            && Handshake.Conforming(sys.server, sys.mail.outbox[spot.value], script)
            && env.answer == Handshake.Submitted(sys.server, ctx, sys.mail.outbox[spot.value], SendsAt(sys.mail, n), script).1)
    case Local(step) => !step.Attempt? && CanStep(sys.mail, step, msgs) && (step.Compose? ==> Compatible(StepMessages(msgs, step)))
    case Release(x) => HandshakeTheorems.CanStep(sys.server, ctx, [], HandshakeTheorems.Release(x))
  }

  ghost predicate Exchanged(actions: seq<Action>) {
    exists i :: 0 <= i < |actions| && actions[i].Exchange?
  }

  ghost function Moved(sys: System, ctx: Handshake.Context, move: Move, msgs: map<Name, Bytes>): System
    requires CanMove(sys, ctx, move, msgs)
  {
    match move
    case Try(n, spot, env, script, k) =>
      var actions := Actions(sys.mail, n, spot, env)[..k];
      System(DoAll(sys.mail, actions).(accepted := {}),
             if spot.Some? && Exchanged(actions)
             then Handshake.Submitted(sys.server, ctx, sys.mail.outbox[spot.value], SendsAt(sys.mail, n), script).0
             else sys.server)
    case Local(step) => sys.(mail := StepMail(sys.mail, step, msgs))
    case Release(x) => sys.(server := HandshakeTheorems.Released(sys.server, ctx, x))
  }

  function MovedMessages(msgs: map<Name, Bytes>, move: Move): map<Name, Bytes> {
    if move.Local? then StepMessages(msgs, move.step) else msgs
  }

  /** The messages that have a file under their own name. */
  ghost function Filed(w: Mail, msgs: map<Name, Bytes>): map<Name, Bytes> {
    map n | n in msgs && (Holding(w.outbox, n) || Holding(w.failed, n)) :: msgs[n]
  }

  lemma FiledIsSafe(w: Mail, msgs: map<Name, Bytes>)
    requires Copies(w, msgs)
    ensures Safe(w, Filed(w, msgs))
  {
    var filed := Filed(w, msgs);
    forall s | s in w.outbox ensures s.name in filed { assert Holding(w.outbox, s.name); }
    forall s | s in w.failed ensures s.name in filed { assert Holding(w.failed, s.name); }
    NarrowerCopies(w.outbox, filed, msgs);
    NarrowerCopies(w.failed, filed, msgs);
  }

  lemma NarrowerCopies(files: map<Spot, Bytes>, some: map<Name, Bytes>, msgs: map<Name, Bytes>)
    requires AllCopies(files, msgs) && forall s :: s in files ==> s.name in some
    requires forall n :: n in some ==> n in msgs && some[n] == msgs[n]
    ensures AllCopies(files, some)
  {}

  lemma {:induction false} AcceptedByExchange(w: Mail, actions: seq<Action>, n: Name)
    requires n in DoAll(w, actions).accepted && n !in w.accepted
    ensures exists i :: 0 <= i < |actions| && actions[i] == Exchange(n, true)
    decreases |actions|
  {
    if actions != [] {
      if n in Do(w, actions[0]).accepted {
        assert actions[0] == Exchange(n, true);
      } else {
        AcceptedByExchange(Do(w, actions[0]), actions[1..], n);
        var i :| 0 <= i < |actions[1..]| && actions[1..][i] == Exchange(n, true);
        assert actions[i + 1] == Exchange(n, true);
      }
    }
  }

  // -------------------------------------------------------------------------
  // Preservation
  // -------------------------------------------------------------------------

  /**
   One attempt at any message, whatever its bytes and whatever else there is: afterwards its file has its bytes, or the
   copy in Failed is those bytes under the three headers, or an email with those bytes is in Sent or has a record.
   */
  lemma TryKeepsBytes(sys: System, ctx: Handshake.Context, move: Move, msgs: map<Name, Bytes>)
    requires sys.mail.accepted == {} && CanMove(sys, ctx, move, msgs) && move.Try? && move.spot.Some?
    ensures var s, sys' := move.spot.value, Moved(sys, ctx, move, msgs);
            || (s in sys'.mail.outbox && sys'.mail.outbox[s] == sys.mail.outbox[s])
            || CopyInPlace(sys.mail, sys'.mail, s, FailedCopy(sys.mail, s, move.env))
            || OnServer(sys'.server, ctx, sys.mail.outbox[s])
  {
    var n, spot, env, k := move.n, move.spot, move.env, move.k;
    var all := Actions(sys.mail, n, spot, env);
    AttemptKeepsBytes(sys.mail, n, spot, env, k);
    if n in DoAll(sys.mail, all[..k]).accepted {
      ActionsAreOwn(sys.mail, n, spot, env);
      TakenByOwn(sys.mail, all, k, n, spot, env, n);
      SuccessOnServer(sys.server, ctx, sys.mail.outbox[spot.value], SendsAt(sys.mail, n), move.script);
    }
  }

  /** What the folders keep in an attempt: copies, every other name's file, and its own unless the server took it. */
  lemma FilesAfterTry(w: Mail, n: Name, spot: Option<Spot>, env: Env, k: nat, msgs: map<Name, Bytes>)
    requires w.accepted == {} && Copies(w, msgs)
    requires Located(w.outbox, n, spot) && Outbox.Sane(env) && k <= |Actions(w, n, spot, env)|
    ensures var actions := Actions(w, n, spot, env)[..k]; var w' := DoAll(w, actions);
            && Copies(w', msgs)
            && (forall x :: x in Filed(w, msgs) ==>
                  || Holding(w'.outbox, x) || Holding(w'.failed, x)
                  || (x == n && env.taken && Exchanged(actions)))
  {
    var filed := Filed(w, msgs);
    FiledIsSafe(w, msgs);
    NoMailLost(w, n, spot, env, k, filed);
    var all := Actions(w, n, spot, env);
    var w' := DoAll(w, all[..k]);
    WiderCopies(w', filed, msgs);
    ActionsAreOwn(w, n, spot, env);
    forall x | x in filed ensures Holding(w'.outbox, x) || Holding(w'.failed, x) || (x == n && env.taken && Exchanged(all[..k])) {
      assert Held(w', x);
      if x in w'.accepted { TakenByOwn(w, all, k, n, spot, env, x); }
    }
  }

  lemma TakenByOwn(w: Mail, all: seq<Action>, k: nat, n: Name, spot: Option<Spot>, env: Env, x: Name)
    requires k <= |all| && w.accepted == {} && x in DoAll(w, all[..k]).accepted
    requires forall a :: a in all ==> OwnAction(a, n, spot, Load(w.sidecars, n), env)
    ensures x == n && env.taken && Exchanged(all[..k])
  {
    AcceptedByExchange(w, all[..k], x);
    var i :| 0 <= i < |all[..k]| && all[..k][i] == Exchange(x, true);
    assert all[i] == all[..k][i] && all[i] in all;
  }

  lemma WiderCopies(w: Mail, some: map<Name, Bytes>, msgs: map<Name, Bytes>)
    requires Copies(w, some) && forall n :: n in some ==> n in msgs && msgs[n] == some[n]
    ensures Copies(w, msgs)
  {}

  lemma TryKeepsWhole(sys: System, ctx: Handshake.Context, move: Move, msgs: map<Name, Bytes>)
    requires Whole(sys, ctx, msgs) && CanMove(sys, ctx, move, msgs) && move.Try?
    ensures Whole(Moved(sys, ctx, move, msgs), ctx, msgs)
  {
    var n, spot, env, k := move.n, move.spot, move.env, move.k;
    var sys' := Moved(sys, ctx, move, msgs);
    FilesAfterTry(sys.mail, n, spot, env, k, msgs);
    var actions := Actions(sys.mail, n, spot, env)[..k];
    SameFiles(DoAll(sys.mail, actions), sys'.mail, msgs);
    if spot.None? || !Exchanged(actions) {
      if spot.None? { NoneExchanges(sys.mail, n, env, k); }
      QuietKeeps(sys.server, ctx, sys.mail, sys'.mail, n, msgs);
    } else {
      ExchangeKeeps(sys, sys', ctx, move, msgs);
    }
  }

  lemma SameFiles(w: Mail, w': Mail, msgs: map<Name, Bytes>)
    requires Copies(w, msgs) && w'.outbox == w.outbox && w'.failed == w.failed
    ensures Copies(w', msgs)
  {}

  lemma NoneExchanges(w: Mail, n: Name, env: Env, k: nat)
    requires Located(w.outbox, n, None) && k <= |Actions(w, n, None, env)|
    ensures !Exchanged(Actions(w, n, None, env)[..k])
  {}

  lemma QuietKeeps(s: Handshake.Mailstore, ctx: Handshake.Context, w: Mail, w': Mail, n: Name, msgs: map<Name, Bytes>)
    requires forall x :: x in msgs ==> Served(s, ctx, msgs[x]) || OnDisk(w, msgs, msgs[x])
    requires forall x :: x in Filed(w, msgs) ==> Holding(w'.outbox, x) || Holding(w'.failed, x)
    ensures forall x :: x in msgs ==> Served(s, ctx, msgs[x]) || OnDisk(w', msgs, msgs[x])
  {
    forall x | x in msgs ensures Served(s, ctx, msgs[x]) || OnDisk(w', msgs, msgs[x]) {
      if !Served(s, ctx, msgs[x]) { StillThere(w, w', msgs, msgs[x], n, false); }
    }
  }

  lemma StillThere(w: Mail, w': Mail, msgs: map<Name, Bytes>, m: Bytes, n: Name, gone: bool)
    requires OnDisk(w, msgs, m)
    requires forall x :: x in Filed(w, msgs) ==> Holding(w'.outbox, x) || Holding(w'.failed, x) || (x == n && gone)
    ensures OnDisk(w', msgs, m) || (gone && n in Filed(w, msgs) && Alike(msgs[n], m))
  {
    var x :| x in msgs && Alike(msgs[x], m) && (Holding(w.outbox, x) || Holding(w.failed, x));
    assert x in Filed(w, msgs);
    if Holding(w'.outbox, x) || Holding(w'.failed, x) { assert OnDisk(w', msgs, m); }
  }

  /** After the exchange: the message is served if the attempt succeeded, and otherwise still on disk; others are as before. */
  lemma ExchangeKeeps(sys: System, sys': System, ctx: Handshake.Context, move: Move, msgs: map<Name, Bytes>)
    requires Whole(sys, ctx, msgs) && CanMove(sys, ctx, move, msgs) && move.Try? && move.spot.Some?
    requires sys' == Moved(sys, ctx, move, msgs)
    requires Exchanged(Actions(sys.mail, move.n, move.spot, move.env)[..move.k])
    requires forall x :: x in Filed(sys.mail, msgs) ==>
               Holding(sys'.mail.outbox, x) || Holding(sys'.mail.failed, x) || (x == move.n && move.env.taken)
    ensures forall x :: x in msgs ==> Served(sys'.server, ctx, msgs[x]) || OnDisk(sys'.mail, msgs, msgs[x])
  {
    var n, blob := move.n, sys.mail.outbox[move.spot.value];
    var hasSendAt := SendsAt(sys.mail, n);
    var own := msgs[n];
    assert CopyOf(blob, own);
    AttemptLeavesOthers(sys.server, ctx, blob, hasSendAt, move.script);
    assert Holding(sys.mail.outbox, n) && n in Filed(sys.mail, msgs);
    forall x | x in msgs ensures Served(sys'.server, ctx, msgs[x]) || OnDisk(sys'.mail, msgs, msgs[x]) {
      if Alike(own, msgs[x]) {
        if move.env.taken {
          AlikeCopies(blob, own, msgs[x]);
          SuccessServes(sys.server, ctx, blob, hasSendAt, move.script, msgs[x]);
        } else {
          assert Holding(sys'.mail.outbox, n) || Holding(sys'.mail.failed, n);
          assert OnDisk(sys'.mail, msgs, msgs[x]);
        }
      } else if Served(sys.server, ctx, msgs[x]) {
        OthersStayServed(sys.server, sys'.server, ctx, blob, msgs[x]);
      } else {
        StillThere(sys.mail, sys'.mail, msgs, msgs[x], n, move.env.taken);
      }
    }
  }

  lemma LocalKeepsWhole(sys: System, ctx: Handshake.Context, step: Step, msgs: map<Name, Bytes>)
    requires Whole(sys, ctx, msgs) && CanMove(sys, ctx, Local(step), msgs)
    ensures Whole(sys.(mail := StepMail(sys.mail, step, msgs)), ctx, StepMessages(msgs, step))
  {
    var w := sys.mail;
    var w', msgs', filed := StepMail(w, step, msgs), StepMessages(msgs, step), Filed(w, msgs);
    FiledIsSafe(w, msgs);
    StepKeepsSafe(w, step, filed);
    WiderCopies(w', StepMessages(filed, step), msgs');
    StepAcceptsNone(w, step, filed);
    LocalKeepsEach(sys.server, ctx, w, w', step, msgs, filed);
  }

  lemma LocalKeepsEach(s: Handshake.Mailstore, ctx: Handshake.Context, w: Mail, w': Mail, step: Step, msgs: map<Name, Bytes>,
                       filed: map<Name, Bytes>)
    requires forall x :: x in msgs ==> Served(s, ctx, msgs[x]) || OnDisk(w, msgs, msgs[x])
    requires filed == Filed(w, msgs) && w'.accepted == {} && (step.Compose? ==> step.name !in msgs)
    requires forall x :: x in StepMessages(filed, step) ==> Held(w', x)
    ensures var msgs' := StepMessages(msgs, step);
            forall x :: x in msgs' ==> Served(s, ctx, msgs'[x]) || OnDisk(w', msgs', msgs'[x])
  {
    var msgs' := StepMessages(msgs, step);
    forall x | x in msgs' ensures Served(s, ctx, msgs'[x]) || OnDisk(w', msgs', msgs'[x]) {
      if step.Compose? && x == step.name {
        assert x in StepMessages(filed, step) && Held(w', x);
      } else if !Served(s, ctx, msgs[x]) {
        FiledStays(w, w', msgs, msgs', filed, msgs[x]);
      }
    }
  }

  lemma StepAcceptsNone(w: Mail, step: Step, msgs: map<Name, Bytes>)
    requires w.accepted == {} && !step.Attempt? && CanStep(w, step, msgs)
    ensures StepMail(w, step, msgs).accepted == {}
  {}

  lemma FiledStays(w: Mail, w': Mail, msgs: map<Name, Bytes>, msgs': map<Name, Bytes>, filed: map<Name, Bytes>, m: Bytes)
    requires OnDisk(w, msgs, m) && filed == Filed(w, msgs) && w'.accepted == {}
    requires forall y :: y in filed ==> Held(w', y) && y in msgs' && msgs'[y] == msgs[y]
    ensures OnDisk(w', msgs', m)
  {
    var y :| y in msgs && Alike(msgs[y], m) && (Holding(w.outbox, y) || Holding(w.failed, y));
    assert y in filed && Held(w', y);
  }

  lemma ReleaseKeepsWhole(sys: System, ctx: Handshake.Context, x: Handshake.SubmissionId, msgs: map<Name, Bytes>)
    requires Whole(sys, ctx, msgs) && HandshakeTheorems.CanStep(sys.server, ctx, [], HandshakeTheorems.Release(x))
    ensures Whole(sys.(server := HandshakeTheorems.Released(sys.server, ctx, x)), ctx, msgs)
  {
    var s' := HandshakeTheorems.Released(sys.server, ctx, x);
    forall n | n in msgs && Served(sys.server, ctx, msgs[n]) ensures Served(s', ctx, msgs[n]) {
      var e :| ServedAs(sys.server, ctx, msgs[n], e);
      if y :| y in sys.server.submissions && sys.server.submissions[y].email == e { assert y in s'.submissions && s'.submissions[y].email == e; }
      assert ServedAs(s', ctx, msgs[n], e);
    }
  }

  lemma MoveKeepsWhole(sys: System, ctx: Handshake.Context, move: Move, msgs: map<Name, Bytes>)
    requires Whole(sys, ctx, msgs) && CanMove(sys, ctx, move, msgs)
    ensures Whole(Moved(sys, ctx, move, msgs), ctx, MovedMessages(msgs, move))
  {
    match move {
      case Try(_, _, _, _, _) => TryKeepsWhole(sys, ctx, move, msgs);
      case Local(step) => LocalKeepsWhole(sys, ctx, step, msgs);
      case Release(x) => ReleaseKeepsWhole(sys, ctx, x, msgs);
    }
  }

  ghost predicate CanRun(sys: System, ctx: Handshake.Context, msgs: map<Name, Bytes>, moves: seq<Move>)
    decreases |moves|
  {
    moves == [] ||
    (CanMove(sys, ctx, moves[0], msgs) && CanRun(Moved(sys, ctx, moves[0], msgs), ctx, MovedMessages(msgs, moves[0]), moves[1..]))
  }

  ghost function Run(sys: System, ctx: Handshake.Context, msgs: map<Name, Bytes>, moves: seq<Move>): (System, map<Name, Bytes>)
    requires CanRun(sys, ctx, msgs, moves)
    decreases |moves|
  {
    if moves == [] then (sys, msgs) else Run(Moved(sys, ctx, moves[0], msgs), ctx, MovedMessages(msgs, moves[0]), moves[1..])
  }

  /**
   Over every run, with crashes after any action, requests and answers lost, and whatever a conforming server accepts or
   refuses: each message ever composed has a submission record or a Sent copy on the server, or a complete copy on disk.
   */
  lemma {:induction false} NoMessageLost(sys: System, ctx: Handshake.Context, msgs: map<Name, Bytes>, moves: seq<Move>)
    requires Whole(sys, ctx, msgs) && CanRun(sys, ctx, msgs, moves)
    ensures Whole(Run(sys, ctx, msgs, moves).0, ctx, Run(sys, ctx, msgs, moves).1)
    decreases |moves|
  {
    if moves != [] {
      MoveKeepsWhole(sys, ctx, moves[0], msgs);
      NoMessageLost(Moved(sys, ctx, moves[0], msgs), ctx, MovedMessages(msgs, moves[0]), moves[1..]);
    }
  }
}
