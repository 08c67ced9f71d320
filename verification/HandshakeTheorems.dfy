/** What a submission attempt means on the server, and how many records repeated attempts leave. */
module HandshakeTheorems {
  import opened Prelude
  import opened Sidecars
  import opened Handshake

  ghost predicate AllAnswered(script: Script) {
    && script.upload.None? && script.first.Answered? && script.last.Answered?
    && script.query.Answered? && script.queryFails.None?
  }

  lemma LastVerdict(s: Mailstore, e: EmailId, c: CreateChoice)
    requires e in s.emails
    ensures ScanLast(LastResponses(s, e, c)).Success? <==> c.Creates?
  {
    var responses := LastResponses(s, e, c);
    if c.Creates? {
      assert responses[1..] == [OtherResponse] && [OtherResponse][1..] == [];
      assert ScanLast([OtherResponse]) == ScanLast([]);
      assert ScanLast(responses) == ScanLast(responses[1..]);
    }
  }

  /** The email's records after the last request. */
  lemma AfterLast(s: Mailstore, ctx: Context, e: EmailId, target: MailboxId, destroys: seq<SubmissionId>,
                  willing: set<SubmissionId>, c: CreateChoice)
    requires e in s.emails && (c.Creates? ==> c.id !in s.submissions)
    ensures var s' := ExecLast(s, ctx, e, target, destroys, willing, c);
            && s'.emails.Keys == s.emails.Keys
            && (forall x :: x in s.emails ==> s'.emails[x].blob == s.emails[x].blob)
            && (forall x :: x in s.emails && x != e ==> s'.emails[x] == s.emails[x])
            && (c.Creates? ==> s'.emails[e].mailboxes == s.emails[e].mailboxes - {ctx.drafts} + {target})
            && (!c.Creates? ==> s'.emails == s.emails)
            && (forall x :: x in s'.submissions <==>
                  (c.Creates? && x == c.id) || (x in s.submissions && (c.CreateFails? || !(x in destroys && x in willing))))
            && (forall x :: x in s'.submissions && x in s.submissions ==> s'.submissions[x] == s.submissions[x])
            && (c.Creates? ==> s'.submissions[c.id] == Submission(e, c.pending))
  {}

  /** A try over an email the server has already. */
  lemma ReconciledMeans(s: Mailstore, ctx: Context, blob: Bytes, hasSendAt: bool, script: Script)
    requires Conforming(s, blob, script) && script.imported.ImportExists?
    ensures var (s', outcome) := Reconciled(s, ctx, script.imported.id, hasSendAt, script);
            && (outcome.Success? ==> MadeRecord(s, s', ctx, blob, hasSendAt) || (FoundInSent(s, ctx, blob, script) && s' == s))
            && (AllAnswered(script) && !outcome.Success? ==>
                  !FoundInSent(s, ctx, blob, script) && s'.submissions.Keys <= s.submissions.Keys)
  {
    var e, target := script.imported.id, FileTarget(ctx, hasSendAt);
    var action := Reconcile(script.listed, script.pendingIds, ctx.sent);
    assert ctx.sent in script.listed <==> ctx.sent in s.emails[e].mailboxes by {
      assert ctx.sent in script.listed <==> ctx.sent in Elements(script.listed);
    }
    if script.query.Answered? && script.queryFails.None? && !action.AlreadyDone? {
      AfterLast(s, ctx, e, target, DestroyIds(action), script.willing, script.recreate);
      LastVerdict(s, e, script.recreate);
      RecordMade(s, ExecLast(s, ctx, e, target, DestroyIds(action), script.willing, script.recreate), e, ctx, blob, hasSendAt, script.recreate);
    }
  }

  lemma RecordMade(s: Mailstore, s': Mailstore, e: EmailId, ctx: Context, blob: Bytes, hasSendAt: bool, c: CreateChoice)
    requires c.Creates? ==> c.id !in s.submissions && c.id in s'.submissions && s'.submissions[c.id].email == e
    requires c.Creates? ==> e in s'.emails && s'.emails[e].blob == blob && Filed(ctx, hasSendAt, s'.emails[e].mailboxes)
    ensures c.Creates? ==> MadeRecord(s, s', ctx, blob, hasSendAt)
  {
    if c.Creates? { assert c.id in s'.submissions && c.id !in s.submissions; }
  }

  lemma AfterFirst(s: Mailstore, ctx: Context, blob: Bytes, target: MailboxId, i: ImportChoice, c: CreateChoice)
    requires (i.Imports? ==> i.id !in s.emails) && (c.Creates? ==> c.id !in s.submissions)
    ensures var s' := ExecFirst(s, ctx, blob, target, i, c);
            && (!i.Imports? ==> s' == s)
            && (i.Imports? ==> s'.emails.Keys == s.emails.Keys + {i.id} && s'.emails[i.id].blob == blob)
            && (forall x :: x in s.emails ==> s'.emails[x] == s.emails[x])
            && (!(i.Imports? && c.Creates?) ==> s'.submissions == s.submissions)
            && (i.Imports? && c.Creates? ==>
                  && s'.submissions == s.submissions[c.id := Submission(i.id, c.pending)]
                  && s'.emails[i.id].mailboxes == {ctx.drafts} - {ctx.drafts} + {target})
  {}

  /**
   Success means that this attempt made a submission record for the message, filed in the target mailbox, or that the
   server had the message in Sent already.
   */
  lemma SuccessMeans(s: Mailstore, ctx: Context, blob: Bytes, hasSendAt: bool, script: Script)
    requires Conforming(s, blob, script)
    ensures var (s', outcome) := Submitted(s, ctx, blob, hasSendAt, script);
            outcome.Success? ==>
              MadeRecord(s, s', ctx, blob, hasSendAt) || (FoundInSent(s, ctx, blob, script) && s' == s)
  {
    var target := FileTarget(ctx, hasSendAt);
    FirstVerdict(s, ctx, blob, script.imported, script.create);
    AfterFirst(s, ctx, blob, target, script.imported, script.create);
    if script.imported.ImportExists? { ReconciledMeans(s, ctx, blob, hasSendAt, script); }
    if script.imported.Imports? {
      RecordMade(s, ExecFirst(s, ctx, blob, target, script.imported, script.create), script.imported.id, ctx, blob, hasSendAt, script.create);
    }
  }

  /** When the server answers every call, the attempt succeeds exactly in those two cases. */
  lemma SuccessIff(s: Mailstore, ctx: Context, blob: Bytes, hasSendAt: bool, script: Script)
    requires Conforming(s, blob, script) && AllAnswered(script)
    ensures var (s', outcome) := Submitted(s, ctx, blob, hasSendAt, script);
            outcome.Success? <==> MadeRecord(s, s', ctx, blob, hasSendAt) || FoundInSent(s, ctx, blob, script)
  {
    SuccessMeans(s, ctx, blob, hasSendAt, script);
    FirstVerdict(s, ctx, blob, script.imported, script.create);
    AfterFirst(s, ctx, blob, FileTarget(ctx, hasSendAt), script.imported, script.create);
    if script.imported.ImportExists? { ReconciledMeans(s, ctx, blob, hasSendAt, script); }
  }

  /**
   A successful cancel-and-resubmit leaves the email's pending records the server refused to destroy and the new one;
   so exactly the new one just when it was willing to destroy them all. No other email's records change.
   */
  lemma CancelLeavesOneIff(s: Mailstore, ctx: Context, blob: Bytes, hasSendAt: bool, script: Script)
    requires Conforming(s, blob, script) && script.imported.ImportExists? && script.pendingIds != []
    requires !FoundInSent(s, ctx, blob, script) && script.recreate.Creates? && script.recreate.pending
    requires Submitted(s, ctx, blob, hasSendAt, script).1.Success?
    ensures var s', e, x := Submitted(s, ctx, blob, hasSendAt, script).0, script.imported.id, script.recreate.id;
            && Pending(s', e) == (Pending(s, e) - script.willing) + {x}
            && (Pending(s', e) == {x} <==> Pending(s, e) <= script.willing)
            && (forall y :: y in s.submissions && s.submissions[y].email != e ==> y in s'.submissions && s'.submissions[y] == s.submissions[y])
  {
    var e, target := script.imported.id, FileTarget(ctx, hasSendAt);
    FirstVerdict(s, ctx, blob, script.imported, script.create);
    assert ctx.sent !in script.listed by { assert ctx.sent !in Elements(script.listed); }
    assert forall y :: y in script.pendingIds <==> y in Elements(script.pendingIds);
    var action := Reconcile(script.listed, script.pendingIds, ctx.sent);
    AfterLast(s, ctx, e, target, DestroyIds(action), script.willing, script.recreate);
    var s' := ExecLast(s, ctx, e, target, DestroyIds(action), script.willing, script.recreate);
    assert Submitted(s, ctx, blob, hasSendAt, script).0 == s';
    PendingAfter(s, s', e, script.recreate.id, script.willing);
  }

  lemma OnlyNewIff<T>(before: set<T>, willing: set<T>, x: T)
    requires x !in before
    ensures (before - willing) + {x} == {x} <==> before <= willing
  {
    var after := (before - willing) + {x};
    if after == {x} {
      forall y | y in before ensures y in willing {
        assert y in willing || y in after;
      }
    } else {
      var y :| y in after && y != x;
      assert y in before && y !in willing;
    }
  }

  lemma PendingAfter(s: Mailstore, s': Mailstore, e: EmailId, x: SubmissionId, willing: set<SubmissionId>)
    requires x !in s.submissions && x in s'.submissions && s'.submissions[x] == Submission(e, true)
    requires forall y :: y in s'.submissions <==> y == x || (y in s.submissions && !(y in Pending(s, e) && y in willing))
    requires forall y :: y in s'.submissions && y in s.submissions ==> s'.submissions[y] == s.submissions[y]
    ensures Pending(s', e) == (Pending(s, e) - willing) + {x}
    ensures Pending(s', e) == {x} <==> Pending(s, e) <= willing
  {
    assert Pending(s', e) == (Pending(s, e) - willing) + {x};
    OnlyNewIff(Pending(s, e), willing, x);
  }

  // -------------------------------------------------------------------------
  // Repeated attempts
  // -------------------------------------------------------------------------

  /** One email with these bytes at most, one record for it at most, and a record no longer pending only for Sent mail. */
  ghost predicate AtMostOne(s: Mailstore, ctx: Context, blob: Bytes) {
    && (forall a, b :: a in s.emails && b in s.emails && s.emails[a].blob == blob && s.emails[b].blob == blob ==> a == b)
    && (forall x :: x in s.submissions ==> s.submissions[x].email in s.emails)
    && (forall x, y :: IsRecord(s, blob, x) && IsRecord(s, blob, y) ==> x == y)
    && (forall x :: IsRecord(s, blob, x) && !s.submissions[x].pending ==> ctx.sent in s.emails[s.submissions[x].email].mailboxes)
  }

  ghost predicate IsRecord(s: Mailstore, blob: Bytes, x: SubmissionId) {
    x in s.submissions && s.submissions[x].email in s.emails && s.emails[s.submissions[x].email].blob == blob
  }

  /** The server never imports the same bytes twice, destroys what it is asked to, and files what it sends at once in Sent. */
  ghost predicate Careful(s: Mailstore, ctx: Context, blob: Bytes, hasSendAt: bool, script: Script) {
    && Conforming(s, blob, script)
    && (script.imported.Imports? ==> forall e :: e in s.emails ==> s.emails[e].blob != blob)
    && Elements(script.pendingIds) <= script.willing
    && (forall c :: c in {script.create, script.recreate} && c.Creates? && !c.pending ==> !hasSendAt || ctx.scheduled.None? || ctx.scheduled == Some(ctx.sent))
    && ctx.drafts != ctx.sent
  }

  datatype Step = Try(hasSendAt: bool, script: Script) | Release(submission: SubmissionId)

  ghost predicate CanStep(s: Mailstore, ctx: Context, blob: Bytes, step: Step) {
    match step
    case Try(hasSendAt, script) => Careful(s, ctx, blob, hasSendAt, script)
    case Release(x) => x in s.submissions && s.submissions[x].pending && s.submissions[x].email in s.emails
  }

  /** A scheduled submission goes out and its email moves to Sent. */
  function Released(s: Mailstore, ctx: Context, x: SubmissionId): Mailstore
    requires x in s.submissions && s.submissions[x].email in s.emails
  {
    var e := s.submissions[x].email;
    Mailstore(s.emails[e := s.emails[e].(mailboxes := s.emails[e].mailboxes + {ctx.sent})],
              s.submissions[x := s.submissions[x].(pending := false)])
  }

  ghost function Stepped(s: Mailstore, ctx: Context, blob: Bytes, step: Step): Mailstore
    requires CanStep(s, ctx, blob, step)
  {
    match step
    case Try(hasSendAt, script) => Submitted(s, ctx, blob, hasSendAt, script).0
    case Release(x) => Released(s, ctx, x)
  }

  lemma LastKeepsAtMostOne(s: Mailstore, ctx: Context, blob: Bytes, hasSendAt: bool, script: Script)
    requires AtMostOne(s, ctx, blob) && Careful(s, ctx, blob, hasSendAt, script) && script.imported.ImportExists?
    requires ctx.sent !in script.listed
    ensures var action := Reconcile(script.listed, script.pendingIds, ctx.sent);
            AtMostOne(ExecLast(s, ctx, script.imported.id, FileTarget(ctx, hasSendAt), DestroyIds(action), script.willing, script.recreate), ctx, blob)
  {
    var e, target := script.imported.id, FileTarget(ctx, hasSendAt);
    var destroys := DestroyIds(Reconcile(script.listed, script.pendingIds, ctx.sent));
    AfterLast(s, ctx, e, target, destroys, script.willing, script.recreate);
    assert ctx.sent !in s.emails[e].mailboxes by { assert ctx.sent !in Elements(script.listed); }
    forall x | IsRecord(s, blob, x) ensures x in destroys && x in script.willing {
      assert x in Pending(s, e);
      assert x in Elements(script.pendingIds);
    }
    OnlyTheNewOne(s, ExecLast(s, ctx, e, target, destroys, script.willing, script.recreate), ctx, blob, e, script.recreate);
  }

  /** Every old record was destroyed, or nothing happened. */
  lemma OnlyTheNewOne(s: Mailstore, s': Mailstore, ctx: Context, blob: Bytes, e: EmailId, c: CreateChoice)
    requires AtMostOne(s, ctx, blob) && e in s.emails && s.emails[e].blob == blob
    requires s'.emails.Keys == s.emails.Keys && forall x :: x in s.emails ==> s'.emails[x].blob == s.emails[x].blob
    requires forall x :: x in s.emails && x != e ==> s'.emails[x] == s.emails[x]
    requires c.CreateFails? ==> s'.submissions.Keys <= s.submissions.Keys && s'.emails == s.emails
    requires !c.CreateFails? ==> forall x :: IsRecord(s, blob, x) ==> x !in s'.submissions
    requires forall x :: x in s'.submissions ==> x in s.submissions || (c.Creates? && x == c.id)
    requires forall x :: x in s'.submissions && x in s.submissions ==> s'.submissions[x] == s.submissions[x]
    requires c.Creates? ==> c.id in s'.submissions && s'.submissions[c.id] == Submission(e, c.pending)
    requires c.Creates? && !c.pending ==> ctx.sent in s'.emails[e].mailboxes
    ensures AtMostOne(s', ctx, blob)
  {
    forall x | IsRecord(s', blob, x) ensures (c.Creates? && x == c.id) || (c.CreateFails? && IsRecord(s, blob, x)) {
      if x in s.submissions { assert IsRecord(s, blob, x); }
    }
  }

  lemma FirstKeepsAtMostOne(s: Mailstore, ctx: Context, blob: Bytes, hasSendAt: bool, script: Script)
    requires AtMostOne(s, ctx, blob) && Careful(s, ctx, blob, hasSendAt, script)
    ensures AtMostOne(ExecFirst(s, ctx, blob, FileTarget(ctx, hasSendAt), script.imported, script.create), ctx, blob)
  {
    var target, i, c := FileTarget(ctx, hasSendAt), script.imported, script.create;
    AfterFirst(s, ctx, blob, target, i, c);
    if i.Imports? {
      var s' := ExecFirst(s, ctx, blob, target, i, c);
      assert forall x :: x in s.submissions ==> s.submissions[x].email in s.emails;
      assert forall x :: IsRecord(s', blob, x) ==> c.Creates? && x == c.id;
    }
  }

  lemma ReleaseKeepsAtMostOne(s: Mailstore, ctx: Context, blob: Bytes, x: SubmissionId)
    requires AtMostOne(s, ctx, blob) && x in s.submissions && s.submissions[x].email in s.emails
    ensures AtMostOne(Released(s, ctx, x), ctx, blob)
  {
    var s' := Released(s, ctx, x);
    forall y ensures IsRecord(s', blob, y) == IsRecord(s, blob, y) {}
  }

  lemma StepKeepsAtMostOne(s: Mailstore, ctx: Context, blob: Bytes, step: Step)
    requires AtMostOne(s, ctx, blob) && CanStep(s, ctx, blob, step)
    ensures AtMostOne(Stepped(s, ctx, blob, step), ctx, blob)
  {
    match step {
      case Release(x) => ReleaseKeepsAtMostOne(s, ctx, blob, x);
      case Try(hasSendAt, script) =>
        FirstKeepsAtMostOne(s, ctx, blob, hasSendAt, script);
        FirstVerdict(s, ctx, blob, script.imported, script.create);
        AfterFirst(s, ctx, blob, FileTarget(ctx, hasSendAt), script.imported, script.create);
        if script.imported.ImportExists? && ctx.sent !in script.listed {
          LastKeepsAtMostOne(s, ctx, blob, hasSendAt, script);
        }
    }
  }

  ghost predicate CanRun(s: Mailstore, ctx: Context, blob: Bytes, steps: seq<Step>)
    decreases |steps|
  {
    steps == [] || (CanStep(s, ctx, blob, steps[0]) && CanRun(Stepped(s, ctx, blob, steps[0]), ctx, blob, steps[1..]))
  }

  ghost function Run(s: Mailstore, ctx: Context, blob: Bytes, steps: seq<Step>): Mailstore
    requires CanRun(s, ctx, blob, steps)
    decreases |steps|
  {
    if steps == [] then s else Run(Stepped(s, ctx, blob, steps[0]), ctx, blob, steps[1..])
  }

  /**
   However often a message is tried, with requests and answers lost at will, a careful server ends with one record for
   it at most.
   */
  lemma {:induction false} RunKeepsAtMostOne(s: Mailstore, ctx: Context, blob: Bytes, steps: seq<Step>)
    requires AtMostOne(s, ctx, blob) && CanRun(s, ctx, blob, steps)
    ensures AtMostOne(Run(s, ctx, blob, steps), ctx, blob)
    decreases |steps|
  {
    if steps != [] {
      StepKeepsAtMostOne(s, ctx, blob, steps[0]);
      RunKeepsAtMostOne(Stepped(s, ctx, blob, steps[0]), ctx, blob, steps[1..]);
    }
  }

  ghost predicate NewRecord(s: Mailstore, s': Mailstore, blob: Bytes) {
    exists y :: IsRecord(s', blob, y) && y !in s.submissions
  }

  /**
   The Sent mailbox alone decides about a second send: a try answered throughout, of a message the server has already,
   makes a further record exactly when the email is not in Sent, whether or not an earlier submission has gone out.
   */
  lemma SentAgainIff(s: Mailstore, ctx: Context, blob: Bytes, hasSendAt: bool, script: Script)
    requires Conforming(s, blob, script) && AllAnswered(script) && script.imported.ImportExists? && script.recreate.Creates?
    ensures NewRecord(s, Submitted(s, ctx, blob, hasSendAt, script).0, blob) <==>
            ctx.sent !in s.emails[script.imported.id].mailboxes
  {
    var e, target := script.imported.id, FileTarget(ctx, hasSendAt);
    FirstVerdict(s, ctx, blob, script.imported, script.create);
    assert ctx.sent in script.listed <==> ctx.sent in Elements(script.listed);
    if ctx.sent !in script.listed {
      var destroys := DestroyIds(Reconcile(script.listed, script.pendingIds, ctx.sent));
      AfterLast(s, ctx, e, target, destroys, script.willing, script.recreate);
      assert IsRecord(Submitted(s, ctx, blob, hasSendAt, script).0, blob, script.recreate.id);
    }
  }

  /** So an email whose one submission has gone out but which is filed elsewhere gets a second record beside the first. */
  lemma SentElsewhereIsSentAgain(s: Mailstore, ctx: Context, blob: Bytes, hasSendAt: bool, script: Script, x: SubmissionId)
    requires Conforming(s, blob, script) && AllAnswered(script) && script.imported.ImportExists? && script.recreate.Creates?
    requires IsRecord(s, blob, x) && s.submissions[x].email == script.imported.id && !s.submissions[x].pending
    ensures var s' := Submitted(s, ctx, blob, hasSendAt, script).0;
            && IsRecord(s', blob, x)
            && (NewRecord(s, s', blob) <==> ctx.sent !in s.emails[script.imported.id].mailboxes)
  {
    var e, target := script.imported.id, FileTarget(ctx, hasSendAt);
    SentAgainIff(s, ctx, blob, hasSendAt, script);
    FirstVerdict(s, ctx, blob, script.imported, script.create);
    assert x !in script.pendingIds by { assert x !in Elements(script.pendingIds); }
    AfterLast(s, ctx, e, target, DestroyIds(Reconcile(script.listed, script.pendingIds, ctx.sent)), script.willing, script.recreate);
  }
}
