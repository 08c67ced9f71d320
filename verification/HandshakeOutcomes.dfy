/** Which attempts are retried and which are given up: the answer that decides, read off the script. */
module HandshakeOutcomes {
  import opened Prelude
  import opened Sidecars
  import opened Handshake
  import HandshakeTheorems

  /** The server hiccups worth a retry. */
  ghost predicate Passing(kind: MethodErrorKind) {
    kind in {ServerUnavailable, ServerFail, ServerPartialFail}
  }

  /**
   A request that failed is worth a retry unless the server said so with a 4xx status other than 429, with a problem
   document of no status or one below 500 other than 408 and 429, with a lasting method error, or with a set error.
   */
  ghost predicate WorthRetry(e: JmapError) {
    || e in {ServerMessage, ParseFailed, InternalError, WebSocket}
    || e == Transport(None)
    || (exists n :: e == Transport(Some(n)) && (n < 400 || n == 429 || 500 <= n))
    || (exists n :: e == Problem(Some(n)) && (n == 408 || n == 429 || 500 <= n))
    || (exists kind :: e == MethodFailed(kind) && Passing(kind))
  }

  lemma MethodErrorClass(kind: MethodErrorKind)
    ensures FromMethodError(kind).Transient? <==> Passing(kind)
    ensures FromMethodError(kind).Permanent? <==> !Passing(kind)
  {}

  /** A failed request puts the message off exactly when it is worth a retry; otherwise it ends it. */
  lemma RequestErrorClass(e: JmapError)
    ensures FromJmapError(e).Transient? <==> WorthRetry(e)
    ensures FromJmapError(e).Permanent? <==> !WorthRetry(e)
  {
    match e {
      case Transport(Some(n)) => assert WorthRetry(e) <==> n < 400 || n == 429 || 500 <= n;
      case Problem(Some(n)) => assert WorthRetry(e) <==> n == 408 || n == 429 || 500 <= n;
      case MethodFailed(kind) => assert WorthRetry(e) <==> Passing(kind); MethodErrorClass(kind);
      case _ =>
    }
  }

  // -------------------------------------------------------------------------
  // Lists of responses
  // -------------------------------------------------------------------------

  lemma {:induction false} FineAreSkipped(before: seq<Response>, rest: seq<Response>)
    requires forall i :: 0 <= i < |before| ==> Fine(before[i])
    ensures Scan(before + rest, None) == Scan(rest, None)
  {
    if before == [] {
      assert before + rest == rest;
    } else {
      assert (before + rest)[0] == before[0] && (before + rest)[1..] == before[1..] + rest;
      assert Fine(before[0]);
      assert forall i :: 0 <= i < |before[1..]| ==> before[1..][i] == before[i + 1];
      FineAreSkipped(before[1..], rest);
    }
  }

  /** Of the first request's responses the first that is not fine decides, whatever comes after it. */
  lemma FirstFaultDecides(before: seq<Response>, r: Response, after: seq<Response>)
    requires forall i :: 0 <= i < |before| ==> Fine(before[i])
    requires r.MethodError? || r.SetSubmission? || (r.ImportEmail? && (r.importErrors == [] || !r.importErrors[0].alreadyExists || r.importErrors[0].existing.None?))
    requires !Fine(r)
    ensures var v := Scan(before + [r] + after, None);
            && v.Ended?
            && (v.outcome.Transient? <==> r.MethodError? && Passing(r.kind))
            && (v.outcome.Permanent? <==> !(r.MethodError? && Passing(r.kind)))
  {
    FineAreSkipped(before, [r] + after);
    assert before + [r] + after == before + ([r] + after);
    assert ([r] + after)[0] == r;
    if r.MethodError? { MethodErrorClass(r.kind); }
  }

  /** Nothing wrong with the creation, in a list of the last request. */
  ghost predicate FineLast(r: Response) {
    !r.MethodError? && (r.SetSubmission? ==> r.createErrors == [] && r.submitted != [])
  }

  /** The last request's responses end in success exactly when none is at fault. */
  lemma {:induction false} LastSuccessIff(responses: seq<Response>)
    ensures ScanLast(responses).Success? <==> forall i :: 0 <= i < |responses| ==> FineLast(responses[i])
  {
    if responses != [] {
      LastSuccessIff(responses[1..]);
      assert forall i :: 0 <= i < |responses[1..]| ==> responses[1..][i] == responses[i + 1];
      assert responses == [responses[0]] + responses[1..];
      if responses[0].MethodError? { MethodErrorClass(responses[0].kind); }
    }
  }

  /** And the first at fault decides. */
  lemma {:induction false} LastFaultDecides(before: seq<Response>, r: Response, after: seq<Response>)
    requires !FineLast(r) && forall i :: 0 <= i < |before| ==> FineLast(before[i])
    ensures var outcome := ScanLast(before + [r] + after);
            && (outcome.Transient? <==> r.MethodError? && Passing(r.kind))
            && (outcome.Permanent? <==> !(r.MethodError? && Passing(r.kind)))
  {
    var all := before + [r] + after;
    if before == [] {
      assert all[0] == r;
      if r.MethodError? { MethodErrorClass(r.kind); }
    } else {
      assert all[0] == before[0] && all[1..] == before[1..] + [r] + after;
      assert FineLast(before[0]);
      assert forall i :: 0 <= i < |before[1..]| ==> before[1..][i] == before[i + 1];
      LastFaultDecides(before[1..], r, after);
    }
  }

  // -------------------------------------------------------------------------
  // The whole attempt
  // -------------------------------------------------------------------------

  /** What an attempt ended on: a request that failed, a call the server answered with an error or refused, or none. */
  datatype Decider = Lost(error: JmapError) | CallFailed(kind: MethodErrorKind) | CallRefused | NoFault

  ghost function CreateDecider(c: CreateChoice): Decider {
    match c
    case CreateFails(kind) => CallFailed(kind)
    case CreateRefused => CallRefused
    case Creates(_, _) => NoFault
  }

  /** After alreadyExists: the query, then, unless the email is in Sent, the last request. */
  ghost function LateDecider(ctx: Context, script: Script): Decider {
    if !script.query.Answered? then Lost(script.query.error)
    else if script.queryFails.Some? then CallFailed(script.queryFails.value)
    else if ctx.sent in script.listed then NoFault
    else if !script.last.Answered? then Lost(script.last.error)
    else CreateDecider(script.recreate)
  }

  ghost function DeciderOf(ctx: Context, script: Script): Decider {
    if script.upload.Some? then Lost(script.upload.value)
    else if !script.first.Answered? then Lost(script.first.error)
    else match script.imported
      case ImportFails(kind) => CallFailed(kind)
      case ImportRefused => CallRefused
      case ImportExists(_) => LateDecider(ctx, script)
      case Imports(_) => CreateDecider(script.create)
  }

  /** The outcome that goes with it. */
  ghost predicate Fits(outcome: SubmitOutcome, d: Decider) {
    && (outcome.Success? <==> d.NoFault?)
    && (outcome.Transient? <==> (d.Lost? && WorthRetry(d.error)) || (d.CallFailed? && Passing(d.kind)))
    && (outcome.Permanent? <==> d.CallRefused? || (d.Lost? && !WorthRetry(d.error)) || (d.CallFailed? && !Passing(d.kind)))
  }

  lemma FirstFits(s: Mailstore, ctx: Context, blob: Bytes, i: ImportChoice, c: CreateChoice)
    requires !i.ImportExists?
    ensures var v := Scan(FirstResponses(s, ctx, blob, i, c), None);
            v.Ended? && Fits(v.outcome, match i case ImportFails(kind) => CallFailed(kind) case Imports(_) => CreateDecider(c) case _ => CallRefused)
  {
    var responses := FirstResponses(s, ctx, blob, i, c);
    FirstVerdict(s, ctx, blob, i, c);
    if !i.Imports? {
      assert responses == [] + [responses[0]] + responses[1..];
      FirstFaultDecides([], responses[0], responses[1..]);
    } else if !c.Creates? {
      assert responses == [responses[0]] + [responses[1]] + responses[2..];
      FirstFaultDecides([responses[0]], responses[1], responses[2..]);
    }
  }

  lemma LastFits(s: Mailstore, e: EmailId, c: CreateChoice)
    requires e in s.emails
    ensures Fits(ScanLast(LastResponses(s, e, c)), CreateDecider(c))
  {
    var responses := LastResponses(s, e, c);
    LastSuccessIff(responses);
    if !c.Creates? {
      assert responses == [] + [responses[0]] + responses[1..];
      LastFaultDecides([], responses[0], responses[1..]);
    }
  }

  lemma LateFits(s: Mailstore, ctx: Context, e: EmailId, hasSendAt: bool, script: Script)
    requires e in s.emails
    ensures Fits(Reconciled(s, ctx, e, hasSendAt, script).1, LateDecider(ctx, script))
  {
    if !script.query.Answered? { RequestErrorClass(script.query.error); }
    if script.queryFails.Some? { MethodErrorClass(script.queryFails.value); }
    if !script.last.Answered? { RequestErrorClass(script.last.error); }
    LastFits(s, e, script.recreate);
  }

  /**
   An attempt succeeds exactly when nothing it depended on failed. It is put off exactly when what it ended on is a
   request worth a retry or one of the three passing method errors, and ended by every other failure and refusal.
   */
  lemma OutcomeIff(s: Mailstore, ctx: Context, blob: Bytes, hasSendAt: bool, script: Script)
    requires Conforming(s, blob, script)
    ensures Fits(Submitted(s, ctx, blob, hasSendAt, script).1, DeciderOf(ctx, script))
  {
    if script.upload.Some? { RequestErrorClass(script.upload.value); }
    if !script.first.Answered? { RequestErrorClass(script.first.error); }
    FirstVerdict(s, ctx, blob, script.imported, script.create);
    if script.imported.ImportExists? {
      LateFits(s, ctx, script.imported.id, hasSendAt, script);
    } else {
      FirstFits(s, ctx, blob, script.imported, script.create);
    }
  }

  /** The server took an import and a creation, or a creation for the email it had: the requests that arrived decide. */
  ghost predicate TookCreation(ctx: Context, script: Script) {
    && script.upload.None? && !script.first.NotDelivered?
    && (|| (script.imported.Imports? && script.create.Creates?)
        || (&& script.imported.ImportExists? && script.first.Answered? && script.query.Answered? && script.queryFails.None?
            && ctx.sent !in script.listed && !script.last.NotDelivered? && script.recreate.Creates?))
  }

  lemma LateRecordIff(s: Mailstore, ctx: Context, blob: Bytes, hasSendAt: bool, script: Script)
    requires Conforming(s, blob, script) && script.imported.ImportExists? && script.first.Answered? && script.upload.None?
    ensures var s' := Reconciled(s, ctx, script.imported.id, hasSendAt, script).0;
            && (MadeRecord(s, s', ctx, blob, hasSendAt) <==> TookCreation(ctx, script))
            && (script.last.NotDelivered? || !script.query.Answered? || ctx.sent in script.listed ==> s' == s)
  {
    var e, target := script.imported.id, FileTarget(ctx, hasSendAt);
    var destroys := DestroyIds(Reconcile(script.listed, script.pendingIds, ctx.sent));
    var s' := ExecLast(s, ctx, e, target, destroys, script.willing, script.recreate);
    HandshakeTheorems.AfterLast(s, ctx, e, target, destroys, script.willing, script.recreate);
    HandshakeTheorems.RecordMade(s, s', e, ctx, blob, hasSendAt, script.recreate);
  }

  /**
   Whether a record was made depends on what reached the server, not on the outcome: an attempt whose last answer was
   lost has made one as well.
   */
  lemma RecordMadeIff(s: Mailstore, ctx: Context, blob: Bytes, hasSendAt: bool, script: Script)
    requires Conforming(s, blob, script)
    ensures var s' := Submitted(s, ctx, blob, hasSendAt, script).0;
            && (MadeRecord(s, s', ctx, blob, hasSendAt) <==> TookCreation(ctx, script))
            && (script.upload.Some? || script.first.NotDelivered? ==> s' == s)
  {
    var target, i, c := FileTarget(ctx, hasSendAt), script.imported, script.create;
    var s' := ExecFirst(s, ctx, blob, target, i, c);
    FirstVerdict(s, ctx, blob, i, c);
    HandshakeTheorems.AfterFirst(s, ctx, blob, target, i, c);
    if i.ImportExists? && script.upload.None? && script.first.Answered? {
      LateRecordIff(s, ctx, blob, hasSendAt, script);
    } else if i.Imports? {
      HandshakeTheorems.RecordMade(s, s', i.id, ctx, blob, hasSendAt, c);
    }
  }
}
