/** The submission handshake: import and submit in one request, and reconcile when the server has the message already. */
module Handshake {
  import opened Prelude
  import opened Sidecars

  type EmailId = string

  type SubmissionId = string

  type MailboxId = string

  // -------------------------------------------------------------------------
  // Errors
  // -------------------------------------------------------------------------

  datatype MethodErrorKind = ServerUnavailable | ServerFail | ServerPartialFail | OtherMethodError(what: string)

  /** `existing` is the existingId of an alreadyExists error. */
  datatype SetError = SetError(alreadyExists: bool, existing: Option<EmailId>)

  datatype JmapError =
    | Transport(httpStatus: Option<nat>)
    | Problem(problemStatus: Option<nat>)
    | ServerMessage
    | MethodFailed(kind: MethodErrorKind)
    | SetFailed
    | ParseFailed
    | InternalError
    | WebSocket

  function FromMethodError(kind: MethodErrorKind): SubmitOutcome {
    if kind.OtherMethodError? then Permanent("method") else Transient("method")
  }

  function FromJmapError(e: JmapError): SubmitOutcome {
    match e
    case Transport(Some(status)) =>
      if 400 <= status < 500 && status != 429 then Permanent("http") else Transient("transport")
    case Transport(None) => Transient("transport")
    case Problem(status) =>
      var s := if status.Some? then status.value else 0;
      if s >= 500 || s == 429 || s == 408 then Transient("problem") else Permanent("problem")
    case MethodFailed(kind) => FromMethodError(kind)
    case SetFailed => Permanent("set")
    case _ => Transient("retry")
  }

  /** A bare status and a problem document of the same error status are classed alike, except for 408. */
  lemma StatusesAgreeIff(status: nat)
    requires status >= 400
    ensures FromJmapError(Transport(Some(status))).Transient? == FromJmapError(Problem(Some(status))).Transient? <==> status != 408
  {
    if status == 408 { assert FromJmapError(Transport(Some(408))).Permanent?; }
  }

  // -------------------------------------------------------------------------
  // Reading the responses
  // -------------------------------------------------------------------------

  datatype Response =
    | MethodError(kind: MethodErrorKind)
    | ImportEmail(created: seq<EmailId>, importErrors: seq<SetError>)
    | SetSubmission(submitted: seq<SubmissionId>, createErrors: seq<SetError>)
    | GetEmail(mailboxLists: seq<seq<MailboxId>>)
    | QuerySubmission(ids: seq<SubmissionId>)
    | OtherResponse

  datatype Verdict = Ended(outcome: SubmitOutcome) | Existing(id: EmailId)

  /** What one response does to the scan: end it, remember an existing id, or nothing. */
  datatype Effect = Stop(outcome: SubmitOutcome) | Park(id: EmailId) | Next

  function EffectOf(r: Response, parked: bool): Effect {
    match r
    case MethodError(kind) => if parked then Next else Stop(FromMethodError(kind))
    case ImportEmail(created, errors) =>
      if errors != [] then
        (if errors[0].alreadyExists && errors[0].existing.Some? then Park(errors[0].existing.value) else Stop(Permanent("import")))
      else if created == [] then Stop(Permanent("import empty")) else Next
    case SetSubmission(submitted, errors) =>
      if parked then Next
      else if errors != [] then Stop(Permanent("submission"))
      else if submitted == [] then Stop(Permanent("submission empty")) else Next
    case _ => Next
  }

  function Scan(responses: seq<Response>, parked: Option<EmailId>): Verdict {
    if responses == [] then (match parked case Some(id) => Existing(id) case None => Ended(Success))
    else match EffectOf(responses[0], parked.Some?)
      case Stop(outcome) => Ended(outcome)
      case Park(id) => Scan(responses[1..], Some(id))
      case Next => Scan(responses[1..], parked)
  }

  /** The response loop of the first request. */
  method ReadFirst(responses: seq<Response>) returns (v: Verdict)
    ensures v == Scan(responses, None)
  {
    var parked: Option<EmailId> := None;
    for i := 0 to |responses|
      invariant Scan(responses, None) == Scan(responses[i..], parked)
    {
      assert responses[i..][1..] == responses[i + 1..];
      match responses[i] {
        case MethodError(kind) =>
          if parked.Some? { continue; }
          return Ended(FromMethodError(kind));
        case ImportEmail(created, errors) =>
          if errors != [] {
            if errors[0].alreadyExists && errors[0].existing.Some? {
              parked := errors[0].existing;
              continue;
            }
            return Ended(Permanent("import"));
          }
          if created == [] { return Ended(Permanent("import empty")); }
        case SetSubmission(submitted, errors) =>
          if parked.Some? { continue; }
          if errors != [] { return Ended(Permanent("submission")); }
          if submitted == [] { return Ended(Permanent("submission empty")); }
        case _ =>
      }
    }
    assert responses[|responses|..] == [];
    return match parked case Some(id) => Existing(id) case None => Ended(Success);
  }

  predicate Fine(r: Response) {
    match r
    case MethodError(_) => false
    case ImportEmail(created, errors) => errors == [] && created != []
    case SetSubmission(submitted, errors) => errors == [] && submitted != []
    case _ => true
  }

  /** The first request counts as a success exactly when every response is fine. */
  lemma {:induction false} ScanSuccessIff(responses: seq<Response>)
    ensures Scan(responses, None) == Ended(Success) <==> forall i :: 0 <= i < |responses| ==> Fine(responses[i])
  {
    if responses != [] {
      ScanSuccessIff(responses[1..]);
      assert forall i :: 0 <= i < |responses[1..]| ==> responses[1..][i] == responses[i + 1];
      if EffectOf(responses[0], false).Park? {
        ParkedStays(responses[1..], EffectOf(responses[0], false).id);
      }
    }
  }

  /** Once an existing id is parked the scan does not end in success. */
  lemma {:induction false} ParkedStays(responses: seq<Response>, id: EmailId)
    ensures Scan(responses, Some(id)) != Ended(Success)
  {
    if responses != [] {
      ParkedStays(responses[1..], match EffectOf(responses[0], true) case Park(other) => other case _ => id);
    }
  }

  /** After alreadyExists, errors and submission responses decide nothing: whatever they say, the id is reconciled. */
  lemma {:induction false} CascadeIgnored(before: seq<Response>, existing: Response, id: EmailId, after: seq<Response>)
    requires forall i :: 0 <= i < |before| ==> Fine(before[i])
    requires existing.ImportEmail? && existing.importErrors != [] && existing.importErrors[0] == SetError(true, Some(id))
    requires forall i :: 0 <= i < |after| ==> !after[i].ImportEmail?
    ensures Scan(before + [existing] + after, None) == Existing(id)
  {
    var all := before + [existing] + after;
    if before == [] {
      assert all[0] == existing && all[1..] == after;
      AfterPark(after, id);
    } else {
      assert all[0] == before[0] && all[1..] == before[1..] + [existing] + after;
      assert Fine(before[0]);
      assert forall i :: 0 <= i < |before[1..]| ==> before[1..][i] == before[i + 1];
      CascadeIgnored(before[1..], existing, id, after);
    }
  }

  lemma {:induction false} AfterPark(after: seq<Response>, id: EmailId)
    requires forall i :: 0 <= i < |after| ==> !after[i].ImportEmail?
    ensures Scan(after, Some(id)) == Existing(id)
  {
    if after != [] {
      assert forall i :: 0 <= i < |after[1..]| ==> after[1..][i] == after[i + 1];
      AfterPark(after[1..], id);
    }
  }

  // -------------------------------------------------------------------------
  // The server
  // -------------------------------------------------------------------------

  datatype Email = Email(mailboxes: set<MailboxId>, blob: Bytes)

  datatype Submission = Submission(email: EmailId, pending: bool)

  datatype Mailstore = Mailstore(emails: map<EmailId, Email>, submissions: map<SubmissionId, Submission>)

  datatype Context = Context(drafts: MailboxId, sent: MailboxId, scheduled: Option<MailboxId>)

  function FileTarget(ctx: Context, hasSendAt: bool): MailboxId {
    if hasSendAt && ctx.scheduled.Some? then ctx.scheduled.value else ctx.sent
  }

  /** What the server makes of one call. */
  datatype ImportChoice = ImportFails(kind: MethodErrorKind) | ImportRefused | ImportExists(id: EmailId) | Imports(id: EmailId)

  datatype CreateChoice = CreateFails(kind: MethodErrorKind) | CreateRefused | Creates(id: SubmissionId, pending: bool)

  function ExecImport(s: Mailstore, ctx: Context, blob: Bytes, c: ImportChoice): Mailstore {
    if c.Imports? then s.(emails := s.emails[c.id := Email({ctx.drafts}, blob)]) else s
  }

  function ImportResponse(c: ImportChoice): Response {
    match c
    case ImportFails(kind) => MethodError(kind)
    case ImportRefused => ImportEmail([], [SetError(false, None)])
    case ImportExists(id) => ImportEmail([], [SetError(true, Some(id))])
    case Imports(id) => ImportEmail([id], [])
  }

  /** Create a submission and, on success, file the email. */
  function ExecCreate(s: Mailstore, ctx: Context, e: EmailId, target: MailboxId, c: CreateChoice): Mailstore {
    if c.Creates? && e in s.emails then
      Mailstore(s.emails[e := s.emails[e].(mailboxes := s.emails[e].mailboxes - {ctx.drafts} + {target})],
                s.submissions[c.id := Submission(e, c.pending)])
    else s
  }

  /** A create that succeeds also brings the answer to its implied update. */
  function CreateResponses(s: Mailstore, e: EmailId, c: CreateChoice): seq<Response> {
    match c
    case CreateFails(kind) => [MethodError(kind)]
    case CreateRefused => [SetSubmission([], [SetError(false, None)])]
    case Creates(id, _) => if e in s.emails then [SetSubmission([id], []), OtherResponse] else [SetSubmission([], [SetError(false, None)])]
  }

  /** The submission refers to the imported email; without one the reference dangles and the server refuses or fails. */
  function Dangling(c: CreateChoice): CreateChoice {
    if c.Creates? then CreateRefused else c
  }

  function ExecFirst(s: Mailstore, ctx: Context, blob: Bytes, target: MailboxId, i: ImportChoice, c: CreateChoice): Mailstore {
    if i.Imports? then ExecCreate(ExecImport(s, ctx, blob, i), ctx, i.id, target, c) else s
  }

  function FirstResponses(s: Mailstore, ctx: Context, blob: Bytes, i: ImportChoice, c: CreateChoice): seq<Response> {
    [ImportResponse(i)] +
    if i.Imports? then CreateResponses(ExecImport(s, ctx, blob, i), i.id, c) else CreateResponses(s, "", Dangling(c))
  }

  /** Of the submissions to destroy the server takes the willing ones, before the create. */
  function ExecDestroy(s: Mailstore, destroys: seq<SubmissionId>, willing: set<SubmissionId>): Mailstore {
    s.(submissions := map x | x in s.submissions && !(x in destroys && x in willing) :: s.submissions[x])
  }

  function ExecLast(s: Mailstore, ctx: Context, e: EmailId, target: MailboxId, destroys: seq<SubmissionId>,
                    willing: set<SubmissionId>, c: CreateChoice): Mailstore {
    if c.CreateFails? then s else ExecCreate(ExecDestroy(s, destroys, willing), ctx, e, target, c)
  }

  // -------------------------------------------------------------------------
  // One attempt
  // -------------------------------------------------------------------------

  datatype ReconcileAction = AlreadyDone | CancelAndResubmit(destroyIds: seq<SubmissionId>) | CreateSubmission

  function Reconcile(mailboxes: seq<MailboxId>, pendingIds: seq<SubmissionId>, sent: MailboxId): ReconcileAction {
    if sent in mailboxes then AlreadyDone
    else if pendingIds != [] then CancelAndResubmit(pendingIds)
    else CreateSubmission
  }

  function DestroyIds(action: ReconcileAction): seq<SubmissionId> {
    if action.CancelAndResubmit? then action.destroyIds else []
  }

  /** A request may not arrive, or its answer may be lost. */
  datatype Delivery = NotDelivered(error: JmapError) | AnswerLost(error: JmapError) | Answered

  datatype Script = Script(
    upload: Option<JmapError>,
    first: Delivery, imported: ImportChoice, create: CreateChoice,
    query: Delivery, queryFails: Option<MethodErrorKind>, listed: seq<MailboxId>, pendingIds: seq<SubmissionId>,
    last: Delivery, willing: set<SubmissionId>, recreate: CreateChoice)

  function LastResponses(s: Mailstore, e: EmailId, c: CreateChoice): seq<Response> {
    CreateResponses(s, e, c)
  }

  /** The response loop of the last request: every error counts. */
  method ReadLast(responses: seq<Response>) returns (outcome: SubmitOutcome)
    ensures outcome == ScanLast(responses)
  {
    for i := 0 to |responses|
      invariant ScanLast(responses) == ScanLast(responses[i..])
    {
      assert responses[i..][1..] == responses[i + 1..];
      match responses[i] {
        case MethodError(kind) => return FromMethodError(kind);
        case SetSubmission(submitted, errors) =>
          if errors != [] { return Permanent("submission"); }
          if submitted == [] { return Permanent("submission empty"); }
        case _ =>
      }
    }
    assert responses[|responses|..] == [];
    return Success;
  }

  function ScanLast(responses: seq<Response>): SubmitOutcome {
    if responses == [] then Success
    else match responses[0]
      case MethodError(kind) => FromMethodError(kind)
      case SetSubmission(submitted, errors) =>
        if errors != [] then Permanent("submission")
        else if submitted == [] then Permanent("submission empty") else ScanLast(responses[1..])
      case _ => ScanLast(responses[1..])
  }

  /** The account on the server; `script` holds the choices it makes during one attempt. */
  class SubmissionServer {
    var emails: map<EmailId, Email>
    var submissions: map<SubmissionId, Submission>

    constructor (s: Mailstore)
      ensures Now() == s
    {
      emails, submissions := s.emails, s.submissions;
    }

    function Now(): Mailstore
      reads this
    {
      Mailstore(emails, submissions)
    }

    method ImportAndSubmit(ctx: Context, blob: Bytes, target: MailboxId, script: Script) returns (responses: seq<Response>)
      modifies this
      ensures Now() == if script.first.NotDelivered? then old(Now())
                       else ExecFirst(old(Now()), ctx, blob, target, script.imported, script.create)
      ensures responses == FirstResponses(old(Now()), ctx, blob, script.imported, script.create)
    {
      var before := Now();
      if !script.first.NotDelivered? {
        var after := ExecFirst(before, ctx, blob, target, script.imported, script.create);
        emails, submissions := after.emails, after.submissions;
      }
      responses := FirstResponses(before, ctx, blob, script.imported, script.create);
    }

    method CancelAndSubmit(ctx: Context, e: EmailId, target: MailboxId, destroys: seq<SubmissionId>, script: Script)
      returns (responses: seq<Response>)
      modifies this
      ensures Now() == if script.last.NotDelivered? then old(Now())
                       else ExecLast(old(Now()), ctx, e, target, destroys, script.willing, script.recreate)
      ensures responses == LastResponses(old(Now()), e, script.recreate)
    {
      var before := Now();
      if !script.last.NotDelivered? {
        var after := ExecLast(before, ctx, e, target, destroys, script.willing, script.recreate);
        emails, submissions := after.emails, after.submissions;
      }
      responses := LastResponses(before, e, script.recreate);
    }

    /** Look at the email the server already has, then leave it, resubmit it, or submit it. */
    method ReconcileAfterImport(ctx: Context, e: EmailId, hasSendAt: bool, script: Script) returns (outcome: SubmitOutcome)
      modifies this
      ensures Now() == Reconciled(old(Now()), ctx, e, hasSendAt, script).0
      ensures outcome == Reconciled(old(Now()), ctx, e, hasSendAt, script).1
    {
      if !script.query.Answered? { return FromJmapError(script.query.error); }
      if script.queryFails.Some? { return FromMethodError(script.queryFails.value); }
      var action := Reconcile(script.listed, script.pendingIds, ctx.sent);
      if action.AlreadyDone? { return Success; }
      var responses := CancelAndSubmit(ctx, e, FileTarget(ctx, hasSendAt), DestroyIds(action), script);
      if !script.last.Answered? { return FromJmapError(script.last.error); }
      outcome := ReadLast(responses);
    }

    method SubmitOne(ctx: Context, blob: Bytes, hasSendAt: bool, script: Script) returns (outcome: SubmitOutcome)
      modifies this
      ensures Now() == Submitted(old(Now()), ctx, blob, hasSendAt, script).0
      ensures outcome == Submitted(old(Now()), ctx, blob, hasSendAt, script).1
    {
      if script.upload.Some? { return FromJmapError(script.upload.value); }
      var responses := ImportAndSubmit(ctx, blob, FileTarget(ctx, hasSendAt), script);
      if !script.first.Answered? { return FromJmapError(script.first.error); }
      var verdict := ReadFirst(responses);
      match verdict {
        case Ended(o) => return o;
        case Existing(id) => outcome := ReconcileAfterImport(ctx, id, hasSendAt, script);
      }
    }
  }

  function Reconciled(s: Mailstore, ctx: Context, e: EmailId, hasSendAt: bool, script: Script): (Mailstore, SubmitOutcome) {
    if !script.query.Answered? then (s, FromJmapError(script.query.error))
    else if script.queryFails.Some? then (s, FromMethodError(script.queryFails.value))
    else
      var action := Reconcile(script.listed, script.pendingIds, ctx.sent);
      if action.AlreadyDone? then (s, Success)
      else if script.last.NotDelivered? then (s, FromJmapError(script.last.error))
      else
        var after := ExecLast(s, ctx, e, FileTarget(ctx, hasSendAt), DestroyIds(action), script.willing, script.recreate);
        (after, if script.last.AnswerLost? then FromJmapError(script.last.error)
                else ScanLast(LastResponses(s, e, script.recreate)))
  }

  function Submitted(s: Mailstore, ctx: Context, blob: Bytes, hasSendAt: bool, script: Script): (Mailstore, SubmitOutcome) {
    if script.upload.Some? then (s, FromJmapError(script.upload.value))
    else if script.first.NotDelivered? then (s, FromJmapError(script.first.error))
    else
      var after := ExecFirst(s, ctx, blob, FileTarget(ctx, hasSendAt), script.imported, script.create);
      if script.first.AnswerLost? then (after, FromJmapError(script.first.error))
      else match Scan(FirstResponses(s, ctx, blob, script.imported, script.create), None)
        case Ended(o) => (after, o)
        case Existing(id) => Reconciled(after, ctx, id, hasSendAt, script)
  }

  // -------------------------------------------------------------------------
  // What an attempt means
  // -------------------------------------------------------------------------

  function Pending(s: Mailstore, e: EmailId): set<SubmissionId> {
    set x | x in s.submissions && s.submissions[x].email == e && s.submissions[x].pending
  }

  /** New ids are new, an existing email is one with these bytes, and the query tells the truth about it. */
  ghost predicate Conforming(s: Mailstore, blob: Bytes, script: Script) {
    && (script.imported.Imports? ==> script.imported.id !in s.emails)
    && (script.create.Creates? ==> script.create.id !in s.submissions)
    && (script.recreate.Creates? ==> script.recreate.id !in s.submissions)
    && (script.imported.ImportExists? ==>
          && script.imported.id in s.emails && s.emails[script.imported.id].blob == blob
          && Elements(script.listed) == s.emails[script.imported.id].mailboxes
          && Elements(script.pendingIds) == Pending(s, script.imported.id))
  }

  /** A timed message belongs in the Scheduled mailbox if there is one, every other in Sent; it leaves Drafts. */
  ghost predicate Filed(ctx: Context, hasSendAt: bool, mailboxes: set<MailboxId>) {
    if hasSendAt && ctx.scheduled.Some? then
      ctx.scheduled.value in mailboxes && (ctx.drafts in mailboxes ==> ctx.drafts == ctx.scheduled.value)
    else
      ctx.sent in mailboxes && (ctx.drafts in mailboxes ==> ctx.drafts == ctx.sent)
  }

  /** The attempt made a record for an email with these bytes, filed where it belongs. */
  ghost predicate MadeRecord(s: Mailstore, s': Mailstore, ctx: Context, blob: Bytes, hasSendAt: bool) {
    exists x :: x in s'.submissions && x !in s.submissions && s'.submissions[x].email in s'.emails &&
                s'.emails[s'.submissions[x].email].blob == blob && Filed(ctx, hasSendAt, s'.emails[s'.submissions[x].email].mailboxes)
  }

  ghost predicate FoundInSent(s: Mailstore, ctx: Context, blob: Bytes, script: Script) {
    script.imported.ImportExists? && script.imported.id in s.emails &&
    s.emails[script.imported.id].blob == blob && ctx.sent in s.emails[script.imported.id].mailboxes
  }

  lemma FirstVerdict(s: Mailstore, ctx: Context, blob: Bytes, i: ImportChoice, c: CreateChoice)
    ensures var v := Scan(FirstResponses(s, ctx, blob, i, c), None);
            && (v == Ended(Success) <==> i.Imports? && c.Creates?)
            && (i.ImportExists? <==> v.Existing?) && (v.Existing? ==> v.id == i.id)
  {
    var responses := FirstResponses(s, ctx, blob, i, c);
    if i.ImportExists? {
      assert responses == [] + [responses[0]] + responses[1..];
      CascadeIgnored([], responses[0], i.id, responses[1..]);
    } else {
      ScanSuccessIff(responses);
      FirstNotParked(responses);
      if i.Imports? && c.Creates? {
        assert forall k :: 0 <= k < |responses| ==> Fine(responses[k]);
      } else if !i.Imports? {
        assert !Fine(responses[0]);
      } else {
        assert !Fine(responses[1]);
      }
    }
  }

  lemma {:induction false} FirstNotParked(responses: seq<Response>)
    requires forall k :: 0 <= k < |responses| ==> !EffectOf(responses[k], false).Park?
    ensures !Scan(responses, None).Existing?
  {
    if responses != [] {
      assert forall k :: 0 <= k < |responses[1..]| ==> responses[1..][k] == responses[k + 1];
      FirstNotParked(responses[1..]);
    }
  }
}
