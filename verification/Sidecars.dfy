/** The sidecar of a queued message: its envelope, its schedule, and how its attempts went. */
module Sidecars {
  import opened Prelude
  import Family2

  datatype Envelope = Envelope(from: string, to: seq<string>)

  datatype RetryState = RetryState(attempts: nat, nextAt: Option<int>, lastError: Option<string>)

  datatype Sidecar = Sidecar(envelope: Envelope, sendAt: Option<string>, retry: Option<RetryState>, inFlight: Option<string>)

  const DEFAULT: Sidecar := Sidecar(Envelope("", []), None, None, None)

  const U32_MAX := 0xFFFF_FFFF

  datatype SubmitOutcome = Success | Transient(reason: string) | Permanent(reason: string)

  predicate IsBlank(s: string) {
    forall c :: c in s ==> Family2.IsWhitespace(c)
  }

  /** Why the envelope cannot be submitted, if it cannot. */
  function EnvelopeError(e: Envelope): Option<string> {
    if IsBlank(e.from) then Some("sidecar envelope missing `from`")
    else if forall t :: t in e.to ==> IsBlank(t) then Some("sidecar envelope missing `to`")
    else None
  }

  /** A sender and at least one recipient, each with something printed. */
  lemma EnvelopeOkIff(e: Envelope)
    ensures EnvelopeError(e).None? <==>
            (exists c :: c in e.from && !Family2.IsWhitespace(c)) &&
            (exists t, c :: t in e.to && c in t && !Family2.IsWhitespace(c))
  {
    if t :| t in e.to && !IsBlank(t) {
      var c :| c in t && !Family2.IsWhitespace(c);
    }
    if t, c :| t in e.to && c in t && !Family2.IsWhitespace(c) {
      assert !IsBlank(t);
    }
  }

  lemma DefaultIsRejected()
    ensures EnvelopeError(DEFAULT.envelope).Some?
  {}

  /** What is refused before anything goes over the wire; `parses` says which send times are timestamps. */
  function LocalRejection(sc: Sidecar, parses: string -> bool): Option<string> {
    match EnvelopeError(sc.envelope)
    case Some(reason) => Some(reason)
    case None =>
      match sc.sendAt
      case Some(t) => if parses(t) then None else Some("sidecar send_at is not a timestamp")
      case None => None
  }

  /** There is a sender and a recipient, each with something printed, and the send time, if any, is a timestamp. */
  ghost predicate Sendable(sc: Sidecar, parses: string -> bool) {
    && (exists c :: c in sc.envelope.from && !Family2.IsWhitespace(c))
    && (exists t, c :: t in sc.envelope.to && c in t && !Family2.IsWhitespace(c))
    && (sc.sendAt.None? || parses(sc.sendAt.value))
  }

  /** Exactly those are not rejected. */
  lemma LocalRejectionIff(sc: Sidecar, parses: string -> bool)
    ensures LocalRejection(sc, parses).None? <==> Sendable(sc, parses)
  {
    EnvelopeOkIff(sc.envelope);
  }

  /** One more failure on record. */
  function Failed(sc: Sidecar, reason: string, dueAt: int): Sidecar {
    var attempts := match sc.retry case Some(r) => if r.attempts < U32_MAX then r.attempts + 1 else U32_MAX case None => 1;
    sc.(inFlight := None, retry := Some(RetryState(attempts, Some(dueAt), Some(reason))))
  }

  /** The user tries again. */
  function Reset(sc: Sidecar): Sidecar {
    sc.(retry := None, inFlight := None)
  }

  /** One failure after the other, each with its reason and the time of the next try. */
  function FailedAll(sc: Sidecar, failures: seq<(string, int)>): Sidecar {
    if failures == [] then sc
    else
      var n := |failures| - 1;
      Failed(FailedAll(sc, failures[..n]), failures[n].0, failures[n].1)
  }

  /** The recorded attempts count the failures since the last reset, up to the 32-bit limit; the message's data stays. */
  lemma {:induction false} AttemptsCountFailures(sc: Sidecar, failures: seq<(string, int)>)
    requires failures != []
    ensures var after := FailedAll(Reset(sc), failures);
            && after.envelope == sc.envelope && after.sendAt == sc.sendAt && after.inFlight == None
            && after.retry.Some?
            && after.retry.value.attempts == (if |failures| < U32_MAX then |failures| else U32_MAX)
            && after.retry.value.nextAt == Some(failures[|failures| - 1].1)
            && after.retry.value.lastError == Some(failures[|failures| - 1].0)
    decreases |failures|
  {
    if |failures| > 1 {
      AttemptsCountFailures(sc, failures[..|failures| - 1]);
    } else {
      assert failures[..0] == [];
    }
  }
}
