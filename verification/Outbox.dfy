/** The Outbox and Failed folders under submission attempts, crashes and drag-backs: no unaccepted message is lost. */
module Outbox {
  import opened Prelude
  import opened Sidecars
  import Family2
  import RoundTrip
  import RetrySchedule

  type Name = RetrySchedule.Name

  // -------------------------------------------------------------------------
  // Folders
  // -------------------------------------------------------------------------

  /** A file in new/ or cur/, with or without a flag suffix. */
  datatype Spot = Spot(inNew: bool, name: Name, flags: Option<string>)

  datatype Mail = Mail(
    outbox: map<Spot, Bytes>,
    failed: map<Spot, Bytes>,
    tmp: map<Name, Bytes>,
    sidecars: map<Name, Sidecar>,
    accepted: set<Name>)

  /** Each step an attempt takes on its own; between any two of them the daemon may stop. */
  datatype Action =
    | SaveSidecar(name: Name, sidecar: Sidecar)
    | Exchange(name: Name, taken: bool)
    | UnlinkOutbox(spot: Spot)
    | WriteTmp(name: Name, bytes: Bytes)
    | RenameTmp(name: Name)
    | UnlinkSidecar(name: Name)

  function Do(w: Mail, a: Action): Mail {
    match a
    case SaveSidecar(n, sc) => w.(sidecars := w.sidecars[n := sc])
    case Exchange(n, taken) => if taken then w.(accepted := w.accepted + {n}) else w
    case UnlinkOutbox(s) => w.(outbox := w.outbox - {s})
    case WriteTmp(n, b) => w.(tmp := w.tmp[n := b])
    case RenameTmp(n) =>
      if n in w.tmp then w.(failed := w.failed[Spot(true, n, None) := w.tmp[n]], tmp := w.tmp - {n}) else w
    case UnlinkSidecar(n) => w.(sidecars := w.sidecars - {n})
  }

  function DoAll(w: Mail, actions: seq<Action>): Mail
    decreases |actions|
  {
    if actions == [] then w else DoAll(Do(w, actions[0]), actions[1..])
  }

  /** The spot an attempt reads: new before cur, the bare name before a flagged one. */
  ghost predicate Located(outbox: map<Spot, Bytes>, n: Name, spot: Option<Spot>) {
    match spot
    case None => forall s :: s in outbox ==> s.name != n
    case Some(s) =>
      && s in outbox && s.name == n
      && (s.flags.Some? ==> Spot(s.inNew, n, None) !in outbox)
      && (!s.inNew ==> forall t :: t in outbox && t.name == n ==> !t.inNew)
  }

  function Load(sidecars: map<Name, Sidecar>, n: Name): Sidecar {
    if n in sidecars then sidecars[n] else DEFAULT
  }

  // -------------------------------------------------------------------------
  // An attempt
  // -------------------------------------------------------------------------

  /** How far the move to Failed gets; a failed write leaves any bytes under tmp. */
  datatype MoveEnd = Unread | Torn(part: Bytes) | Unrenamed | Renamed(unlinked: bool)

  /** The clock, the disk's failures and the server's answer during one attempt. */
  datatype Env = Env(
    read: bool,
    answer: SubmitOutcome,
    taken: bool,
    marked: bool,
    saved: bool,
    removed: bool,
    cleaned: bool,
    move: MoveEnd,
    now: string,
    dueAt: int,
    ulid: string,
    parses: string -> bool,
    stopping: bool)

  /** Success means the server took the message; otherwise it may or may not have; times and ids are one line of text. */
  ghost predicate Sane(env: Env) {
    (env.answer.Success? ==> env.taken) && RoundTrip.OneLineText(env.now) && RoundTrip.OneLineText(env.ulid)
  }

  function Result(sc: Sidecar, env: Env): SubmitOutcome {
    match LocalRejection(sc, env.parses) case Some(reason) => Permanent(reason) case None => env.answer
  }

  function Clean(n: Name, env: Env): seq<Action> {
    if env.cleaned then [UnlinkSidecar(n)] else []
  }

  function MoveActions(s: Spot, annotated: Bytes, move: MoveEnd): seq<Action> {
    match move
    case Unread => []
    case Torn(part) => [WriteTmp(s.name, part)]
    case Unrenamed => [WriteTmp(s.name, annotated)]
    case Renamed(unlinked) =>
      [WriteTmp(s.name, annotated), RenameTmp(s.name)] + if unlinked then [UnlinkOutbox(s)] else []
  }

  function Marking(n: Name, sc: Sidecar, env: Env): seq<Action> {
    if env.marked then [SaveSidecar(n, sc.(inFlight := Some(env.now)))] else []
  }

  function Submitting(n: Name, sc: Sidecar, env: Env): seq<Action> {
    if LocalRejection(sc, env.parses).Some? then [] else [Exchange(n, env.taken)]
  }

  function Opening(n: Name, sc: Sidecar, env: Env): seq<Action> {
    Marking(n, sc, env) + Submitting(n, sc, env)
  }

  function Ending(s: Spot, bytes: Bytes, sc: Sidecar, outcome: SubmitOutcome, env: Env): seq<Action> {
    match outcome
    case Success => (if env.removed then [UnlinkOutbox(s)] else []) + Clean(s.name, env)
    case Transient(reason) => if env.saved then [SaveSidecar(s.name, Failed(sc, reason, env.dueAt))] else []
    case Permanent(reason) =>
      MoveActions(s, Family2.Inject(bytes, reason, env.now, env.ulid), env.move) + Clean(s.name, env)
  }

  /** Everything an attempt does, in order; a file that cannot be read is taken for one that has gone. */
  function Actions(w: Mail, n: Name, spot: Option<Spot>, env: Env): seq<Action>
    requires spot.Some? ==> spot.value in w.outbox
  {
    if spot.None? || !env.read then Clean(n, env)
    else
      var sc := Load(w.sidecars, n);
      Opening(n, sc, env) + Ending(spot.value, w.outbox[spot.value], sc, Result(sc, env), env)
  }

  // -------------------------------------------------------------------------
  // The methods
  // -------------------------------------------------------------------------

  lemma {:induction false} DoAllAppend(w: Mail, a: seq<Action>, b: seq<Action>)
    ensures DoAll(w, a + b) == DoAll(DoAll(w, a), b)
    decreases |a|
  {
    if a == [] {
      assert a + b == b;
    } else {
      assert (a + b)[1..] == a[1..] + b;
      DoAllAppend(Do(w, a[0]), a[1..], b);
    }
  }

  lemma DoOne(w: Mail, a: seq<Action>, b: Action)
    ensures DoAll(w, a + [b]) == Do(DoAll(w, a), b)
  {
    DoAllAppend(w, a, [b]);
    assert [b][1..] == [];
  }

  class Store {
    var outbox: map<Spot, Bytes>
    var failed: map<Spot, Bytes>
    var tmp: map<Name, Bytes>
    var sidecars: map<Name, Sidecar>
    ghost var accepted: set<Name>

    /** What was done since `start`, one entry per change on disk or exchange with the server. */
    ghost var start: Mail
    ghost var log: seq<Action>

    ghost function Now(): Mail
      reads this
    {
      Mail(outbox, failed, tmp, sidecars, accepted)
    }

    ghost predicate Valid()
      reads this
    {
      Now() == DoAll(start, log)
    }

    constructor (outbox: map<Spot, Bytes>, failed: map<Spot, Bytes>, sidecars: map<Name, Sidecar>)
      ensures Valid() && log == [] && Now() == Mail(outbox, failed, map[], sidecars, {})
    {
      this.outbox, this.failed, tmp, this.sidecars, accepted := outbox, failed, map[], sidecars, {};
      start, log := Mail(outbox, failed, map[], sidecars, {}), [];
    }

    ghost method Record(a: Action)
      requires Now() == Do(DoAll(start, log), a)
      modifies this`log
      ensures Valid() && log == old(log) + [a]
    {
      DoOne(start, log, a);
      log := log + [a];
    }

    /** New before cur; in each the bare name before a flagged one. */
    method Locate(n: Name) returns (spot: Option<Spot>)
      ensures Located(outbox, n, spot)
    {
      var inNew := true;
      while true
        invariant !inNew ==> forall t :: t in outbox && t.name == n ==> !t.inNew
        decreases inNew
      {
        if Spot(inNew, n, None) in outbox { return Some(Spot(inNew, n, None)); }
        var flagged := set s | s in outbox && s.inNew == inNew && s.name == n;
        if flagged != {} {
          var s :| s in flagged;
          return Some(s);
        }
        assert forall t :: t in outbox && t.name == n ==> t.inNew != inNew by {
          assert forall t :: t in outbox && t.name == n && t.inNew == inNew ==> t in flagged;
        }
        if !inNew { return None; }
        inNew := false;
      }
    }

    /** Write under tmp, rename into new, unlink the source; returns whether the copy is in place. */
    method MoveToFailed(s: Spot, reason: string, env: Env) returns (ok: bool)
      requires Valid() && s in outbox
      modifies this`outbox, this`failed, this`tmp, this`log
      ensures Valid() && start == old(start) && ok == env.move.Renamed?
      ensures log == old(log) + MoveActions(s, Family2.Inject(old(outbox)[s], reason, env.now, env.ulid), env.move)
    {
      if env.move.Unread? { return false; }
      ghost var before := log;
      var annotated := Family2.Inject(outbox[s], reason, env.now, env.ulid);
      var written := if env.move.Torn? then env.move.part else annotated;
      tmp := tmp[s.name := written];
      Record(WriteTmp(s.name, written));
      if !env.move.Renamed? { return false; }
      failed, tmp := failed[Spot(true, s.name, None) := tmp[s.name]], tmp - {s.name};
      Record(RenameTmp(s.name));
      LogTwo(before, WriteTmp(s.name, annotated), RenameTmp(s.name));
      ok := true;
      if env.move.unlinked {
        outbox := outbox - {s};
        Record(UnlinkOutbox(s));
        LogAssoc(before, [WriteTmp(s.name, annotated), RenameTmp(s.name)], [UnlinkOutbox(s)]);
      }
    }

    method RemoveSidecar(n: Name, env: Env)
      requires Valid()
      modifies this`sidecars, this`log
      ensures Valid() && start == old(start) && log == old(log) + Clean(n, env)
    {
      if env.cleaned {
        sidecars := sidecars - {n};
        Record(UnlinkSidecar(n));
      }
    }

    method SaveSidecarFile(n: Name, sc: Sidecar, ok: bool)
      requires Valid()
      modifies this`sidecars, this`log
      ensures Valid() && start == old(start) && log == old(log) + if ok then [SaveSidecar(n, sc)] else []
    {
      if ok {
        sidecars := sidecars[n := sc];
        Record(SaveSidecar(n, sc));
      }
    }

    method Submit(n: Name, sc: Sidecar, env: Env) returns (outcome: SubmitOutcome)
      requires Valid()
      modifies this`accepted, this`log
      ensures Valid() && start == old(start) && log == old(log) + Submitting(n, sc, env) && outcome == Result(sc, env)
    {
      match LocalRejection(sc, env.parses) {
        case Some(reason) => return Permanent(reason);
        case None =>
      }
      if env.taken { accepted := accepted + {n}; }
      Record(Exchange(n, env.taken));
      return env.answer;
    }

    /** What the outcome calls for. */
    method Finish(s: Spot, sc: Sidecar, outcome: SubmitOutcome, env: Env)
      requires Valid() && s in outbox
      modifies this`outbox, this`failed, this`tmp, this`sidecars, this`log
      ensures Valid() && start == old(start) && log == old(log) + Ending(s, old(outbox)[s], sc, outcome, env)
    {
      ghost var before, b := log, outbox[s];
      match outcome {
        case Success =>
          if env.removed {
            outbox := outbox - {s};
            Record(UnlinkOutbox(s));
          }
          RemoveSidecar(s.name, env);
          LogAssoc(before, if env.removed then [UnlinkOutbox(s)] else [], Clean(s.name, env));
        case Transient(reason) =>
          SaveSidecarFile(s.name, Failed(sc, reason, env.dueAt), env.saved);
        case Permanent(reason) =>
          var _ := MoveToFailed(s, reason, env);
          RemoveSidecar(s.name, env);
          LogAssoc(before, MoveActions(s, Family2.Inject(b, reason, env.now, env.ulid), env.move), Clean(s.name, env));
      }
    }

    /** One attempt; returns whether the name goes back into the queue, which it does not while the daemon stops. */
    method HandleSubmitAttempt(n: Name, env: Env) returns (ghost spot: Option<Spot>, again: bool)
      requires Valid()
      modifies this
      ensures Valid() && start == old(start) && Located(old(outbox), n, spot)
      ensures log == old(log) + Actions(old(Now()), n, spot, env)
      ensures again <==> spot.Some? && env.read && Result(Load(old(sidecars), n), env).Transient? && !env.stopping
    {
      var at := Locate(n);
      spot, again := at, false;
      if at.None? || !env.read {
        RemoveSidecar(n, env);
        return;
      }
      ghost var before, bytes := log, outbox[at.value];
      var sc := Load(sidecars, n);
      SaveSidecarFile(n, sc.(inFlight := Some(env.now)), env.marked);
      var outcome := Submit(n, sc, env);
      Finish(at.value, sc, outcome, env);
      LogAssoc3(before, Marking(n, sc, env), Submitting(n, sc, env), Ending(at.value, bytes, sc, outcome, env));
      again := outcome.Transient? && !env.stopping;
    }
  }

  lemma LogAssoc(a: seq<Action>, b: seq<Action>, c: seq<Action>)
    ensures a + (b + c) == (a + b) + c
  {}

  lemma LogTwo(a: seq<Action>, b: Action, c: Action)
    ensures (a + [b]) + [c] == a + [b, c] && [b, c] + [] == [b, c]
  {}

  lemma LogAssoc3(a: seq<Action>, b: seq<Action>, c: seq<Action>, d: seq<Action>)
    ensures a + (b + c + d) == ((a + b) + c) + d
  {}
}
