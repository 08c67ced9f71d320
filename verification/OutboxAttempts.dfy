/** What one completed attempt leaves on disk, outcome by outcome. */
module OutboxAttempts {
  import opened Prelude
  import opened Sidecars
  import opened Outbox
  import Family2

  /** The sidecars while the message is being sent: marked as in flight, if the disk lets it. */
  ghost function InFlight(w: Mail, n: Name, env: Env): map<Name, Sidecar> {
    if env.marked then w.sidecars[n := Load(w.sidecars, n).(inFlight := Some(env.now))] else w.sidecars
  }

  ghost function Without(sidecars: map<Name, Sidecar>, n: Name, env: Env): map<Name, Sidecar> {
    if env.cleaned then sidecars - {n} else sidecars
  }

  /** A sidecar that does not pass means a permanent failure, one that does the server's answer. */
  lemma ResultIff(sc: Sidecar, env: Env)
    ensures Sendable(sc, env.parses) ==> Result(sc, env) == env.answer
    ensures !Sendable(sc, env.parses) ==> Result(sc, env).Permanent?
  {
    LocalRejectionIff(sc, env.parses);
  }

  lemma AfterOpening(w: Mail, n: Name, env: Env)
    ensures var sc := Load(w.sidecars, n);
            DoAll(w, Opening(n, sc, env)) ==
            w.(sidecars := InFlight(w, n, env),
               accepted := if Sendable(sc, env.parses) && env.taken then w.accepted + {n} else w.accepted)
  {
    var sc := Load(w.sidecars, n);
    LocalRejectionIff(sc, env.parses);
    DoAllAppend(w, Marking(n, sc, env), Submitting(n, sc, env));
    DoSingle(w);
    DoSingle(DoAll(w, Marking(n, sc, env)));
  }

  /** One action in a list. */
  lemma DoSingle(w: Mail)
    ensures forall a :: DoAll(w, [a]) == Do(w, a)
    ensures DoAll(w, []) == w
  {
    forall a ensures DoAll(w, [a]) == Do(w, a) {
      assert [a][1..] == [];
      assert DoAll(Do(w, a), []) == Do(w, a);
    }
  }

  lemma Splits(w: Mail, n: Name, s: Spot, env: Env) returns (w1: Mail, ending: seq<Action>)
    requires s in w.outbox && s.name == n && env.read
    ensures w1 == w.(sidecars := InFlight(w, n, env),
                     accepted := if Sendable(Load(w.sidecars, n), env.parses) && env.taken then w.accepted + {n} else w.accepted)
    ensures ending == Ending(s, w.outbox[s], Load(w.sidecars, n), Result(Load(w.sidecars, n), env), env)
    ensures DoAll(w, Actions(w, n, Some(s), env)) == DoAll(w1, ending)
  {
    var sc := Load(w.sidecars, n);
    AfterOpening(w, n, env);
    w1 := DoAll(w, Opening(n, sc, env));
    ending := Ending(s, w.outbox[s], sc, Result(sc, env), env);
    DoAllAppend(w, Opening(n, sc, env), ending);
  }

  lemma EndingOffersNothing(s: Spot, bytes: Bytes, sc: Sidecar, outcome: SubmitOutcome, env: Env)
    ensures forall a :: a in Ending(s, bytes, sc, outcome, env) ==> !a.Exchange?
  {
    match outcome {
      case Permanent(reason) =>
        var annotated := Family2.Inject(bytes, reason, env.now, env.ulid);
        var first := [WriteTmp(s.name, annotated), RenameTmp(s.name)];
        assert forall a :: a in first ==> a == first[0] || a == first[1];
        assert forall a :: a in MoveActions(s, annotated, env.move) ==> !a.Exchange?;
      case _ =>
    }
  }

  /** When the message is offered the sidecar on disk says so already, so a crash from then on leaves the mark. */
  lemma MarkedWhenOffered(w: Mail, n: Name, s: Spot, env: Env, i: nat)
    requires s in w.outbox && s.name == n && env.read
    requires i < |Actions(w, n, Some(s), env)| && Actions(w, n, Some(s), env)[i].Exchange?
    ensures DoAll(w, Actions(w, n, Some(s), env)[..i]) == w.(sidecars := InFlight(w, n, env))
  {
    var sc := Load(w.sidecars, n);
    var actions, opening := Actions(w, n, Some(s), env), Opening(n, sc, env);
    var ending := Ending(s, w.outbox[s], sc, Result(sc, env), env);
    EndingOffersNothing(s, w.outbox[s], sc, Result(sc, env), env);
    assert actions == opening + ending;
    forall k | |opening| <= k < |actions| ensures !actions[k].Exchange? {
      assert actions[k] == ending[k - |opening|] && ending[k - |opening|] in ending;
    }
    assert opening[i].Exchange? && actions[..i] == opening[..i];
    assert opening[..i] == Marking(n, sc, env);
    DoSingle(w);
  }

  /** No file, or none that can be read: the sidecar goes, nothing else. */
  lemma UnreadAttempt(w: Mail, n: Name, spot: Option<Spot>, env: Env)
    requires spot.Some? ==> spot.value in w.outbox && !env.read
    ensures DoAll(w, Actions(w, n, spot, env)) == w.(sidecars := Without(w.sidecars, n, env))
  {
    DoSingle(w);
  }

  /** Accepted: file and sidecar go. */
  lemma AcceptedAttempt(w: Mail, n: Name, s: Spot, env: Env)
    requires s in w.outbox && s.name == n && env.read && Sendable(Load(w.sidecars, n), env.parses) && env.answer.Success?
    ensures DoAll(w, Actions(w, n, Some(s), env)) ==
            w.(accepted := if env.taken then w.accepted + {n} else w.accepted,
               outbox := if env.removed then w.outbox - {s} else w.outbox,
               sidecars := Without(InFlight(w, n, env), n, env))
  {
    ResultIff(Load(w.sidecars, n), env);
    var w1, ending := Splits(w, n, s, env);
    DoAllAppend(w1, if env.removed then [UnlinkOutbox(s)] else [], Clean(n, env));
    DoSingle(w1);
    DoSingle(if env.removed then Do(w1, UnlinkOutbox(s)) else w1);
  }

  /**
   Put off: the file stays, and the sidecar records one attempt more, up to the largest 32-bit number, when the next is
   due, and why; if it cannot be saved it stays marked as in flight.
   */
  lemma DeferredAttempt(w: Mail, n: Name, s: Spot, env: Env)
    requires s in w.outbox && s.name == n && env.read && Sendable(Load(w.sidecars, n), env.parses) && env.answer.Transient?
    ensures var sc := Load(w.sidecars, n);
            var attempts := if sc.retry.None? then 1 else if sc.retry.value.attempts < 0xFFFF_FFFF then sc.retry.value.attempts + 1 else 0xFFFF_FFFF;
            DoAll(w, Actions(w, n, Some(s), env)) ==
            w.(accepted := if env.taken then w.accepted + {n} else w.accepted,
               sidecars := if env.saved then
                             w.sidecars[n := Sidecar(sc.envelope, sc.sendAt, Some(RetryState(attempts, Some(env.dueAt), Some(env.answer.reason))), None)]
                           else InFlight(w, n, env))
  {
    ResultIff(Load(w.sidecars, n), env);
    var w1, ending := Splits(w, n, s, env);
    DoSingle(w1);
  }

  /** What the move does to the folders: a copy under the three headers in Failed, and then no file in Outbox. */
  lemma AfterMove(w: Mail, s: Spot, annotated: Bytes, move: MoveEnd)
    ensures var w' := DoAll(w, MoveActions(s, annotated, move));
            && (move.Unread? ==> w' == w)
            && (move.Torn? || move.Unrenamed? ==> w' == w.(tmp := w.tmp[s.name := if move.Torn? then move.part else annotated]))
            && (move.Renamed? ==>
                  w' == w.(outbox := if move.unlinked then w.outbox - {s} else w.outbox,
                           failed := w.failed[Spot(true, s.name, None) := annotated],
                           tmp := w.tmp - {s.name}))
  {
    DoSingle(w);
    if move.Renamed? {
      var written := Do(w, WriteTmp(s.name, annotated));
      var first := [WriteTmp(s.name, annotated), RenameTmp(s.name)];
      assert first == [WriteTmp(s.name, annotated)] + [RenameTmp(s.name)];
      DoOne(w, [WriteTmp(s.name, annotated)], RenameTmp(s.name));
      assert DoAll(w, first) == Do(written, RenameTmp(s.name));
      assert w.tmp[s.name := annotated] - {s.name} == w.tmp - {s.name};
      if move.unlinked { DoOne(w, first, UnlinkOutbox(s)); } else { assert first + [] == first; }
    }
  }

  lemma AfterFailure(w: Mail, s: Spot, bytes: Bytes, sc: Sidecar, reason: string, env: Env)
    ensures var w' := DoAll(w, Ending(s, bytes, sc, Permanent(reason), env));
            && w'.sidecars == Without(w.sidecars, s.name, env) && w'.accepted == w.accepted
            && w'.outbox == (if env.move.Renamed? && env.move.unlinked then w.outbox - {s} else w.outbox)
            && w'.failed == (if env.move.Renamed? then
                               w.failed[Spot(true, s.name, None) := Family2.Inject(bytes, reason, env.now, env.ulid)]
                             else w.failed)
  {
    var annotated := Family2.Inject(bytes, reason, env.now, env.ulid);
    var moving := MoveActions(s, annotated, env.move);
    AfterMove(w, s, annotated, env.move);
    DoAllAppend(w, moving, Clean(s.name, env));
    DoSingle(DoAll(w, moving));
  }

  /** Ended: the message moves to Failed under the reason, the server's or the sidecar's, and the sidecar goes. */
  lemma EndedAttempt(w: Mail, n: Name, s: Spot, env: Env)
    requires s in w.outbox && s.name == n && env.read
    requires !Sendable(Load(w.sidecars, n), env.parses) || env.answer.Permanent?
    ensures var w' := DoAll(w, Actions(w, n, Some(s), env));
            var annotated := Family2.Inject(w.outbox[s], Result(Load(w.sidecars, n), env).reason, env.now, env.ulid);
            && (Sendable(Load(w.sidecars, n), env.parses) ==> Result(Load(w.sidecars, n), env) == env.answer)
            && w'.sidecars == Without(InFlight(w, n, env), n, env)
            && w'.accepted == (if Sendable(Load(w.sidecars, n), env.parses) && env.taken then w.accepted + {n} else w.accepted)
            && w'.outbox == (if env.move.Renamed? && env.move.unlinked then w.outbox - {s} else w.outbox)
            && w'.failed == (if env.move.Renamed? then w.failed[Spot(true, n, None) := annotated] else w.failed)
  {
    ResultIff(Load(w.sidecars, n), env);
    var w1, ending := Splits(w, n, s, env);
    AfterFailure(w1, s, w.outbox[s], Load(w.sidecars, n), Result(Load(w.sidecars, n), env).reason, env);
  }
}
