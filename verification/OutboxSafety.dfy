/** What the Outbox machine keeps: every unaccepted message has a complete copy, at every step boundary of every run. */
module OutboxSafety {
  import opened Prelude
  import opened Sidecars
  import opened Outbox
  import opened MessageCopies
  import Family2

  // -------------------------------------------------------------------------
  // The actions of an attempt
  // -------------------------------------------------------------------------

  /** What an attempt at `n` may do: its own files only, and no change to envelope or send time. */
  ghost predicate OwnAction(a: Action, n: Name, spot: Option<Spot>, sc: Sidecar, env: Env) {
    match a
    case SaveSidecar(x, saved) => x == n && Terms(saved) == Terms(sc)
    case Exchange(x, taken) => x == n && taken == env.taken && spot.Some? && env.read && LocalRejection(sc, env.parses).None?
    case UnlinkOutbox(t) => spot == Some(t)
    case WriteTmp(x, _) => x == n
    case RenameTmp(x) => x == n
    case UnlinkSidecar(x) => x == n
  }

  /** What the message is to be sent with: the part of a sidecar that the daemon only reads. */
  function Terms(sc: Sidecar): (Envelope, Option<string>) {
    (sc.envelope, sc.sendAt)
  }

  lemma ActionsAreOwn(w: Mail, n: Name, spot: Option<Spot>, env: Env)
    requires Located(w.outbox, n, spot)
    ensures forall a :: a in Actions(w, n, spot, env) ==> OwnAction(a, n, spot, Load(w.sidecars, n), env)
  {
    if spot.Some? && env.read { EndingIsOwn(spot.value, w.outbox[spot.value], Load(w.sidecars, n), Result(Load(w.sidecars, n), env), env); }
  }

  lemma EndingIsOwn(s: Spot, bytes: Bytes, sc: Sidecar, outcome: SubmitOutcome, env: Env)
    ensures forall a :: a in Ending(s, bytes, sc, outcome, env) ==> OwnAction(a, s.name, Some(s), sc, env) && !a.Exchange?
  {
    EndingSplits(s, bytes, sc, outcome, env);
    if outcome.Permanent? {
      MoveIsOwn(s, Family2.Inject(bytes, outcome.reason, env.now, env.ulid), env.move, sc, env);
    }
  }

  lemma MoveIsOwn(s: Spot, annotated: Bytes, move: MoveEnd, sc: Sidecar, env: Env)
    ensures forall a :: a in MoveActions(s, annotated, move) ==> OwnAction(a, s.name, Some(s), sc, env) && !a.Exchange?
  {
    if move.Renamed? {
      var first := [WriteTmp(s.name, annotated), RenameTmp(s.name)];
      assert forall a :: a in first ==> a == first[0] || a == first[1];
    }
  }

  /** The attempt leaves the name in the queue's care. */
  predicate Defers(w: Mail, n: Name, spot: Option<Spot>, env: Env) {
    spot.Some? && env.read && Result(Load(w.sidecars, n), env).Transient?
  }

  /** What an outcome calls for before the sidecar is removed. */
  function EndingOnFiles(s: Spot, bytes: Bytes, sc: Sidecar, outcome: SubmitOutcome, env: Env): seq<Action> {
    match outcome
    case Success => if env.removed then [UnlinkOutbox(s)] else []
    case Transient(reason) => if env.saved then [SaveSidecar(s.name, Failed(sc, reason, env.dueAt))] else []
    case Permanent(reason) => MoveActions(s, Family2.Inject(bytes, reason, env.now, env.ulid), env.move)
  }

  lemma EndingSplits(s: Spot, bytes: Bytes, sc: Sidecar, outcome: SubmitOutcome, env: Env)
    ensures Ending(s, bytes, sc, outcome, env) ==
            EndingOnFiles(s, bytes, sc, outcome, env) + if outcome.Transient? then [] else Clean(s.name, env)
    ensures forall a :: a in EndingOnFiles(s, bytes, sc, outcome, env) ==> !a.UnlinkSidecar?
  {}

  /** The sidecar is removed last, if at all. */
  lemma SidecarGoesLast(w: Mail, n: Name, spot: Option<Spot>, env: Env) returns (before: seq<Action>)
    requires Located(w.outbox, n, spot)
    ensures Actions(w, n, spot, env) == before + if Defers(w, n, spot, env) then [] else Clean(n, env)
    ensures UnlinkSidecar(n) !in before
  {
    before := [];
    if spot.Some? && env.read {
      var s, sc := spot.value, Load(w.sidecars, n);
      var opening, onFiles := Opening(n, sc, env), EndingOnFiles(s, w.outbox[s], sc, Result(sc, env), env);
      before := opening + onFiles;
      EndingSplits(s, w.outbox[s], sc, Result(sc, env), env);
      OpeningIs(n, sc, env);
      GoesLast(opening, onFiles, if Result(sc, env).Transient? then [] else Clean(n, env), before, n);
    }
  }

  lemma OpeningIs(n: Name, sc: Sidecar, env: Env)
    ensures forall a :: a in Opening(n, sc, env) ==> a.SaveSidecar? || a.Exchange?
  {}

  lemma GoesLast(opening: seq<Action>, onFiles: seq<Action>, clean: seq<Action>, before: seq<Action>, n: Name)
    requires before == opening + onFiles
    requires (forall a :: a in opening ==> !a.UnlinkSidecar?) && (forall a :: a in onFiles ==> !a.UnlinkSidecar?)
    ensures opening + (onFiles + clean) == before + clean
    ensures UnlinkSidecar(n) !in before
  {}

  /** No action on a message file. */
  ghost predicate Quiet(actions: seq<Action>) {
    forall a :: a in actions ==> a.SaveSidecar? || a.Exchange? || a.UnlinkSidecar?
  }

  lemma {:induction false} QuietKeepsFiles(w: Mail, actions: seq<Action>)
    requires Quiet(actions)
    ensures var w' := DoAll(w, actions);
            && w'.outbox == w.outbox && w'.failed == w.failed && w'.tmp == w.tmp && w.accepted <= w'.accepted
            && forall n :: Exchange(n, true) in actions ==> n in w'.accepted
    decreases |actions|
  {
    if actions != [] {
      assert actions == [actions[0]] + actions[1..];
      QuietKeepsFiles(Do(w, actions[0]), actions[1..]);
    }
  }

  lemma PrefixOfAppend(w: Mail, a: seq<Action>, b: seq<Action>, k: nat)
    requires k <= |a + b|
    ensures DoAll(w, (a + b)[..k]) == if k <= |a| then DoAll(w, a[..k]) else DoAll(DoAll(w, a), b[..k - |a|])
  {
    if k <= |a| {
      assert (a + b)[..k] == a[..k];
    } else {
      assert (a + b)[..k] == a + b[..k - |a|];
      DoAllAppend(w, a, b[..k - |a|]);
    }
  }

  // -------------------------------------------------------------------------
  // One attempt, whatever the file holds
  // -------------------------------------------------------------------------

  /** Where the copy of a failed message goes. */
  function FailedSpot(n: Name): Spot { Spot(true, n, None) }

  /** The annotated bytes, if the attempt fails for good. */
  function FailedCopy(w: Mail, s: Spot, env: Env): Option<Bytes>
    requires s in w.outbox
  {
    match Result(Load(w.sidecars, s.name), env)
    case Permanent(reason) => Some(Family2.Inject(w.outbox[s], reason, env.now, env.ulid))
    case _ => None
  }

  /** Only this file may have gone, and only with the message accepted or its copy in Failed; nothing else has changed. */
  ghost predicate KeepsBytes(w: Mail, w': Mail, s: Spot, copy: Option<Bytes>) {
    && w.accepted <= w'.accepted
    && (w'.outbox == w.outbox || w'.outbox == w.outbox - {s})
    && (w'.failed == w.failed || CopyInPlace(w, w', s, copy))
    && (s in w'.outbox || s.name in w'.accepted || CopyInPlace(w, w', s, copy))
  }

  ghost predicate CopyInPlace(w: Mail, w': Mail, s: Spot, copy: Option<Bytes>) {
    copy.Some? && w'.failed == w.failed[FailedSpot(s.name) := copy.value]
  }

  lemma QuietKeepsBytes(w: Mail, w': Mail, s: Spot, copy: Option<Bytes>, actions: seq<Action>)
    requires KeepsBytes(w, w', s, copy) && Quiet(actions)
    ensures KeepsBytes(w, DoAll(w', actions), s, copy)
  {
    QuietKeepsFiles(w', actions);
  }

  lemma TwoActions(w: Mail, a: Action, rest: seq<Action>, k: nat)
    requires k <= |rest|
    ensures DoAll(w, ([a] + rest)[..k + 1]) == DoAll(Do(w, a), rest[..k])
  {
    assert ([a] + rest)[..k + 1][1..] == rest[..k];
  }

  lemma NoAction(w: Mail, actions: seq<Action>)
    ensures DoAll(w, actions[..0]) == w
  {}

  lemma OneAction(w: Mail, a: Action, k: nat)
    requires k <= 1
    ensures DoAll(w, [a][..k]) == if k == 0 then w else Do(w, a)
  {
    if k == 1 { TwoActions(w, a, [], 0); }
    assert [a] + [] == [a];
  }

  lemma MoveKeepsBytes(w: Mail, s: Spot, annotated: Bytes, move: MoveEnd, k: nat)
    requires s in w.outbox && k <= |MoveActions(s, annotated, move)|
    ensures KeepsBytes(w, DoAll(w, MoveActions(s, annotated, move)[..k]), s, Some(annotated))
  {
    match move {
      case Unread =>
      case Torn(part) => OneAction(w, WriteTmp(s.name, part), k);
      case Unrenamed => OneAction(w, WriteTmp(s.name, annotated), k);
      case Renamed(unlinked) =>
        var last := if unlinked then [UnlinkOutbox(s)] else [];
        assert MoveActions(s, annotated, move) == [WriteTmp(s.name, annotated)] + ([RenameTmp(s.name)] + last);
        RenamedKeepsBytes(w, s, annotated, last, k);
    }
  }

  lemma RenamedKeepsBytes(w: Mail, s: Spot, annotated: Bytes, last: seq<Action>, k: nat)
    requires s in w.outbox && (last == [] || last == [UnlinkOutbox(s)])
    requires var write, rename := WriteTmp(s.name, annotated), RenameTmp(s.name); k <= |[write] + ([rename] + last)|
    ensures var write, rename := WriteTmp(s.name, annotated), RenameTmp(s.name);
            KeepsBytes(w, DoAll(w, ([write] + ([rename] + last))[..k]), s, Some(annotated))
  {
    var write, rename := WriteTmp(s.name, annotated), RenameTmp(s.name);
    var w1 := Do(w, write);
    if k == 0 {
      NoAction(w, [write] + ([rename] + last));
    } else {
      TwoActions(w, write, [rename] + last, k - 1);
      if k == 1 {
        NoAction(w1, [rename] + last);
      } else {
        TwoActions(w1, rename, last, k - 2);
        LastKeepsBytes(w, Do(w1, rename), s, annotated, last, k - 2);
      }
    }
  }

  lemma LastKeepsBytes(w: Mail, w2: Mail, s: Spot, annotated: Bytes, last: seq<Action>, k: nat)
    requires s in w.outbox && (last == [] || last == [UnlinkOutbox(s)]) && k <= |last|
    requires w2.outbox == w.outbox && w2.accepted == w.accepted && w2.failed == w.failed[FailedSpot(s.name) := annotated]
    ensures KeepsBytes(w, DoAll(w2, last[..k]), s, Some(annotated))
  {
    if k == 0 { NoAction(w2, last); } else { OneAction(w2, UnlinkOutbox(s), k); }
  }

  lemma SuccessKeepsBytes(w: Mail, s: Spot, env: Env, k: nat)
    requires s in w.outbox && s.name in w.accepted && k <= |if env.removed then [UnlinkOutbox(s)] else []|
    ensures KeepsBytes(w, DoAll(w, (if env.removed then [UnlinkOutbox(s)] else [])[..k]), s, None)
  {}

  lemma EndingKeepsBytes(w: Mail, s: Spot, sc: Sidecar, outcome: SubmitOutcome, env: Env, k: nat)
    requires s in w.outbox && (outcome.Success? ==> s.name in w.accepted)
    requires k <= |Ending(s, w.outbox[s], sc, outcome, env)|
    ensures var copy := if outcome.Permanent? then Some(Family2.Inject(w.outbox[s], outcome.reason, env.now, env.ulid)) else None;
            KeepsBytes(w, DoAll(w, Ending(s, w.outbox[s], sc, outcome, env)[..k]), s, copy)
  {
    var clean := Clean(s.name, env);
    match outcome {
      case Success =>
        var unlink := if env.removed then [UnlinkOutbox(s)] else [];
        PrefixOfAppend(w, unlink, clean, k);
        SuccessKeepsBytes(w, s, env, if k <= |unlink| then k else |unlink|);
        CleanAfter(w, s, None, unlink, clean, k);
      case Transient(reason) => QuietKeepsFiles(w, Ending(s, w.outbox[s], sc, outcome, env)[..k]);
      case Permanent(reason) =>
        var annotated := Family2.Inject(w.outbox[s], reason, env.now, env.ulid);
        var move := MoveActions(s, annotated, env.move);
        PrefixOfAppend(w, move, clean, k);
        MoveKeepsBytes(w, s, annotated, env.move, if k <= |move| then k else |move|);
        CleanAfter(w, s, Some(annotated), move, clean, k);
    }
  }

  lemma CleanAfter(w: Mail, s: Spot, copy: Option<Bytes>, actions: seq<Action>, clean: seq<Action>, k: nat)
    requires k <= |actions + clean| && Quiet(clean)
    requires KeepsBytes(w, DoAll(w, actions[..if k <= |actions| then k else |actions|]), s, copy)
    ensures KeepsBytes(w, DoAll(w, (actions + clean)[..k]), s, copy)
  {
    PrefixOfAppend(w, actions, clean, k);
    if k > |actions| {
      assert actions[..|actions|] == actions;
      QuietKeepsBytes(w, DoAll(w, actions), s, copy, clean[..k - |actions|]);
    }
  }

  /**
   For every message, whatever its bytes: stop an attempt after any number of its actions, whatever the server answered
   and whichever disk operation failed. The server has accepted the message, or its file still has its bytes, or the
   copy in Failed/new is those bytes with the three headers put before them; and no other file has changed.
   */
  lemma AttemptKeepsBytes(w: Mail, n: Name, spot: Option<Spot>, env: Env, k: nat)
    requires Located(w.outbox, n, spot) && Sane(env) && k <= |Actions(w, n, spot, env)|
    ensures var w' := DoAll(w, Actions(w, n, spot, env)[..k]);
            && (spot.None? ==> w'.outbox == w.outbox && w'.failed == w.failed && w'.accepted == w.accepted)
            && (spot.Some? ==> KeepsBytes(w, w', spot.value, FailedCopy(w, spot.value, env)))
  {
    if spot.None? || !env.read {
      CleanKeepsFiles(w, n, env, k);
    } else {
      OneFileAttempt(w, spot.value, env, k);
    }
  }

  /** An attempt that reads its file. */
  lemma OneFileAttempt(w: Mail, s: Spot, env: Env, k: nat)
    requires s in w.outbox && Sane(env)
    requires var sc := Load(w.sidecars, s.name);
             k <= |Opening(s.name, sc, env) + Ending(s, w.outbox[s], sc, Result(sc, env), env)|
    ensures var sc := Load(w.sidecars, s.name);
            var w' := DoAll(w, (Opening(s.name, sc, env) + Ending(s, w.outbox[s], sc, Result(sc, env), env))[..k]);
            KeepsBytes(w, w', s, FailedCopy(w, s, env))
  {
    var sc := Load(w.sidecars, s.name);
    PrefixOfAppend(w, Opening(s.name, sc, env), Ending(s, w.outbox[s], sc, Result(sc, env), env), k);
    if k <= |Opening(s.name, sc, env)| {
      QuietKeepsFiles(w, Opening(s.name, sc, env)[..k]);
    } else {
      AfterOpening(w, s, env, k - |Opening(s.name, sc, env)|);
    }
  }

  lemma AfterOpening(w: Mail, s: Spot, env: Env, k: nat)
    requires s in w.outbox && Sane(env)
    requires var sc := Load(w.sidecars, s.name); k <= |Ending(s, w.outbox[s], sc, Result(sc, env), env)|
    ensures var sc := Load(w.sidecars, s.name);
            var w' := DoAll(DoAll(w, Opening(s.name, sc, env)), Ending(s, w.outbox[s], sc, Result(sc, env), env)[..k]);
            KeepsBytes(w, w', s, FailedCopy(w, s, env))
  {
    var sc := Load(w.sidecars, s.name);
    OpeningIsQuiet(s.name, sc, env);
    QuietKeepsFiles(w, Opening(s.name, sc, env));
    if Result(sc, env).Success? { TakenIsAccepted(w, s.name, sc, env); }
    EndingAfter(w, DoAll(w, Opening(s.name, sc, env)), s, sc, Result(sc, env), env, k);
  }

  lemma EndingAfter(w: Mail, w1: Mail, s: Spot, sc: Sidecar, outcome: SubmitOutcome, env: Env, k: nat)
    requires s in w.outbox && w1.outbox == w.outbox && w1.failed == w.failed && w.accepted <= w1.accepted
    requires (outcome.Success? ==> s.name in w1.accepted) && k <= |Ending(s, w.outbox[s], sc, outcome, env)|
    ensures var copy := if outcome.Permanent? then Some(Family2.Inject(w.outbox[s], outcome.reason, env.now, env.ulid)) else None;
            KeepsBytes(w, DoAll(w1, Ending(s, w.outbox[s], sc, outcome, env)[..k]), s, copy)
  {
    EndingKeepsBytes(w1, s, sc, outcome, env, k);
  }

  lemma CleanKeepsFiles(w: Mail, n: Name, env: Env, k: nat)
    requires k <= |Clean(n, env)|
    ensures var w' := DoAll(w, Clean(n, env)[..k]);
            w'.outbox == w.outbox && w'.failed == w.failed && w'.accepted == w.accepted
  {
    if k == 0 { NoAction(w, Clean(n, env)); } else { OneAction(w, UnlinkSidecar(n), k); }
  }

  lemma OpeningIsQuiet(n: Name, sc: Sidecar, env: Env)
    ensures Quiet(Opening(n, sc, env))
  {
    OpeningIs(n, sc, env);
  }

  lemma TakenIsAccepted(w: Mail, n: Name, sc: Sidecar, env: Env)
    requires Sane(env) && Result(sc, env).Success?
    ensures n in DoAll(w, Opening(n, sc, env)).accepted
  {
    QuietKeepsFiles(w, Opening(n, sc, env));
    assert Exchange(n, true) in Opening(n, sc, env);
  }

  // -------------------------------------------------------------------------
  // Safety
  // -------------------------------------------------------------------------

  /** Every file is a copy of the message of its name. */
  ghost predicate AllCopies(files: map<Spot, Bytes>, msgs: map<Name, Bytes>) {
    forall s :: s in files ==> s.name in msgs && IsCopy(files[s], msgs[s.name])
  }

  ghost predicate Holding(files: map<Spot, Bytes>, n: Name) {
    exists s :: s in files && s.name == n
  }

  ghost predicate Held(w: Mail, n: Name) {
    n in w.accepted || Holding(w.outbox, n) || Holding(w.failed, n)
  }

  ghost predicate Copies(w: Mail, msgs: map<Name, Bytes>) {
    AllCopies(w.outbox, msgs) && AllCopies(w.failed, msgs)
  }

  /** Every message was accepted or has a copy in Outbox or Failed. */
  ghost predicate Safe(w: Mail, msgs: map<Name, Bytes>) {
    Copies(w, msgs) && forall n :: n in msgs ==> Held(w, n)
  }

  lemma HoldingStays(files: map<Spot, Bytes>, files': map<Spot, Bytes>, n: Name)
    requires Holding(files, n) && files.Keys <= files'.Keys
    ensures Holding(files', n)
  {
    var s :| s in files && s.name == n;
    assert s in files';
  }

  lemma BytesKeepCopies(w: Mail, w': Mail, s: Spot, copy: Option<Bytes>, msgs: map<Name, Bytes>)
    requires Copies(w, msgs) && s in w.outbox && KeepsBytes(w, w', s, copy)
    requires copy.Some? ==> IsCopy(copy.value, msgs[s.name])
    ensures Copies(w', msgs)
  {}

  lemma BytesKeepHeld(w: Mail, w': Mail, s: Spot, copy: Option<Bytes>, n: Name)
    requires Held(w, n) && s in w.outbox && KeepsBytes(w, w', s, copy)
    ensures Held(w', n)
  {
    if Holding(w.failed, n) {
      HoldingStays(w.failed, w'.failed, n);
    } else if n == s.name {
      if CopyInPlace(w, w', s, copy) { assert FailedSpot(n) in w'.failed; }
    } else if Holding(w.outbox, n) {
      var t :| t in w.outbox && t.name == n;
      assert t in w'.outbox;
    }
  }

  lemma BytesKeepSafe(w: Mail, w': Mail, s: Spot, copy: Option<Bytes>, msgs: map<Name, Bytes>)
    requires Safe(w, msgs) && s in w.outbox && KeepsBytes(w, w', s, copy)
    requires copy.Some? ==> IsCopy(copy.value, msgs[s.name])
    ensures Safe(w', msgs)
  {
    BytesKeepCopies(w, w', s, copy, msgs);
    forall n | n in msgs ensures Held(w', n) { BytesKeepHeld(w, w', s, copy, n); }
  }

  /**
   Every message the server has not accepted has a copy, and if the next action unlinks an Outbox file then it is that
   of this message, and the server has accepted it or the copy in Failed/new is in place.
   */
  lemma NoMailLost(w: Mail, n: Name, spot: Option<Spot>, env: Env, k: nat, msgs: map<Name, Bytes>)
    requires Safe(w, msgs) && Located(w.outbox, n, spot) && Sane(env) && k <= |Actions(w, n, spot, env)|
    ensures var actions := Actions(w, n, spot, env); var stopped := DoAll(w, actions[..k]);
            && Safe(stopped, msgs)
            && (k < |actions| && actions[k].UnlinkOutbox? ==>
                  && spot == Some(actions[k].spot)
                  && (|| n in stopped.accepted
                      || (FailedSpot(n) in stopped.failed && IsCopy(stopped.failed[FailedSpot(n)], msgs[n]))))
  {
    var actions := Actions(w, n, spot, env);
    var stopped := DoAll(w, actions[..k]);
    AttemptKeepsBytes(w, n, spot, env, k);
    if spot.Some? {
      var s := spot.value;
      FailedCopyIsCopy(w, s, env, msgs);
      BytesKeepSafe(w, stopped, s, FailedCopy(w, s, env), msgs);
    }
    if k < |actions| && actions[k].UnlinkOutbox? { UnlinkIsBacked(w, n, spot, env, k); }
  }

  lemma UnlinkIsBacked(w: Mail, n: Name, spot: Option<Spot>, env: Env, k: nat)
    requires Located(w.outbox, n, spot) && Sane(env) && k < |Actions(w, n, spot, env)|
    requires Actions(w, n, spot, env)[k].UnlinkOutbox?
    ensures var actions := Actions(w, n, spot, env); var stopped := DoAll(w, actions[..k]);
            && spot == Some(actions[k].spot)
            && (n in stopped.accepted || CopyInPlace(w, stopped, spot.value, FailedCopy(w, spot.value, env)))
  {
    ActionsAreOwn(w, n, spot, env);
    AttemptKeepsBytes(w, n, spot, env, k + 1);
    BackedBefore(w, Actions(w, n, spot, env), k, n, spot, env);
  }

  lemma BackedBefore(w: Mail, actions: seq<Action>, k: nat, n: Name, spot: Option<Spot>, env: Env)
    requires k < |actions| && actions[k].UnlinkOutbox? && (spot.Some? ==> spot.value in w.outbox && spot.value.name == n)
    requires forall a :: a in actions ==> OwnAction(a, n, spot, Load(w.sidecars, n), env)
    requires spot.Some? ==> KeepsBytes(w, DoAll(w, actions[..k + 1]), spot.value, FailedCopy(w, spot.value, env))
    ensures spot == Some(actions[k].spot)
    ensures var stopped := DoAll(w, actions[..k]);
            n in stopped.accepted || CopyInPlace(w, stopped, spot.value, FailedCopy(w, spot.value, env))
  {
    UnlinkIsOwn(actions, k, n, spot, Load(w.sidecars, n), env);
    OneMore(w, actions, k);
    UnlinkedLast(w, DoAll(w, actions[..k]), spot.value, FailedCopy(w, spot.value, env));
  }

  lemma UnlinkedLast(w: Mail, stopped: Mail, s: Spot, copy: Option<Bytes>)
    requires KeepsBytes(w, Do(stopped, UnlinkOutbox(s)), s, copy)
    ensures s.name in stopped.accepted || CopyInPlace(w, stopped, s, copy)
  {}

  lemma UnlinkIsOwn(actions: seq<Action>, k: nat, n: Name, spot: Option<Spot>, sc: Sidecar, env: Env)
    requires k < |actions| && actions[k].UnlinkOutbox? && forall a :: a in actions ==> OwnAction(a, n, spot, sc, env)
    ensures spot == Some(actions[k].spot)
  {
    assert actions[k] in actions;
  }

  lemma OneMore(w: Mail, actions: seq<Action>, k: nat)
    requires k < |actions|
    ensures DoAll(w, actions[..k + 1]) == Do(DoAll(w, actions[..k]), actions[k])
  {
    assert actions[..k + 1] == actions[..k] + [actions[k]];
    DoOne(w, actions[..k], actions[k]);
  }

  lemma FailedCopyIsCopy(w: Mail, s: Spot, env: Env, msgs: map<Name, Bytes>)
    requires Copies(w, msgs) && s in w.outbox && Sane(env)
    ensures var copy := FailedCopy(w, s, env); copy.Some? ==> IsCopy(copy.value, msgs[s.name])
  {
    var result := Result(Load(w.sidecars, s.name), env);
    if result.Permanent? { AnnotatedIsCopy(w.outbox[s], msgs[s.name], result.reason, env.now, env.ulid); }
  }

  // -------------------------------------------------------------------------
  // Runs
  // -------------------------------------------------------------------------

  datatype Step =
    /** An attempt stopped after `k` actions; all of them when it completes. */
    | Attempt(n: Name, spot: Option<Spot>, env: Env, k: nat)
    /** The user moves a file between folders or between new and cur, or its flags change. */
    | Carry(fromFailed: bool, src: Spot, toFailed: bool, dst: Spot)
    /** The headers of a drag-back are stripped. */
    | StripHeaders(file: Spot)
    | ResetSidecar(name: Name)
    /** The user, or the program that queued the message, writes the sidecar. */
    | WriteSidecar(name: Name, sidecar: Sidecar)
    | Compose(name: Name, message: Bytes, sidecar: Sidecar)

  ghost predicate CanStep(w: Mail, step: Step, msgs: map<Name, Bytes>) {
    match step
    case Attempt(n, spot, env, k) => Located(w.outbox, n, spot) && Sane(env) && k <= |Actions(w, n, spot, env)|
    case Carry(fromFailed, src, _, dst) => src.name == dst.name && src in (if fromFailed then w.failed else w.outbox)
    case StripHeaders(s) => s in w.outbox
    case ResetSidecar(_) => true
    case WriteSidecar(_, _) => true
    case Compose(n, m, _) => n !in msgs
  }

  function CarryFile(w: Mail, fromFailed: bool, src: Spot, toFailed: bool, dst: Spot): Mail
    requires src in (if fromFailed then w.failed else w.outbox)
  {
    var bytes := if fromFailed then w.failed[src] else w.outbox[src];
    var without := if fromFailed then w.(failed := w.failed - {src}) else w.(outbox := w.outbox - {src});
    if toFailed then without.(failed := without.failed[dst := bytes]) else without.(outbox := without.outbox[dst := bytes])
  }

  ghost function StepMail(w: Mail, step: Step, msgs: map<Name, Bytes>): Mail
    requires CanStep(w, step, msgs)
  {
    match step
    case Attempt(n, spot, env, k) => DoAll(w, Actions(w, n, spot, env)[..k])
    case Carry(fromFailed, src, toFailed, dst) => CarryFile(w, fromFailed, src, toFailed, dst)
    case StripHeaders(s) => w.(outbox := w.outbox[s := Family2.Strip(w.outbox[s])])
    case ResetSidecar(n) => w.(sidecars := w.sidecars[n := Reset(Load(w.sidecars, n))])
    case WriteSidecar(n, sc) => w.(sidecars := w.sidecars[n := sc])
    case Compose(n, m, sc) => w.(outbox := w.outbox[Spot(true, n, None) := m], sidecars := w.sidecars[n := sc])
  }

  function StepMessages(msgs: map<Name, Bytes>, step: Step): map<Name, Bytes> {
    if step.Compose? then msgs[step.name := step.message] else msgs
  }

  lemma CarryKeepsHeld(w: Mail, fromFailed: bool, src: Spot, toFailed: bool, dst: Spot, n: Name)
    requires Held(w, n) && src.name == dst.name && src in (if fromFailed then w.failed else w.outbox)
    ensures Held(CarryFile(w, fromFailed, src, toFailed, dst), n)
  {
    var w' := CarryFile(w, fromFailed, src, toFailed, dst);
    if n == src.name {
      assert dst in (if toFailed then w'.failed else w'.outbox);
    } else if Holding(w.outbox, n) {
      var s :| s in w.outbox && s.name == n;
      assert s in w'.outbox;
    } else if Holding(w.failed, n) {
      var s :| s in w.failed && s.name == n;
      assert s in w'.failed;
    }
  }

  lemma DropKeepsCopies(files: map<Spot, Bytes>, s: Spot, msgs: map<Name, Bytes>)
    requires AllCopies(files, msgs)
    ensures AllCopies(files - {s}, msgs)
  {}

  lemma PutKeepsCopies(files: map<Spot, Bytes>, s: Spot, bytes: Bytes, msgs: map<Name, Bytes>)
    requires AllCopies(files, msgs) && s.name in msgs && IsCopy(bytes, msgs[s.name])
    ensures AllCopies(files[s := bytes], msgs)
  {}

  lemma CarryKeepsCopies(w: Mail, fromFailed: bool, src: Spot, toFailed: bool, dst: Spot, msgs: map<Name, Bytes>)
    requires Copies(w, msgs) && src.name == dst.name && src in (if fromFailed then w.failed else w.outbox)
    ensures Copies(CarryFile(w, fromFailed, src, toFailed, dst), msgs)
  {
    var bytes := if fromFailed then w.failed[src] else w.outbox[src];
    var outbox := if fromFailed then w.outbox else w.outbox - {src};
    var failed := if fromFailed then w.failed - {src} else w.failed;
    if fromFailed { DropKeepsCopies(w.failed, src, msgs); } else { DropKeepsCopies(w.outbox, src, msgs); }
    PutKeepsCopies(if toFailed then failed else outbox, dst, bytes, msgs);
  }

  lemma CarryKeepsSafe(w: Mail, fromFailed: bool, src: Spot, toFailed: bool, dst: Spot, msgs: map<Name, Bytes>)
    requires Safe(w, msgs) && src.name == dst.name && src in (if fromFailed then w.failed else w.outbox)
    ensures Safe(CarryFile(w, fromFailed, src, toFailed, dst), msgs)
  {
    CarryKeepsCopies(w, fromFailed, src, toFailed, dst, msgs);
    forall n | n in msgs ensures Held(CarryFile(w, fromFailed, src, toFailed, dst), n) {
      CarryKeepsHeld(w, fromFailed, src, toFailed, dst, n);
    }
  }

  /** A copy written over a file, or as a new one. */
  lemma WriteKeepsSafe(w: Mail, msgs: map<Name, Bytes>, s: Spot, bytes: Bytes, w': Mail, msgs': map<Name, Bytes>)
    requires Safe(w, msgs) && w'.outbox == w.outbox[s := bytes] && w'.failed == w.failed && w'.accepted == w.accepted
    requires msgs' == msgs || (s.name !in msgs && msgs' == msgs[s.name := bytes])
    requires s.name in msgs' && IsCopy(bytes, msgs'[s.name])
    ensures Safe(w', msgs')
  {
    forall n | n in msgs' ensures Held(w', n) {
      if n == s.name {
        assert s in w'.outbox;
      } else if Holding(w.outbox, n) {
        HoldingStays(w.outbox, w'.outbox, n);
      }
    }
    WriteKeepsCopies(w, msgs, s, bytes, w', msgs');
  }

  lemma WriteKeepsCopies(w: Mail, msgs: map<Name, Bytes>, s: Spot, bytes: Bytes, w': Mail, msgs': map<Name, Bytes>)
    requires Copies(w, msgs) && w'.outbox == w.outbox[s := bytes] && w'.failed == w.failed
    requires msgs' == msgs || (s.name !in msgs && msgs' == msgs[s.name := bytes])
    requires s.name in msgs' && IsCopy(bytes, msgs'[s.name])
    ensures Copies(w', msgs')
  {}

  lemma StepKeepsSafe(w: Mail, step: Step, msgs: map<Name, Bytes>)
    requires Safe(w, msgs) && CanStep(w, step, msgs)
    ensures Safe(StepMail(w, step, msgs), StepMessages(msgs, step))
  {
    var w', msgs' := StepMail(w, step, msgs), StepMessages(msgs, step);
    match step {
      case Attempt(n, spot, env, k) => NoMailLost(w, n, spot, env, k, msgs);
      case Carry(fromFailed, src, toFailed, dst) => CarryKeepsSafe(w, fromFailed, src, toFailed, dst, msgs);
      case StripHeaders(s) =>
        StrippedIsCopy(w.outbox[s], msgs[s.name]);
        WriteKeepsSafe(w, msgs, s, Family2.Strip(w.outbox[s]), w', msgs');
      case ResetSidecar(_) => SidecarsDoNotMatter(w, w', msgs);
      case WriteSidecar(_, _) => SidecarsDoNotMatter(w, w', msgs);
      case Compose(n, m, _) =>
        MessageIsCopy(m);
        WriteKeepsSafe(w, msgs, Spot(true, n, None), m, w', msgs');
    }
  }

  lemma SidecarsDoNotMatter(w: Mail, w': Mail, msgs: map<Name, Bytes>)
    requires Safe(w, msgs) && w'.outbox == w.outbox && w'.failed == w.failed && w'.accepted == w.accepted
    ensures Safe(w', msgs)
  {
    forall n | n in msgs ensures Held(w', n) { assert Held(w, n); }
  }

  ghost predicate CanRun(w: Mail, msgs: map<Name, Bytes>, steps: seq<Step>)
    decreases |steps|
  {
    steps == [] ||
    (CanStep(w, steps[0], msgs) && CanRun(StepMail(w, steps[0], msgs), StepMessages(msgs, steps[0]), steps[1..]))
  }

  ghost function Run(w: Mail, msgs: map<Name, Bytes>, steps: seq<Step>): (Mail, map<Name, Bytes>)
    requires CanRun(w, msgs, steps)
    decreases |steps|
  {
    if steps == [] then (w, msgs) else Run(StepMail(w, steps[0], msgs), StepMessages(msgs, steps[0]), steps[1..])
  }

  /** Over every run of attempts, crashes, drag-backs and new messages, whatever the messages hold. */
  lemma {:induction false} RunKeepsSafe(w: Mail, msgs: map<Name, Bytes>, steps: seq<Step>)
    requires Safe(w, msgs) && CanRun(w, msgs, steps)
    ensures Safe(Run(w, msgs, steps).0, Run(w, msgs, steps).1)
    decreases |steps|
  {
    if steps != [] {
      StepKeepsSafe(w, steps[0], msgs);
      RunKeepsSafe(StepMail(w, steps[0], msgs), StepMessages(msgs, steps[0]), steps[1..]);
    }
  }

  /** And so every file of a message that survives still has the message in it. */
  lemma FilesHaveContent(w: Mail, msgs: map<Name, Bytes>, steps: seq<Step>)
    requires Safe(w, msgs) && CanRun(w, msgs, steps)
    ensures var (w', msgs') := Run(w, msgs, steps); HaveContent(w'.outbox, msgs') && HaveContent(w'.failed, msgs')
  {
    RunKeepsSafe(w, msgs, steps);
    var (w', msgs') := Run(w, msgs, steps);
    CopiesHaveContent(w'.outbox, msgs');
    CopiesHaveContent(w'.failed, msgs');
  }

  ghost predicate HaveContent(files: map<Spot, Bytes>, msgs: map<Name, Bytes>) {
    forall s :: s in files && s.name in msgs && Survives(msgs[s.name]) ==> Family2.Strip(files[s]) == Family2.Strip(msgs[s.name])
  }

  lemma CopiesHaveContent(files: map<Spot, Bytes>, msgs: map<Name, Bytes>)
    requires AllCopies(files, msgs)
    ensures HaveContent(files, msgs)
  {
    forall s | s in files && s.name in msgs && Survives(msgs[s.name])
      ensures Family2.Strip(files[s]) == Family2.Strip(msgs[s.name])
    {
      CopyHasContent(files[s], msgs[s.name]);
    }
  }

  // -------------------------------------------------------------------------
  // When a message is offered to the server
  // -------------------------------------------------------------------------

  ghost predicate Offers(actions: seq<Action>, n: Name) {
    exists taken :: Exchange(n, taken) in actions
  }

  /** An attempt offers the message exactly when it can read the file and the sidecar passes the local checks. */
  lemma OffersIff(w: Mail, n: Name, spot: Option<Spot>, env: Env)
    requires Located(w.outbox, n, spot)
    ensures Offers(Actions(w, n, spot, env), n) <==> spot.Some? && env.read && Fit(w.sidecars, n, env.parses)
  {
    LocalRejectionIff(Load(w.sidecars, n), env.parses);
    ActionsAreOwn(w, n, spot, env);
    if spot.Some? && env.read && Fit(w.sidecars, n, env.parses) { assert Exchange(n, env.taken) in Actions(w, n, spot, env); }
  }

  /** There is a sidecar, and it passes the local checks. */
  ghost predicate Fit(sidecars: map<Name, Sidecar>, n: Name, parses: string -> bool) {
    n in sidecars && Sendable(sidecars[n], parses)
  }

  /** No sidecar, or one that names no sender or no recipient. */
  ghost predicate NoEnvelope(sidecars: map<Name, Sidecar>, n: Name) {
    n in sidecars ==> EnvelopeError(sidecars[n].envelope).Some?
  }

  lemma {:induction false} SavesKeepTerms(w: Mail, actions: seq<Action>, n: Name)
    requires UnlinkSidecar(n) !in actions
    requires forall a :: a in actions && a.SaveSidecar? && a.name == n ==> Terms(a.sidecar) == Terms(Load(w.sidecars, n))
    ensures Terms(Load(DoAll(w, actions).sidecars, n)) == Terms(Load(w.sidecars, n))
    decreases |actions|
  {
    if actions != [] {
      assert actions == [actions[0]] + actions[1..];
      assert actions[0] in actions;
      SavesKeepTerms(Do(w, actions[0]), actions[1..], n);
    }
  }

  /** Envelope and send time after an attempt, stopped anywhere: as before, unless the sidecar was removed. */
  lemma TermsAfterAttempt(w: Mail, x: Name, spot: Option<Spot>, env: Env, k: nat, n: Name)
    requires Located(w.outbox, x, spot) && k <= |Actions(w, x, spot, env)|
    ensures var done := Actions(w, x, spot, env)[..k];
            Terms(Load(DoAll(w, done).sidecars, n)) ==
            if UnlinkSidecar(n) in done then Terms(DEFAULT) else Terms(Load(w.sidecars, n))
  {
    ActionsAreOwn(w, x, spot, env);
    var before := SidecarGoesLast(w, x, spot, env);
    TermsAfter(w, x, spot, env, before, Actions(w, x, spot, env), k, n);
  }

  lemma TermsAfterWhole(w: Mail, x: Name, spot: Option<Spot>, env: Env, n: Name)
    requires Located(w.outbox, x, spot)
    ensures Terms(Load(DoAll(w, Actions(w, x, spot, env)).sidecars, n)) ==
            if UnlinkSidecar(n) in Actions(w, x, spot, env) then Terms(DEFAULT) else Terms(Load(w.sidecars, n))
  {
    TermsAfterAttempt(w, x, spot, env, |Actions(w, x, spot, env)|, n);
    WholePrefix(Actions(w, x, spot, env));
  }

  lemma WholePrefix(actions: seq<Action>)
    ensures actions[..|actions|] == actions
  {}

  lemma TermsAfter(w: Mail, x: Name, spot: Option<Spot>, env: Env, before: seq<Action>, actions: seq<Action>, k: nat, n: Name)
    requires forall a :: a in actions ==> OwnAction(a, x, spot, Load(w.sidecars, x), env)
    requires k <= |actions| <= |before| + 1 && before <= actions && UnlinkSidecar(x) !in before
    ensures Terms(Load(DoAll(w, actions[..k]).sidecars, n)) ==
            if UnlinkSidecar(n) in actions[..k] then Terms(DEFAULT) else Terms(Load(w.sidecars, n))
  {
    InPrefix(actions, k);
    if UnlinkSidecar(n) in actions[..k] {
      LastOfAll(before, actions, k, n);
      DoOne(w, before, UnlinkSidecar(n));
    } else {
      SavesKeepTerms(w, actions[..k], n);
    }
  }

  lemma InPrefix(actions: seq<Action>, k: nat)
    requires k <= |actions|
    ensures forall a :: a in actions[..k] ==> a in actions
  {}

  lemma LastOfAll(before: seq<Action>, actions: seq<Action>, k: nat, n: Name)
    requires k <= |actions| && UnlinkSidecar(n) in actions[..k] && UnlinkSidecar(n) !in before
    requires before <= actions && |actions| <= |before| + 1
    ensures actions[..k] == before + [UnlinkSidecar(n)]
  {
    forall j | 0 <= j < |before| ensures actions[j] != UnlinkSidecar(n) {
      assert actions[j] == before[j] && before[j] in before;
    }
  }

  /** A completed attempt removes the sidecar exactly when it does not put the message off, and the disk lets it. */
  lemma RemovesSidecarIff(w: Mail, n: Name, spot: Option<Spot>, env: Env)
    requires Located(w.outbox, n, spot)
    ensures UnlinkSidecar(n) in Actions(w, n, spot, env) <==> env.cleaned && !Defers(w, n, spot, env)
  {
    var before := SidecarGoesLast(w, n, spot, env);
  }

  /** Permanent deletes the sidecar along with moving the message. */
  lemma PermanentLosesEnvelope(w: Mail, n: Name, s: Spot, env: Env)
    requires Located(w.outbox, n, Some(s)) && Result(Load(w.sidecars, n), env).Permanent? && env.cleaned
    ensures NoEnvelope(DoAll(w, Actions(w, n, Some(s), env)).sidecars, n)
  {
    RemovesSidecarIff(w, n, Some(s), env);
    TermsAfterWhole(w, n, Some(s), env, n);
    DefaultIsRejected();
  }

  /** A file that cannot be read costs its message the envelope, and stays where it is. */
  lemma UnreadLosesEnvelope(w: Mail, n: Name, s: Spot, env: Env)
    requires Located(w.outbox, n, Some(s)) && !env.read && env.cleaned
    ensures var w' := DoAll(w, Actions(w, n, Some(s), env)); NoEnvelope(w'.sidecars, n) && w'.outbox == w.outbox
  {
    RemovesSidecarIff(w, n, Some(s), env);
    TermsAfterWhole(w, n, Some(s), env, n);
    QuietKeepsFiles(w, Actions(w, n, Some(s), env));
    DefaultIsRejected();
  }

  // -------------------------------------------------------------------------
  // Envelopes over runs
  // -------------------------------------------------------------------------

  /** The sidecar the step writes for the name, from outside the daemon. */
  function Written(step: Step, n: Name): Option<Sidecar> {
    match step
    case WriteSidecar(x, sc) => if x == n then Some(sc) else None
    case Compose(x, _, sc) => if x == n then Some(sc) else None
    case _ => None
  }

  /** The step removes the sidecar. */
  ghost predicate Removes(w: Mail, step: Step, n: Name)
    requires step.Attempt? ==> Located(w.outbox, step.n, step.spot) && step.k <= |Actions(w, step.n, step.spot, step.env)|
  {
    step.Attempt? && UnlinkSidecar(n) in Actions(w, step.n, step.spot, step.env)[..step.k]
  }

  lemma TermsAfterStep(w: Mail, step: Step, msgs: map<Name, Bytes>, n: Name)
    requires CanStep(w, step, msgs)
    ensures Terms(Load(StepMail(w, step, msgs).sidecars, n)) ==
            if Written(step, n).Some? then Terms(Written(step, n).value)
            else if Removes(w, step, n) then Terms(DEFAULT)
            else Terms(Load(w.sidecars, n))
  {
    if step.Attempt? { TermsAfterAttempt(w, step.n, step.spot, step.env, step.k, n); }
  }

  lemma FitAfterStep(w: Mail, step: Step, msgs: map<Name, Bytes>, n: Name, parses: string -> bool)
    requires CanStep(w, step, msgs)
    ensures Fit(StepMail(w, step, msgs).sidecars, n, parses) <==>
            if Written(step, n).Some? then Sendable(Written(step, n).value, parses)
            else Fit(w.sidecars, n, parses) && !Removes(w, step, n)
  {
    TermsAfterStep(w, step, msgs, n);
    LocalRejectionIff(DEFAULT, parses);
  }

  /** The run neither writes nor removes the sidecar. */
  ghost predicate LeavesSidecar(w: Mail, msgs: map<Name, Bytes>, steps: seq<Step>, n: Name)
    requires CanRun(w, msgs, steps)
    decreases |steps|
  {
    steps == [] ||
    (&& Written(steps[0], n).None? && !Removes(w, steps[0], n)
     && LeavesSidecar(StepMail(w, steps[0], msgs), StepMessages(msgs, steps[0]), steps[1..], n))
  }

  /** At some step of the run a sidecar that passes is written, and from there on the run leaves it alone. */
  ghost predicate WritesAndLeaves(w: Mail, msgs: map<Name, Bytes>, steps: seq<Step>, n: Name, parses: string -> bool)
    requires CanRun(w, msgs, steps)
    decreases |steps|
  {
    && steps != []
    && var w', msgs' := StepMail(w, steps[0], msgs), StepMessages(msgs, steps[0]);
       || (&& Written(steps[0], n).Some? && Sendable(Written(steps[0], n).value, parses)
           && LeavesSidecar(w', msgs', steps[1..], n))
       || WritesAndLeaves(w', msgs', steps[1..], n, parses)
  }

  lemma {:induction false} FitAfterRun(w: Mail, msgs: map<Name, Bytes>, steps: seq<Step>, n: Name, parses: string -> bool)
    requires CanRun(w, msgs, steps)
    ensures Fit(Run(w, msgs, steps).0.sidecars, n, parses) <==>
            (Fit(w.sidecars, n, parses) && LeavesSidecar(w, msgs, steps, n)) || WritesAndLeaves(w, msgs, steps, n, parses)
    decreases |steps|
  {
    if steps != [] {
      FitAfterStep(w, steps[0], msgs, n, parses);
      FitAfterRun(StepMail(w, steps[0], msgs), StepMessages(msgs, steps[0]), steps[1..], n, parses);
    }
  }

  /**
   After any run, an attempt at the message offers it to the server exactly when it can read the file and either the
   sidecar the run began with passes and was left alone, or one that passes was written and left alone since.
   */
  lemma OfferedAfterRunIff(w: Mail, msgs: map<Name, Bytes>, steps: seq<Step>, n: Name, spot: Option<Spot>, env: Env)
    requires CanRun(w, msgs, steps) && Located(Run(w, msgs, steps).0.outbox, n, spot)
    ensures Offers(Actions(Run(w, msgs, steps).0, n, spot, env), n) <==>
            && spot.Some? && env.read
            && (|| (Fit(w.sidecars, n, env.parses) && LeavesSidecar(w, msgs, steps, n))
                || WritesAndLeaves(w, msgs, steps, n, env.parses))
  {
    OffersIff(Run(w, msgs, steps).0, n, spot, env);
    FitAfterRun(w, msgs, steps, n, env.parses);
  }

  lemma NoEnvelopeNoFit(sidecars: map<Name, Sidecar>, n: Name, parses: string -> bool)
    requires NoEnvelope(sidecars, n)
    ensures !Fit(sidecars, n, parses)
  {
    LocalRejectionIff(Load(sidecars, n), parses);
  }

  /**
   When the server refused the message for good and its sidecar was removed, a drag-back after any run reaches the server
   exactly when a sidecar that passes was written in between, and left alone since.
   */
  lemma DragBackReachesIff(w: Mail, n: Name, s: Spot, env: Env, msgs: map<Name, Bytes>, steps: seq<Step>,
                           spot: Option<Spot>, again: Env)
    requires Located(w.outbox, n, Some(s)) && Result(Load(w.sidecars, n), env).Permanent? && env.cleaned
    requires var w1 := DoAll(w, Actions(w, n, Some(s), env));
             CanRun(w1, msgs, steps) && Located(Run(w1, msgs, steps).0.outbox, n, spot) && spot.Some? && again.read
    ensures var w1 := DoAll(w, Actions(w, n, Some(s), env));
            Offers(Actions(Run(w1, msgs, steps).0, n, spot, again), n) <==> WritesAndLeaves(w1, msgs, steps, n, again.parses)
  {
    var w1 := DoAll(w, Actions(w, n, Some(s), env));
    PermanentLosesEnvelope(w, n, s, env);
    NoEnvelopeNoFit(w1.sidecars, n, again.parses);
    OfferedAfterRunIff(w1, msgs, steps, n, spot, again);
  }

  /** Without an envelope the attempt ends permanently, with nothing sent. */
  lemma NoEnvelopeNoOffer(w: Mail, x: Name, spot: Option<Spot>, env: Env, n: Name)
    requires Located(w.outbox, x, spot) && NoEnvelope(w.sidecars, n)
    ensures !Offers(Actions(w, x, spot, env), n)
    ensures x == n ==> Result(Load(w.sidecars, n), env).Permanent?
  {
    ActionsAreOwn(w, x, spot, env);
  }

  /** No step of the run offers the message to the server. */
  ghost predicate NeverOffered(w: Mail, msgs: map<Name, Bytes>, steps: seq<Step>, n: Name)
    requires CanRun(w, msgs, steps)
    decreases |steps|
  {
    steps == [] ||
    (&& (steps[0].Attempt? ==> !Offers(Actions(w, steps[0].n, steps[0].spot, steps[0].env), n))
     && NeverOffered(StepMail(w, steps[0], msgs), StepMessages(msgs, steps[0]), steps[1..], n))
  }

  lemma StepKeepsNoEnvelope(w: Mail, step: Step, msgs: map<Name, Bytes>, n: Name)
    requires CanStep(w, step, msgs) && NoEnvelope(w.sidecars, n)
    requires Written(step, n).Some? ==> EnvelopeError(Written(step, n).value.envelope).Some?
    ensures NoEnvelope(StepMail(w, step, msgs).sidecars, n)
  {
    TermsAfterStep(w, step, msgs, n);
    DefaultIsRejected();
  }

  /**
   A message that has lost its envelope is never offered to the server again: each drag-back into Outbox ends
   permanently by itself, whatever the run does, until a sidecar with a sender and a recipient is written for it.
   */
  lemma {:induction false} DragBackIsFutile(w: Mail, msgs: map<Name, Bytes>, steps: seq<Step>, n: Name)
    requires CanRun(w, msgs, steps) && NoEnvelope(w.sidecars, n)
    requires forall i :: 0 <= i < |steps| && Written(steps[i], n).Some? ==> EnvelopeError(Written(steps[i], n).value.envelope).Some?
    ensures NeverOffered(w, msgs, steps, n)
    decreases |steps|
  {
    if steps != [] {
      var step := steps[0];
      if step.Attempt? { NoEnvelopeNoOffer(w, step.n, step.spot, step.env, n); }
      StepKeepsNoEnvelope(w, step, msgs, n);
      assert forall i :: 0 <= i < |steps[1..]| ==> steps[1..][i] == steps[i + 1];
      DragBackIsFutile(StepMail(w, step, msgs), StepMessages(msgs, step), steps[1..], n);
    }
  }
}
