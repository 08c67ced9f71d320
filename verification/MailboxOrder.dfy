/** The order in which mailboxes are created and updated. */
module MailboxOrder {
  import opened Prelude
  import opened Primary
  import opened MailboxTree

  /** Nothing to wait for: a root, a parent already emitted, or a parent outside the target. */
  predicate IsReady(t: Targets, emitted: set<JmapId>, id: JmapId)
    requires id in t
  {
    t[id].parent.None? || t[id].parent.value in emitted || t[id].parent.value !in t
  }

  function Ready(t: Targets, emitted: set<JmapId>, remaining: set<JmapId>): set<JmapId>
    requires remaining <= t.Keys
  {
    set id | id in remaining && IsReady(t, emitted, id)
  }

  /** Round by round, each round in any order; if a round is empty, what remains in any order. */
  ghost predicate Rounds(t: Targets, emitted: set<JmapId>, remaining: set<JmapId>, order: seq<JmapId>)
    requires remaining <= t.Keys
    decreases remaining
  {
    var ready := Ready(t, emitted, remaining);
    if ready == {} then Lists(order, remaining)
    else
      && |ready| <= |order| && Lists(order[..|ready|], ready)
      && Rounds(t, emitted + ready, remaining - ready, order[|ready|..])
  }

  /** The first round of an order and what follows. */
  lemma RoundsNext(t: Targets, emitted: set<JmapId>, remaining: set<JmapId>, order: seq<JmapId>)
    returns (ready: set<JmapId>, after: set<JmapId>, left: set<JmapId>, first: seq<JmapId>, rest: seq<JmapId>)
    requires remaining <= t.Keys && Rounds(t, emitted, remaining, order) && Ready(t, emitted, remaining) != {}
    ensures ready == Ready(t, emitted, remaining) && after == emitted + ready && left == remaining - ready && left < remaining
    ensures order == first + rest && Lists(first, ready) && Rounds(t, after, left, rest)
  {
    ready := Ready(t, emitted, remaining);
    FirstRound(t, emitted, remaining, order, ready);
    after, left, first, rest := emitted + ready, remaining - ready, order[..|ready|], order[|ready|..];
    assert exists id :: id in ready && id in remaining;
  }

  lemma FirstRound(t: Targets, emitted: set<JmapId>, remaining: set<JmapId>, order: seq<JmapId>, ready: set<JmapId>)
    requires remaining <= t.Keys && Rounds(t, emitted, remaining, order) && ready == Ready(t, emitted, remaining) && ready != {}
    ensures ready <= remaining && |ready| <= |order| && Lists(order[..|ready|], ready)
    ensures Rounds(t, emitted + ready, remaining - ready, order[|ready|..])
  {}

  lemma {:induction false} ListsLength<T(!new)>(order: seq<T>, s: set<T>)
    requires Lists(order, s)
    ensures |order| == |s|
    decreases |order|
  {
    if order == [] {
      assert s == {};
    } else {
      var x := order[|order| - 1];
      var front := order[..|order| - 1];
      forall y ensures y in front <==> y in s - {x} {
        if y in s && y != x { assert y in order; }
      }
      ListsLength(front, s - {x});
    }
  }

  /** What the loop did so far, and any way to go on, make up a whole order; whoever is stuck still remains. */
  ghost predicate Begun(t: Targets, local: set<JmapId>, emitted: set<JmapId>, remaining: set<JmapId>, order: seq<JmapId>) {
    && remaining <= t.Keys && emitted == local + (t.Keys - remaining)
    && (forall rest :: Rounds(t, emitted, remaining, rest) ==> Rounds(t, local, t.Keys, order + rest))
    && (forall stuck :: Stuck(t, local, stuck) ==> stuck <= remaining)
  }

  lemma BegunAtStart(t: Targets, local: set<JmapId>)
    ensures Begun(t, local, local, t.Keys, [])
  {
    assert forall rest: seq<JmapId> :: [] + rest == rest;
    assert local + (t.Keys - t.Keys) == local;
  }

  lemma BegunNext(t: Targets, local: set<JmapId>, emitted: set<JmapId>, remaining: set<JmapId>, ready: set<JmapId>,
                  after: set<JmapId>, left: set<JmapId>, order: seq<JmapId>, round: seq<JmapId>)
    requires Begun(t, local, emitted, remaining, order)
    requires ready == Ready(t, emitted, remaining) && ready != {} && Lists(round, ready)
    requires after == emitted + ready && left == remaining - ready
    ensures Begun(t, local, after, left, order + round)
  {
    RoundAdds(t, local, emitted, remaining, ready, after, left, order, round);
    StuckWaits(t, local, emitted, remaining, ready);
    assert after == local + (t.Keys - left);
  }

  /** A round without progress, or nothing left: the rest in any order ends the run. */
  lemma BegunEnds(t: Targets, local: set<JmapId>, emitted: set<JmapId>, remaining: set<JmapId>, order: seq<JmapId>, rest: seq<JmapId>)
    requires Begun(t, local, emitted, remaining, order) && Ready(t, emitted, remaining) == {} && Lists(rest, remaining)
    ensures Rounds(t, local, t.Keys, order + rest)
    ensures remaining != {} <==> exists stuck :: Stuck(t, local, stuck)
  {
    assert Rounds(t, emitted, remaining, rest);
    if remaining != {} {
      forall id | id in remaining ensures t[id].parent.Some? && t[id].parent.value in remaining && t[id].parent.value !in local {
        assert id !in Ready(t, emitted, remaining);
      }
      assert Stuck(t, local, remaining);
    }
  }

  /** The loop; `cyclic` says that the fallback for cycles had something to emit. */
  method TopoSort(t: Targets, local: set<JmapId>) returns (order: seq<JmapId>, cyclic: bool)
    ensures Rounds(t, local, t.Keys, order)
    ensures cyclic <==> exists stuck :: Stuck(t, local, stuck)
  {
    var remaining, emitted := t.Keys, local;
    order, cyclic := [], false;
    BegunAtStart(t, local);
    while true
      invariant Begun(t, local, emitted, remaining, order)
      decreases remaining
    {
      var ready := Ready(t, emitted, remaining);
      if ready == {} {
        var rest := ListSet(remaining);
        BegunEnds(t, local, emitted, remaining, order, rest);
        order, cyclic := order + rest, remaining != {};
        return;
      }
      var round := ListSet(ready);
      var after, left := emitted + ready, remaining - ready;
      BegunNext(t, local, emitted, remaining, ready, after, left, order, round);
      order, emitted, remaining := order + round, after, left;
      if remaining == {} { break; }
    }
    BegunEnds(t, local, emitted, remaining, order, []);
    assert order + [] == order;
  }

  /** Targets that all wait for each other. */
  ghost predicate Stuck(t: Targets, local: set<JmapId>, stuck: set<JmapId>) {
    stuck != {} && stuck <= t.Keys &&
    forall id :: id in stuck ==> t[id].parent.Some? && t[id].parent.value in stuck && t[id].parent.value !in local
  }

  lemma RoundAdds(t: Targets, local: set<JmapId>, emitted: set<JmapId>, remaining: set<JmapId>, ready: set<JmapId>,
                  after: set<JmapId>, left: set<JmapId>, order: seq<JmapId>, round: seq<JmapId>)
    requires remaining <= t.Keys && ready == Ready(t, emitted, remaining) && ready != {} && Lists(round, ready)
    requires after == emitted + ready && left == remaining - ready
    requires forall rest :: Rounds(t, emitted, remaining, rest) ==> Rounds(t, local, t.Keys, order + rest)
    ensures forall rest :: Rounds(t, after, left, rest) ==> Rounds(t, local, t.Keys, order + round + rest)
  {
    ListsLength(round, ready);
    forall rest | Rounds(t, after, left, rest) ensures Rounds(t, local, t.Keys, order + round + rest) {
      assert (round + rest)[..|ready|] == round && (round + rest)[|ready|..] == rest;
      assert Rounds(t, emitted, remaining, round + rest);
      assert order + round + rest == order + (round + rest);
    }
  }

  lemma StuckWaits(t: Targets, local: set<JmapId>, emitted: set<JmapId>, remaining: set<JmapId>, ready: set<JmapId>)
    requires remaining <= t.Keys && emitted == local + (t.Keys - remaining) && ready == Ready(t, emitted, remaining)
    requires forall stuck :: Stuck(t, local, stuck) ==> stuck <= remaining
    ensures forall stuck :: Stuck(t, local, stuck) ==> stuck <= remaining - ready
  {
    forall stuck | Stuck(t, local, stuck) ensures stuck <= remaining - ready {
      forall id | id in stuck ensures id !in ready {
        assert t[id].parent.value in remaining;
      }
    }
  }

  /** The target sets that are built never need the fallback. */
  lemma {:induction false} RankedIsNeverStuck(t: Targets, depth: map<JmapId, nat>, local: set<JmapId>, stuck: set<JmapId>)
    requires Ranked(t, depth)
    ensures !Stuck(t, local, stuck)
  {
    if Stuck(t, local, stuck) {
      var id :| id in stuck;
      NoWayUp(t, depth, local, stuck, id);
      assert false;
    }
  }

  lemma {:induction false} NoWayUp(t: Targets, depth: map<JmapId, nat>, local: set<JmapId>, stuck: set<JmapId>, id: JmapId)
    requires Ranked(t, depth) && stuck <= t.Keys && id in stuck
    ensures !Stuck(t, local, stuck)
    decreases depth[id]
  {
    if t[id].parent.Some? && t[id].parent.value in stuck { NoWayUp(t, depth, local, stuck, t[id].parent.value); }
  }

  // -------------------------------------------------------------------------
  // What the order keeps
  // -------------------------------------------------------------------------

  lemma {:induction false} RoundsListAll(t: Targets, emitted: set<JmapId>, remaining: set<JmapId>, order: seq<JmapId>)
    requires remaining <= t.Keys && Rounds(t, emitted, remaining, order)
    ensures Lists(order, remaining)
    decreases remaining
  {
    if Ready(t, emitted, remaining) != {} {
      var ready, after, left, first, rest := RoundsNext(t, emitted, remaining, order);
      RoundsListAll(t, after, left, rest);
      ListsPlus(first, rest, ready, left);
      assert remaining == ready + left;
    }
  }

  lemma ListsPlus<T(!new)>(first: seq<T>, rest: seq<T>, a: set<T>, b: set<T>)
    requires Lists(first, a) && Lists(rest, b) && a !! b
    ensures Lists(first + rest, a + b)
  {
    var order := first + rest;
    forall i, j | 0 <= i < j < |order| ensures order[i] != order[j] {
      if i < |first| <= j { assert first[i] in a && rest[j - |first|] in b; }
    }
  }

  /** The parent, if it is a target and was not emitted before. */
  function WaitsFor(t: Targets, emitted: set<JmapId>, id: JmapId): Option<JmapId> {
    if id in t && t[id].parent.Some? && t[id].parent.value in t && t[id].parent.value !in emitted then t[id].parent else None
  }

  /** Every parent that is a target and not emitted before comes first. */
  ghost predicate ParentsFirst(t: Targets, emitted: set<JmapId>, order: seq<JmapId>) {
    forall i :: 0 <= i < |order| && WaitsFor(t, emitted, order[i]).Some? ==> WaitsFor(t, emitted, order[i]).value in order[..i]
  }

  lemma {:induction false} RoundsParentsFirst(t: Targets, depth: map<JmapId, nat>, emitted: set<JmapId>, remaining: set<JmapId>,
                                              order: seq<JmapId>)
    requires remaining <= t.Keys && Rounds(t, emitted, remaining, order) && Ranked(t, depth) && t.Keys <= emitted + remaining
    ensures ParentsFirst(t, emitted, order)
    decreases remaining
  {
    if Ready(t, emitted, remaining) == {} {
      RankedIsReady(t, depth, emitted, remaining);
      ListsLength(order, remaining);
    } else {
      var ready, after, left, first, rest := RoundsNext(t, emitted, remaining, order);
      RoundsParentsFirst(t, depth, after, left, rest);
      FirstRoundFirst(t, emitted, ready, remaining, order, first, rest);
    }
  }

  lemma RankedIsReady(t: Targets, depth: map<JmapId, nat>, emitted: set<JmapId>, remaining: set<JmapId>)
    requires Ranked(t, depth) && remaining <= t.Keys && Ready(t, emitted, remaining) == {} && t.Keys <= emitted + remaining
    ensures remaining == {}
  {
    if remaining != {} {
      NothingReady(t, emitted, remaining);
      RankedIsNeverStuck(t, depth, emitted - t.Keys, remaining);
    }
  }

  lemma NothingReady(t: Targets, emitted: set<JmapId>, remaining: set<JmapId>)
    requires remaining <= t.Keys && Ready(t, emitted, remaining) == {} && remaining != {} && t.Keys <= emitted + remaining
    ensures Stuck(t, emitted - t.Keys, remaining)
  {
    forall id | id in remaining
      ensures t[id].parent.Some? && t[id].parent.value in remaining && t[id].parent.value !in emitted - t.Keys
    {
      assert id !in Ready(t, emitted, remaining);
      assert !IsReady(t, emitted, id);
    }
  }

  lemma FirstRoundFirst(t: Targets, emitted: set<JmapId>, ready: set<JmapId>, remaining: set<JmapId>, order: seq<JmapId>,
                        first: seq<JmapId>, rest: seq<JmapId>)
    requires remaining <= t.Keys && ready == Ready(t, emitted, remaining) && order == first + rest && Lists(first, ready)
    requires ParentsFirst(t, emitted + ready, rest)
    ensures ParentsFirst(t, emitted, order)
  {
    forall i | 0 <= i < |first| ensures WaitsFor(t, emitted, order[i]).None? { assert first[i] in ready; }
    forall i | 0 <= i < |order| && WaitsFor(t, emitted, order[i]).Some? ensures WaitsFor(t, emitted, order[i]).value in order[..i] {
      var parent := WaitsFor(t, emitted, order[i]).value;
      var j := i - |first|;
      assert rest[j] == order[i] && order[..i] == first + rest[..j];
      if parent in ready { assert parent in first; } else { assert parent == WaitsFor(t, emitted + ready, rest[j]).value; }
    }
  }

  /** Each target once, parents that are not local yet before their children, and no use for the fallback. */
  lemma TopoOrderIsSound(t: Targets, depth: map<JmapId, nat>, local: set<JmapId>, order: seq<JmapId>)
    requires Ranked(t, depth) && Rounds(t, local, t.Keys, order)
    ensures Lists(order, t.Keys) && ParentsFirst(t, local, order)
    ensures !exists stuck :: Stuck(t, local, stuck)
  {
    RoundsListAll(t, local, t.Keys, order);
    RoundsParentsFirst(t, depth, local, t.Keys, order);
    forall stuck ensures !Stuck(t, local, stuck) { RankedIsNeverStuck(t, depth, local, stuck); }
  }

  /** So for every target set built from a server's list, whatever is local already. */
  lemma BuiltOrderIsSound(t: Targets, view: seq<Remote>, byId: ById, names: map<string, string>, keep: (string, bool) -> bool,
                          local: set<JmapId>, order: seq<JmapId>)
    requires Indexed(byId) && IsTargetSet(t, view, byId, names, keep) && Rounds(t, local, t.Keys, order)
    ensures Lists(order, t.Keys) && ParentsFirst(t, local, order)
    ensures !exists stuck :: Stuck(t, local, stuck)
  {
    BuiltIsRanked(t, view, byId, names, keep);
    var depth :| Ranked(t, depth);
    TopoOrderIsSound(t, depth, local, order);
  }

  // -------------------------------------------------------------------------
  // Updates
  // -------------------------------------------------------------------------

  /** No target's parent is a target that is local already. */
  ghost predicate NoLocalParent(t: Targets, local: set<JmapId>) {
    forall j :: j in t && t[j].parent.Some? && t[j].parent.value in t ==> t[j].parent.value !in local
  }

  lemma {:induction false} SomeRounds(t: Targets, emitted: set<JmapId>, remaining: set<JmapId>) returns (order: seq<JmapId>)
    requires remaining <= t.Keys
    ensures Rounds(t, emitted, remaining, order)
    decreases remaining
  {
    var ready := Ready(t, emitted, remaining);
    if ready == {} {
      order := CanList(remaining);
    } else {
      var round := CanList(ready);
      var after, left := emitted + ready, remaining - ready;
      var rest := SomeRounds(t, after, left);
      order := round + rest;
      RoundThenRest(t, emitted, remaining, ready, after, left, round, rest);
    }
  }

  lemma RoundThenRest(t: Targets, emitted: set<JmapId>, remaining: set<JmapId>, ready: set<JmapId>, after: set<JmapId>,
                      left: set<JmapId>, round: seq<JmapId>, rest: seq<JmapId>)
    requires remaining <= t.Keys && ready == Ready(t, emitted, remaining) && ready != {} && Lists(round, ready)
    requires after == emitted + ready && left == remaining - ready && Rounds(t, after, left, rest)
    ensures Rounds(t, emitted, remaining, round + rest)
  {
    ListsLength(round, ready);
    assert (round + rest)[..|ready|] == round && (round + rest)[|ready|..] == rest;
  }

  /** Any target that is ready at the start may be emitted first of all. */
  lemma FirstOfAll(t: Targets, local: set<JmapId>, j: JmapId) returns (order: seq<JmapId>)
    requires j in t && IsReady(t, local, j)
    ensures Rounds(t, local, t.Keys, order) && order != [] && order[0] == j
  {
    var ready := Ready(t, local, t.Keys);
    var others := CanList(ready - {j});
    var round := [j] + others;
    assert j in ready && Lists(round, ready);
    var after, left := local + ready, t.Keys - ready;
    var rest := SomeRounds(t, after, left);
    RoundThenRest(t, local, t.Keys, ready, after, left, round, rest);
    order := round + rest;
  }

  /** A child whose parent is local may be updated before its parent. */
  lemma ChildMayComeFirst(t: Targets, local: set<JmapId>, j: JmapId) returns (order: seq<JmapId>)
    requires j in t && t[j].parent.Some? && t[j].parent.value in t && t[j].parent.value in local
    ensures Rounds(t, local, t.Keys, order) && !ParentsFirst(t, {}, order)
  {
    order := FirstOfAll(t, local, j);
    assert WaitsFor(t, {}, order[0]) == t[j].parent && order[..0] == [];
  }

  /** Every order puts all parents first exactly when no target has a target parent that is local already. */
  lemma AllParentsFirstIff(t: Targets, depth: map<JmapId, nat>, local: set<JmapId>)
    requires Ranked(t, depth)
    ensures (forall order :: Rounds(t, local, t.Keys, order) ==> ParentsFirst(t, {}, order)) <==> NoLocalParent(t, local)
  {
    if NoLocalParent(t, local) {
      forall order | Rounds(t, local, t.Keys, order) ensures ParentsFirst(t, {}, order) {
        TopoOrderIsSound(t, depth, local, order);
        forall i | 0 <= i < |order| && WaitsFor(t, {}, order[i]).Some? ensures WaitsFor(t, {}, order[i]).value in order[..i] {
          assert WaitsFor(t, local, order[i]) == WaitsFor(t, {}, order[i]);
        }
      }
    } else {
      var j :| j in t && t[j].parent.Some? && t[j].parent.value in t && t[j].parent.value in local;
      var order := ChildMayComeFirst(t, local, j);
    }
  }
}
