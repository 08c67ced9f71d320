/** What one, two and three passes of the mailbox diff leave. */
module MailboxPasses {
  import opened Prelude
  import opened Primary
  import opened Tables
  import opened MailboxTree
  import opened MailboxOrder
  import opened MailboxDiff
  import opened MailboxDeletes

  // -------------------------------------------------------------------------
  // Keyed rows under one change
  // -------------------------------------------------------------------------

  lemma CreateKeeps(db: Db, k: Keyed, row: MailboxRow, j: JmapId)
    requires IsKeyed(db.mailboxes, k) && j !in k && row.jmapId == Some(j) && db.InsertMailbox(row).Some?
    ensures IsKeyed(db.InsertMailbox(row).value.mailboxes, k[j := row])
  {}

  lemma UpdateKeeps(db: Db, k: Keyed, row: MailboxRow, j: JmapId)
    requires IsKeyed(db.mailboxes, k) && j in k && row.jmapId == Some(j) && row.id == k[j].id && db.UpdateMailbox(row).Some?
    ensures IsKeyed(db.UpdateMailbox(row).value.mailboxes, k[j := row])
  {
    forall i | i in k && i != j ensures k[i].id != row.id { assert k[i].jmapId != k[j].jmapId; }
  }

  lemma LookupIs(mailboxes: map<MailboxId, MailboxRow>, k: Keyed, j: JmapId)
    requires IsKeyed(mailboxes, k)
    ensures Lookup(mailboxes, j) == if j in k then Some(k[j].id) else None
  {
    if j in k { assert k[j].id in mailboxes && mailboxes[k[j].id].jmapId == Some(j); }
  }

  /** The keyed rows are determined by the table. */
  lemma KeyedUnique(mailboxes: map<MailboxId, MailboxRow>, a: Keyed, b: Keyed)
    requires IsKeyed(mailboxes, a) && IsKeyed(mailboxes, b)
    ensures a == b
  {
    forall j ensures j in a <==> j in b {
      if j in a { assert mailboxes[a[j].id].jmapId == Some(j); }
      if j in b { assert mailboxes[b[j].id].jmapId == Some(j); }
    }
    forall j | j in a ensures a[j] == b[j] { assert mailboxes[a[j].id] == a[j]; }
  }

  // -------------------------------------------------------------------------
  // Creates and updates
  // -------------------------------------------------------------------------

  function FinalParent(tgt: Target, t: Targets, snap: Keyed, ids: map<JmapId, MailboxId>): Option<MailboxId> {
    if tgt.parent.None? then None
    else if tgt.parent.value in snap then Some(snap[tgt.parent.value].id)
    else if tgt.parent.value in t && tgt.parent.value in ids then Some(ids[tgt.parent.value])
    else None
  }

  /** The row a pass leaves for a target. */
  function FinalRow(j: JmapId, t: Targets, snap: Keyed, ids: map<JmapId, MailboxId>): MailboxRow
    requires j in t && (j in snap || j in ids)
  {
    if j in snap then Wanted(snap[j], t[j], snap) else NewRow(ids[j], t[j], FinalParent(t[j], t, snap, ids))
  }

  ghost predicate Progress(k: Keyed, k0: Keyed, t: Targets, snap: Keyed, ids: map<JmapId, MailboxId>, done: seq<JmapId>)
    requires forall j :: j in done ==> j in t && (j in snap || j in ids)
  {
    && (forall j :: j in k <==> j in k0 || j in done)
    && (forall j :: j in done ==> k[j] == FinalRow(j, t, snap, ids))
    && (forall j :: j in k && j !in done ==> k[j] == k0[j])
  }

  /** What the upserts start from: the snapshot less what was deleted, and an id for each new target. */
  ghost predicate Start(w: Tree, k0: Keyed, t: Targets, snap: Keyed, ids: map<JmapId, MailboxId>) {
    && IsKeyed(w.db.mailboxes, k0)
    && (forall j :: j in t ==> t[j].jmapId == j && (j in k0 <==> j in snap) && (j in ids <==> j !in snap))
    && (forall j :: j in k0 ==> j in snap && k0[j] == snap[j])
  }

  lemma CreateParent(mailboxes: map<MailboxId, MailboxRow>, k: Keyed, k0: Keyed, t: Targets, snap: Keyed,
                     ids: map<JmapId, MailboxId>, done: seq<JmapId>, tgt: Target)
    requires (forall j :: j in done ==> j in t && (j in snap || j in ids)) && IsKeyed(mailboxes, k)
    requires Progress(k, k0, t, snap, ids, done) && forall j :: j in k0 ==> j in snap
    requires forall j :: j in t ==> (j in ids <==> j !in snap)
    requires tgt.parent.Some? && tgt.parent.value in t && tgt.parent.value !in snap ==> tgt.parent.value in done
    ensures ParentForCreate(tgt, snap, mailboxes) == FinalParent(tgt, t, snap, ids)
  {
    if tgt.parent.Some? { LookupIs(mailboxes, k, tgt.parent.value); }
  }

  lemma CreateStep(w: Tree, k: Keyed, snap: Keyed, tgt: Target, id: MailboxId)
    requires IsKeyed(w.db.mailboxes, k) && tgt.jmapId !in k && CreateEntry(w, tgt, snap, id).1
    ensures var w' := CreateEntry(w, tgt, snap, id).0;
            IsKeyed(w'.db.mailboxes, k[tgt.jmapId := NewRow(id, tgt, ParentForCreate(tgt, snap, w.db.mailboxes))])
  {
    CreateKeeps(w.db, k, NewRow(id, tgt, ParentForCreate(tgt, snap, w.db.mailboxes)), tgt.jmapId);
  }

  lemma UpdateStep(w: Tree, k: Keyed, snap: Keyed, tgt: Target, id: MailboxId)
    requires IsKeyed(w.db.mailboxes, k) && tgt.jmapId in k && tgt.jmapId in snap && k[tgt.jmapId] == snap[tgt.jmapId]
    requires UpsertEntry(w, tgt, snap, id).1
    ensures var w' := UpsertEntry(w, tgt, snap, id).0;
            IsKeyed(w'.db.mailboxes, k[tgt.jmapId := Wanted(snap[tgt.jmapId], tgt, snap)])
  {
    var existing := snap[tgt.jmapId];
    DiffGivesWanted(existing, tgt, snap);
    if Wanted(existing, tgt, snap) == existing {
      assert k[tgt.jmapId := existing] == k;
    } else {
      UpdateKeeps(w.db, k, Wanted(existing, tgt, snap), tgt.jmapId);
    }
  }

  lemma ProgressNext(k: Keyed, k0: Keyed, t: Targets, snap: Keyed, ids: map<JmapId, MailboxId>, done: seq<JmapId>, j: JmapId, k': Keyed)
    requires (forall i :: i in done ==> i in t && (i in snap || i in ids)) && j in t && (j in snap || j in ids)
    requires Progress(k, k0, t, snap, ids, done) && k' == k[j := FinalRow(j, t, snap, ids)]
    ensures Progress(k', k0, t, snap, ids, done + [j])
  {}

  lemma {:induction false} UpsertsKeep(w: Tree, t: Targets, snap: Keyed, ids: map<JmapId, MailboxId>, order: seq<JmapId>, k0: Keyed)
    returns (k: Keyed)
    requires Start(w, k0, t, snap, ids) && NoRepeat(order) && (forall j :: j in order ==> j in t && (j in snap || j in ids))
    requires ParentsFirst(t, snap.Keys, order) && Upserts(w, t, snap, ids, order).1
    ensures var w' := Upserts(w, t, snap, ids, order).0;
            && IsKeyed(w'.db.mailboxes, k) && Progress(k, k0, t, snap, ids, order)
    decreases |order|
  {
    if order == [] {
      k := k0;
    } else {
      var n := |order| - 1;
      var front, j := order[..n], order[n];
      FrontParentsFirst(t, snap.Keys, order, n);
      LastIsNew(order, n);
      UpsertsLast(w, t, snap, ids, order, front, j);
      var k1 := UpsertsKeep(w, t, snap, ids, front, k0);
      var w1 := Upserts(w, t, snap, ids, front).0;
      FirstParent(t, snap.Keys, order, n);
      k := k1[j := FinalRow(j, t, snap, ids)];
      OneUpsert(w, w1, k1, k0, t, snap, ids, front, j);
      ProgressNext(k1, k0, t, snap, ids, front, j, k);
    }
  }

  lemma LastIsNew(order: seq<JmapId>, n: nat)
    requires NoRepeat(order) && |order| == n + 1
    ensures order == order[..n] + [order[n]] && order[n] !in order[..n] && NoRepeat(order[..n])
    ensures forall j :: j in order <==> j in order[..n] || j == order[n]
  {}

  lemma UpsertsLast(w: Tree, t: Targets, snap: Keyed, ids: map<JmapId, MailboxId>, order: seq<JmapId>, front: seq<JmapId>, j: JmapId)
    requires (forall i :: i in order ==> i in t && (i in snap || i in ids)) && order == front + [j]
    requires Upserts(w, t, snap, ids, order).1
    ensures (forall i :: i in front ==> i in order) && j in order && Upserts(w, t, snap, ids, front).1
    ensures Upserts(w, t, snap, ids, order) ==
            UpsertEntry(Upserts(w, t, snap, ids, front).0, t[j], snap, if j in ids then ids[j] else "")
    ensures Upserts(w, t, snap, ids, order).1
  {
    assert order[..|order| - 1] == front && order[|order| - 1] == j;
  }

  lemma OneUpsert(w: Tree, w1: Tree, k1: Keyed, k0: Keyed, t: Targets, snap: Keyed, ids: map<JmapId, MailboxId>,
                  done: seq<JmapId>, j: JmapId)
    requires Start(w, k0, t, snap, ids) && j in t && j !in done && (forall i :: i in done ==> i in t && (i in snap || i in ids))
    requires IsKeyed(w1.db.mailboxes, k1) && Progress(k1, k0, t, snap, ids, done)
    requires var p := t[j].parent; p.Some? && p.value in t && p.value !in snap ==> p.value in done
    requires UpsertEntry(w1, t[j], snap, if j in ids then ids[j] else "").1
    ensures IsKeyed(UpsertEntry(w1, t[j], snap, if j in ids then ids[j] else "").0.db.mailboxes, k1[j := FinalRow(j, t, snap, ids)])
  {
    if j in snap {
      UpdateStep(w1, k1, snap, t[j], "");
    } else {
      CreateParent(w1.db.mailboxes, k1, k0, t, snap, ids, done, t[j]);
      CreateStep(w1, k1, snap, t[j], ids[j]);
    }
  }

  lemma FrontParentsFirst(t: Targets, emitted: set<JmapId>, order: seq<JmapId>, n: nat)
    requires ParentsFirst(t, emitted, order) && n <= |order|
    ensures ParentsFirst(t, emitted, order[..n])
  {
    forall i | 0 <= i < n && WaitsFor(t, emitted, order[..n][i]).Some?
      ensures WaitsFor(t, emitted, order[..n][i]).value in order[..n][..i]
    {
      assert order[..n][i] == order[i] && order[..n][..i] == order[..i];
    }
  }

  lemma FirstParent(t: Targets, emitted: set<JmapId>, order: seq<JmapId>, n: nat)
    requires ParentsFirst(t, emitted, order) && n < |order| && order[n] in t
    ensures var p := t[order[n]].parent; p.Some? && p.value in t && p.value !in emitted ==> p.value in order[..n]
  {
    if WaitsFor(t, emitted, order[n]).Some? { assert WaitsFor(t, emitted, order[n]).value in order[..n]; }
  }

  // -------------------------------------------------------------------------
  // One pass
  // -------------------------------------------------------------------------

  /** The keyed rows are the targets and the leftovers that only their exclusion keeps. */
  ghost predicate MatchesTarget(k: Keyed, t: Targets, snap: Keyed, excluded: set<string>) {
    && (forall j :: j in k <==> j in t || (j in snap && snap[j].path in excluded))
    && (forall j :: j in k && j !in t ==> k[j] == snap[j])
    && (forall j :: j in t ==> AsTarget(k[j], t[j]))
  }

  /** Everything but the parent link. */
  ghost predicate AsTarget(row: MailboxRow, tgt: Target) {
    row.jmapId == Some(tgt.jmapId) && row.name == tgt.name && row.role == tgt.role && row.sortOrder == tgt.sortOrder && row.path == tgt.path
  }

  /** Every parent link is to the row of the target's parent, or empty when there is none. */
  ghost predicate ParentsRight(k: Keyed, t: Targets) {
    forall j :: j in t && j in k ==> k[j].parentId == ParentInSnapshot(t[j], k)
  }

  lemma StartAfterDeletes(w: Tree, t: Targets, snap: Keyed, excluded: set<string>, p: Plan, k0: Keyed)
    requires PlanOk(t, snap, excluded, p) && k0 == Without(snap, p.deletes) && IsKeyed(w.db.mailboxes, k0)
    ensures Start(w, k0, t, snap, p.ids)
  {
    forall j | j in t ensures j in k0 <==> j in snap {
      assert j !in ToDelete(t, snap, excluded);
    }
  }

  /** The rows after a pass that went through. */
  lemma PassLeaves(w: Tree, t: Targets, depth: map<JmapId, nat>, snap: Keyed, excluded: set<string>, p: Plan) returns (k: Keyed)
    requires IsKeyed(w.db.mailboxes, snap) && Ranked(t, depth) && PlanOk(t, snap, excluded, p) && Pass(w, t, snap, p).1
    ensures IsKeyed(Pass(w, t, snap, p).0.db.mailboxes, k)
    ensures Progress(k, Without(snap, p.deletes), t, snap, p.ids, p.order)
  {
    DeletesKeep(w, snap, p.deletes);
    var w1, k0 := Deletes(w, snap, p.deletes).0, Without(snap, p.deletes);
    StartAfterDeletes(w1, t, snap, excluded, p, k0);
    TopoOrderIsSound(t, depth, snap.Keys, p.order);
    k := UpsertsKeep(w1, t, snap, p.ids, p.order, k0);
  }

  /** After one pass the keyed rows are the target and the excluded leftovers, ids of rows that were there unchanged. */
  lemma OnePassMatches(w: Tree, t: Targets, depth: map<JmapId, nat>, snap: Keyed, excluded: set<string>, p: Plan) returns (k: Keyed)
    requires IsKeyed(w.db.mailboxes, snap) && Ranked(t, depth) && PlanOk(t, snap, excluded, p) && Pass(w, t, snap, p).1
    ensures IsKeyed(Pass(w, t, snap, p).0.db.mailboxes, k) && MatchesTarget(k, t, snap, excluded)
    ensures forall j :: j in t ==> k[j] == FinalRow(j, t, snap, p.ids)
    ensures forall j :: j in k && j in snap ==> k[j].id == snap[j].id
  {
    k := PassLeaves(w, t, depth, snap, excluded, p);
    ProgressMatches(w.db.mailboxes, t, snap, excluded, p, k);
  }

  /** Everything deleted and everything ordered: the rows match. */
  lemma ProgressMatches(mailboxes: map<MailboxId, MailboxRow>, t: Targets, snap: Keyed, excluded: set<string>, p: Plan, k: Keyed)
    requires IsKeyed(mailboxes, snap) && PlanOk(t, snap, excluded, p)
    requires Progress(k, Without(snap, p.deletes), t, snap, p.ids, p.order)
    ensures MatchesTarget(k, t, snap, excluded)
    ensures forall j :: j in t ==> k[j] == FinalRow(j, t, snap, p.ids)
    ensures forall j :: j in k && j in snap ==> k[j].id == snap[j].id
  {
    forall j ensures j in k <==> j in t || (j in snap && snap[j].path in excluded) {
      assert j in p.deletes <==> j in ToDelete(t, snap, excluded);
    }
    forall j | j in t ensures k[j] == FinalRow(j, t, snap, p.ids) && AsTarget(k[j], t[j]) {
      assert j in p.order;
      if j in snap { assert snap[j].jmapId == Some(j); }
    }
  }

  /** Generated ids are new, and differ from one another. */
  ghost predicate FreshIds(mailboxes: map<MailboxId, MailboxRow>, ids: map<JmapId, MailboxId>) {
    && (forall j :: j in ids ==> ids[j] !in mailboxes)
    && (forall i, j :: i in ids && j in ids && i != j ==> ids[i] != ids[j])
  }

  /** The target is an old mailbox moved under one that this very pass creates. */
  predicate MovedUnderNew(j: JmapId, t: Targets, snap: Keyed) {
    j in t && j in snap && t[j].parent.Some? && t[j].parent.value in t && t[j].parent.value !in snap
  }

  /** The target's parent was there before and is deleted by this very pass. */
  predicate ParentDropped(j: JmapId, t: Targets, snap: Keyed, excluded: set<string>) {
    j in t && t[j].parent.Some? && t[j].parent.value in ToDelete(t, snap, excluded)
  }

  /** A pass leaves a target's parent link right exactly unless it creates or deletes the parent the old row looks up. */
  lemma OnePassParentsIff(w: Tree, t: Targets, depth: map<JmapId, nat>, snap: Keyed, excluded: set<string>, p: Plan) returns (k: Keyed)
    requires IsKeyed(w.db.mailboxes, snap) && Ranked(t, depth) && PlanOk(t, snap, excluded, p) && Pass(w, t, snap, p).1
    ensures IsKeyed(Pass(w, t, snap, p).0.db.mailboxes, k) && t.Keys <= k.Keys
    ensures forall j :: j in t ==>
              (k[j].parentId == ParentInSnapshot(t[j], k) <==> !MovedUnderNew(j, t, snap) && !ParentDropped(j, t, snap, excluded))
  {
    k := OnePassMatches(w, t, depth, snap, excluded, p);
    forall j | j in t
      ensures k[j].parentId == ParentInSnapshot(t[j], k) <==> !MovedUnderNew(j, t, snap) && !ParentDropped(j, t, snap, excluded)
    {
      ParentRightIff(t, snap, k, excluded, p.ids, j);
    }
  }

  lemma ParentRightIff(t: Targets, snap: Keyed, k: Keyed, excluded: set<string>, ids: map<JmapId, MailboxId>, j: JmapId)
    requires MatchesTarget(k, t, snap, excluded) && (forall i :: i in ids <==> i in t && i !in snap)
    requires (forall i :: i in t ==> k[i] == FinalRow(i, t, snap, ids)) && forall i :: i in k && i in snap ==> k[i].id == snap[i].id
    requires j in t
    ensures k[j].parentId == ParentInSnapshot(t[j], k) <==> !MovedUnderNew(j, t, snap) && !ParentDropped(j, t, snap, excluded)
  {}

  /** In particular a mailbox moved under a new one ends the pass without a parent, although the parent's row is there. */
  lemma ReparentedLosesParent(w: Tree, t: Targets, depth: map<JmapId, nat>, snap: Keyed, excluded: set<string>, p: Plan, j: JmapId) returns (k: Keyed)
    requires IsKeyed(w.db.mailboxes, snap) && Ranked(t, depth) && PlanOk(t, snap, excluded, p) && Pass(w, t, snap, p).1
    requires MovedUnderNew(j, t, snap)
    ensures IsKeyed(Pass(w, t, snap, p).0.db.mailboxes, k) && j in k && t[j].parent.value in k && k[j].parentId == None
  {
    k := OnePassMatches(w, t, depth, snap, excluded, p);
  }

  // -------------------------------------------------------------------------
  // More passes
  // -------------------------------------------------------------------------

  /** With every target local, a pass also sets every parent link right. */
  lemma SecondPassSetsParents(w: Tree, t: Targets, depth: map<JmapId, nat>, before: Keyed, snap: Keyed, excluded: set<string>, p: Plan) returns (k: Keyed)
    requires IsKeyed(w.db.mailboxes, snap) && MatchesTarget(snap, t, before, excluded)
    requires Ranked(t, depth) && PlanOk(t, snap, excluded, p) && Pass(w, t, snap, p).1
    ensures IsKeyed(Pass(w, t, snap, p).0.db.mailboxes, k) && MatchesTarget(k, t, before, excluded) && ParentsRight(k, t)
  {
    k := OnePassMatches(w, t, depth, snap, excluded, p);
    SecondMatches(t, before, snap, k, excluded, p.ids);
  }

  lemma SecondMatches(t: Targets, before: Keyed, snap: Keyed, k: Keyed, excluded: set<string>, ids: map<JmapId, MailboxId>)
    requires MatchesTarget(snap, t, before, excluded) && MatchesTarget(k, t, snap, excluded)
    requires forall j :: j in t ==> k[j] == FinalRow(j, t, snap, ids)
    requires forall j :: j in k && j in snap ==> k[j].id == snap[j].id
    ensures MatchesTarget(k, t, before, excluded) && ParentsRight(k, t)
  {
    forall j ensures j in k <==> j in snap {
      if j in snap && j !in t { assert snap[j] == before[j]; }
    }
    forall j | j in t && j in k ensures k[j].parentId == ParentInSnapshot(t[j], k) {
      assert k[j] == Wanted(snap[j], t[j], snap);
    }
  }

  lemma {:induction false} QuietUpserts(w: Tree, t: Targets, snap: Keyed, ids: map<JmapId, MailboxId>, order: seq<JmapId>)
    requires forall j :: j in order ==> j in t && j in snap && t[j].jmapId == j && Wanted(snap[j], t[j], snap) == snap[j]
    ensures Upserts(w, t, snap, ids, order) == (w, true)
    decreases |order|
  {
    if order != [] {
      QuietUpserts(w, t, snap, ids, order[..|order| - 1]);
      DiffGivesWanted(snap[order[|order| - 1]], t[order[|order| - 1]], snap);
    }
  }

  /** Once rows and parents match, a pass changes neither rows nor directories. */
  lemma SettledIsLeft(w: Tree, t: Targets, before: Keyed, snap: Keyed, excluded: set<string>, p: Plan)
    requires IsKeyed(w.db.mailboxes, snap) && MatchesTarget(snap, t, before, excluded) && ParentsRight(snap, t)
    requires PlanOk(t, snap, excluded, p)
    ensures Pass(w, t, snap, p) == (w, true)
  {
    forall j ensures j !in ToDelete(t, snap, excluded) {
      if j in snap && j !in t { assert snap[j] == before[j]; }
    }
    assert ToDelete(t, snap, excluded) == {};
    ListsLength(p.deletes, {});
    forall j | j in p.order ensures j in snap && Wanted(snap[j], t[j], snap) == snap[j] {
      assert j in t && AsTarget(snap[j], t[j]);
    }
    QuietUpserts(w, t, snap, p.ids, p.order);
  }

  /**
   Two passes converge, whatever was in the table: if both go through on the same target, the rows match it after the
   first, the parent links are right after the second, and a third changes nothing at all.
   */
  lemma TwoPassesConverge(w: Tree, t: Targets, depth: map<JmapId, nat>, excluded: set<string>, snap1: Keyed, p1: Plan,
                          snap2: Keyed, p2: Plan, snap3: Keyed, p3: Plan)
    requires Ranked(t, depth)
    requires IsKeyed(w.db.mailboxes, snap1) && PlanOk(t, snap1, excluded, p1) && Pass(w, t, snap1, p1).1
    requires var w1 := Pass(w, t, snap1, p1).0;
             IsKeyed(w1.db.mailboxes, snap2) && PlanOk(t, snap2, excluded, p2) && Pass(w1, t, snap2, p2).1
    requires var w2 := Pass(Pass(w, t, snap1, p1).0, t, snap2, p2).0;
             IsKeyed(w2.db.mailboxes, snap3) && PlanOk(t, snap3, excluded, p3)
    ensures MatchesTarget(snap2, t, snap1, excluded)
    ensures MatchesTarget(snap3, t, snap1, excluded) && ParentsRight(snap3, t)
    ensures var w2 := Pass(Pass(w, t, snap1, p1).0, t, snap2, p2).0;
            Pass(w2, t, snap3, p3) == (w2, true)
  {
    var w1 := Pass(w, t, snap1, p1).0;
    var k1 := OnePassMatches(w, t, depth, snap1, excluded, p1);
    KeyedUnique(w1.db.mailboxes, k1, snap2);
    var w2 := Pass(w1, t, snap2, p2).0;
    var k2 := SecondPassSetsParents(w1, t, depth, snap1, snap2, excluded, p2);
    KeyedUnique(w2.db.mailboxes, k2, snap3);
    SettledIsLeft(w2, t, snap1, snap3, excluded, p3);
  }

  // -------------------------------------------------------------------------
  // Nested paths
  // -------------------------------------------------------------------------

  /** Among the targets a child's path goes on from its parent's, as for every set that is built. */
  ghost predicate TargetsNested(t: Targets) {
    forall j :: j in t && t[j].parent.Some? && t[j].parent.value in t ==> t[t[j].parent.value].path < t[j].path
  }

  lemma BuiltIsNested(t: Targets, view: seq<Remote>, byId: ById, names: map<string, string>, keep: (string, bool) -> bool)
    requires Indexed(byId) && IsTargetSet(t, view, byId, names, keep)
    ensures TargetsNested(t)
  {
    forall j | j in t && t[j].parent.Some? && t[j].parent.value in t ensures t[t[j].parent.value].path < t[j].path {
      assert IsTarget(t[j], byId[j], byId, names);
      assert IsTarget(t[t[j].parent.value], byId[t[j].parent.value], byId, names);
      ChildIsBelow(t[j], t[t[j].parent.value], byId[j], byId, names);
    }
  }

  lemma ChildIsBelow(child: Target, parent: Target, m: Remote, byId: ById, names: map<string, string>)
    requires Indexed(byId) && Listed(m, byId) && m.parent.Some? && m.parent.value in byId && Listed(byId[m.parent.value], byId)
    requires IsTarget(child, m, byId, names) && IsTarget(parent, byId[m.parent.value], byId, names)
    ensures parent.path < child.path
  {
    ChildPath(m, byId, names);
  }

  /** The link between two rows of which one is an excluded leftover is nested. */
  ghost predicate LeftoversNested(k: Keyed, t: Targets) {
    forall i, j :: i in k && j in k && (i !in t || j !in t) && k[j].parentId == Some(k[i].id) ==> k[i].path < k[j].path
  }

  /** No target's row has the row of another target for its parent than that of the target's parent. */
  ghost predicate LinksOfTargets(k: Keyed, t: Targets) {
    forall i, j :: i in t && i in k && j in t && j in k && k[j].parentId == Some(k[i].id) ==> t[j].parent == Some(i)
  }

  lemma NestedIff(t: Targets, k: Keyed)
    requires TargetsNested(t) && LinksOfTargets(k, t) && forall j :: j in t && j in k ==> k[j].path == t[j].path
    ensures PathsNested(k) <==> LeftoversNested(k, t)
  {
    if LeftoversNested(k, t) {
      forall i, j | i in k && j in k && k[j].parentId == Some(k[i].id) ensures k[i].path < k[j].path {
        if i in t && j in t { assert t[j].parent == Some(i); }
      }
    }
  }

  lemma FinalLinks(mailboxes: map<MailboxId, MailboxRow>, t: Targets, snap: Keyed, ids: map<JmapId, MailboxId>, k: Keyed)
    requires IsKeyed(mailboxes, snap) && FreshIds(mailboxes, ids) && (forall j :: j in ids <==> j in t && j !in snap)
    requires forall j :: j in t ==> j in k && k[j] == FinalRow(j, t, snap, ids)
    ensures LinksOfTargets(k, t)
  {
    forall i, j | i in t && j in t && k[j].parentId == Some(k[i].id) ensures t[j].parent == Some(i) {
      var parent := t[j].parent.value;
      if parent in snap && i in snap {
        assert mailboxes[snap[parent].id] == snap[parent] && mailboxes[snap[i].id] == snap[i];
      }
    }
  }

  /** After a pass that went through, the table's paths nest exactly when those of its excluded leftovers do. */
  lemma OnePassNestedIff(w: Tree, t: Targets, depth: map<JmapId, nat>, snap: Keyed, excluded: set<string>, p: Plan) returns (k: Keyed)
    requires IsKeyed(w.db.mailboxes, snap) && Ranked(t, depth) && PlanOk(t, snap, excluded, p) && FreshIds(w.db.mailboxes, p.ids)
    requires Pass(w, t, snap, p).1 && TargetsNested(t)
    ensures IsKeyed(Pass(w, t, snap, p).0.db.mailboxes, k) && (PathsNested(k) <==> LeftoversNested(k, t))
  {
    k := OnePassMatches(w, t, depth, snap, excluded, p);
    FinalLinks(w.db.mailboxes, t, snap, p.ids, k);
    NestedIff(t, k);
  }
}
