/** When a pass of the mailbox diff fails, and the passes that fail for good. */
module MailboxFailures {
  import opened Prelude
  import opened Primary
  import opened Tables
  import opened MailboxTree
  import opened MailboxOrder
  import opened MailboxDiff
  import opened MailboxDeletes
  import opened MailboxPasses

  // -------------------------------------------------------------------------
  // The directory half of creates and updates
  // -------------------------------------------------------------------------

  function MakeDir(d: Disk, tgt: Target, snap: Keyed): (Disk, bool) {
    if tgt.jmapId !in snap then (if tgt.path in d.faulty then (d, false) else (MakeMaildir(d, tgt.path), true))
    else if Wanted(snap[tgt.jmapId], tgt, snap) == snap[tgt.jmapId] then (d, true)
    else Relocate(d, snap[tgt.jmapId].path, tgt.path)
  }

  function MakeDirs(d: Disk, t: Targets, snap: Keyed, order: seq<JmapId>): (Disk, bool)
    requires forall j :: j in order ==> j in t
  {
    if order == [] then (d, true)
    else
      var n := |order| - 1;
      var (d', ok) := MakeDirs(d, t, snap, order[..n]);
      if ok then MakeDir(d', t[order[n]], snap) else (d', false)
  }

  // -------------------------------------------------------------------------
  // The tables refuse nothing but a deleted parent
  // -------------------------------------------------------------------------

  /** The target's parent was in the snapshot and has been deleted. */
  predicate LostParent(tgt: Target, snap: Keyed, k0: Keyed) {
    tgt.parent.Some? && tgt.parent.value in snap && tgt.parent.value !in k0
  }

  /** No row has the id of a row that was deleted. */
  ghost predicate NotReused(mailboxes: map<MailboxId, MailboxRow>, snap: Keyed, k0: Keyed) {
    forall j :: j in snap && j !in k0 ==> snap[j].id !in mailboxes
  }

  lemma CreateOkIff(w: Tree, k: Keyed, snap: Keyed, tgt: Target, id: MailboxId)
    requires IsKeyed(w.db.mailboxes, k) && tgt.jmapId !in snap && tgt.jmapId !in k && id !in w.db.mailboxes
    ensures var parent := ParentForCreate(tgt, snap, w.db.mailboxes);
            CreateEntry(w, tgt, snap, id).1 <==>
            MakeDir(w.disk, tgt, snap).1 && (parent.Some? ==> parent.value in w.db.mailboxes || parent.value == id)
    ensures CreateEntry(w, tgt, snap, id).0.disk == MakeDir(w.disk, tgt, snap).0
  {
    var row := NewRow(id, tgt, ParentForCreate(tgt, snap, w.db.mailboxes));
    assert !w.db.MailboxJmapTaken(row.jmapId, row.id);
  }

  lemma UpdateOkIff(w: Tree, k: Keyed, snap: Keyed, tgt: Target)
    requires IsKeyed(w.db.mailboxes, k) && tgt.jmapId in snap && tgt.jmapId in k && k[tgt.jmapId] == snap[tgt.jmapId]
    requires snap[tgt.jmapId].jmapId == Some(tgt.jmapId)
    ensures var existing := snap[tgt.jmapId]; var parent := ParentInSnapshot(tgt, snap);
            UpsertEntry(w, tgt, snap, "").1 <==>
            MakeDir(w.disk, tgt, snap).1 &&
            (parent.Some? && Wanted(existing, tgt, snap) != existing ==> parent.value in w.db.mailboxes || parent.value == existing.id)
    ensures UpsertEntry(w, tgt, snap, "").0.disk == MakeDir(w.disk, tgt, snap).0
  {
    var existing := snap[tgt.jmapId];
    DiffGivesWanted(existing, tgt, snap);
    var row := Wanted(existing, tgt, snap);
    assert !w.db.MailboxJmapTaken(row.jmapId, row.id) by {
      forall m | m in w.db.mailboxes && w.db.mailboxes[m].jmapId == row.jmapId ensures m == row.id {
        assert k[tgt.jmapId] == w.db.mailboxes[m];
      }
    }
  }

  /** What holds of the tables before the upsert of `j`. */
  ghost predicate Before(w1: Tree, k1: Keyed, k0: Keyed, t: Targets, snap: Keyed, ids: map<JmapId, MailboxId>, done: seq<JmapId>, j: JmapId)
    requires j in t && (j in snap || j in ids) && forall i :: i in done ==> i in t && (i in snap || i in ids)
  {
    && IsKeyed(w1.db.mailboxes, k1) && Progress(k1, k0, t, snap, ids, done) && j !in done
    && (j in ids ==> ids[j] !in w1.db.mailboxes && forall i :: i in snap ==> snap[i].id != ids[j])
    && NotReused(w1.db.mailboxes, snap, k0)
    && (var p := t[j].parent; p.Some? && p.value in t && p.value !in snap ==> p.value in done)
    && t[j].parent != Some(j)
    && (j in snap && LostParent(t[j], snap, k0) ==> Wanted(snap[j], t[j], snap) != snap[j])
  }

  lemma ParentThereIff(w: Tree, w1: Tree, k1: Keyed, k0: Keyed, t: Targets, snap: Keyed, ids: map<JmapId, MailboxId>,
                       done: seq<JmapId>, j: JmapId)
    requires Start(w, k0, t, snap, ids) && (forall i :: i in done ==> i in t && (i in snap || i in ids)) && j in t && (j in snap || j in ids)
    requires Before(w1, k1, k0, t, snap, ids, done, j)
    ensures var parent := FinalParent(t[j], t, snap, ids);
            parent.Some? ==> (parent.value in w1.db.mailboxes <==> !LostParent(t[j], snap, k0))
  {
    if t[j].parent.Some? {
      var p := t[j].parent.value;
      if p in snap && p in k0 { assert p in k1 && k1[p].id == snap[p].id; }
      if p !in snap && p in t && p in ids { assert p in done && k1[p].id == ids[p]; }
    }
  }

  /** An upsert goes through exactly when its directory operation does and its parent has not been deleted. */
  lemma EntryOkIff(w: Tree, w1: Tree, k1: Keyed, k0: Keyed, t: Targets, snap: Keyed, ids: map<JmapId, MailboxId>,
                   done: seq<JmapId>, j: JmapId)
    requires Start(w, k0, t, snap, ids) && (forall i :: i in done ==> i in t && (i in snap || i in ids)) && j in t && (j in snap || j in ids)
    requires Before(w1, k1, k0, t, snap, ids, done, j) && forall i :: i in snap ==> snap[i].jmapId == Some(i)
    ensures var entry := UpsertEntry(w1, t[j], snap, if j in ids then ids[j] else "");
            && (entry.1 <==> MakeDir(w1.disk, t[j], snap).1 && !LostParent(t[j], snap, k0))
            && entry.0.disk == MakeDir(w1.disk, t[j], snap).0
  {
    ParentThereIff(w, w1, k1, k0, t, snap, ids, done, j);
    if j in snap {
      assert j in k0 && k1[j] == snap[j];
      UpdateOkIff(w1, k1, snap, t[j]);
    } else {
      CreateParent(w1.db.mailboxes, k1, k0, t, snap, ids, done, t[j]);
      CreateOkIff(w1, k1, snap, t[j], ids[j]);
    }
  }

  // -------------------------------------------------------------------------
  // All creates and updates
  // -------------------------------------------------------------------------

  /** The ids in the table after the upserts. */
  lemma {:induction false} UpsertsIds(w: Tree, t: Targets, snap: Keyed, ids: map<JmapId, MailboxId>, order: seq<JmapId>)
    requires (forall j :: j in order ==> j in t && (j in snap || j in ids)) && forall j :: j in t ==> t[j].jmapId == j
    ensures forall m :: m in Upserts(w, t, snap, ids, order).0.db.mailboxes ==>
              m in w.db.mailboxes || exists j :: j in order && j !in snap && j in ids && ids[j] == m
    decreases |order|
  {
    if order != [] {
      var n := |order| - 1;
      var front := order[..n];
      UpsertsIds(w, t, snap, ids, front);
      assert forall j :: j in front ==> j in order;
      assert order[n] in order;
      if Upserts(w, t, snap, ids, front).1 {
        EntryIds(Upserts(w, t, snap, ids, front).0, t[order[n]], snap, if order[n] in ids then ids[order[n]] else "");
      }
    }
  }

  lemma EntryIds(w: Tree, tgt: Target, snap: Keyed, id: MailboxId)
    ensures forall m :: m in UpsertEntry(w, tgt, snap, id).0.db.mailboxes ==> m in w.db.mailboxes || (m == id && tgt.jmapId !in snap)
  {}

  /** What the upserts start from, with fresh ids. */
  ghost predicate Prepared(w: Tree, k0: Keyed, t: Targets, snap: Keyed, ids: map<JmapId, MailboxId>) {
    && Start(w, k0, t, snap, ids) && FreshIds(w.db.mailboxes, ids) && NotReused(w.db.mailboxes, snap, k0)
    && (forall i, j :: i in snap && j in ids ==> snap[i].id != ids[j])
    && (forall i :: i in snap ==> snap[i].jmapId == Some(i))
    && (forall j :: j in t ==> t[j].parent != Some(j))
    && (forall j :: j in t && j in snap && LostParent(t[j], snap, k0) ==> Wanted(snap[j], t[j], snap) != snap[j])
  }

  lemma ReadyBefore(w: Tree, k0: Keyed, t: Targets, snap: Keyed, ids: map<JmapId, MailboxId>, done: seq<JmapId>, j: JmapId, k1: Keyed)
    requires Prepared(w, k0, t, snap, ids) && (forall i :: i in done ==> i in t && (i in snap || i in ids)) && j in t && (j in snap || j in ids)
    requires j !in done && Progress(k1, k0, t, snap, ids, done) && IsKeyed(Upserts(w, t, snap, ids, done).0.db.mailboxes, k1)
    requires var p := t[j].parent; p.Some? && p.value in t && p.value !in snap ==> p.value in done
    ensures Before(Upserts(w, t, snap, ids, done).0, k1, k0, t, snap, ids, done, j)
  {
    UpsertsIds(w, t, snap, ids, done);
  }

  /** The upserts go through exactly when the directory operations do and no parent has been deleted. */
  lemma {:induction false} UpsertsOkIff(w: Tree, k0: Keyed, t: Targets, snap: Keyed, ids: map<JmapId, MailboxId>, order: seq<JmapId>)
    requires Prepared(w, k0, t, snap, ids) && NoRepeat(order) && (forall j :: j in order ==> j in t && (j in snap || j in ids))
    requires ParentsFirst(t, snap.Keys, order)
    ensures Upserts(w, t, snap, ids, order).1 <==>
            MakeDirs(w.disk, t, snap, order).1 && forall j :: j in order ==> !LostParent(t[j], snap, k0)
    ensures Upserts(w, t, snap, ids, order).1 ==> Upserts(w, t, snap, ids, order).0.disk == MakeDirs(w.disk, t, snap, order).0
    decreases |order|
  {
    if order != [] {
      var n := |order| - 1;
      var front, j := order[..n], order[n];
      LastIsNew(order, n);
      FrontParentsFirst(t, snap.Keys, order, n);
      FirstParent(t, snap.Keys, order, n);
      assert j in order && forall i :: i in front ==> i in order;
      UpsertsOkIff(w, k0, t, snap, ids, front);
      if Upserts(w, t, snap, ids, front).1 {
        var k1 := UpsertsKeep(w, t, snap, ids, front, k0);
        ReadyBefore(w, k0, t, snap, ids, front, j, k1);
        EntryOkIff(w, Upserts(w, t, snap, ids, front).0, k1, k0, t, snap, ids, front, j);
      }
    }
  }

  // -------------------------------------------------------------------------
  // A pass
  // -------------------------------------------------------------------------

  lemma ReadyAfterDeletes(w: Tree, t: Targets, depth: map<JmapId, nat>, snap: Keyed, excluded: set<string>, p: Plan)
    requires IsKeyed(w.db.mailboxes, snap) && Ranked(t, depth) && PlanOk(t, snap, excluded, p) && FreshIds(w.db.mailboxes, p.ids)
    requires Deletes(w, snap, p.deletes).1
    ensures Prepared(Deletes(w, snap, p.deletes).0, Without(snap, p.deletes), t, snap, p.ids)
  {
    var w1, k0 := Deletes(w, snap, p.deletes).0, Without(snap, p.deletes);
    DeletesKeep(w, snap, p.deletes);
    StartAfterDeletes(w1, t, snap, excluded, p, k0);
    DeletedNotReused(w.db, w1.db, snap, p.deletes);
    forall j | j in t && j in snap && LostParent(t[j], snap, k0) ensures Wanted(snap[j], t[j], snap) != snap[j] {
      LostMeansChange(w, t, snap, excluded, p, j);
    }
  }

  lemma DeletedNotReused(before: Db, after: Db, snap: Keyed, js: seq<JmapId>)
    requires (forall j :: j in js ==> j in snap) && Deleted(before, after, snap, js)
    ensures NotReused(after.mailboxes, snap, Without(snap, js))
  {
    forall j | j in snap && j in js ensures snap[j].id !in after.mailboxes {
      var a :| 0 <= a < |js| && js[a] == j;
      assert snap[js[a]].id == snap[j].id;
    }
  }

  /** The old row did not have the parent that was deleted, or the delete would have been refused. */
  lemma LostMeansChange(w: Tree, t: Targets, snap: Keyed, excluded: set<string>, p: Plan, j: JmapId)
    requires IsKeyed(w.db.mailboxes, snap) && PlanOk(t, snap, excluded, p) && j in t && j in snap
    requires Deletes(w, snap, p.deletes).1 && LostParent(t[j], snap, Without(snap, p.deletes))
    ensures Wanted(snap[j], t[j], snap) != snap[j]
  {
    var parent := t[j].parent.value;
    assert parent in p.deletes && parent in ToDelete(t, snap, excluded);
    if snap[j].parentId == Some(snap[parent].id) { FilteredParentBlocksPass(w, t, snap, excluded, p, parent, j); }
  }

  /**
   With its deletes done, a pass goes through exactly when every directory operation does and no target's parent was
   just deleted: the tables refuse nothing else.
   */
  lemma PassOkIff(w: Tree, t: Targets, depth: map<JmapId, nat>, snap: Keyed, excluded: set<string>, p: Plan)
    requires IsKeyed(w.db.mailboxes, snap) && Ranked(t, depth) && PlanOk(t, snap, excluded, p) && FreshIds(w.db.mailboxes, p.ids)
    ensures Pass(w, t, snap, p).1 <==>
            && Deletes(w, snap, p.deletes).1 && MakeDirs(Deletes(w, snap, p.deletes).0.disk, t, snap, p.order).1
            && forall j :: j in t ==> !ParentDropped(j, t, snap, excluded)
  {
    if Deletes(w, snap, p.deletes).1 {
      ReadyAfterDeletes(w, t, depth, snap, excluded, p);
      TopoOrderIsSound(t, depth, snap.Keys, p.order);
      UpsertsOkIff(Deletes(w, snap, p.deletes).0, Without(snap, p.deletes), t, snap, p.ids, p.order);
      forall j | j in t ensures LostParent(t[j], snap, Without(snap, p.deletes)) <==> ParentDropped(j, t, snap, excluded) {
        assert t[j].parent.Some? ==> (t[j].parent.value in p.deletes <==> t[j].parent.value in ToDelete(t, snap, excluded));
      }
      assert forall j :: j in p.order <==> j in t;
    }
  }

  // -------------------------------------------------------------------------
  // Passes that fail for good
  // -------------------------------------------------------------------------

  /** Deleting a mailbox that is an email's primary removes the directory, then fails and leaves every row as it was. */
  lemma PrimaryBlocksDelete(w: Tree, row: MailboxRow, r: RowId)
    requires row.id in w.db.mailboxes && r in w.db.emails && w.db.emails[r].primary == row.id
    requires row.path in w.disk.dirs && row.path !in w.disk.faulty
    ensures var (w', ok) := DeleteEntry(w, row);
            !ok && w'.db == w.db && (forall q :: q in w'.disk.files ==> !Under(q.dir, row.path)) && row.path !in w'.disk.dirs
  {}

  /** So does every later pass, as long as the email's row is there and the mailbox is not in the target. */
  lemma PrimaryBlocksPass(w: Tree, t: Targets, snap: Keyed, excluded: set<string>, p: Plan, j: JmapId, r: RowId)
    requires IsKeyed(w.db.mailboxes, snap) && PlanOk(t, snap, excluded, p)
    requires j in snap && j !in t && snap[j].path !in excluded && r in w.db.emails && w.db.emails[r].primary == snap[j].id
    ensures !Pass(w, t, snap, p).1
  {
    assert j in ToDelete(t, snap, excluded);
    var a :| 0 <= a < |p.deletes| && p.deletes[a] == j;
    if Deletes(w, snap, p.deletes).1 {
      DeletedOneByOne(w, snap, p.deletes, a);
      StillAt(w, snap, p.deletes, a);
    }
  }

  /** A mailbox that stays in the target while its parent falls out of it blocks every pass: the parent cannot go. */
  lemma FilteredParentBlocksPass(w: Tree, t: Targets, snap: Keyed, excluded: set<string>, p: Plan, parent: JmapId, child: JmapId)
    requires IsKeyed(w.db.mailboxes, snap) && PlanOk(t, snap, excluded, p)
    requires parent in snap && parent !in t && snap[parent].path !in excluded
    requires child in snap && child in t && snap[child].parentId == Some(snap[parent].id)
    ensures !Deletes(w, snap, p.deletes).1 && !Pass(w, t, snap, p).1
  {
    assert parent in ToDelete(t, snap, excluded);
    var a :| 0 <= a < |p.deletes| && p.deletes[a] == parent;
    TargetStays(w.db.mailboxes, t, snap, excluded, p, child);
    assert snap[child].jmapId != snap[parent].jmapId;
    ChildBlocks(w, snap, p.deletes, a, snap[child].id);
  }

  lemma TargetStays(mailboxes: map<MailboxId, MailboxRow>, t: Targets, snap: Keyed, excluded: set<string>, p: Plan, j: JmapId)
    requires IsKeyed(mailboxes, snap) && PlanOk(t, snap, excluded, p) && j in snap && j in t
    ensures (forall i :: i in p.deletes ==> i in snap) && !Gone(snap, p.deletes, snap[j].id)
  {
    forall i | i in p.deletes ensures i in snap && snap[i].id != snap[j].id {
      assert i in ToDelete(t, snap, excluded);
      assert snap[i].jmapId != snap[j].jmapId;
    }
  }

  /** In a pass that goes through no parent was dropped, so only a move under a new mailbox costs a parent link. */
  lemma LinkRightIff(w: Tree, t: Targets, depth: map<JmapId, nat>, snap: Keyed, excluded: set<string>, p: Plan) returns (k: Keyed)
    requires IsKeyed(w.db.mailboxes, snap) && Ranked(t, depth) && PlanOk(t, snap, excluded, p) && FreshIds(w.db.mailboxes, p.ids)
    requires Pass(w, t, snap, p).1
    ensures IsKeyed(Pass(w, t, snap, p).0.db.mailboxes, k) && t.Keys <= k.Keys
    ensures forall j :: j in t ==> (k[j].parentId == ParentInSnapshot(t[j], k) <==> !MovedUnderNew(j, t, snap))
  {
    k := OnePassParentsIff(w, t, depth, snap, excluded, p);
    PassOkIff(w, t, depth, snap, excluded, p);
  }

  // -------------------------------------------------------------------------
  // A renamed parent behind its child
  // -------------------------------------------------------------------------

  /** Something at `x` keeps a rename from landing on `dst`. */
  predicate Occupied(d: Disk, dst: string, x: string) {
    x in d.dirs && Under(x, dst) && (x != dst || x in d.maildirs)
  }

  /** The mailbox's directory is neither to be removed nor to be moved. */
  predicate Stays(row: MailboxRow, j: JmapId, t: Targets, excluded: set<string>) {
    if j in t then t[j].path == row.path else row.path in excluded
  }

  /** Neither directory is in the one at `path`. */
  predicate Spares(path: string, x: string, y: string) {
    !Under(x, path) && !Under(y, path)
  }

  /** The parent is to be renamed, its directory is there, and what stands at the new path no entry of a pass takes away. */
  ghost predicate Blocked(w: Tree, snap: Keyed, t: Targets, excluded: set<string>, parent: JmapId, x: string) {
    && IsKeyed(w.db.mailboxes, snap) && parent in snap && parent in t && t[parent].path != snap[parent].path
    && snap[parent].path in w.disk.dirs && Occupied(w.disk, t[parent].path, x)
    && (forall j :: j in snap && j != parent ==> Stays(snap[j], j, t, excluded) || Spares(snap[j].path, x, snap[parent].path))
  }

  /** Both directories are still there. */
  predicate Stand(d: Disk, dst: string, x: string, src: string) {
    src in d.dirs && Occupied(d, dst, x)
  }

  lemma RemoveStands(d: Disk, path: string, dst: string, x: string, src: string)
    requires Stand(d, dst, x, src) && Spares(path, x, src)
    ensures Stand(RemoveTree(d, path), dst, x, src)
  {}

  lemma RelocateStands(d: Disk, from: string, to: string, dst: string, x: string, src: string)
    requires Stand(d, dst, x, src) && (from == to || Spares(from, x, src))
    ensures Stand(Relocate(d, from, to).0, dst, x, src)
  {
    if from != to && to !in d.faulty {
      var made := MakeParents(d, to);
      if from in made.dirs && CanRename(made, from, to) {
        assert Moved(x, from, to) == x && Moved(src, from, to) == src;
        assert x in made.dirs && src in made.dirs;
      }
    }
  }

  /** The rename itself fails, and leaves both. */
  lemma OccupiedStops(d: Disk, src: string, dst: string, x: string)
    requires Stand(d, dst, x, src) && src != dst
    ensures !Relocate(d, src, dst).1 && Stand(Relocate(d, src, dst).0, dst, x, src)
  {
    var made := MakeParents(d, dst);
    assert x in made.dirs && src in made.dirs;
  }

  /** Every row is as it was or has its target's path, and the targets' rows are there under their ids. */
  ghost predicate Partway(w: Tree, k: Keyed, snap: Keyed, t: Targets, parent: JmapId) {
    && IsKeyed(w.db.mailboxes, k) && parent in k && parent in snap && k[parent] == snap[parent]
    && (forall j :: j in k ==> (j in snap && k[j] == snap[j]) || (j in t && k[j].path == t[j].path))
    && (forall j :: j in snap && j in t ==> j in k && k[j].id == snap[j].id)
  }

  lemma PartwayIsBlocked(w: Tree, w': Tree, k: Keyed, snap: Keyed, t: Targets, excluded: set<string>, parent: JmapId, x: string)
    requires Blocked(w, snap, t, excluded, parent, x) && Partway(w', k, snap, t, parent)
    requires Stand(w'.disk, t[parent].path, x, snap[parent].path)
    ensures Blocked(w', k, t, excluded, parent, x)
  {}

  lemma {:induction false} DeletesStand(w: Tree, snap: Keyed, t: Targets, excluded: set<string>, parent: JmapId, x: string, js: seq<JmapId>)
    returns (k: Keyed)
    requires Blocked(w, snap, t, excluded, parent, x) && NoRepeat(js)
    requires forall j :: j in js ==> j in snap && j in ToDelete(t, snap, excluded)
    ensures var w' := Deletes(w, snap, js).0; Partway(w', k, snap, t, parent) && Stand(w'.disk, t[parent].path, x, snap[parent].path)
    decreases |js|
  {
    if js == [] {
      k := snap;
    } else {
      var n := |js| - 1;
      var front, j := js[..n], js[n];
      assert j in js && forall i :: i in front ==> i in js;
      k := DeletesStand(w, snap, t, excluded, parent, x, front);
      if Deletes(w, snap, front).1 {
        DeletesKeep(w, snap, front);
        assert j !in front;
        KeyedUnique(Deletes(w, snap, front).0.db.mailboxes, k, Without(snap, front));
        k := DeleteStands(Deletes(w, snap, front).0, k, snap, t, excluded, parent, x, j);
      }
    }
  }

  lemma DeleteStands(w: Tree, k: Keyed, snap: Keyed, t: Targets, excluded: set<string>, parent: JmapId, x: string, j: JmapId)
    returns (k': Keyed)
    requires Partway(w, k, snap, t, parent) && parent in t && Stand(w.disk, t[parent].path, x, snap[parent].path)
    requires j in k && j in ToDelete(t, snap, excluded) && Spares(snap[j].path, x, snap[parent].path)
    ensures var w' := DeleteEntry(w, snap[j]).0; Partway(w', k', snap, t, parent) && Stand(w'.disk, t[parent].path, x, snap[parent].path)
  {
    if snap[j].path in w.disk.dirs { RemoveStands(w.disk, snap[j].path, t[parent].path, x, snap[parent].path); }
    k' := if DeleteEntry(w, snap[j]).1 then k - {j} else k;
    if w.db.DeleteMailbox(snap[j].id).Some? { DeleteKeeps(w.db, k, j); }
  }

  lemma UpsertStands(w: Tree, k: Keyed, snap: Keyed, t: Targets, excluded: set<string>, parent: JmapId, x: string, j: JmapId, id: MailboxId)
    returns (k': Keyed)
    requires Partway(w, k, snap, t, parent) && parent in t && Stand(w.disk, t[parent].path, x, snap[parent].path)
    requires j in t && t[j].jmapId == j && j != parent && (j in snap ==> snap[j].jmapId == Some(j))
    requires j in snap ==> t[j].path == snap[j].path || Spares(snap[j].path, x, snap[parent].path)
    ensures var w' := UpsertEntry(w, t[j], snap, id).0; Partway(w', k', snap, t, parent) && Stand(w'.disk, t[parent].path, x, snap[parent].path)
  {
    var ok := UpsertEntry(w, t[j], snap, id).1;
    k' := k;
    if j !in snap {
      if ok {
        var row := NewRow(id, t[j], ParentForCreate(t[j], snap, w.db.mailboxes));
        NotTaken(w.db, k, row, j);
        CreateKeeps(w.db, k, row, j);
        k' := k[j := row];
      }
    } else {
      var row := Wanted(snap[j], t[j], snap);
      DiffGivesWanted(snap[j], t[j], snap);
      if row != snap[j] {
        RelocateStands(w.disk, snap[j].path, t[j].path, t[parent].path, x, snap[parent].path);
        if ok {
          UpdateKeeps(w.db, k, row, j);
          k' := k[j := row];
        }
      }
    }
  }

  lemma NotTaken(db: Db, k: Keyed, row: MailboxRow, j: JmapId)
    requires IsKeyed(db.mailboxes, k) && row.jmapId == Some(j) && db.InsertMailbox(row).Some?
    ensures j !in k
  {
    assert forall i :: i in k ==> k[i].id in db.mailboxes && db.mailboxes[k[i].id].jmapId == Some(i);
  }

  lemma ParentStands(w: Tree, snap: Keyed, t: Targets, parent: JmapId, x: string, id: MailboxId)
    requires parent in snap && parent in t && t[parent].jmapId == parent && t[parent].path != snap[parent].path
    requires Stand(w.disk, t[parent].path, x, snap[parent].path)
    ensures var (w', ok) := UpsertEntry(w, t[parent], snap, id);
            !ok && w'.db == w.db && Stand(w'.disk, t[parent].path, x, snap[parent].path)
  {
    DiffGivesWanted(snap[parent], t[parent], snap);
    OccupiedStops(w.disk, snap[parent].path, t[parent].path, x);
  }

  lemma {:induction false} UpsertsStand(w0: Tree, w: Tree, k0: Keyed, snap: Keyed, t: Targets, excluded: set<string>, parent: JmapId, x: string,
                                        ids: map<JmapId, MailboxId>, order: seq<JmapId>) returns (k: Keyed)
    requires Blocked(w0, snap, t, excluded, parent, x) && (forall j :: j in t ==> t[j].jmapId == j)
    requires Partway(w, k0, snap, t, parent) && Stand(w.disk, t[parent].path, x, snap[parent].path)
    requires forall j :: j in order ==> j in t && (j in snap || j in ids)
    ensures var (w', ok) := Upserts(w, t, snap, ids, order);
            Partway(w', k, snap, t, parent) && Stand(w'.disk, t[parent].path, x, snap[parent].path) && (parent in order ==> !ok)
    decreases |order|
  {
    if order == [] {
      k := k0;
    } else {
      var n := |order| - 1;
      var front, j := order[..n], order[n];
      assert j in order && forall i :: i in order <==> i in front || i == j;
      k := UpsertsStand(w0, w, k0, snap, t, excluded, parent, x, ids, front);
      var w1 := Upserts(w, t, snap, ids, front).0;
      if Upserts(w, t, snap, ids, front).1 {
        var id := if j in ids then ids[j] else "";
        if j == parent { ParentStands(w1, snap, t, parent, x, id); } else { k := UpsertStands(w1, k, snap, t, excluded, parent, x, j, id); }
      }
    }
  }

  /** A blocked pass fails, and the next one is blocked as well. */
  lemma BlockedPassFails(w: Tree, snap: Keyed, t: Targets, excluded: set<string>, parent: JmapId, x: string, p: Plan) returns (k: Keyed)
    requires Blocked(w, snap, t, excluded, parent, x) && PlanOk(t, snap, excluded, p)
    ensures !Pass(w, t, snap, p).1 && Blocked(Pass(w, t, snap, p).0, k, t, excluded, parent, x)
  {
    k := DeletesStand(w, snap, t, excluded, parent, x, p.deletes);
    var w1 := Deletes(w, snap, p.deletes).0;
    if Deletes(w, snap, p.deletes).1 {
      k := UpsertsStand(w, w1, k, snap, t, excluded, parent, x, p.ids, p.order);
      assert parent in p.order;
    }
    PartwayIsBlocked(w, Pass(w, t, snap, p).0, k, snap, t, excluded, parent, x);
  }

  ghost predicate IsPass(w: Tree, snap: Keyed, t: Targets, excluded: set<string>, p: Plan, w': Tree) {
    IsKeyed(w.db.mailboxes, snap) && PlanOk(t, snap, excluded, p) && Pass(w, t, snap, p).0 == w'
  }

  ghost predicate Fails(w: Tree, snap: Keyed, t: Targets, excluded: set<string>, p: Plan) {
    PlanOk(t, snap, excluded, p) && !Pass(w, t, snap, p).1
  }

  /** Passes on the same target, one after the other, whatever each plans. */
  ghost predicate ArePasses(t: Targets, excluded: set<string>, trace: seq<Tree>, snaps: seq<Keyed>, plans: seq<Plan>) {
    && |trace| == |plans| + 1 && |snaps| == |plans|
    && forall i :: 0 <= i < |plans| ==> IsPass(trace[i], snaps[i], t, excluded, plans[i], trace[i + 1])
  }

  /** Once blocked, every pass on that target fails. */
  lemma {:induction false} BlockedForGood(t: Targets, excluded: set<string>, parent: JmapId, x: string, trace: seq<Tree>,
                                          snaps: seq<Keyed>, plans: seq<Plan>, snap: Keyed, n: nat) returns (k: Keyed)
    requires ArePasses(t, excluded, trace, snaps, plans) && Blocked(trace[0], snap, t, excluded, parent, x) && n < |trace|
    ensures Blocked(trace[n], k, t, excluded, parent, x)
    ensures n < |plans| ==> Fails(trace[n], snaps[n], t, excluded, plans[n])
    decreases n
  {
    if n == 0 {
      k := snap;
    } else {
      var m: nat := n - 1;
      k := BlockedForGood(t, excluded, parent, x, trace, snaps, plans, snap, m);
      k := NextBlocked(trace[m], snaps[m], t, excluded, parent, x, plans[m], trace[n], k);
    }
    if n < |plans| { var _ := NextBlocked(trace[n], snaps[n], t, excluded, parent, x, plans[n], trace[n + 1], k); }
  }

  lemma NextBlocked(w: Tree, snap: Keyed, t: Targets, excluded: set<string>, parent: JmapId, x: string, p: Plan, w': Tree, k: Keyed)
    returns (k': Keyed)
    requires IsPass(w, snap, t, excluded, p, w') && Blocked(w, k, t, excluded, parent, x)
    ensures Fails(w, snap, t, excluded, p) && Blocked(w', k', t, excluded, parent, x)
  {
    KeyedUnique(w.db.mailboxes, k, snap);
    k' := BlockedPassFails(w, snap, t, excluded, parent, x, p);
  }

  /**
   A child moved along with its parent, when its own move comes first: its directory then stands below the parent's new
   path, and blocks the parent's rename, unless the rest of the target takes it away again.
   */
  lemma ChildFirstBlocks(w: Tree, snap: Keyed, t: Targets, excluded: set<string>, parent: JmapId, child: JmapId) returns (k: Keyed)
    requires IsKeyed(w.db.mailboxes, snap) && parent in snap && child in snap && parent in t && child in t && parent != child
    requires t[child].jmapId == child && t[parent].path != snap[parent].path && snap[parent].path in w.disk.dirs
    requires t[child].path != snap[child].path && Under(t[child].path, t[parent].path) && t[child].path != t[parent].path
    requires !Under(snap[parent].path, snap[child].path)
    requires forall j :: j in snap && j != parent && j != child ==>
               Stays(snap[j], j, t, excluded) || Spares(snap[j].path, t[child].path, snap[parent].path)
    requires UpsertEntry(w, t[child], snap, "").1
    ensures k == snap[child := Wanted(snap[child], t[child], snap)]
    ensures Blocked(UpsertEntry(w, t[child], snap, "").0, k, t, excluded, parent, t[child].path)
  {
    var row := Wanted(snap[child], t[child], snap);
    DiffGivesWanted(snap[child], t[child], snap);
    UpdateKeeps(w.db, snap, row, child);
    k := snap[child := row];
    ChildStands(w.disk, snap[child].path, t[child].path, snap[parent].path);
  }

  lemma ChildStands(d: Disk, src: string, dst: string, other: string)
    requires src != dst && Relocate(d, src, dst).1 && other in d.dirs && !Under(other, src)
    ensures dst in Relocate(d, src, dst).0.dirs && other in Relocate(d, src, dst).0.dirs
  {
    var made := MakeParents(d, dst);
    assert other in made.dirs && Moved(other, src, dst) == other;
    if src in made.dirs {
      assert Moved(src, src, dst) == dst;
    }
  }

  lemma TwoEntries(w: Tree, t: Targets, snap: Keyed, p: Plan, child: JmapId, parent: JmapId, w1: Tree, w2: Tree)
    requires p.deletes == [] && p.order == [child, parent] && parent in t && child in t && parent in snap && child in snap
    requires child !in p.ids && parent !in p.ids
    requires UpsertEntry(w, t[child], snap, "") == (w1, true) && UpsertEntry(w1, t[parent], snap, "") == (w2, false)
    ensures Pass(w, t, snap, p) == (w2, false)
  {
    var order := [child, parent];
    assert order[..1] == [child] && [child][..0] == [];
    assert Upserts(w, t, snap, p.ids, [child]) == (w1, true);
  }

  /** So a pass that takes just the two in that order fails, and leaves the tree blocked. */
  lemma ChildThenParentFails(w: Tree, snap: Keyed, t: Targets, excluded: set<string>, parent: JmapId, child: JmapId, p: Plan)
    returns (w': Tree, k: Keyed)
    requires IsKeyed(w.db.mailboxes, snap) && parent in snap && child in snap && parent in t && child in t && parent != child
    requires t[child].jmapId == child && t[parent].path != snap[parent].path && snap[parent].path in w.disk.dirs
    requires t[child].path != snap[child].path && Under(t[child].path, t[parent].path) && t[child].path != t[parent].path
    requires !Under(snap[parent].path, snap[child].path)
    requires forall j :: j in snap && j != parent && j != child ==>
               Stays(snap[j], j, t, excluded) || Spares(snap[j].path, t[child].path, snap[parent].path)
    requires UpsertEntry(w, t[child], snap, "").1
    requires t[parent].jmapId == parent && PlanOk(t, snap, excluded, p) && p.deletes == [] && p.order == [child, parent]
    ensures Pass(w, t, snap, p) == (w', false) && Blocked(w', k, t, excluded, parent, t[child].path)
    ensures k == snap[child := Wanted(snap[child], t[child], snap)]
    ensures w'.db.emails == w.db.emails && w'.db.mailboxes.Keys == w.db.mailboxes.Keys
  {
    var w1 := UpsertEntry(w, t[child], snap, "").0;
    UpdateKeepsIds(w, snap, t[child]);
    k := ChildFirstBlocks(w, snap, t, excluded, parent, child);
    ParentStands(w1, snap, t, parent, t[child].path, "");
    w' := UpsertEntry(w1, t[parent], snap, "").0;
    PartwayIsBlocked(w1, w', k, k, t, excluded, parent, t[child].path);
    TwoEntries(w, t, snap, p, child, parent, w1, w');
  }

  lemma UpdateKeepsIds(w: Tree, snap: Keyed, tgt: Target)
    requires IsKeyed(w.db.mailboxes, snap) && tgt.jmapId in snap
    ensures var w' := UpsertEntry(w, tgt, snap, "").0;
            w'.db.emails == w.db.emails && w'.db.mailboxes.Keys == w.db.mailboxes.Keys
  {}

  lemma MoveOk(w: Tree, snap: Keyed, tgt: Target)
    requires IsKeyed(w.db.mailboxes, snap) && tgt.jmapId in snap && snap[tgt.jmapId].path != tgt.path
    requires Relocate(w.disk, snap[tgt.jmapId].path, tgt.path).1
    requires tgt.parent.Some? && tgt.parent.value in snap
    ensures UpsertEntry(w, tgt, snap, "").1
  {
    UpdateOkIff(w, snap, snap, tgt);
  }

  // -------------------------------------------------------------------------
  // At an input
  // -------------------------------------------------------------------------

  const PARENT: MailboxRow := MailboxRow("p", Some("P"), "ABCDE", None, None, None, "ABCDE")
  const CHILD: MailboxRow := MailboxRow("c", Some("C"), "k", Some("p"), None, None, "ABCDE/k")
  const ROWS: Keyed := map["P" := PARENT, "C" := CHILD]

  /** A settled tree: a mailbox ABCDE, in it a mailbox k, no email, no faulty path. */
  const SETTLED: Tree :=
    Tree(Db(map["p" := PARENT, "c" := CHILD], map[], map[]), Disk({"ABCDE", "ABCDE/k"}, {"ABCDE", "ABCDE/k"}, map[], {}))

  /** The server has renamed the first to X. */
  const RENAMED: Targets :=
    map["P" := Target("P", "X", None, None, None, "X"), "C" := Target("C", "k", Some("P"), None, None, "X/k")]

  const CHILD_FIRST: Plan := Plan([], ["C", "P"], map[])

  /** When every target is local, any order is one the program may take. */
  lemma AllLocalAnyOrder(t: Targets, local: set<JmapId>, order: seq<JmapId>)
    requires t.Keys <= local && Lists(order, t.Keys)
    ensures Rounds(t, local, t.Keys, order)
  {
    assert Ready(t, local, t.Keys) == t.Keys;
    if t.Keys != {} {
      ListsLength(order, t.Keys);
      assert order[..|order|] == order && order[|order|..] == [] && t.Keys - t.Keys == {};
      assert Ready(t, local + t.Keys, {}) == {};
    }
  }

  lemma ChildFirstIsPlan()
    ensures PlanOk(RENAMED, ROWS, {}, CHILD_FIRST)
  {
    var order := ["C", "P"];
    assert RENAMED.Keys == {"P", "C"} && ROWS.Keys == {"P", "C"};
    assert Lists(order, RENAMED.Keys) by { assert order[0] == "C" && order[1] == "P"; }
    AllLocalAnyOrder(RENAMED, ROWS.Keys, order);
    NothingToDelete(RENAMED, ROWS);
  }

  lemma NothingToDelete(t: Targets, snap: Keyed)
    requires snap.Keys <= t.Keys
    ensures ToDelete(t, snap, {}) == {} && Lists([], ToDelete(t, snap, {})) && DeepestFirst(snap, [])
  {}

  lemma ChildMoves()
    ensures Relocate(SETTLED.disk, "ABCDE/k", "X/k").1
  {
    var made := MakeParents(SETTLED.disk, "X/k");
    assert forall x :: x in Ancestors("X/k") ==> |x| < 3;
    assert CanRename(made, "ABCDE/k", "X/k");
  }

  lemma RowsAreKeyed()
    ensures IsKeyed(SETTLED.db.mailboxes, ROWS) && PathsNested(ROWS)
  {}

  lemma PathLengths()
    ensures PathLength("X/k") == 3 && PathLength("ABCDE") == 5
  {
    assert "X/k"[..2] == "X/" && "X/"[..1] == "X" && "X"[..0] == "";
    assert "ABCDE"[..4] == "ABCD" && "ABCD"[..3] == "ABC" && "ABC"[..2] == "AB" && "AB"[..1] == "A" && "A"[..0] == "";
  }

  lemma RenameApplies()
    ensures ROWS["C"].path == "ABCDE/k" && ROWS["P"].path == "ABCDE" && RENAMED["C"].path == "X/k" && RENAMED["P"].path == "X"
    ensures RENAMED["C"].jmapId == "C" && RENAMED["P"].jmapId == "P" && RENAMED["C"].parent == Some("P")
    ensures ROWS.Keys == {"P", "C"} && ROWS["P"] == PARENT && ROWS["C"].parentId == Some("p") && ROWS["P"].id == "p"
    ensures Under("X/k", "X") && !Under("ABCDE", "ABCDE/k") && "ABCDE" in SETTLED.disk.dirs
    ensures SETTLED.db.emails == map[] && SETTLED.db.mailboxes.Keys == {ROWS["P"].id, ROWS["C"].id}
    ensures RENAMED.Keys == {"P", "C"} && CHILD_FIRST.deletes == [] && CHILD_FIRST.order == ["C", "P"]
  {}

  /** What the pass leaves: the child moved, the parent not. */
  lemma HalfRenamed() returns (w: Tree, k: Keyed)
    ensures PlanOk(RENAMED, ROWS, {}, CHILD_FIRST) && IsKeyed(SETTLED.db.mailboxes, ROWS) && PathsNested(ROWS)
    ensures Pass(SETTLED, RENAMED, ROWS, CHILD_FIRST) == (w, false) && Blocked(w, k, RENAMED, {}, "P", "X/k")
    ensures k.Keys == {"P", "C"} && k["P"] == PARENT && k["C"].path == "X/k" && k["C"].parentId == Some("p")
    ensures w.db.emails == map[] && w.db.mailboxes.Keys == {k["P"].id, k["C"].id}
  {
    ChildFirstIsPlan();
    RowsAreKeyed();
    RenameApplies();
    ChildEntryOk(SETTLED, ROWS, RENAMED["C"]);
    w, k := HalfRename(SETTLED, ROWS, RENAMED, CHILD_FIRST, "P", "C");
  }

  lemma ChildEntryOk(w: Tree, snap: Keyed, tgt: Target)
    requires IsKeyed(w.db.mailboxes, snap) && w.disk == SETTLED.disk && "C" in snap && "P" in snap
    requires snap["C"].path == "ABCDE/k" && tgt.path == "X/k" && tgt.jmapId == "C" && tgt.parent == Some("P")
    ensures UpsertEntry(w, tgt, snap, "").1
  {
    ChildMoves();
    MoveOk(w, snap, tgt);
  }

  lemma HalfRename(w0: Tree, snap: Keyed, t: Targets, p: Plan, parent: JmapId, child: JmapId) returns (w: Tree, k: Keyed)
    requires PlanOk(t, snap, {}, p) && IsKeyed(w0.db.mailboxes, snap) && parent != child
    requires snap.Keys == {parent, child} && t.Keys == {parent, child} && p.deletes == [] && p.order == [child, parent]
    requires t[child].path != snap[child].path && t[parent].path != snap[parent].path && snap[parent].path in w0.disk.dirs
    requires Under(t[child].path, t[parent].path) && t[child].path != t[parent].path && !Under(snap[parent].path, snap[child].path)
    requires t[child].jmapId == child && t[parent].jmapId == parent && t[child].parent == Some(parent)
    requires UpsertEntry(w0, t[child], snap, "").1
    ensures Pass(w0, t, snap, p) == (w, false) && Blocked(w, k, t, {}, parent, t[child].path)
    ensures k.Keys == snap.Keys && k[parent] == snap[parent] && k[child].path == t[child].path && k[child].id == snap[child].id
    ensures k[child].parentId == Some(snap[parent].id)
    ensures w.db.emails == w0.db.emails && w.db.mailboxes.Keys == w0.db.mailboxes.Keys
  {
    w, k := ChildThenParentFails(w0, snap, t, {}, parent, child, p);
  }

  /**
   If the server then drops both mailboxes, every plan deletes the parent first and is refused, although nothing that
   stays hangs on either.
   */
  lemma HalfRenamedCannotGo(w: Tree, k: Keyed, p: Plan)
    requires IsKeyed(w.db.mailboxes, k) && k.Keys == {"P", "C"}
    requires k["P"] == PARENT && k["C"].path == "X/k" && k["C"].parentId == Some("p") && PlanOk(map[], k, {}, p)
    requires w.db.emails == map[] && w.db.mailboxes.Keys == {k["P"].id, k["C"].id}
    ensures !Deletes(w, k, p.deletes).1 && !Pass(w, map[], k, p).1
    ensures !OrphansChild(w.db.mailboxes, k, p.deletes) && !OrphansEmail(w.db, k, p.deletes)
  {
    assert ToDelete(map[], k, {}) == {"P", "C"};
    PathLengths();
    ShorterChildBlocks(w, k, {"P", "C"}, p.deletes, "C", "P");
    BothGone(k, p.deletes);
  }

  lemma BothGone(k: Keyed, js: seq<JmapId>)
    requires k.Keys == {"P", "C"} && Lists(js, {"P", "C"})
    ensures Gone(k, js, k["P"].id) && Gone(k, js, k["C"].id)
  {
    assert "P" in js && "C" in js;
    var a :| 0 <= a < |js| && js[a] == "P";
    var b :| 0 <= b < |js| && js[b] == "C";
  }
}
