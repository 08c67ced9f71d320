/** Hydration: each answered email is settled, and the emails already settled stay so. */
module EmailHydrate {
  import opened Prelude
  import opened Keywords
  import opened Primary
  import opened Tables
  import opened EmailStore
  import opened EmailTick
  import opened EmailWriteback
  import opened EmailConvergence

  /** Generated identifiers are new to the store. */
  ghost predicate FreshFor(s: Store, f: Fresh) {
    && f.rowId !in s.db.emails
    && (forall r :: r in s.db.emails ==> s.db.emails[r].path.base.uuid != f.uuid)
    && (forall p :: p in s.files ==> p.base.uuid != f.uuid)
  }

  ghost predicate Differ(a: Fresh, b: Fresh) {
    a.rowId != b.rowId && a.uuid != b.uuid
  }

  /** Identifiers are new for the ids left, and differ from one another. */
  ghost predicate SupplyOk(s: Store, left: set<JmapId>, supply: JmapId -> Fresh) {
    && (forall id :: id in left ==> FreshFor(s, supply(id)))
    && (forall i, j :: i in left && j in left && i != j ==> Differ(supply(i), supply(j)))
  }

  /** The local rows of the ids left are still in the table; ids without a local row have none there. */
  ghost predicate Untouched(emails: map<RowId, EmailRow>, local: map<JmapId, EmailRow>, left: set<JmapId>) {
    forall id :: id in left ==>
      if id in local then local[id].jmapId == id && RowAt(emails, local[id])
      else forall r :: r in emails ==> emails[r].jmapId != id
  }

  /** The store is sound, every row is on its file and in scope. */
  ghost predicate HydrateStore(server: Server, s: Store, keyed: Keyed, strays: map<FilePath, Bytes>) {
    && Inv(s) && KeyedOk(s.db.mailboxes, keyed) && Placed(server, s) && StraysAre(s, strays)
    && (forall r :: r in s.db.emails ==> s.db.emails[r].jmapId in InScope(server, keyed))
  }

  /** The ids in `left` are still to do, the others in scope are settled. */
  ghost predicate HydrateProgress(server: Server, s: Store, keyed: Keyed, local: map<JmapId, EmailRow>,
                                  left: set<JmapId>, supply: JmapId -> Fresh)
  {
    && left <= InScope(server, keyed) && Untouched(s.db.emails, local, left) && SupplyOk(s, left, supply)
    && (forall id :: id in InScope(server, keyed) && id !in left ==> HasSettled(server, s, keyed, id))
  }

  ghost predicate HydrateInv(server: Server, s: Store, keyed: Keyed, local: map<JmapId, EmailRow>, left: set<JmapId>,
                             supply: JmapId -> Fresh, strays: map<FilePath, Bytes>)
  {
    HydrateStore(server, s, keyed, strays) && HydrateProgress(server, s, keyed, local, left, supply)
  }

  /** The row replaces the local one of the same id, or brings that id's fresh identifiers. */
  ghost predicate Replaces(s: Store, local: map<JmapId, EmailRow>, row: EmailRow, f: Fresh) {
    if row.jmapId in local
    then row.id == local[row.jmapId].id && row.path.base.uuid == local[row.jmapId].path.base.uuid
    else row.id == f.rowId && row.path.base.uuid == f.uuid
  }

  lemma ReplacesFits(server: Server, s: Store, keyed: Keyed, local: map<JmapId, EmailRow>, left: set<JmapId>,
                     supply: JmapId -> Fresh, strays: map<FilePath, Bytes>, row: EmailRow)
    requires HydrateInv(server, s, keyed, local, left, supply, strays) && row.jmapId in left
    requires Replaces(s, local, row, supply(row.jmapId))
    requires row.primary in s.db.mailboxes && RowOk(row) && row.path.dir == s.db.mailboxes[row.primary].path
    ensures Fits(s, row)
    ensures row.id in s.db.emails ==> s.db.emails[row.id].jmapId == row.jmapId
  {
    assert FreshFor(s, supply(row.jmapId));
  }

  lemma PutUntouched(s: Store, local: map<JmapId, EmailRow>, left: set<JmapId>, supply: JmapId -> Fresh, row: EmailRow,
                     ms: map<MailboxId, bool>, blob: Bytes)
    requires RowsKeyed(s.db.emails) && Untouched(s.db.emails, local, left) && SupplyOk(s, left, supply)
    requires row.jmapId in left && Replaces(s, local, row, supply(row.jmapId))
    ensures Untouched(Put(s, row, ms, blob).db.emails, local, left - {row.jmapId})
  {
    var emails := Put(s, row, ms, blob).db.emails;
    assert FreshFor(s, supply(row.jmapId));
    forall id | id in left - {row.jmapId}
      ensures if id in local then local[id].jmapId == id && RowAt(emails, local[id])
              else forall r :: r in emails ==> emails[r].jmapId != id
    {
      if id in local { assert local[id].id != row.id; }
    }
  }

  lemma PutSupply(s: Store, local: map<JmapId, EmailRow>, left: set<JmapId>, supply: JmapId -> Fresh, row: EmailRow,
                  ms: map<MailboxId, bool>, blob: Bytes)
    requires Untouched(s.db.emails, local, left) && SupplyOk(s, left, supply)
    requires row.jmapId in left && Replaces(s, local, row, supply(row.jmapId))
    ensures SupplyOk(Put(s, row, ms, blob), left - {row.jmapId}, supply)
  {
    var s' := Put(s, row, ms, blob);
    forall id | id in left - {row.jmapId} ensures FreshFor(s', supply(id)) {
      assert FreshFor(s, supply(id)) && Differ(supply(id), supply(row.jmapId));
    }
  }

  lemma PutRowPaths(s: Store, row: EmailRow, ms: map<MailboxId, bool>, blob: Bytes, q: FilePath)
    requires Fits(s, row)
    requires row.id in s.db.emails ==> s.db.emails[row.id].path.base.uuid == row.path.base.uuid
    ensures IsRowPath(Put(s, row, ms, blob).db.emails, q) <==>
            q == row.path || (IsRowPath(s.db.emails, q) && q.base.uuid != row.path.base.uuid)
  {
    var emails := Put(s, row, ms, blob).db.emails;
    assert emails[row.id].path == row.path;
    if r :| r in s.db.emails && r != row.id && s.db.emails[r].path == q {
      assert emails[r].path == q;
    }
    if r :| r in emails && r != row.id && emails[r].path == q {
      assert s.db.emails[r].path == q;
    }
  }

  /** Replacing an email's one file makes and takes no stray. */
  lemma PutStrays(server: Server, s: Store, local: map<JmapId, EmailRow>, left: set<JmapId>, supply: JmapId -> Fresh,
                  strays: map<FilePath, Bytes>, row: EmailRow, ms: map<MailboxId, bool>, blob: Bytes)
    requires OneFilePerUuid(s.files) && Placed(server, s) && StraysAre(s, strays) && Fits(s, row)
    requires Untouched(s.db.emails, local, left) && SupplyOk(s, left, supply)
    requires row.jmapId in left && Replaces(s, local, row, supply(row.jmapId))
    ensures StraysAre(Put(s, row, ms, blob), strays)
  {
    assert FreshFor(s, supply(row.jmapId));
    assert forall q :: q in s.files && q.base.uuid == row.path.base.uuid ==> IsRowPath(s.db.emails, q);
    forall q ensures IsRowPath(Put(s, row, ms, blob).db.emails, q) <==>
                     q == row.path || (IsRowPath(s.db.emails, q) && q.base.uuid != row.path.base.uuid)
    {
      PutRowPaths(s, row, ms, blob, q);
    }
  }

  lemma PutStore(server: Server, s: Store, keyed: Keyed, local: map<JmapId, EmailRow>, left: set<JmapId>,
                 supply: JmapId -> Fresh, strays: map<FilePath, Bytes>, row: EmailRow, ms: map<MailboxId, bool>,
                 blob: Bytes)
    requires HydrateInv(server, s, keyed, local, left, supply, strays) && Fits(s, row)
    requires row.jmapId in left && row.jmapId in server && blob == server[row.jmapId].blob
    requires Replaces(s, local, row, supply(row.jmapId))
    requires ms.Keys <= s.db.mailboxes.Keys && forall m :: m in ms ==> ms[m] == (m == row.primary)
    ensures HydrateStore(server, Put(s, row, ms, blob), keyed, strays)
  {
    PutInv(s, row, ms, blob);
    PutPlaced(server, s, row, ms, blob);
    PutStrays(server, s, local, left, supply, strays, row, ms, blob);
  }

  lemma PutProgress(server: Server, s: Store, keyed: Keyed, local: map<JmapId, EmailRow>, left: set<JmapId>,
                    supply: JmapId -> Fresh, row: EmailRow, ms: map<MailboxId, bool>, blob: Bytes)
    requires HydrateProgress(server, s, keyed, local, left, supply) && RowsKeyed(s.db.emails) && Fits(s, row)
    requires row.jmapId in left && Replaces(s, local, row, supply(row.jmapId))
    requires row.id in s.db.emails ==> s.db.emails[row.id].jmapId == row.jmapId
    requires HasSettled(server, Put(s, row, ms, blob), keyed, row.jmapId)
    ensures HydrateProgress(server, Put(s, row, ms, blob), keyed, local, left - {row.jmapId}, supply)
  {
    PutUntouched(s, local, left, supply, row, ms, blob);
    PutSupply(s, local, left, supply, row, ms, blob);
    forall id | id in InScope(server, keyed) && id !in left - {row.jmapId}
      ensures HasSettled(server, Put(s, row, ms, blob), keyed, id)
    {
      if id != row.jmapId { PutKeepsSettled(server, s, keyed, row, ms, blob, id); }
    }
  }

  lemma PutStep(server: Server, s: Store, keyed: Keyed, local: map<JmapId, EmailRow>, left: set<JmapId>,
                supply: JmapId -> Fresh, strays: map<FilePath, Bytes>, v: View, mb: MailboxRow, row: EmailRow)
    requires HydrateInv(server, s, keyed, local, left, supply, strays)
    requires v.id in left && Matches(v, server[v.id]) && PickPrimary(v.mailboxes, keyed) == Some(mb)
    requires row.jmapId == v.id && row.primary == mb.id && row.path.dir == mb.path
    requires row.keywords == SerializeKeywords(v.keywords) && row.path.flags == ViewFlags(v)
    requires Replaces(s, local, row, supply(v.id))
    ensures HydrateInv(server, Put(s, row, ExpectedMembers(Elements(v.mailboxes), keyed, mb.id), v.blob), keyed, local,
                       left - {v.id}, supply, strays)
  {
    var ms := ExpectedMembers(Elements(v.mailboxes), keyed, mb.id);
    PutSettles(server, s, keyed, v, mb, row);
    ReplacesFits(server, s, keyed, local, left, supply, strays, row);
    assert ms.Keys <= s.db.mailboxes.Keys;
    PutStore(server, s, keyed, local, left, supply, strays, row, ms, v.blob);
    PutProgress(server, s, keyed, local, left, supply, row, ms, v.blob);
  }

  /** An email for which nothing needs doing is settled already. */
  lemma NothingToDo(server: Server, s: Store, keyed: Keyed, existing: EmailRow, v: View, mb: MailboxRow)
    requires Inv(s) && KeyedOk(s.db.mailboxes, keyed) && Placed(server, s) && RowAt(s.db.emails, existing)
    requires existing.jmapId == v.id && v.id in server && Matches(v, server[v.id])
    requires PickPrimary(v.mailboxes, keyed) == Some(mb) && existing.primary == mb.id
    requires !NeedsUpdate(s, existing, v, keyed)
    ensures HasSettled(server, s, keyed, v.id)
  {
    PickPrimaryChooses(v.mailboxes, keyed);
    ViewWrites(v, server[v.id]);
    var j :| j in v.mailboxes && j in keyed && keyed[j] == mb;
    SameMembersNow(s, keyed, existing, v);
    assert Settled(server, s, keyed, existing);
  }

  lemma SameMembersNow(s: Store, keyed: Keyed, existing: EmailRow, v: View)
    requires Inv(s) && RowAt(s.db.emails, existing) && !MembershipsDiffer(s.db, existing.id, v.mailboxes, keyed)
    ensures s.db.MembersOf(existing.id) == ExpectedMembers(Elements(v.mailboxes), keyed, existing.primary)
  {}

  lemma HydrateNew(server: Server, s: Store, keyed: Keyed, local: map<JmapId, EmailRow>, left: set<JmapId>,
                   supply: JmapId -> Fresh, strays: map<FilePath, Bytes>, v: View, mb: MailboxRow)
    requires HydrateInv(server, s, keyed, local, left, supply, strays)
    requires v.id in left && Matches(v, server[v.id]) && PickPrimary(v.mailboxes, keyed) == Some(mb)
    requires v.id !in local
    ensures var r := InsertEmail(s, v, mb, keyed, supply(v.id));
            r.Some? && HydrateInv(server, r.value, keyed, local, left - {v.id}, supply, strays)
  {
    assert FreshFor(s, supply(v.id));
    InsertIsPut(s, v, mb, keyed, supply(v.id));
    PutStep(server, s, keyed, local, left, supply, strays, v, mb, InsertedRow(v, mb, supply(v.id)));
  }

  lemma HydrateKnown(server: Server, s: Store, keyed: Keyed, local: map<JmapId, EmailRow>, left: set<JmapId>,
                     supply: JmapId -> Fresh, strays: map<FilePath, Bytes>, v: View, mb: MailboxRow, row: EmailRow)
    requires HydrateInv(server, s, keyed, local, left, supply, strays)
    requires v.id in left && Matches(v, server[v.id]) && PickPrimary(v.mailboxes, keyed) == Some(mb)
    requires v.id in local && row.id == local[v.id].id && row.path.base.uuid == local[v.id].path.base.uuid
    requires row.jmapId == v.id && row.primary == mb.id && row.path.dir == mb.path
    requires row.keywords == SerializeKeywords(v.keywords) && row.path.flags == ViewFlags(v)
    ensures var r := Rewrite(s, local[v.id], row, v.mailboxes, keyed);
            r.Some? && HydrateInv(server, r.value, keyed, local, left - {v.id}, supply, strays)
  {
    var existing := local[v.id];
    assert RowAt(s.db.emails, existing) && Tracked(s, existing);
    PutSettles(server, s, keyed, v, mb, row);
    RewriteIsPut(s, existing, row, v.mailboxes, keyed);
    PutStep(server, s, keyed, local, left, supply, strays, v, mb, row);
  }

  /** An id whose email is settled needs no more work. */
  lemma SettledIsDone(server: Server, s: Store, keyed: Keyed, local: map<JmapId, EmailRow>, left: set<JmapId>,
                      supply: JmapId -> Fresh, strays: map<FilePath, Bytes>, id: JmapId)
    requires HydrateInv(server, s, keyed, local, left, supply, strays) && HasSettled(server, s, keyed, id)
    ensures HydrateInv(server, s, keyed, local, left - {id}, supply, strays)
  {
    assert SupplyOk(s, left - {id}, supply);
    assert Untouched(s.db.emails, local, left - {id});
  }

  lemma HydrateStep(server: Server, s: Store, keyed: Keyed, local: map<JmapId, EmailRow>, left: set<JmapId>,
                    supply: JmapId -> Fresh, strays: map<FilePath, Bytes>, v: View, st: Stats)
    requires HydrateInv(server, s, keyed, local, left, supply, strays)
    requires v.id in left && Matches(v, server[v.id])
    ensures var r := ApplyEmail(s, keyed, local, v, supply(v.id), st);
            r.Some? && HydrateInv(server, r.value.0, keyed, local, left - {v.id}, supply, strays)
  {
    PickPrimaryChooses(v.mailboxes, keyed);
    var mb := PickPrimary(v.mailboxes, keyed).value;
    if v.id !in local {
      HydrateNew(server, s, keyed, local, left, supply, strays, v, mb);
    } else {
      var existing := local[v.id];
      assert RowAt(s.db.emails, existing);
      if existing.primary != mb.id {
        HydrateKnown(server, s, keyed, local, left, supply, strays, v, mb, MovedRow(existing, v, mb));
      } else if NeedsUpdate(s, existing, v, keyed) {
        var j :| j in v.mailboxes && j in keyed && keyed[j] == mb;
        HydrateKnown(server, s, keyed, local, left, supply, strays, v, mb, UpdatedRow(existing, v));
      } else {
        NothingToDo(server, s, keyed, existing, v, mb);
        SettledIsDone(server, s, keyed, local, left, supply, strays, v.id);
      }
    }
  }

  /** The answers name each id left once, truthfully. */
  ghost predicate Answers(server: Server, views: seq<View>, left: set<JmapId>) {
    && (forall i :: 0 <= i < |views| ==> views[i].id in left && views[i].id in server && Matches(views[i], server[views[i].id]))
    && (forall i, j :: 0 <= i < j < |views| ==> views[i].id != views[j].id)
    && (forall id :: id in left ==> exists i :: 0 <= i < |views| && views[i].id == id)
  }

  ghost function Ids(views: seq<View>): set<JmapId> {
    set i | 0 <= i < |views| :: views[i].id
  }

  lemma {:induction false} HydratePrefix(server: Server, s: Store, keyed: Keyed, local: map<JmapId, EmailRow>,
                                         left: set<JmapId>, supply: JmapId -> Fresh, strays: map<FilePath, Bytes>,
                                         views: seq<View>, st: Stats)
    requires HydrateInv(server, s, keyed, local, left, supply, strays)
    requires forall i :: 0 <= i < |views| ==> views[i].id in left && Matches(views[i], server[views[i].id])
    requires forall i, j :: 0 <= i < j < |views| ==> views[i].id != views[j].id
    ensures var r := Hydrate(s, keyed, local, views, supply, st);
            r.Some? && HydrateInv(server, r.value.0, keyed, local, left - Ids(views), supply, strays)
    decreases |views|
  {
    if views == [] {
      assert left - Ids(views) == left;
    } else {
      var n := |views| - 1;
      HydratePrefix(server, s, keyed, local, left, supply, strays, views[..n], st);
      var rest := left - Ids(views[..n]);
      var (s1, st1) := Hydrate(s, keyed, local, views[..n], supply, st).value;
      LeftSnoc(left, views);
      HydrateStep(server, s1, keyed, local, rest, supply, strays, views[n], st1);
    }
  }

  lemma LeftSnoc(left: set<JmapId>, views: seq<View>)
    requires views != [] && views[|views| - 1].id in left
    requires forall i, j :: 0 <= i < j < |views| ==> views[i].id != views[j].id
    ensures var n := |views| - 1;
            left - Ids(views[..n]) - {views[n].id} == left - Ids(views) && views[n].id in left - Ids(views[..n])
  {}

  /** Once every id is answered the stores agree. */
  lemma HydrateAgrees(server: Server, s: Store, keyed: Keyed, local: map<JmapId, EmailRow>, supply: JmapId -> Fresh,
                      strays: map<FilePath, Bytes>, views: seq<View>, st: Stats)
    requires HydrateInv(server, s, keyed, local, InScope(server, keyed), supply, strays) && s.db.mailboxes != map[]
    requires Answers(server, views, InScope(server, keyed))
    ensures var r := Hydrate(s, keyed, local, views, supply, st);
            r.Some? && Agreed(World(server, r.value.0), keyed) && StraysAre(r.value.0, strays)
  {
    HydratePrefix(server, s, keyed, local, InScope(server, keyed), supply, strays, views, st);
    assert InScope(server, keyed) - Ids(views) == {};
    HydrateKeepsMailboxes(s, keyed, local, views, supply, st);
  }

  lemma {:induction false} InsertMembersKeepsRest(db: Db, r: RowId, primary: MailboxId, ids: seq<JmapId>, keyed: Keyed)
    ensures InsertMembers(db, r, primary, ids, keyed).Some? ==>
              && InsertMembers(db, r, primary, ids, keyed).value.mailboxes == db.mailboxes
              && InsertMembers(db, r, primary, ids, keyed).value.emails == db.emails
    decreases |ids|
  {
    if ids != [] {
      if ids[0] !in keyed {
        InsertMembersKeepsRest(db, r, primary, ids[1..], keyed);
      } else {
        var next := db.InsertMember(r, keyed[ids[0]].id, keyed[ids[0]].id == primary);
        if next.Some? { InsertMembersKeepsRest(next.value, r, primary, ids[1..], keyed); }
      }
    }
  }

  lemma ApplyKeepsMailboxes(s: Store, keyed: Keyed, local: map<JmapId, EmailRow>, v: View, f: Fresh, st: Stats)
    ensures var r := ApplyEmail(s, keyed, local, v, f, st);
            r.Some? ==> r.value.0.db.mailboxes == s.db.mailboxes
  {
    var mb := PickPrimary(v.mailboxes, keyed);
    if mb.Some? {
      if v.id !in local {
        var db := s.db.InsertEmail(InsertedRow(v, mb.value, f));
        if db.Some? { InsertMembersKeepsRest(db.value, f.rowId, mb.value.id, v.mailboxes, keyed); }
      } else {
        var existing := local[v.id];
        RewriteKeepsMailboxes(s, existing, MovedRow(existing, v, mb.value), v.mailboxes, keyed);
        RewriteKeepsMailboxes(s, existing, UpdatedRow(existing, v), v.mailboxes, keyed);
      }
    }
  }

  lemma RewriteKeepsMailboxes(s: Store, existing: EmailRow, row: EmailRow, ids: seq<JmapId>, keyed: Keyed)
    ensures Rewrite(s, existing, row, ids, keyed).Some? ==>
              Rewrite(s, existing, row, ids, keyed).value.db.mailboxes == s.db.mailboxes
  {
    var db := s.db.UpdateEmail(row);
    if db.Some? { InsertMembersKeepsRest(ClearMembers(db.value, row.id), row.id, row.primary, ids, keyed); }
  }

  lemma {:induction false} HydrateKeepsMailboxes(s: Store, keyed: Keyed, local: map<JmapId, EmailRow>, views: seq<View>,
                                                 supply: JmapId -> Fresh, st: Stats)
    ensures var r := Hydrate(s, keyed, local, views, supply, st);
            r.Some? ==> r.value.0.db.mailboxes == s.db.mailboxes
    decreases |views|
  {
    if views != [] {
      var n := |views| - 1;
      HydrateKeepsMailboxes(s, keyed, local, views[..n], supply, st);
      var r := Hydrate(s, keyed, local, views[..n], supply, st);
      if r.Some? { ApplyKeepsMailboxes(r.value.0, keyed, local, views[n], supply(views[n].id), r.value.1); }
    }
  }
}
