/** The write-back pass in closed form: what it leaves depends on the accepted ids, not on the visiting order. */
module EmailWriteback {
  import opened Prelude
  import opened Primary
  import opened Tables
  import opened EmailStore
  import opened EmailTick

  ghost predicate RowAt(emails: map<RowId, EmailRow>, row: EmailRow) {
    row.id in emails && emails[row.id] == row
  }

  /** `local` is the rows by server id. */
  ghost predicate LocalIs(emails: map<RowId, EmailRow>, local: map<JmapId, EmailRow>) {
    && (forall r :: r in emails ==> emails[r].jmapId in local && local[emails[r].jmapId] == emails[r])
    && (forall id :: id in local ==> local[id].jmapId == id && RowAt(emails, local[id]))
  }

  lemma LocalOfIs(emails: map<RowId, EmailRow>)
    requires RowsKeyed(emails)
    ensures JmapUnique(emails) && LocalIs(emails, LocalOf(emails))
  {}

  /** The detected change of every drifted row, by server id. */
  ghost function Changes(files: map<FilePath, Bytes>, local: map<JmapId, EmailRow>): map<JmapId, Change> {
    map id | id in local && ChangeOf(files, local[id]).Some? :: ChangeOf(files, local[id]).value
  }

  /** The row after write-back: keywords and path taken from disk if its update was accepted. */
  ghost function SyncedRow(changes: map<JmapId, Change>, row: EmailRow, updated: set<JmapId>): EmailRow {
    if row.jmapId in updated && row.jmapId in changes && changes[row.jmapId].UpdateKeywords?
    then row.(keywords := changes[row.jmapId].newKeywords, path := changes[row.jmapId].newPath)
    else row
  }

  /** A change names its own row, and the file it names is the one found for that row. */
  ghost predicate ChangeFits(files: map<FilePath, Bytes>, row: EmailRow, c: Change) {
    && c.jmapId == row.jmapId
    && match c
       case Destroy(_, None) => forall q :: q in files ==> !SameBase(q, row.path)
       case Destroy(_, Some(q)) => q in files && SameBase(q, row.path)
       case UpdateKeywords(_, _, _, q) => q in files && SameBase(q, row.path)
  }

  ghost predicate ChangesFit(s: Store, changes: map<JmapId, Change>) {
    forall r :: r in s.db.emails && s.db.emails[r].jmapId in changes ==>
      ChangeFits(s.files, s.db.emails[r], changes[s.db.emails[r].jmapId])
  }

  ghost predicate Keyed2(s: Store) {
    RowsKeyed(s.db.emails) && OneFilePerUuid(s.files)
  }

  /** The file belongs to a row with one of these ids. */
  ghost predicate Owned(emails: map<RowId, EmailRow>, ids: set<JmapId>, q: FilePath) {
    exists r :: r in emails && emails[r].jmapId in ids && SameBase(q, emails[r].path)
  }

  ghost function AfterEmails(emails: map<RowId, EmailRow>, changes: map<JmapId, Change>, gone: set<JmapId>,
                             updated: set<JmapId>): map<RowId, EmailRow>
  {
    map r | r in emails && emails[r].jmapId !in gone :: SyncedRow(changes, emails[r], updated)
  }

  ghost function AfterMembers(db: Db, gone: set<JmapId>): map<RowId, map<MailboxId, bool>> {
    map r | r in db.members && (r in db.emails ==> db.emails[r].jmapId !in gone) :: db.members[r]
  }

  ghost function AfterFiles(s: Store, gone: set<JmapId>): map<FilePath, Bytes> {
    map q | q in s.files && !Owned(s.db.emails, gone, q) :: s.files[q]
  }

  /** Rows with an id in `gone` dropped with their memberships and files, rows in `updated` taken from disk. */
  ghost function After(s: Store, changes: map<JmapId, Change>, gone: set<JmapId>, updated: set<JmapId>): Store {
    Store(Db(s.db.mailboxes, AfterEmails(s.db.emails, changes, gone, updated), AfterMembers(s.db, gone)),
          AfterFiles(s, gone))
  }

  // -------------------------------------------------------------------------
  // Locating a row's file
  // -------------------------------------------------------------------------

  lemma LocateUnique(files: map<FilePath, Bytes>, stored: FilePath, q: FilePath)
    requires OneFilePerUuid(files) && q in files && SameBase(q, stored)
    ensures Locate(files, stored) == Some(q)
  {}

  lemma LocateFinds(files: map<FilePath, Bytes>, stored: FilePath)
    ensures Locate(files, stored).Some? ==>
              Locate(files, stored).value in files && SameBase(Locate(files, stored).value, stored)
    ensures Locate(files, stored).None? ==> forall q :: q in files ==> !SameBase(q, stored)
  {}

  lemma ChangeOfFits(files: map<FilePath, Bytes>, row: EmailRow)
    ensures ChangeOf(files, row).Some? ==> ChangeFits(files, row, ChangeOf(files, row).value)
  {
    LocateFinds(files, row.path);
  }

  lemma ChangesDoFit(s: Store, local: map<JmapId, EmailRow>)
    requires LocalIs(s.db.emails, local)
    ensures ChangesFit(s, Changes(s.files, local))
  {
    forall r | r in s.db.emails && s.db.emails[r].jmapId in Changes(s.files, local)
      ensures ChangeFits(s.files, s.db.emails[r], Changes(s.files, local)[s.db.emails[r].jmapId])
    {
      ChangeOfFits(s.files, s.db.emails[r]);
    }
  }

  // -------------------------------------------------------------------------
  // The closed form: rows keep their identity
  // -------------------------------------------------------------------------

  lemma SyncedRowKeeps(s: Store, changes: map<JmapId, Change>, row: EmailRow, updated: set<JmapId>)
    requires ChangesFit(s, changes) && RowAt(s.db.emails, row)
    ensures var r := SyncedRow(changes, row, updated);
            r.id == row.id && r.jmapId == row.jmapId && r.primary == row.primary && SameBase(r.path, row.path)
  {}

  lemma AfterKeyed(s: Store, changes: map<JmapId, Change>, gone: set<JmapId>, updated: set<JmapId>)
    requires RowsKeyed(s.db.emails) && ChangesFit(s, changes)
    ensures RowsKeyed(AfterEmails(s.db.emails, changes, gone, updated))
  {
    forall r | r in s.db.emails
      ensures var t := SyncedRow(changes, s.db.emails[r], updated);
              t.id == r && t.jmapId == s.db.emails[r].jmapId && t.path.base == s.db.emails[r].path.base
    {
      SyncedRowKeeps(s, changes, s.db.emails[r], updated);
    }
  }

  lemma AfterNothing(s: Store, changes: map<JmapId, Change>)
    ensures After(s, changes, {}, {}) == s
  {}

  lemma OnlyRowHas(emails: map<RowId, EmailRow>, row: EmailRow)
    requires RowsKeyed(emails) && RowAt(emails, row)
    ensures forall r :: r in emails ==> (emails[r].jmapId == row.jmapId <==> r == row.id)
  {}

  // -------------------------------------------------------------------------
  // One accepted destroy
  // -------------------------------------------------------------------------

  /** `path` is the row's one file, or the row has none. */
  ghost predicate FileOfRow(files: map<FilePath, Bytes>, row: EmailRow, path: FilePath) {
    if path in files then SameBase(path, row.path) else forall q :: q in files ==> !SameBase(q, row.path)
  }

  lemma AfterDestroyFiles(s: Store, gone: set<JmapId>, row: EmailRow, path: FilePath)
    requires Keyed2(s) && RowAt(s.db.emails, row) && row.jmapId !in gone && FileOfRow(s.files, row, path)
    ensures AfterFiles(s, gone + {row.jmapId}) == AfterFiles(s, gone) - {path}
  {
    AfterDestroyFilesOf(s, gone, gone + {row.jmapId}, row, path);
  }

  lemma AfterDestroyFilesOf(s: Store, gone: set<JmapId>, all: set<JmapId>, row: EmailRow, path: FilePath)
    requires Keyed2(s) && RowAt(s.db.emails, row) && FileOfRow(s.files, row, path) && all == gone + {row.jmapId}
    ensures AfterFiles(s, all) == AfterFiles(s, gone) - {path}
  {
    forall q | q in s.files
      ensures Owned(s.db.emails, all, q) <==> Owned(s.db.emails, gone, q) || q == path
    {
      if SameBase(q, row.path) { assert q == path; }
      OwnedOneMore(s.db.emails, gone, all, row, q);
    }
  }

  lemma OwnedOneMore(emails: map<RowId, EmailRow>, gone: set<JmapId>, all: set<JmapId>, row: EmailRow, q: FilePath)
    requires RowsKeyed(emails) && RowAt(emails, row) && all == gone + {row.jmapId}
    ensures Owned(emails, all, q) <==> Owned(emails, gone, q) || SameBase(q, row.path)
  {
    if SameBase(q, row.path) { assert emails[row.id].jmapId in all; }
    if Owned(emails, all, q) && !Owned(emails, gone, q) {
      var r :| r in emails && emails[r].jmapId in all && SameBase(q, emails[r].path);
      assert r == row.id;
    }
    if Owned(emails, gone, q) {
      var r :| r in emails && emails[r].jmapId in gone && SameBase(q, emails[r].path);
      assert emails[r].jmapId in all;
    }
  }

  lemma AfterDestroyRows(emails: map<RowId, EmailRow>, changes: map<JmapId, Change>, gone: set<JmapId>,
                         updated: set<JmapId>, row: EmailRow)
    requires RowsKeyed(emails) && RowAt(emails, row) && row.jmapId !in gone
    ensures AfterEmails(emails, changes, gone + {row.jmapId}, updated) ==
            AfterEmails(emails, changes, gone, updated) - {row.id}
  {
    OnlyRowHas(emails, row);
  }

  lemma AfterDestroyMembers(db: Db, gone: set<JmapId>, row: EmailRow)
    requires RowsKeyed(db.emails) && RowAt(db.emails, row) && row.jmapId !in gone
    ensures AfterMembers(db, gone + {row.jmapId}) == AfterMembers(db, gone) - {row.id}
  {
    OnlyRowHas(db.emails, row);
  }

  lemma AfterDestroy(s: Store, changes: map<JmapId, Change>, gone: set<JmapId>, updated: set<JmapId>, row: EmailRow,
                     path: FilePath)
    requires Keyed2(s) && RowAt(s.db.emails, row) && row.jmapId !in gone && FileOfRow(s.files, row, path)
    ensures DeleteEmail(After(s, changes, gone, updated), row.(path := path)) ==
            After(s, changes, gone + {row.jmapId}, updated)
  {
    AfterDestroyFiles(s, gone, row, path);
    AfterDestroyRows(s.db.emails, changes, gone, updated, row);
    AfterDestroyMembers(s.db, gone, row);
  }

  // -------------------------------------------------------------------------
  // One accepted update
  // -------------------------------------------------------------------------

  lemma AfterUpdateRows(emails: map<RowId, EmailRow>, changes: map<JmapId, Change>, gone: set<JmapId>,
                        updated: set<JmapId>, row: EmailRow)
    requires RowsKeyed(emails) && RowAt(emails, row) && row.jmapId !in gone
    ensures AfterEmails(emails, changes, gone, updated + {row.jmapId}) ==
            AfterEmails(emails, changes, gone, updated)[row.id := SyncedRow(changes, row, updated + {row.jmapId})]
  {
    OnlyRowHas(emails, row);
  }

  lemma AfterUpdate(s: Store, changes: map<JmapId, Change>, gone: set<JmapId>, updated: set<JmapId>, row: EmailRow)
    requires RowsKeyed(s.db.emails) && ChangesFit(s, changes) && RowAt(s.db.emails, row)
    requires forall r :: r in s.db.emails ==> s.db.emails[r].primary in s.db.mailboxes
    requires row.jmapId !in gone
    ensures After(s, changes, gone, updated).db.UpdateEmail(SyncedRow(changes, row, updated + {row.jmapId})) ==
            Some(After(s, changes, gone, updated + {row.jmapId}).db)
  {
    var db := After(s, changes, gone, updated).db;
    var r := SyncedRow(changes, row, updated + {row.jmapId});
    SyncedRowKeeps(s, changes, row, updated + {row.jmapId});
    AfterKeyed(s, changes, gone, updated);
    SyncedRowKeeps(s, changes, row, updated);
    assert r.id in db.emails && db.emails[r.id] == SyncedRow(changes, row, updated);
    assert !db.JmapTaken(r.jmapId, r.id) && !db.PathTaken(r.path, r.id);
    AfterUpdateRows(s.db.emails, changes, gone, updated, row);
  }

  // -------------------------------------------------------------------------
  // The whole pass
  // -------------------------------------------------------------------------

  /** The server acts only on what it was asked. */
  ghost predicate ResponseOk(files: map<FilePath, Bytes>, local: map<JmapId, EmailRow>, destroyed: set<JmapId>,
                             updated: set<JmapId>)
  {
    destroyed <= AskedDestroys(files, local) && updated <= AskedUpdates(files, local)
  }

  ghost function AfterLocal(local: map<JmapId, EmailRow>, changes: map<JmapId, Change>, gone: set<JmapId>,
                            updated: set<JmapId>): map<JmapId, EmailRow>
  {
    map id | id in local && id !in gone :: SyncedRow(changes, local[id], updated)
  }

  lemma AfterLocalIs(s: Store, local: map<JmapId, EmailRow>, changes: map<JmapId, Change>, gone: set<JmapId>,
                     updated: set<JmapId>)
    requires LocalIs(s.db.emails, local) && ChangesFit(s, changes)
    ensures LocalIs(AfterEmails(s.db.emails, changes, gone, updated), AfterLocal(local, changes, gone, updated))
  {}

  /** What the pass carries once the ids in `gone` and `updated` are done. */
  ghost function Expected(s: Store, local: map<JmapId, EmailRow>, changes: map<JmapId, Change>, ids: set<JmapId>,
                          gone: set<JmapId>, updated: set<JmapId>): Pass
  {
    Pass(After(s, changes, gone, updated), ids - gone, AfterLocal(local, changes, gone, updated),
         ZERO_STATS.(destroyedUpstream := |gone|, updatedUpstream := |updated|))
  }

  function PathOf(row: EmailRow, c: Change): FilePath
    requires c.Destroy?
  {
    if c.actual.Some? then c.actual.value else row.path
  }

  lemma AppliedDestroy(p: Pass, c: Change, destroyed: set<JmapId>, accepted: set<JmapId>)
    requires c.Destroy? && c.jmapId in destroyed && c.jmapId in p.local
    ensures ApplyChange(p, c, destroyed, accepted) ==
            var row := p.local[c.jmapId];
            Some(Pass(DeleteEmail(p.s, row.(path := PathOf(row, c))), p.ids - {c.jmapId}, p.local - {c.jmapId},
                      p.st.(destroyedUpstream := p.st.destroyedUpstream + 1)))
  {
    var row := p.local[c.jmapId];
    assert c.actual.None? ==> row.(path := PathOf(row, c)) == row;
  }

  lemma AppliedUpdate(p: Pass, c: Change, destroyed: set<JmapId>, accepted: set<JmapId>, db: Db)
    requires c.UpdateKeywords? && c.jmapId in accepted && c.jmapId in p.local
    requires p.s.db.UpdateEmail(p.local[c.jmapId].(keywords := c.newKeywords, path := c.newPath)) == Some(db)
    ensures ApplyChange(p, c, destroyed, accepted) ==
            Some(Pass(Store(db, p.s.files), p.ids,
                      p.local[c.jmapId := p.local[c.jmapId].(keywords := c.newKeywords, path := c.newPath)],
                      p.st.(updatedUpstream := p.st.updatedUpstream + 1)))
  {}

  lemma CountAdd(s: set<JmapId>, x: JmapId)
    requires x !in s
    ensures |s + {x}| == |s| + 1
  {}

  lemma AfterLocalDestroy(local: map<JmapId, EmailRow>, changes: map<JmapId, Change>, gone: set<JmapId>,
                          updated: set<JmapId>, id: JmapId)
    ensures AfterLocal(local, changes, gone + {id}, updated) == AfterLocal(local, changes, gone, updated) - {id}
  {}

  lemma AfterLocalUpdate(local: map<JmapId, EmailRow>, changes: map<JmapId, Change>, gone: set<JmapId>,
                         updated: set<JmapId>, id: JmapId)
    requires id in local && id !in gone && forall k :: k in local ==> local[k].jmapId == k
    ensures AfterLocal(local, changes, gone, updated + {id}) ==
            AfterLocal(local, changes, gone, updated)[id := SyncedRow(changes, local[id], updated + {id})]
  {}

  lemma MinusAdd(ids: set<JmapId>, gone: set<JmapId>, id: JmapId)
    ensures ids - (gone + {id}) == ids - gone - {id}
  {}

  lemma DestroyStep(s: Store, local: map<JmapId, EmailRow>, changes: map<JmapId, Change>, ids: set<JmapId>,
                    gone: set<JmapId>, updated: set<JmapId>, id: JmapId, destroyed: set<JmapId>, accepted: set<JmapId>)
    requires Keyed2(s) && LocalIs(s.db.emails, local) && ChangesFit(s, changes)
    requires id in local && id !in gone && id in changes && changes[id].Destroy? && id in destroyed
    ensures ApplyChange(Expected(s, local, changes, ids, gone, updated), changes[id], destroyed, accepted) ==
            Some(Expected(s, local, changes, ids, gone + {id}, updated))
  {
    var c, row := changes[id], local[id];
    assert ChangeFits(s.files, row, c);
    var path := PathOf(row, c);
    assert FileOfRow(s.files, row, path) by { assert SameBase(row.path, row.path); }
    var p := Expected(s, local, changes, ids, gone, updated);
    assert id in p.local && p.local[id] == row;
    AppliedDestroy(p, c, destroyed, accepted);
    AfterDestroy(s, changes, gone, updated, row, path);
    AfterLocalDestroy(local, changes, gone, updated, id);
    MinusAdd(ids, gone, id);
    CountAdd(gone, id);
  }

  lemma UpdateStep(s: Store, local: map<JmapId, EmailRow>, changes: map<JmapId, Change>, ids: set<JmapId>,
                   gone: set<JmapId>, updated: set<JmapId>, id: JmapId, destroyed: set<JmapId>, accepted: set<JmapId>)
    requires Keyed2(s) && LocalIs(s.db.emails, local) && ChangesFit(s, changes)
    requires forall r :: r in s.db.emails ==> s.db.emails[r].primary in s.db.mailboxes
    requires id in local && id !in gone && id !in updated
    requires id in changes && changes[id].UpdateKeywords? && id in accepted
    ensures ApplyChange(Expected(s, local, changes, ids, gone, updated), changes[id], destroyed, accepted) ==
            Some(Expected(s, local, changes, ids, gone, updated + {id}))
  {
    var c, row := changes[id], local[id];
    assert ChangeFits(s.files, row, c);
    AfterUpdate(s, changes, gone, updated, row);
    var p := Expected(s, local, changes, ids, gone, updated);
    assert id in p.local && p.local[id] == row;
    assert c.jmapId == id;
    assert SyncedRow(changes, row, updated + {id}) == row.(keywords := c.newKeywords, path := c.newPath);
    AppliedUpdate(p, c, destroyed, accepted, After(s, changes, gone, updated + {id}).db);
    AfterLocalUpdate(local, changes, gone, updated, id);
    CountAdd(updated, id);
  }

  /** The server acted only on what the changes ask for. */
  ghost predicate ResponseFits(changes: map<JmapId, Change>, destroyed: set<JmapId>, updated: set<JmapId>) {
    && (forall id :: id in destroyed ==> id in changes && changes[id].Destroy?)
    && (forall id :: id in updated ==> id in changes && changes[id].UpdateKeywords?)
  }

  lemma ResponseDoesFit(files: map<FilePath, Bytes>, local: map<JmapId, EmailRow>, destroyed: set<JmapId>,
                        updated: set<JmapId>)
    requires ResponseOk(files, local, destroyed, updated)
    ensures ResponseFits(Changes(files, local), destroyed, updated)
  {
    forall id | id in destroyed ensures id in Changes(files, local) && Changes(files, local)[id].Destroy? {
      assert WantsDestroy(files, local[id]);
    }
    forall id | id in updated ensures id in Changes(files, local) && Changes(files, local)[id].UpdateKeywords? {
      assert WantsUpdate(files, local[id]);
    }
  }

  ghost function DetectIn(changes: map<JmapId, Change>, order: seq<JmapId>): seq<Change> {
    if order == [] then []
    else
      var n := |order| - 1;
      DetectIn(changes, order[..n]) + (if order[n] in changes then [changes[order[n]]] else [])
  }

  lemma {:induction false} DetectIs(files: map<FilePath, Bytes>, local: map<JmapId, EmailRow>, order: seq<JmapId>)
    requires forall id :: id in order ==> id in local
    ensures Detect(files, local, order) == DetectIn(Changes(files, local), order)
  {
    if order != [] {
      DetectIs(files, local, order[..|order| - 1]);
    }
  }

  lemma SkippedChange(p: Pass, c: Change, destroyed: set<JmapId>, accepted: set<JmapId>)
    requires c.jmapId !in destroyed && c.jmapId !in accepted
    ensures ApplyChange(p, c, destroyed, accepted) == Some(p)
  {}

  lemma LastElement(order: seq<JmapId>, s: set<JmapId>)
    requires order != [] && NoRepeat(order)
    ensures var n := |order| - 1;
            && order[n] !in s * Elements(order[..n])
            && s * Elements(order) == if order[n] in s then s * Elements(order[..n]) + {order[n]} else s * Elements(order[..n])
  {
    assert order == order[..|order| - 1] + [order[|order| - 1]];
  }

  lemma ChangeStep(s: Store, local: map<JmapId, EmailRow>, changes: map<JmapId, Change>, ids: set<JmapId>,
                   gone: set<JmapId>, updated: set<JmapId>, id: JmapId, destroyed: set<JmapId>, accepted: set<JmapId>)
    requires Keyed2(s) && LocalIs(s.db.emails, local) && ChangesFit(s, changes)
    requires forall r :: r in s.db.emails ==> s.db.emails[r].primary in s.db.mailboxes
    requires ResponseFits(changes, destroyed, accepted)
    requires id in local && id !in gone && id !in updated && id in changes
    ensures ApplyChange(Expected(s, local, changes, ids, gone, updated), changes[id], destroyed, accepted) ==
            Some(Expected(s, local, changes, ids, if id in destroyed then gone + {id} else gone,
                          if id in accepted then updated + {id} else updated))
  {
    assert ChangeFits(s.files, local[id], changes[id]);
    if id in destroyed {
      DestroyStep(s, local, changes, ids, gone, updated, id, destroyed, accepted);
    } else if id in accepted {
      UpdateStep(s, local, changes, ids, gone, updated, id, destroyed, accepted);
    } else {
      SkippedChange(Expected(s, local, changes, ids, gone, updated), changes[id], destroyed, accepted);
    }
  }

  lemma {:induction false} ChangesInOrder(s: Store, local: map<JmapId, EmailRow>, changes: map<JmapId, Change>,
                                          ids: set<JmapId>, order: seq<JmapId>, destroyed: set<JmapId>,
                                          updated: set<JmapId>)
    requires Keyed2(s) && LocalIs(s.db.emails, local) && ChangesFit(s, changes)
    requires forall r :: r in s.db.emails ==> s.db.emails[r].primary in s.db.mailboxes
    requires ResponseFits(changes, destroyed, updated)
    requires NoRepeat(order) && forall id :: id in order ==> id in local
    ensures ApplyChanges(Pass(s, ids, local, ZERO_STATS), DetectIn(changes, order), destroyed, updated) ==
            Some(Expected(s, local, changes, ids, destroyed * Elements(order), updated * Elements(order)))
    decreases |order|
  {
    if order == [] {
      ExpectedAtStart(s, local, changes, ids, destroyed * Elements(order), updated * Elements(order));
    } else {
      var n := |order| - 1;
      var rest, id := order[..n], order[n];
      ChangesInOrder(s, local, changes, ids, rest, destroyed, updated);
      LastElement(order, destroyed);
      LastElement(order, updated);
      var g, u := destroyed * Elements(rest), updated * Elements(rest);
      if id in changes {
        ChangeStep(s, local, changes, ids, g, u, id, destroyed, updated);
        ApplySnoc(Pass(s, ids, local, ZERO_STATS), DetectIn(changes, rest), changes[id], destroyed, updated,
                  Expected(s, local, changes, ids, g, u));
        assert DetectIn(changes, order) == DetectIn(changes, rest) + [changes[id]];
        assert ApplyChanges(Pass(s, ids, local, ZERO_STATS), DetectIn(changes, order), destroyed, updated) == 
          Some(Expected(s, local, changes, ids, if id in destroyed then g + {id} else g,
                          if id in updated then u + {id} else u));
        assert (if id in destroyed then g + {id} else g) == destroyed * Elements(order);
        assert (if id in updated then u + {id} else u) == updated * Elements(order);
      } else {
        assert DetectIn(changes, order) == DetectIn(changes, rest);
        assert g == destroyed * Elements(order);
        assert u == updated * Elements(order);
        assert ApplyChanges(Pass(s, ids, local, ZERO_STATS), DetectIn(changes, order), destroyed, updated) == 
          Some(Expected(s, local, changes, ids, g, u));
      }
    }
  }

  lemma ExpectedAtStart(s: Store, local: map<JmapId, EmailRow>, changes: map<JmapId, Change>, ids: set<JmapId>,
                        gone: set<JmapId>, updated: set<JmapId>)
    requires gone == {} && updated == {}
    ensures Expected(s, local, changes, ids, gone, updated) == Pass(s, ids, local, ZERO_STATS)
  {
    AfterNothing(s, changes);
    assert ids - {} == ids;
    assert AfterLocal(local, changes, {}, {}) == local;
  }

  lemma ApplySnoc(p: Pass, cs: seq<Change>, c: Change, destroyed: set<JmapId>, updated: set<JmapId>, q: Pass)
    requires ApplyChanges(p, cs, destroyed, updated) == Some(q)
    ensures ApplyChanges(p, cs + [c], destroyed, updated) == ApplyChange(q, c, destroyed, updated)
  {
    assert (cs + [c])[..|cs|] == cs;
  }

  lemma AllListed(order: seq<JmapId>, all: set<JmapId>, some: set<JmapId>)
    requires Lists(order, all) && some <= all
    ensures some * Elements(order) == some
  {}

  /** Whatever order the rows are visited in, the pass leaves the same store. */
  lemma WritebackClosedForm(s: Store, local: map<JmapId, EmailRow>, ids: set<JmapId>, order: seq<JmapId>,
                            destroyed: set<JmapId>, updated: set<JmapId>)
    requires Keyed2(s) && LocalIs(s.db.emails, local) && Lists(order, local.Keys)
    requires forall r :: r in s.db.emails ==> s.db.emails[r].primary in s.db.mailboxes
    requires ResponseOk(s.files, local, destroyed, updated)
    ensures ApplyChanges(Pass(s, ids, local, ZERO_STATS), Detect(s.files, local, order), destroyed, updated) ==
            Some(Expected(s, local, Changes(s.files, local), ids, destroyed, updated))
  {
    ChangesDoFit(s, local);
    ResponseDoesFit(s.files, local, destroyed, updated);
    DetectIs(s.files, local, order);
    var changes := Changes(s.files, local);
    ChangesInOrder(s, local, changes, ids, order, destroyed, updated);
    AllListed(order, local.Keys, destroyed);
    AllListed(order, local.Keys, updated);
  }
}
