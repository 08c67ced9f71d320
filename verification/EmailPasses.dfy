/** What write-back and the delete pass leave for hydration. */
module EmailPasses {
  import opened Prelude
  import opened Keywords
  import opened Primary
  import opened Tables
  import opened EmailStore
  import opened EmailTick
  import opened EmailWriteback
  import opened EmailConvergence
  import opened EmailHydrate

  // -------------------------------------------------------------------------
  // Keywords taken from a file suffix
  // -------------------------------------------------------------------------

  lemma {:induction false} StandardOnlyKeeps(flags: string)
    requires forall c :: c in flags ==> c in {'D', 'F', 'R', 'S'}
    ensures StandardOnly(flags) == flags
  {
    if flags != "" {
      assert flags == [flags[0]] + flags[1..];
      assert flags[0] in flags;
      forall c | c in flags[1..] ensures c in {'D', 'F', 'R', 'S'} { assert c in flags; }
      StandardOnlyKeeps(flags[1..]);
    }
  }

  lemma PlainFlags(flags: string)
    requires DiskFlags(flags) && 'T' !in flags
    ensures StandardOnly(flags) == flags && StrictlyAscending(flags)
    ensures forall c :: c in flags ==> c in {'D', 'F', 'R', 'S'}
  {
    StandardOnlyKeeps(flags);
  }

  lemma MergedKeys(stored: Stored, flags: string, k: Keyword)
    ensures k in MergeKeywordsJson(stored, flags) <==> if FlagOf(k).Some? then FlagOf(k).value in flags else k in stored
  {
    StandardHasFlag(k);
  }

  /** A plain suffix is the suffix of the keywords merged from it. */
  lemma MergedFlags(stored: Stored, flags: string)
    requires Canonical(stored) && StrictlyAscending(flags) && forall c :: c in flags ==> c in {'D', 'F', 'R', 'S'}
    ensures Canonical(MergeKeywordsJson(stored, flags))
    ensures FlagString(MergeKeywordsJson(stored, flags).Keys) == flags
  {
    PatchGivesMerge(stored, flags);
    var ks := MergeKeywordsJson(stored, flags).Keys;
    FlagStringIs(ks);
    assert FlagOf(SEEN) == Some('S') && FlagOf(FLAGGED) == Some('F');
    assert FlagOf(ANSWERED) == Some('R') && FlagOf(DRAFT) == Some('D');
    MergedKeys(stored, flags, SEEN);
    MergedKeys(stored, flags, FLAGGED);
    MergedKeys(stored, flags, ANSWERED);
    MergedKeys(stored, flags, DRAFT);
    forall c ensures c in FlagString(ks) <==> c in flags {
      if c in FlagString(ks) {
        var k :| k in ks && FlagOf(k) == Some(c);
        MergedKeys(stored, flags, k);
      }
    }
    AscendingUnique(FlagString(ks), flags);
  }

  /** What a change (or none) says about the file that was found. */
  lemma ChangeSays(files: map<FilePath, Bytes>, row: EmailRow)
    requires RowOk(row) && forall q :: q in files && SameBase(q, row.path) ==> DiskFlags(q.flags)
    ensures var c := ChangeOf(files, row);
            match c
            case None => row.path in files
            case Some(Destroy(_, _)) => true
            case Some(UpdateKeywords(_, f, kws, q)) =>
              q in files && SameBase(q, row.path) && Canonical(kws) && q.flags == FlagString(kws.Keys)
              && f == q.flags && kws == MergeKeywordsJson(row.keywords, f) && PatchFor(row, f) != []
  {
    LocateFinds(files, row.path);
    var found := Locate(files, row.path);
    if found.Some? && 'T' !in found.value.flags {
      var q := found.value;
      PlainFlags(q.flags);
      MergedFlags(row.keywords, q.flags);
      DriftIffPatch(row.keywords, q.flags);
      if MergeKeywordsJson(row.keywords, q.flags) == row.keywords { assert q == row.path; }
    }
  }

  // -------------------------------------------------------------------------
  // After write-back
  // -------------------------------------------------------------------------

  lemma SyncedRowOk(server: Server, s: Store, local: map<JmapId, EmailRow>, row: EmailRow, updated: set<JmapId>)
    requires Inv(s) && DiskOk(server, s.db.emails, s.files) && LocalIs(s.db.emails, local) && RowAt(s.db.emails, row)
    ensures var r := SyncedRow(Changes(s.files, local), row, updated);
            RowOk(r) && r.primary == row.primary && r.path.dir == row.path.dir
  {
    ChangeSays(s.files, row);
    assert local[row.jmapId] == row;
  }

  lemma AfterInv(s: Store, changes: map<JmapId, Change>, gone: set<JmapId>, updated: set<JmapId>)
    requires Inv(s) && ChangesFit(s, changes)
    requires forall r :: r in s.db.emails ==>
               var t := SyncedRow(changes, s.db.emails[r], updated);
               RowOk(t) && t.primary == s.db.emails[r].primary && t.path.dir == s.db.emails[r].path.dir
    ensures Inv(After(s, changes, gone, updated))
  {
    AfterKeyed(s, changes, gone, updated);
    var s1 := After(s, changes, gone, updated);
    assert RowsInv(s1.db);
    assert MembersInv(s1.db) by { AfterMembersInv(s, changes, gone, updated); }
  }

  lemma AfterMembersInv(s: Store, changes: map<JmapId, Change>, gone: set<JmapId>, updated: set<JmapId>)
    requires MembersInv(s.db) && RowsKeyed(s.db.emails)
    requires forall r :: r in s.db.emails ==> SyncedRow(changes, s.db.emails[r], updated).primary == s.db.emails[r].primary
    ensures MembersInv(After(s, changes, gone, updated).db)
  {}

  /** A row that stays keeps its file. */
  lemma FileStays(s: Store, gone: set<JmapId>, row: EmailRow, q: FilePath)
    requires RowsKeyed(s.db.emails) && RowAt(s.db.emails, row) && row.jmapId !in gone
    requires q in s.files && SameBase(q, row.path)
    ensures q in AfterFiles(s, gone) && AfterFiles(s, gone)[q] == s.files[q]
  {}

  /** The server accepted every write to an email it has. */
  ghost predicate Accepted(server: Server, files: map<FilePath, Bytes>, local: map<JmapId, EmailRow>,
                           destroyed: set<JmapId>, updated: set<JmapId>)
  {
    destroyed == AskedDestroys(files, local) * server.Keys && updated == AskedUpdates(files, local) * server.Keys
  }

  lemma SyncedRowPlaced(server: Server, s: Store, local: map<JmapId, EmailRow>, destroyed: set<JmapId>,
                        updated: set<JmapId>, row: EmailRow)
    requires Inv(s) && DiskOk(server, s.db.emails, s.files) && LocalIs(s.db.emails, local) && RowAt(s.db.emails, row)
    requires Accepted(server, s.files, local, destroyed, updated) && row.jmapId !in destroyed
    ensures var r := SyncedRow(Changes(s.files, local), row, updated);
            if row.jmapId in server then r.path in s.files && SameBase(r.path, row.path) else r == row
  {
    ChangeSays(s.files, row);
    assert local[row.jmapId] == row;
    if row.jmapId in server {
      assert !WantsDestroy(s.files, row);
      if ChangeOf(s.files, row).Some? { assert WantsUpdate(s.files, row); }
    }
  }

  lemma AfterPlaced(server: Server, s: Store, local: map<JmapId, EmailRow>, destroyed: set<JmapId>, updated: set<JmapId>)
    requires Inv(s) && DiskOk(server, s.db.emails, s.files) && LocalIs(s.db.emails, local)
    requires Accepted(server, s.files, local, destroyed, updated)
    ensures KnownPlaced(EmailSet(server, s.files, local, destroyed, updated),
                        After(s, Changes(s.files, local), destroyed, updated))
  {
    var changes := Changes(s.files, local);
    var s1 := After(s, changes, destroyed, updated);
    var server1 := EmailSet(server, s.files, local, destroyed, updated);
    forall r | r in s1.db.emails && s1.db.emails[r].jmapId in server1
      ensures s1.db.emails[r].path in s1.files && s1.files[s1.db.emails[r].path] == server1[s1.db.emails[r].jmapId].blob
    {
      var row := s.db.emails[r];
      SyncedRowPlaced(server, s, local, destroyed, updated, row);
      FileStays(s, destroyed, row, s1.db.emails[r].path);
    }
  }

  // -------------------------------------------------------------------------
  // The delete pass
  // -------------------------------------------------------------------------

  /** A row with one of these ids points at the file. */
  ghost predicate PathOfOne(emails: map<RowId, EmailRow>, ids: set<JmapId>, q: FilePath) {
    exists r :: r in emails && emails[r].jmapId in ids && emails[r].path == q
  }

  ghost function DroppedFiles(s: Store, gone: set<JmapId>): map<FilePath, Bytes> {
    map q | q in s.files && !PathOfOne(s.db.emails, gone, q) :: s.files[q]
  }

  /** Rows with an id in `gone` dropped, with their memberships and the files at their stored paths. */
  ghost function Dropped(s: Store, gone: set<JmapId>): Store {
    Store(Db(s.db.mailboxes, AfterEmails(s.db.emails, map[], gone, {}), AfterMembers(s.db, gone)), DroppedFiles(s, gone))
  }

  lemma DroppedNothing(s: Store)
    ensures Dropped(s, {}) == s
  {
    AfterNothing(s, map[]);
    assert DroppedFiles(s, {}) == s.files;
  }

  lemma DroppedFilesOneMore(s: Store, gone: set<JmapId>, all: set<JmapId>, row: EmailRow)
    requires RowsKeyed(s.db.emails) && RowAt(s.db.emails, row) && all == gone + {row.jmapId}
    ensures DroppedFiles(s, all) == DroppedFiles(s, gone) - {row.path}
  {
    forall q ensures PathOfOne(s.db.emails, all, q) <==> PathOfOne(s.db.emails, gone, q) || q == row.path {
      if q == row.path { assert s.db.emails[row.id].jmapId in all && s.db.emails[row.id].path == q; }
      if PathOfOne(s.db.emails, all, q) && q != row.path {
        var r :| r in s.db.emails && s.db.emails[r].jmapId in all && s.db.emails[r].path == q;
        OnlyRowHas(s.db.emails, row);
        assert s.db.emails[r].jmapId in gone;
      }
    }
  }

  lemma DeletedRow(s: Store, gone: set<JmapId>, row: EmailRow)
    requires Keyed2(s) && RowAt(s.db.emails, row) && row.jmapId !in gone
    ensures DeleteEmail(Dropped(s, gone), row) == Dropped(s, gone + {row.jmapId})
    ensures |gone + {row.jmapId}| == |gone| + 1
  {
    DroppedFilesOneMore(s, gone, gone + {row.jmapId}, row);
    AfterDestroyRows(s.db.emails, map[], gone, {}, row);
    AfterDestroyMembers(s.db, gone, row);
  }

  lemma {:induction false} DeletesInOrder(p: Pass, order: seq<JmapId>, gone: set<JmapId>)
    requires Keyed2(p.s) && LocalIs(p.s.db.emails, p.local)
    requires NoRepeat(order) && forall id :: id in order ==> id in p.local
    requires gone == Elements(order) - p.ids
    ensures DeletePass(p, order).0 == Dropped(p.s, gone)
    ensures DeletePass(p, order).1 == p.st.(deleted := p.st.deleted + |gone|)
    decreases |order|
  {
    if order == [] {
      assert gone == {};
      DroppedNothing(p.s);
      assert p.st.(deleted := p.st.deleted + 0) == p.st;
    } else {
      var n := |order| - 1;
      var rest, id := order[..n], order[n];
      var before := Elements(rest) - p.ids;
      DeletesInOrder(p, rest, before);
      LastMinus(order, p.ids);
      if id in p.ids {
        assert gone == before;
        assert DeletePass(p, order) == DeletePass(p, rest);
      } else {
        assert gone == before + {id};
        DeletedRow(p.s, before, p.local[id]);
        assert DeletePass(p, order).0 == DeleteEmail(Dropped(p.s, before), p.local[id]);
      }
    }
  }

  lemma LastMinus(order: seq<JmapId>, ids: set<JmapId>)
    requires order != [] && NoRepeat(order)
    ensures var n := |order| - 1;
            && order[n] !in Elements(order[..n])
            && Elements(order) - ids == if order[n] in ids then Elements(order[..n]) - ids
                                        else Elements(order[..n]) - ids + {order[n]}
  {
    assert order == order[..|order| - 1] + [order[|order| - 1]];
  }

  lemma DroppedInv(s: Store, gone: set<JmapId>)
    requires Inv(s)
    ensures Inv(Dropped(s, gone))
  {
    AfterInv(s, map[], gone, {});
    assert Dropped(s, gone).db == After(s, map[], gone, {}).db;
  }

  /** Dropping all rows but those of emails on the server leaves every row on its file. */
  lemma DropPlaced(server: Server, s: Store, gone: set<JmapId>)
    requires Inv(s) && KnownPlaced(server, s)
    requires forall r :: r in s.db.emails && s.db.emails[r].jmapId !in gone ==> s.db.emails[r].jmapId in server
    ensures Inv(Dropped(s, gone)) && Placed(server, Dropped(s, gone))
  {
    DroppedInv(s, gone);
    var s2 := Dropped(s, gone);
    forall r | r in s2.db.emails ensures s2.db.emails[r].path in s2.files && s2.files[s2.db.emails[r].path] == s.files[s.db.emails[r].path] {
      assert s2.db.emails[r] == s.db.emails[r] && !PathOfOne(s.db.emails, gone, s.db.emails[r].path);
    }
  }

  lemma AfterSupply(s: Store, changes: map<JmapId, Change>, gone: set<JmapId>, updated: set<JmapId>,
                    left: set<JmapId>, left': set<JmapId>, supply: JmapId -> Fresh)
    requires RowsKeyed(s.db.emails) && ChangesFit(s, changes) && SupplyOk(s, left, supply) && left' <= left
    ensures SupplyOk(After(s, changes, gone, updated), left', supply)
  {
    var s1 := After(s, changes, gone, updated);
    forall id | id in left' ensures FreshFor(s1, supply(id)) {
      assert FreshFor(s, supply(id));
      forall r | r in s1.db.emails ensures s1.db.emails[r].path.base.uuid != supply(id).uuid {
        SyncedRowKeeps(s, changes, s.db.emails[r], updated);
      }
    }
  }

  // -------------------------------------------------------------------------
  // Ready to hydrate
  // -------------------------------------------------------------------------

  lemma InScopeAfterSet(server: Server, keyed: Keyed, files: map<FilePath, Bytes>, local: map<JmapId, EmailRow>,
                        destroyed: set<JmapId>, updated: set<JmapId>)
    ensures InScope(EmailSet(server, files, local, destroyed, updated), keyed) == InScope(server, keyed) - destroyed
  {}

  lemma DropReady(server: Server, keyed: Keyed, s: Store, local: map<JmapId, EmailRow>, ids: set<JmapId>,
                  supply: JmapId -> Fresh, strays: map<FilePath, Bytes>, gone: set<JmapId>)
    requires Inv(s) && KeyedOk(s.db.mailboxes, keyed) && KnownPlaced(server, s) && LocalIs(s.db.emails, local)
    requires ids == InScope(server, keyed) && SupplyOk(s, ids, supply) && gone == local.Keys - ids
    requires StraysAre(s, strays)
    ensures HydrateInv(server, Dropped(s, gone), keyed, local, ids, supply, strays)
  {
    forall r | r in s.db.emails && s.db.emails[r].jmapId !in gone ensures s.db.emails[r].jmapId in server {
      assert s.db.emails[r].jmapId in local;
    }
    DropPlaced(server, s, gone);
    DropSupply(s, gone, ids, supply);
    DropUntouched(s, local, ids, gone);
    DropStrays(s, gone, strays);
  }

  lemma DropSupply(s: Store, gone: set<JmapId>, left: set<JmapId>, supply: JmapId -> Fresh)
    requires SupplyOk(s, left, supply)
    ensures SupplyOk(Dropped(s, gone), left, supply)
  {
    forall id | id in left ensures FreshFor(Dropped(s, gone), supply(id)) { assert FreshFor(s, supply(id)); }
  }

  /** Dropping rows with the files they point at makes and takes no stray. */
  lemma DropStrays(s: Store, gone: set<JmapId>, strays: map<FilePath, Bytes>)
    requires StraysAre(s, strays)
    ensures StraysAre(Dropped(s, gone), strays)
  {
    var emails := AfterEmails(s.db.emails, map[], gone, {});
    forall q ensures IsRowPath(s.db.emails, q) <==> IsRowPath(emails, q) || PathOfOne(s.db.emails, gone, q) {
      if r :| r in s.db.emails && s.db.emails[r].path == q {
        if s.db.emails[r].jmapId !in gone { assert emails[r].path == q; }
      }
      if r :| r in emails && emails[r].path == q { assert s.db.emails[r].path == q; }
    }
  }

  lemma ClaimedBefore(server: Server, s: Store, local: map<JmapId, EmailRow>, destroyed: set<JmapId>, updated: set<JmapId>,
                      q: FilePath, row: EmailRow)
    requires Inv(s) && DiskOk(server, s.db.emails, s.files) && LocalIs(s.db.emails, local) && RowAt(s.db.emails, row)
    requires Accepted(server, s.files, local, destroyed, updated) && q in s.files && row.jmapId !in destroyed
    ensures SyncedRow(Changes(s.files, local), row, updated).path == q <==>
            SameBase(q, row.path) && (row.jmapId in server || q == row.path)
  {
    SyncedRowPlaced(server, s, local, destroyed, updated, row);
  }

  lemma AfterRowPaths(server: Server, s: Store, local: map<JmapId, EmailRow>, destroyed: set<JmapId>, updated: set<JmapId>,
                      q: FilePath)
    requires Inv(s) && DiskOk(server, s.db.emails, s.files) && LocalIs(s.db.emails, local)
    requires Accepted(server, s.files, local, destroyed, updated) && q in s.files
    ensures IsRowPath(AfterEmails(s.db.emails, Changes(s.files, local), destroyed, updated), q) || Owned(s.db.emails, destroyed, q) <==>
            Claimed(server, s.db.emails, q)
  {
    forall r | r in s.db.emails && s.db.emails[r].jmapId !in destroyed
      ensures SyncedRow(Changes(s.files, local), s.db.emails[r], updated).path == q <==>
              SameBase(q, s.db.emails[r].path) && (s.db.emails[r].jmapId in server || q == s.db.emails[r].path)
    {
      ClaimedBefore(server, s, local, destroyed, updated, q, s.db.emails[r]);
    }
    PathsAreClaims(server, s.db.emails, Changes(s.files, local), destroyed, updated, q);
  }

  lemma PathsAreClaims(server: Server, emails: map<RowId, EmailRow>, changes: map<JmapId, Change>, destroyed: set<JmapId>,
                       updated: set<JmapId>, q: FilePath)
    requires destroyed <= server.Keys
    requires forall r :: r in emails && emails[r].jmapId !in destroyed ==>
               (SyncedRow(changes, emails[r], updated).path == q <==>
                SameBase(q, emails[r].path) && (emails[r].jmapId in server || q == emails[r].path))
    ensures IsRowPath(AfterEmails(emails, changes, destroyed, updated), q) || Owned(emails, destroyed, q) <==>
            Claimed(server, emails, q)
  {
    var after := AfterEmails(emails, changes, destroyed, updated);
    if r :| r in emails && SameBase(q, emails[r].path) && (emails[r].jmapId in server || q == emails[r].path) {
      if emails[r].jmapId !in destroyed { assert after[r].path == q; }
    }
    if r :| r in after && after[r].path == q { assert SameBase(q, emails[r].path); }
    if r :| r in emails && emails[r].jmapId in destroyed && SameBase(q, emails[r].path) { assert emails[r].jmapId in server; }
  }

  /** Write-back leaves as strays exactly the files no row could claim before. */
  lemma AfterStrays(server: Server, s: Store, local: map<JmapId, EmailRow>, destroyed: set<JmapId>, updated: set<JmapId>)
    requires Inv(s) && DiskOk(server, s.db.emails, s.files) && LocalIs(s.db.emails, local)
    requires Accepted(server, s.files, local, destroyed, updated)
    ensures StraysAre(After(s, Changes(s.files, local), destroyed, updated), Strays(World(server, s)))
  {
    forall q | q in s.files
      ensures IsRowPath(AfterEmails(s.db.emails, Changes(s.files, local), destroyed, updated), q) || Owned(s.db.emails, destroyed, q) <==>
              Claimed(server, s.db.emails, q)
    {
      AfterRowPaths(server, s, local, destroyed, updated, q);
    }
  }

  lemma DropUntouched(s: Store, local: map<JmapId, EmailRow>, ids: set<JmapId>, gone: set<JmapId>)
    requires LocalIs(s.db.emails, local) && gone == local.Keys - ids
    ensures var emails := After(s, map[], gone, {}).db.emails;
            Untouched(emails, local, ids) && forall r :: r in emails ==> emails[r].jmapId in ids
  {
    var emails := After(s, map[], gone, {}).db.emails;
    forall r | r in emails ensures emails[r].jmapId in ids {
      assert s.db.emails[r].jmapId in local;
    }
  }

  /** From a pass whose known rows are placed, the delete pass leaves a store ready for hydration. */
  lemma DeletesReady(server: Server, keyed: Keyed, p: Pass, order: seq<JmapId>, supply: JmapId -> Fresh,
                     strays: map<FilePath, Bytes>, gone: set<JmapId>)
    requires Inv(p.s) && KeyedOk(p.s.db.mailboxes, keyed) && KnownPlaced(server, p.s)
    requires LocalIs(p.s.db.emails, p.local) && Lists(order, p.local.Keys)
    requires p.ids == InScope(server, keyed) && SupplyOk(p.s, p.ids, supply) && gone == p.local.Keys - p.ids
    requires StraysAre(p.s, strays)
    ensures HydrateInv(server, DeletePass(p, order).0, keyed, p.local, p.ids, supply, strays)
    ensures DeletePass(p, order).0 == Dropped(p.s, gone)
    ensures DeletePass(p, order).1 == p.st.(deleted := p.st.deleted + |gone|)
  {
    assert Elements(order) == p.local.Keys;
    DeletesInOrder(p, order, gone);
    DropReady(server, keyed, p.s, p.local, p.ids, supply, strays, gone);
  }
}
