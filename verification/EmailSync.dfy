/** The sync as it runs: loops over the stores in place, each proved to compute the function that specifies it. */
module EmailSync {
  import opened Prelude
  import opened Keywords
  import opened Primary
  import opened Tables
  import opened EmailStore
  import opened EmailActions
  import opened EmailTick
  import opened EmailWriteback
  import opened Stores
  import opened Paging

  ghost function Snapshot(db: Database, disk: Maildir): Store
    reads db, disk
  {
    Store(db.Tables(), disk.files)
  }

  // -------------------------------------------------------------------------
  // Memberships
  // -------------------------------------------------------------------------

  /** `states` are the stores it passes through, with the files there are. */
  method InsertMemberships(db: Database, r: RowId, primary: MailboxId, ids: seq<JmapId>, keyed: Keyed,
                           ghost files: map<FilePath, Bytes>)
    returns (ok: bool, ghost states: seq<Store>)
    modifies db
    ensures ok == InsertMembers(old(db.Tables()), r, primary, ids, keyed).Some?
    ensures ok ==> db.Tables() == InsertMembers(old(db.Tables()), r, primary, ids, keyed).value
    ensures Passed(Store(old(db.Tables()), files), AddMembers(r, primary, ids, keyed), states, Store(db.Tables(), files), ok)
  {
    ghost var start, done, all := Store(db.Tables(), files), [], AddMembers(r, primary, ids, keyed);
    states := [];
    for i := 0 to |ids|
      invariant InsertMembers(db.Tables(), r, primary, ids[i..], keyed) ==
                InsertMembers(old(db.Tables()), r, primary, ids, keyed)
      invariant done + AddMembers(r, primary, ids[i..], keyed) == all
      invariant Passed(start, done, states, Store(db.Tables(), files), true)
    {
      assert ids[i..][0] == ids[i] && ids[i..][1..] == ids[i + 1..];
      if ids[i] in keyed {
        ghost var a, mid := AddMember(r, keyed[ids[i]].id, keyed[ids[i]].id == primary), Store(db.Tables(), files);
        AddsOne(r, primary, ids[i..], keyed, done, a);
        ok := db.InsertEmailMailbox(r, keyed[ids[i]].id, keyed[ids[i]].id == primary);
        if !ok {
          PassedStops(start, done, states, mid, [a] + AddMembers(r, primary, ids[i + 1..], keyed));
          return;
        }
        ghost var now := Store(db.Tables(), files);
        PassedSnoc(start, done, states, mid, a, now);
        done, states := done + [a], states + [now];
      } else {
        assert AddMembers(r, primary, ids[i..], keyed) == AddMembers(r, primary, ids[i + 1..], keyed);
      }
    }
    assert done + [] == done;
    ok := true;
  }

  lemma AddsOne(r: RowId, primary: MailboxId, ids: seq<JmapId>, keyed: Keyed, done: seq<Action>, a: Action)
    requires ids != [] && ids[0] in keyed && a == AddMember(r, keyed[ids[0]].id, keyed[ids[0]].id == primary)
    ensures AddMembers(r, primary, ids, keyed) == [a] + AddMembers(r, primary, ids[1..], keyed)
    ensures done + AddMembers(r, primary, ids, keyed) == (done + [a]) + AddMembers(r, primary, ids[1..], keyed)
  {}

  lemma DroppedOne(db: Db, r: RowId, m: MailboxId)
    requires m in db.MembersOf(r)
    ensures db.DeleteMember(r, m).MembersOf(r) == db.MembersOf(r) - {m}
    ensures ClearMembers(db.DeleteMember(r, m), r) == ClearMembers(db, r)
  {
    assert db.members[r := db.members[r] - {m}][r := map[]] == db.members[r := map[]];
  }

  lemma NoneLeft(db: Db, r: RowId)
    requires forall m :: m !in db.MembersOf(r)
    ensures ClearMembers(db, r) == db
  {
    assert db.MembersOf(r) == map[];
    assert r in db.members ==> db.members[r := map[]] == db.members;
  }

  method DeleteMemberships(db: Database, r: RowId, ghost files: map<FilePath, Bytes>)
    returns (ghost listed: seq<MailboxId>, ghost states: seq<Store>)
    modifies db
    ensures db.Tables() == ClearMembers(old(db.Tables()), r)
    ensures Lists(listed, old(db.Tables()).MembersOf(r).Keys)
    ensures Passed(Store(old(db.Tables()), files), DropMembers(r, listed), states, Store(db.Tables(), files), true)
  {
    var all := db.GetEmailMailboxesByEmail(r);
    ghost var start := Store(db.Tables(), files);
    listed, states := all, [];
    for i := 0 to |all|
      invariant Left(db.Tables(), start.db, r, all, i)
      invariant Passed(start, DropMembers(r, all[..i]), states, Store(db.Tables(), files), true)
    {
      ghost var now := Store(db.Tables().DeleteMember(r, all[i]), files);
      NextLeft(db.Tables(), start.db, r, all, i, now.db);
      NextDrop(start, r, all, i, states, Store(db.Tables(), files), now);
      db.DeleteEmailMailbox(r, all[i]);
      states := states + [now];
    }
    assert all[..|all|] == all;
    NoneLeft(db.Tables(), r);
  }

  /** The first i of the memberships are gone. */
  ghost predicate Left(db: Db, start: Db, r: RowId, all: seq<MailboxId>, i: nat) {
    && i <= |all| && NoRepeat(all)
    && ClearMembers(db, r) == ClearMembers(start, r)
    && forall m :: m in db.MembersOf(r) <==> m in all[i..]
  }

  lemma NextLeft(db: Db, start: Db, r: RowId, all: seq<MailboxId>, i: nat, next: Db)
    requires Left(db, start, r, all, i) && i < |all| && next == db.DeleteMember(r, all[i])
    ensures Left(next, start, r, all, i + 1)
  {
    assert all[i..] == [all[i]] + all[i + 1..];
    DroppedOne(db, r, all[i]);
  }

  lemma NextDrop(start: Store, r: RowId, all: seq<MailboxId>, i: nat, states: seq<Store>, mid: Store, now: Store)
    requires i < |all| && Passed(start, DropMembers(r, all[..i]), states, mid, true)
    requires Do(mid, DropMember(r, all[i])) == Some(now)
    ensures Passed(start, DropMembers(r, all[..i + 1]), states + [now], now, true)
  {
    assert all[..i + 1] == all[..i] + [all[i]];
    DropSnoc(r, all[..i], all[i]);
    PassedSnoc(start, DropMembers(r, all[..i]), states, mid, DropMember(r, all[i]), now);
  }

  lemma {:induction false} DropSnoc(r: RowId, listed: seq<MailboxId>, m: MailboxId)
    ensures DropMembers(r, listed + [m]) == DropMembers(r, listed) + [DropMember(r, m)]
  {
    if listed == [] {
      assert ([m])[1..] == [];
    } else {
      assert (listed + [m])[0] == listed[0] && (listed + [m])[1..] == listed[1..] + [m];
      DropSnoc(r, listed[1..], m);
    }
  }

  /** Delete all, insert all. */
  method ReconcileMemberships(db: Database, r: RowId, primary: MailboxId, ids: seq<JmapId>, keyed: Keyed,
                              ghost files: map<FilePath, Bytes>)
    returns (ok: bool, ghost listed: seq<MailboxId>, ghost states: seq<Store>)
    modifies db
    ensures ok == ReconcileMembers(old(db.Tables()), r, primary, ids, keyed).Some?
    ensures ok ==> db.Tables() == ReconcileMembers(old(db.Tables()), r, primary, ids, keyed).value
    ensures Lists(listed, old(db.Tables()).MembersOf(r).Keys)
    ensures Passed(Store(old(db.Tables()), files), DropMembers(r, listed) + AddMembers(r, primary, ids, keyed), states,
                   Store(db.Tables(), files), ok)
  {
    ghost var start := Store(db.Tables(), files);
    listed, states := DeleteMemberships(db, r, files);
    ghost var mid := Store(db.Tables(), files);
    ghost var added;
    ok, added := InsertMemberships(db, r, primary, ids, keyed, files);
    PassedAppend(start, DropMembers(r, listed), states, mid, AddMembers(r, primary, ids, keyed), added, Store(db.Tables(), files), ok);
    states := states + added;
  }

  // -------------------------------------------------------------------------
  // Insert, update in place, move, delete
  // -------------------------------------------------------------------------

  /** The file first, then the row, then the memberships. */
  method InsertOne(db: Database, disk: Maildir, v: View, mb: MailboxRow, keyed: Keyed, f: Fresh)
    returns (ok: bool, ghost states: seq<Store>)
    modifies db, disk
    ensures ok == InsertEmail(old(Snapshot(db, disk)), v, mb, keyed, f).Some?
    ensures ok ==> Snapshot(db, disk) == InsertEmail(old(Snapshot(db, disk)), v, mb, keyed, f).value
    ensures Passed(old(Snapshot(db, disk)), InsertActions(v, mb, keyed, f), states, Snapshot(db, disk), ok)
  {
    var row := InsertedRow(v, mb, f);
    ghost var start := Snapshot(db, disk);
    ghost var adds := AddMembers(row.id, mb.id, v.mailboxes, keyed);
    InsertActionsAre(v, mb, keyed, f, row, adds);
    disk.Write(row.path, v.blob);
    ghost var written := Snapshot(db, disk);
    PassedOne(start, WriteFile(row.path, v.blob), written);
    ok := db.InsertEmail(row);
    if !ok {
      states := [written];
      PassedStops(start, [WriteFile(row.path, v.blob)], states, written, [InsertRow(row)] + adds);
      return;
    }
    ghost var inserted := Snapshot(db, disk);
    PassedOne(written, InsertRow(row), inserted);
    ghost var added;
    ok, added := InsertMemberships(db, row.id, mb.id, v.mailboxes, keyed, disk.files);
    PassedAppend(written, [InsertRow(row)], [inserted], inserted, adds, added, Snapshot(db, disk), ok);
    states := [written] + ([inserted] + added);
    PassedAppend(start, [WriteFile(row.path, v.blob)], [written], written, [InsertRow(row)] + adds, [inserted] + added,
                 Snapshot(db, disk), ok);
  }

  lemma InsertActionsAre(v: View, mb: MailboxRow, keyed: Keyed, f: Fresh, row: EmailRow, adds: seq<Action>)
    requires row == InsertedRow(v, mb, f) && adds == AddMembers(row.id, mb.id, v.mailboxes, keyed)
    ensures InsertActions(v, mb, keyed, f) == [WriteFile(row.path, v.blob)] + ([InsertRow(row)] + adds)
  {}

  /** The file's name first, if it is another one, then the row, then the memberships. */
  method RewriteOne(db: Database, disk: Maildir, existing: EmailRow, row: EmailRow, ids: seq<JmapId>, keyed: Keyed)
    returns (ok: bool, ghost listed: seq<MailboxId>, ghost states: seq<Store>)
    modifies db, disk
    ensures ok == Rewrite(old(Snapshot(db, disk)), existing, row, ids, keyed).Some?
    ensures ok ==> Snapshot(db, disk) == Rewrite(old(Snapshot(db, disk)), existing, row, ids, keyed).value
    ensures Lists(listed, old(db.Tables()).MembersOf(row.id).Keys)
    ensures Passed(old(Snapshot(db, disk)), RewriteActions(existing, row, ids, keyed, listed), states, Snapshot(db, disk), ok)
  {
    ghost var start, renames := Snapshot(db, disk), [];
    states := [];
    if row.path != existing.path {
      disk.Rename(existing.path, row.path);
      renames, states := [RenameTo(existing.path, row.path)], [Snapshot(db, disk)];
      PassedOne(start, renames[0], Snapshot(db, disk));
    }
    ghost var renamed := Snapshot(db, disk);
    ok := db.UpdateEmail(row);
    if !ok {
      listed := CanList(db.Tables().MembersOf(row.id).Keys);
      RewriteActionsAre(existing, row, ids, keyed, listed, renames);
      PassedStops(start, renames, states, renamed,
                  [UpdateRow(row)] + (DropMembers(row.id, listed) + AddMembers(row.id, row.primary, ids, keyed)));
      return;
    }
    ghost var updated := Snapshot(db, disk);
    PassedOne(renamed, UpdateRow(row), updated);
    ghost var rest;
    ok, listed, rest := ReconcileMemberships(db, row.id, row.primary, ids, keyed, disk.files);
    ghost var members := DropMembers(row.id, listed) + AddMembers(row.id, row.primary, ids, keyed);
    PassedAppend(renamed, [UpdateRow(row)], [updated], updated, members, rest, Snapshot(db, disk), ok);
    PassedAppend(start, renames, states, renamed, [UpdateRow(row)] + members, [updated] + rest, Snapshot(db, disk), ok);
    RewriteActionsAre(existing, row, ids, keyed, listed, renames);
    states := states + ([updated] + rest);
  }

  lemma RewriteActionsAre(existing: EmailRow, row: EmailRow, ids: seq<JmapId>, keyed: Keyed, listed: seq<MailboxId>,
                          renames: seq<Action>)
    requires renames == if row.path != existing.path then [RenameTo(existing.path, row.path)] else []
    ensures RewriteActions(existing, row, ids, keyed, listed) ==
            renames + ([UpdateRow(row)] + (DropMembers(row.id, listed) + AddMembers(row.id, row.primary, ids, keyed)))
  {}

  /** The file first, then the row; `between` is the store after the first of the two. */
  method DeleteOne(db: Database, disk: Maildir, row: EmailRow) returns (ghost between: Store)
    modifies db, disk
    ensures Snapshot(db, disk) == DeleteEmail(old(Snapshot(db, disk)), row)
    ensures between == Store(old(db.Tables()), old(disk.files) - {row.path})
  {
    disk.Remove(row.path);
    between := Snapshot(db, disk);
    db.DeleteEmail(row.id);
  }

  method ApplyOne(db: Database, disk: Maildir, keyed: Keyed, local: map<JmapId, EmailRow>, v: View, f: Fresh, st: Stats)
    returns (ok: bool, st': Stats)
    modifies db, disk
    ensures ok == ApplyEmail(old(Snapshot(db, disk)), keyed, local, v, f, st).Some?
    ensures ok ==> var r := ApplyEmail(old(Snapshot(db, disk)), keyed, local, v, f, st).value;
                   Snapshot(db, disk) == r.0 && st' == r.1
  {
    ok, st' := true, st;
    match PickPrimary(v.mailboxes, keyed)
    case None =>
      if v.id in local {
        ghost var _ := DeleteOne(db, disk, local[v.id]);
        st' := st.(deleted := st.deleted + 1);
      }
    case Some(mb) =>
      if v.id !in local {
        ghost var states;
        ok, states := InsertOne(db, disk, v, mb, keyed, f);
        st' := st.(created := st.created + 1, bytes := st.bytes + |v.blob|);
      } else {
        var existing := local[v.id];
        if existing.primary != mb.id {
          ghost var listed, states;
          ok, listed, states := RewriteOne(db, disk, existing, MovedRow(existing, v, mb), v.mailboxes, keyed);
          st' := st.(moved := st.moved + 1);
        } else {
          var changed := existing.path.flags != ViewFlags(v) || existing.keywords != SerializeKeywords(v.keywords);
          var listed := db.GetEmailMailboxesByEmail(existing.id);
          assert Elements(listed) == db.Tables().MembersOf(existing.id).Keys;
          if changed || Elements(listed) != ExpectedIds(Elements(v.mailboxes), keyed) {
            ghost var order, states;
            ok, order, states := RewriteOne(db, disk, existing, UpdatedRow(existing, v), v.mailboxes, keyed);
            st' := st.(updated := st.updated + 1);
          }
        }
      }
  }

  // -------------------------------------------------------------------------
  // Local drift
  // -------------------------------------------------------------------------

  /** Scan the directory for a file with the stored base name. */
  method ResolveCurrentFile(disk: Maildir, stored: FilePath) returns (found: Option<FilePath>)
    ensures found.Some? ==> found.value in disk.files && SameBase(found.value, stored)
    ensures found.None? ==> forall q :: q in disk.files ==> !SameBase(q, stored)
    ensures OneFilePerUuid(disk.files) ==> found == Locate(disk.files, stored)
  {
    var entries := ListSet(disk.files.Keys);
    for i := 0 to |entries|
      invariant forall j :: 0 <= j < i ==> !SameBase(entries[j], stored)
    {
      if SameBase(entries[i], stored) { return Some(entries[i]); }
    }
    forall q | q in disk.files ensures !SameBase(q, stored) { assert q in entries; }
    found := None;
  }

  method DetectLocalWriteback(disk: Maildir, local: map<JmapId, EmailRow>)
    returns (changes: seq<Change>, ghost order: seq<JmapId>)
    ensures Lists(order, local.Keys)
    ensures OneFilePerUuid(disk.files) ==> changes == Detect(disk.files, local, order)
    ensures OneFilePerUuid(disk.files) ==> forall c :: c in changes <==> IsDrift(disk.files, local, c)
  {
    var visit := ListSet(local.Keys);
    changes := [];
    for i := 0 to |visit|
      invariant OneFilePerUuid(disk.files) ==> changes == Detect(disk.files, local, visit[..i])
    {
      var row := local[visit[i]];
      var found := ResolveCurrentFile(disk, row.path);
      var c := ChangeFor(row, found);
      if c.Some? { changes := changes + [c.value]; }
      assert visit[..i + 1][..i] == visit[..i];
    }
    assert visit[..|visit|] == visit;
    order := visit;
    DetectFinds(disk.files, local, order);
  }

  /** Some row shows this change. */
  ghost predicate IsDrift(files: map<FilePath, Bytes>, local: map<JmapId, EmailRow>, c: Change) {
    exists id :: id in local && ChangeOf(files, local[id]) == Some(c)
  }

  lemma DetectFinds(files: map<FilePath, Bytes>, local: map<JmapId, EmailRow>, order: seq<JmapId>)
    requires Lists(order, local.Keys)
    ensures forall c :: c in Detect(files, local, order) <==> IsDrift(files, local, c)
  {
    DetectFindsIn(files, local, order);
    forall c ensures c in Detect(files, local, order) <==> IsDrift(files, local, c) {
      if id :| id in local && ChangeOf(files, local[id]) == Some(c) { assert id in order; }
    }
  }

  lemma {:induction false} DetectFindsIn(files: map<FilePath, Bytes>, local: map<JmapId, EmailRow>, order: seq<JmapId>)
    requires forall id :: id in order ==> id in local
    ensures forall c :: c in Detect(files, local, order) <==> exists id :: id in order && ChangeOf(files, local[id]) == Some(c)
    decreases |order|
  {
    if order != [] {
      var n := |order| - 1;
      DetectFindsIn(files, local, order[..n]);
      assert order == order[..n] + [order[n]];
      assert forall id :: id in order <==> id in order[..n] || id == order[n];
    }
  }

  // -------------------------------------------------------------------------
  // Write-back
  // -------------------------------------------------------------------------

  function RequestDestroys(changes: seq<Change>): set<JmapId> {
    if changes == [] then {}
    else
      var n := |changes| - 1;
      RequestDestroys(changes[..n]) + (if changes[n].Destroy? then {changes[n].jmapId} else {})
  }

  function StoredFlagsOf(local: map<JmapId, EmailRow>, id: JmapId): string {
    if id in local then ExtractStandardFlags(local[id].keywords) else ""
  }

  /** Only keyword changes with something to send get an update. */
  function RequestUpdates(changes: seq<Change>, local: map<JmapId, EmailRow>): map<JmapId, seq<PatchOp>> {
    if changes == [] then map[]
    else
      var n := |changes| - 1;
      var before := RequestUpdates(changes[..n], local);
      var c := changes[n];
      if c.Destroy? then before
      else
        var ops := KeywordPatchOps(StoredFlagsOf(local, c.jmapId), c.newFlags);
        if ops == [] then before else before[c.jmapId := ops]
  }

  /** One Email/set for all the changes. */
  method BuildRequest(changes: seq<Change>, local: map<JmapId, EmailRow>)
    returns (destroys: set<JmapId>, updates: map<JmapId, seq<PatchOp>>)
    ensures destroys == RequestDestroys(changes) && updates == RequestUpdates(changes, local)
  {
    destroys, updates := {}, map[];
    for i := 0 to |changes|
      invariant destroys == RequestDestroys(changes[..i]) && updates == RequestUpdates(changes[..i], local)
    {
      assert changes[..i + 1][..i] == changes[..i];
      match changes[i]
      case Destroy(id, _) => destroys := destroys + {id};
      case UpdateKeywords(id, flags, _, _) =>
        var ops := KeywordPatchOps(StoredFlagsOf(local, id), flags);
        if ops != [] { updates := updates[id := ops]; }
    }
    assert changes[..|changes|] == changes;
  }

  method ApplyWriteback(srv: MailServer, db: Database, disk: Maildir, changes: seq<Change>, ids: set<JmapId>,
                        local: map<JmapId, EmailRow>, st: Stats, willing: set<JmapId>)
    returns (ok: bool, ids': set<JmapId>, local': map<JmapId, EmailRow>, st': Stats,
             ghost destroyed: set<JmapId>, ghost updated: set<JmapId>)
    modifies srv, db, disk
    ensures destroyed == RequestDestroys(changes) * willing * old(srv.emails).Keys
    ensures updated == RequestUpdates(changes, local).Keys * willing * old(srv.emails).Keys
    ensures srv.emails == map id | id in old(srv.emails) && id !in destroyed ::
                            if id in updated
                            then old(srv.emails)[id].(keywords := ApplyPatch(old(srv.emails)[id].keywords,
                                                                             RequestUpdates(changes, local)[id]))
                            else old(srv.emails)[id]
    ensures var spec := ApplyChanges(Pass(old(Snapshot(db, disk)), ids, local, st), changes, destroyed, updated);
            && ok == spec.Some?
            && (ok ==> spec.value == Pass(Snapshot(db, disk), ids', local', st'))
  {
    ids', local', st' := ids, local, st;
    var destroys, updates := BuildRequest(changes, local);
    var gone, patched := srv.EmailSet(destroys, updates, willing);
    destroyed, updated := gone, patched;
    ghost var p := Pass(old(Snapshot(db, disk)), ids, local, st);
    ghost var answered := srv.emails;
    for i := 0 to |changes|
      invariant srv.emails == answered
      invariant ApplyChanges(p, changes[..i], gone, patched) == Some(Pass(Snapshot(db, disk), ids', local', st'))
    {
      assert changes[..i + 1][..i] == changes[..i];
      ok, ids', local', st' := ApplyResponse(db, disk, changes[i], gone, patched, ids', local', st');
      if !ok { FailedPrefix(p, changes, i + 1, gone, patched); return; }
    }
    assert changes[..|changes|] == changes;
    ok := true;
  }

  method ApplyResponse(db: Database, disk: Maildir, c: Change, gone: set<JmapId>, patched: set<JmapId>,
                       ids: set<JmapId>, local: map<JmapId, EmailRow>, st: Stats)
    returns (ok: bool, ids': set<JmapId>, local': map<JmapId, EmailRow>, st': Stats)
    modifies db, disk
    ensures var spec := ApplyChange(Pass(old(Snapshot(db, disk)), ids, local, st), c, gone, patched);
            && ok == spec.Some?
            && (ok ==> spec.value == Pass(Snapshot(db, disk), ids', local', st'))
  {
    ok, ids', local', st' := true, ids, local, st;
    match c
    case Destroy(id, actual) =>
      if id in gone {
        ids' := ids - {id};
        if id in local {
          var row := local[id];
          ghost var _ := DeleteOne(db, disk, if actual.Some? then row.(path := actual.value) else row);
          local' := local - {id};
        }
        st' := st.(destroyedUpstream := st.destroyedUpstream + 1);
      }
    case UpdateKeywords(id, _, kws, path) =>
      if id in patched {
        if id in local {
          var row := local[id].(keywords := kws, path := path);
          local' := local[id := row];
          ok := db.UpdateEmail(row);
        }
        st' := st.(updatedUpstream := st.updatedUpstream + 1);
      }
  }

  lemma {:induction false} FailedPrefix(p: Pass, changes: seq<Change>, n: nat, destroyed: set<JmapId>, updated: set<JmapId>)
    requires n <= |changes| && ApplyChanges(p, changes[..n], destroyed, updated).None?
    ensures ApplyChanges(p, changes, destroyed, updated).None?
    decreases |changes| - n
  {
    if n == |changes| {
      assert changes[..n] == changes;
    } else {
      assert changes[..n + 1][..n] == changes[..n];
      FailedPrefix(p, changes, n + 1, destroyed, updated);
    }
  }

  // -------------------------------------------------------------------------
  // What the request asks for
  // -------------------------------------------------------------------------

  /** The request asks exactly what the rows visited so far want. */
  ghost predicate RequestFits(files: map<FilePath, Bytes>, local: map<JmapId, EmailRow>, changes: seq<Change>,
                              destroys: set<JmapId>, updates: set<JmapId>)
  {
    && RequestDestroys(changes) == destroys && RequestUpdates(changes, local).Keys == updates
    && forall id :: id in RequestUpdates(changes, local) ==>
         id in local && RequestUpdates(changes, local)[id] == PatchOf(files, local[id])
  }

  lemma RequestStep(files: map<FilePath, Bytes>, local: map<JmapId, EmailRow>, before: seq<Change>, row: EmailRow,
                    after: seq<Change>, destroys: set<JmapId>, updates: set<JmapId>, destroys': set<JmapId>,
                    updates': set<JmapId>)
    requires row.jmapId in local && local[row.jmapId] == row && RequestFits(files, local, before, destroys, updates)
    requires after == before + (match ChangeOf(files, row) case None => [] case Some(x) => [x])
    requires destroys' == if WantsDestroy(files, row) then destroys + {row.jmapId} else destroys
    requires updates' == if WantsUpdate(files, row) then updates + {row.jmapId} else updates
    ensures RequestFits(files, local, after, destroys', updates')
  {
    RequestSnoc(files, local, before, row);
    FitsSnoc(files, local, before, row, after, WantsDestroy(files, row), PatchOf(files, row), destroys, updates,
             destroys', updates');
  }

  lemma FitsSnoc(files: map<FilePath, Bytes>, local: map<JmapId, EmailRow>, before: seq<Change>, row: EmailRow,
                 after: seq<Change>, destroy: bool, patch: seq<PatchOp>, destroys: set<JmapId>, updates: set<JmapId>,
                 destroys': set<JmapId>, updates': set<JmapId>)
    requires row.jmapId in local && local[row.jmapId] == row && RequestFits(files, local, before, destroys, updates)
    requires patch == PatchOf(files, row)
    requires RequestDestroys(after) ==
             if destroy then RequestDestroys(before) + {row.jmapId} else RequestDestroys(before)
    requires RequestUpdates(after, local) ==
             if patch != [] then RequestUpdates(before, local)[row.jmapId := patch] else RequestUpdates(before, local)
    requires destroys' == if destroy then destroys + {row.jmapId} else destroys
    requires updates' == if patch != [] then updates + {row.jmapId} else updates
    ensures RequestFits(files, local, after, destroys', updates')
  {}

  lemma {:induction false} RequestIs(files: map<FilePath, Bytes>, local: map<JmapId, EmailRow>, order: seq<JmapId>)
    requires NoRepeat(order) && forall id :: id in order ==> id in local && local[id].jmapId == id
    ensures RequestFits(files, local, Detect(files, local, order), AskedDestroys(files, local) * Elements(order),
                        AskedUpdates(files, local) * Elements(order))
    decreases |order|
  {
    if order == [] {
      assert AskedDestroys(files, local) * Elements(order) == {} && AskedUpdates(files, local) * Elements(order) == {};
      assert RequestUpdates([], local) == map[];
    } else {
      var n := |order| - 1;
      var rest, id := order[..n], order[n];
      RequestIs(files, local, rest);
      LastElement(order, AskedDestroys(files, local));
      LastElement(order, AskedUpdates(files, local));
      RequestStep(files, local, Detect(files, local, rest), local[id], Detect(files, local, order),
                  AskedDestroys(files, local) * Elements(rest), AskedUpdates(files, local) * Elements(rest),
                  AskedDestroys(files, local) * Elements(order), AskedUpdates(files, local) * Elements(order));
    }
  }

  lemma RequestSnoc(files: map<FilePath, Bytes>, local: map<JmapId, EmailRow>, before: seq<Change>, row: EmailRow)
    requires row.jmapId in local && local[row.jmapId] == row
    ensures var c := ChangeOf(files, row);
            var after := before + (match c case None => [] case Some(x) => [x]);
            && RequestDestroys(after) == (if WantsDestroy(files, row) then RequestDestroys(before) + {row.jmapId}
                                          else RequestDestroys(before))
            && RequestUpdates(after, local) == (if WantsUpdate(files, row)
                                                then RequestUpdates(before, local)[row.jmapId := PatchOf(files, row)]
                                                else RequestUpdates(before, local))
  {
    var c := ChangeOf(files, row);
    if c.Some? {
      ChangeOfFits(files, row);
      assert (before + [c.value])[..|before|] == before;
    } else {
      assert before + [] == before;
    }
  }

  // -------------------------------------------------------------------------
  // The tick
  // -------------------------------------------------------------------------

  /** For each synced mailbox the server's query lists exactly the emails in it, in some order. */
  ghost predicate Listed(server: Server, keyed: Keyed, listing: map<JmapId, seq<JmapId>>) {
    forall j :: j in keyed ==>
      && j in listing && |listing[j]| <= I32_MAX
      && forall id :: id in listing[j] <==> id in server && j in server[id].mailboxes
  }

  method FetchAllEmailIds(listing: map<JmapId, seq<JmapId>>, keyed: Keyed, ghost server: Server) returns (ids: set<JmapId>)
    requires Listed(server, keyed, listing)
    ensures ids == InScope(server, keyed)
  {
    var boxes := ListSet(keyed.Keys);
    ids := {};
    for i := 0 to |boxes|
      invariant forall id :: id in ids <==> id in server && exists k :: 0 <= k < i && boxes[k] in server[id].mailboxes
    {
      var results := listing[boxes[i]];
      var all, _ := PageQueryIds((position: nat) => Page(results, position), results);
      ids := ids + Elements(all);
    }
    forall id | id in server && exists j :: j in server[id].mailboxes && j in keyed ensures id in ids {
      var j :| j in server[id].mailboxes && j in keyed;
      assert j in boxes;
    }
  }

  method RunDeletePass(db: Database, disk: Maildir, ids: set<JmapId>, local: map<JmapId, EmailRow>, st: Stats)
    returns (st': Stats, ghost order: seq<JmapId>)
    modifies db, disk
    ensures Lists(order, local.Keys)
    ensures (Snapshot(db, disk), st') == DeletePass(Pass(old(Snapshot(db, disk)), ids, local, st), order)
  {
    var visit := ListSet(local.Keys);
    ghost var p := Pass(old(Snapshot(db, disk)), ids, local, st);
    st' := st;
    for i := 0 to |visit|
      invariant (Snapshot(db, disk), st') == DeletePass(p, visit[..i])
    {
      assert visit[..i + 1][..i] == visit[..i];
      if visit[i] !in ids {
        ghost var _ := DeleteOne(db, disk, local[visit[i]]);
        st' := st'.(deleted := st'.deleted + 1);
      }
    }
    assert visit[..|visit|] == visit;
    order := visit;
  }

  /** Apply the answers to one chunk that were asked for, skipping the others. */
  method HydrateChunk(db: Database, disk: Maildir, keyed: Keyed, local: map<JmapId, EmailRow>, views: seq<View>,
                      chunk: seq<JmapId>, supply: JmapId -> Fresh, st: Stats)
    returns (ok: bool, st': Stats)
    modifies db, disk
    ensures var spec := Hydrate(old(Snapshot(db, disk)), keyed, local, Requested(views, chunk), supply, st);
            ok == spec.Some? && (ok ==> Snapshot(db, disk) == spec.value.0 && st' == spec.value.1)
  {
    st' := st;
    ghost var s := old(Snapshot(db, disk));
    for i := 0 to |views|
      invariant Hydrate(s, keyed, local, Requested(views[..i], chunk), supply, st) == Some((Snapshot(db, disk), st'))
    {
      RequestedNext(views, i, chunk);
      if views[i].id in chunk {
        HydrateSnoc(s, keyed, local, Requested(views[..i], chunk), views[i], supply, st, Snapshot(db, disk), st');
        ok, st' := ApplyOne(db, disk, keyed, local, views[i], supply(views[i].id), st');
        if !ok {
          ghost var tail := RequestedTail(views, i + 1, chunk);
          HydrateFails(s, keyed, local, Requested(views[..i + 1], chunk), tail, supply, st);
          return;
        }
      }
    }
    assert views[..|views|] == views;
    ok := true;
  }

  lemma RequestedNext(views: seq<View>, i: nat, chunk: seq<JmapId>)
    requires i < |views|
    ensures Requested(views[..i + 1], chunk) ==
            if views[i].id in chunk then Requested(views[..i], chunk) + [views[i]] else Requested(views[..i], chunk)
  {
    assert views[..i + 1][..i] == views[..i];
  }

  lemma {:induction false} RequestedTail(views: seq<View>, n: nat, chunk: seq<JmapId>) returns (tail: seq<View>)
    requires n <= |views|
    ensures Requested(views, chunk) == Requested(views[..n], chunk) + tail
    decreases |views| - n
  {
    if n == |views| {
      assert views[..n] == views;
      tail := [];
    } else {
      RequestedNext(views, n, chunk);
      var rest := RequestedTail(views, n + 1, chunk);
      tail := (if views[n].id in chunk then [views[n]] else []) + rest;
      ViewsAssoc(Requested(views[..n], chunk), if views[n].id in chunk then [views[n]] else [], rest);
    }
  }

  lemma ViewsAssoc(a: seq<View>, b: seq<View>, c: seq<View>)
    ensures (a + b) + c == a + (b + c)
  {}

  lemma {:induction false} TakenTail(order: seq<JmapId>, answers: nat -> seq<View>, n: nat) returns (tail: seq<View>)
    requires n <= ChunkCount(order)
    ensures Taken(order, answers, ChunkCount(order)) == Taken(order, answers, n) + tail
    decreases ChunkCount(order) - n
  {
    if n == ChunkCount(order) {
      tail := [];
    } else {
      var rest := TakenTail(order, answers, n + 1);
      tail := Requested(answers(n), Chunk(order, n)) + rest;
    }
  }

  lemma HydrateSnoc(s: Store, keyed: Keyed, local: map<JmapId, EmailRow>, before: seq<View>, v: View,
                    supply: JmapId -> Fresh, st: Stats, s1: Store, st1: Stats)
    requires Hydrate(s, keyed, local, before, supply, st) == Some((s1, st1))
    ensures Hydrate(s, keyed, local, before + [v], supply, st) == ApplyEmail(s1, keyed, local, v, supply(v.id), st1)
  {
    assert (before + [v])[..|before|] == before;
  }

  lemma HydrateFails(s: Store, keyed: Keyed, local: map<JmapId, EmailRow>, a: seq<View>, b: seq<View>,
                     supply: JmapId -> Fresh, st: Stats)
    requires Hydrate(s, keyed, local, a, supply, st).None?
    ensures Hydrate(s, keyed, local, a + b, supply, st).None?
  {
    HydrateAppend(s, keyed, local, a, b, supply, st);
  }

  lemma {:induction false} HydrateAppend(s: Store, keyed: Keyed, local: map<JmapId, EmailRow>, a: seq<View>, b: seq<View>,
                                         supply: JmapId -> Fresh, st: Stats)
    ensures Hydrate(s, keyed, local, a + b, supply, st) ==
            match Hydrate(s, keyed, local, a, supply, st)
            case None => None
            case Some((s', st')) => Hydrate(s', keyed, local, b, supply, st')
    decreases |b|
  {
    if b == [] {
      assert a + b == a;
    } else {
      var n := |b| - 1;
      HydrateAppend(s, keyed, local, a, b[..n], supply, st);
      assert (a + b)[..|a + b| - 1] == a + b[..n];
    }
  }

  method RunHydration(db: Database, disk: Maildir, keyed: Keyed, local: map<JmapId, EmailRow>, ids: set<JmapId>,
                      answers: nat -> seq<View>, supply: JmapId -> Fresh, st: Stats)
    returns (ok: bool, st': Stats, ghost order: seq<JmapId>)
    modifies db, disk
    ensures Lists(order, ids)
    ensures var spec := Hydrate(old(Snapshot(db, disk)), keyed, local, Taken(order, answers, ChunkCount(order)), supply, st);
            ok == spec.Some? && (ok ==> Snapshot(db, disk) == spec.value.0 && st' == spec.value.1)
  {
    // The program sorts the ids; the stores agree after any order, so none is fixed here.
    var visit := ListSet(ids);
    order := visit;
    st' := st;
    ghost var s := old(Snapshot(db, disk));
    var n := ChunkCount(visit);
    for i := 0 to n
      invariant Hydrate(s, keyed, local, Taken(visit, answers, i), supply, st) == Some((Snapshot(db, disk), st'))
    {
      HydrateAppend(s, keyed, local, Taken(visit, answers, i), Requested(answers(i), Chunk(visit, i)), supply, st);
      ok, st' := HydrateChunk(db, disk, keyed, local, answers(i), Chunk(visit, i), supply, st');
      if !ok {
        ghost var tail := TakenTail(visit, answers, i + 1);
        HydrateFails(s, keyed, local, Taken(visit, answers, i + 1), tail, supply, st);
        return;
      }
    }
    ok := true;
  }

  lemma ServerIs(server: Server, files: map<FilePath, Bytes>, local: map<JmapId, EmailRow>, order: seq<JmapId>,
                 willing: set<JmapId>, destroyed: set<JmapId>, updated: set<JmapId>, after: Server)
    requires Lists(order, local.Keys) && forall id :: id in local ==> local[id].jmapId == id
    requires var changes := Detect(files, local, order);
             && destroyed == RequestDestroys(changes) * willing * server.Keys
             && updated == RequestUpdates(changes, local).Keys * willing * server.Keys
             && after == map id | id in server && id !in destroyed ::
                           if id in updated
                           then server[id].(keywords := ApplyPatch(server[id].keywords, RequestUpdates(changes, local)[id]))
                           else server[id]
    ensures destroyed == AskedDestroys(files, local) * willing * server.Keys
    ensures updated == AskedUpdates(files, local) * willing * server.Keys
    ensures after == EmailSet(server, files, local, destroyed, updated)
  {
    RequestIs(files, local, order);
    assert Elements(order) == local.Keys;
    assert AskedDestroys(files, local) * Elements(order) == AskedDestroys(files, local);
    assert AskedUpdates(files, local) * Elements(order) == AskedUpdates(files, local);
  }

  /** The run ended as Tick does: it fails exactly when Tick does, and otherwise ends in the same world and counts. */
  ghost predicate RanAsTick(w: World, keyed: Keyed, env: Env, ok: bool, w': World, st: Stats)
    requires JmapUnique(w.s.db.emails)
  {
    && OrdersOk(w, keyed, env)
    && ok == Tick(w, keyed, env).Some?
    && (ok ==> w' == Tick(w, keyed, env).value.0 && st == Tick(w, keyed, env).value.1)
  }

  lemma FailedWriteback(w: World, keyed: Keyed, env: Env, w': World, st: Stats)
    requires JmapUnique(w.s.db.emails) && w.s.db.mailboxes != map[]
    requires ChangeOrderOk(w, env) && Writeback(w, keyed, env).None?
    ensures RanAsTick(w, keyed, env, false, w', st)
  {}

  /** Write-back ended as specified, the server having taken what it is willing to. */
  ghost predicate WritebackRan(w: World, keyed: Keyed, env: Env, willing: set<JmapId>, ok: bool, server: Server, p: Pass)
    requires JmapUnique(w.s.db.emails)
  {
    && ChangeOrderOk(w, env) && Writeback(w, keyed, env) == (if ok then Some(p) else None)
    && TookWilling(w, env, willing)
    && server == EmailSet(w.server, w.s.files, LocalOf(w.s.db.emails), env.destroyed, env.updated)
  }

  ghost predicate TookWilling(w: World, env: Env, willing: set<JmapId>)
    requires JmapUnique(w.s.db.emails)
  {
    && env.destroyed == AskedDestroys(w.s.files, LocalOf(w.s.db.emails)) * willing * w.server.Keys
    && env.updated == AskedUpdates(w.s.files, LocalOf(w.s.db.emails)) * willing * w.server.Keys
  }

  /** The ids in scope, then local changes pushed to the server. */
  method RunWriteback(srv: MailServer, db: Database, disk: Maildir, keyed: Keyed, listing: map<JmapId, seq<JmapId>>,
                      willing: set<JmapId>, answers: nat -> seq<View>, supply: JmapId -> Fresh)
    returns (ok: bool, ids: set<JmapId>, local: map<JmapId, EmailRow>, st: Stats, ghost env: Env)
    requires JmapUnique(db.emails) && OneFilePerUuid(disk.files) && Listed(srv.emails, keyed, listing)
    modifies srv, db, disk
    ensures WritebackRan(old(World(srv.emails, Snapshot(db, disk))), keyed, env, willing, ok, srv.emails,
                         Pass(Snapshot(db, disk), ids, local, st))
    ensures env.answers == answers && env.supply == supply
  {
    ghost var w := World(srv.emails, Snapshot(db, disk));
    var local0 := db.GetAllEmails();
    var ids0 := FetchAllEmailIds(listing, keyed, srv.emails);
    var changes;
    ghost var changeOrder, destroyed, updated;
    changes, changeOrder := DetectLocalWriteback(disk, local0);
    ok, ids, local, st, destroyed, updated := ApplyWriteback(srv, db, disk, changes, ids0, local0, ZERO_STATS, willing);
    ServerIs(w.server, w.s.files, local0, changeOrder, willing, destroyed, updated, srv.emails);
    env := Env(changeOrder, destroyed, updated, [], [], answers, supply);
  }

  /** The delete pass and hydration ended as specified. */
  ghost predicate PassesRan(p: Pass, keyed: Keyed, env: Env, ok: bool, s: Store, st: Stats) {
    && Lists(env.deleteOrder, p.local.Keys) && Lists(env.hydrationOrder, p.ids)
    && var d := DeletePass(p, env.deleteOrder);
       var h := Hydrate(d.0, keyed, p.local, Taken(env.hydrationOrder, env.answers, ChunkCount(env.hydrationOrder)),
                        env.supply, d.1);
       ok == h.Some? && (ok ==> s == h.value.0 && st == h.value.1)
  }

  /** The two passes after write-back. */
  method RunPasses(db: Database, disk: Maildir, keyed: Keyed, local: map<JmapId, EmailRow>, ids: set<JmapId>,
                   answers: nat -> seq<View>, supply: JmapId -> Fresh, st: Stats, ghost begun: Env)
    returns (ok: bool, st': Stats, ghost env: Env)
    requires begun.answers == answers && begun.supply == supply
    modifies db, disk
    ensures env == begun.(deleteOrder := env.deleteOrder, hydrationOrder := env.hydrationOrder)
    ensures PassesRan(Pass(old(Snapshot(db, disk)), ids, local, st), keyed, env, ok, Snapshot(db, disk), st')
  {
    ghost var deleteOrder, hydrationOrder;
    st', deleteOrder := RunDeletePass(db, disk, ids, local, st);
    ok, st', hydrationOrder := RunHydration(db, disk, keyed, local, ids, answers, supply, st');
    env := begun.(deleteOrder := deleteOrder, hydrationOrder := hydrationOrder);
  }

  lemma PassesMakeTick(w: World, keyed: Keyed, env: Env, p: Pass, ok: bool, w': World, st: Stats)
    requires JmapUnique(w.s.db.emails) && w.s.db.mailboxes != map[] && ChangeOrderOk(w, env)
    requires Writeback(w, keyed, env) == Some(p) && PassesRan(p, keyed, env, ok, w'.s, st)
    requires w'.server == EmailSet(w.server, w.s.files, LocalOf(w.s.db.emails), env.destroyed, env.updated)
    ensures RanAsTick(w, keyed, env, ok, w', st)
  {
    TickIs(w, keyed, env, p);
  }

  /**
   One tick over the three stores. The willing ids are those the server would let be written; the answers and fresh
   identifiers are the surroundings' too.
   */
  method SyncEmails(srv: MailServer, db: Database, disk: Maildir, keyed: Keyed, listing: map<JmapId, seq<JmapId>>,
                    willing: set<JmapId>, answers: nat -> seq<View>, supply: JmapId -> Fresh)
    returns (ok: bool, st: Stats, ghost env: Env)
    requires JmapUnique(db.emails) && OneFilePerUuid(disk.files) && Listed(srv.emails, keyed, listing)
    modifies srv, db, disk
    ensures RanAsTick(old(World(srv.emails, Snapshot(db, disk))), keyed, env, ok, World(srv.emails, Snapshot(db, disk)), st)
    ensures env.answers == answers && env.supply == supply
    ensures var w := old(World(srv.emails, Snapshot(db, disk)));
            w.s.db.mailboxes != map[] ==> TookWilling(w, env, willing)
  {
    ghost var w := World(srv.emails, Snapshot(db, disk));
    if db.mailboxes == map[] {
      ok, st := true, ZERO_STATS;
      env := Env([], {}, {}, [], [], answers, supply);
      return;
    }
    var ids, local;
    ok, ids, local, st, env := RunWriteback(srv, db, disk, keyed, listing, willing, answers, supply);
    ghost var p := Pass(Snapshot(db, disk), ids, local, st);
    if !ok {
      FailedWriteback(w, keyed, env, World(srv.emails, Snapshot(db, disk)), st);
      return;
    }
    ok, st, env := RunPasses(db, disk, keyed, local, ids, answers, supply, st, env);
    PassesMakeTick(w, keyed, env, p, ok, World(srv.emails, Snapshot(db, disk)), st);
  }
}
