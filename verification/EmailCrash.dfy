/**
 Crashes inside one email's operation. Each operation is a list of single writes; a crash leaves the store after
 some prefix of them. A crash inside an insert or an in-place update is repaired by the next full tick.
 */
module EmailCrash {
  import opened Prelude
  import opened Keywords
  import opened Primary
  import opened Tables
  import opened EmailStore
  import opened EmailTick
  import opened EmailWriteback
  import opened EmailConvergence
  import opened EmailHydrate
  import opened EmailTheorems
  import opened EmailLaws
  import opened EmailActions
  import opened Orphans

  // -------------------------------------------------------------------------
  // All the writes make the operation
  // -------------------------------------------------------------------------

  lemma {:induction false} ExecAdds(s: Store, r: RowId, primary: MailboxId, ids: seq<JmapId>, keyed: Keyed)
    ensures Exec(s, AddMembers(r, primary, ids, keyed)) == WithDb(s, InsertMembers(s.db, r, primary, ids, keyed))
    decreases |ids|
  {
    if ids != [] {
      var rest := AddMembers(r, primary, ids[1..], keyed);
      if ids[0] in keyed {
        var a := AddMember(r, keyed[ids[0]].id, keyed[ids[0]].id == primary);
        assert ([a] + rest)[1..] == rest;
        var s' := Do(s, a);
        if s'.Some? { ExecAdds(s'.value, r, primary, ids[1..], keyed); }
      } else {
        assert [] + rest == rest;
        ExecAdds(s, r, primary, ids[1..], keyed);
      }
    }
  }

  lemma {:induction false} ExecDrops(s: Store, r: RowId, listed: seq<MailboxId>)
    requires r in s.db.members && NoRepeat(listed) && Elements(listed) == s.db.members[r].Keys
    ensures Exec(s, DropMembers(r, listed)) == Some(s.(db := ClearMembers(s.db, r)))
    decreases |listed|
  {
    if listed == [] {
      NothingToDrop(s, r);
    } else {
      var rest := DropMembers(r, listed[1..]);
      assert ([DropMember(r, listed[0])] + rest)[1..] == rest;
      DropIs(s, r, listed);
      ExecDrops(WithMembers(s, r, s.db.members[r] - {listed[0]}), r, listed[1..]);
    }
  }

  lemma InsertActionsComplete(s: Store, v: View, mb: MailboxRow, keyed: Keyed, f: Fresh)
    ensures Exec(s, InsertActions(v, mb, keyed, f)) == InsertEmail(s, v, mb, keyed, f)
  {
    var row := InsertedRow(v, mb, f);
    var adds := AddMembers(row.id, mb.id, v.mailboxes, keyed);
    var all := [WriteFile(row.path, v.blob), InsertRow(row)] + adds;
    assert all[1..] == [InsertRow(row)] + adds && all[1..][1..] == adds;
    var s1 := Do(s, all[0]).value;
    var s2 := Do(s1, InsertRow(row));
    if s2.Some? { ExecAdds(s2.value, row.id, mb.id, v.mailboxes, keyed); }
  }

  lemma RewriteActionsComplete(s: Store, existing: EmailRow, row: EmailRow, ids: seq<JmapId>, keyed: Keyed,
                               listed: seq<MailboxId>)
    requires Lists(listed, s.db.MembersOf(row.id).Keys)
    ensures Exec(s, RewriteActions(existing, row, ids, keyed, listed)) == Rewrite(s, existing, row, ids, keyed)
  {
    var renames := if row.path != existing.path then [RenameTo(existing.path, row.path)] else [];
    var drops := DropMembers(row.id, listed);
    var adds := AddMembers(row.id, row.primary, ids, keyed);
    ExecAppend(s, renames + [UpdateRow(row)] + drops, adds);
    ExecAppend(s, renames + [UpdateRow(row)], drops);
    ExecAppend(s, renames, [UpdateRow(row)]);
    var files := if row.path != existing.path then RenameFile(s.files, existing.path, row.path) else s.files;
    var s1 := s.(files := files);
    assert Exec(s, renames) == Some(s1);
    var db := s.db.UpdateEmail(row);
    assert Exec(s1, [UpdateRow(row)]) == WithDb(s1, db);
    if db.Some? {
      UpdateKeepsMembers(s.db, row);
      ReconcileComplete(s1.(db := db.value), row.id, row.primary, ids, keyed, listed);
    }
  }

  lemma ReconcileComplete(s: Store, r: RowId, primary: MailboxId, ids: seq<JmapId>, keyed: Keyed, listed: seq<MailboxId>)
    requires Lists(listed, s.db.MembersOf(r).Keys)
    ensures Exec(s, DropMembers(r, listed)) == Some(s.(db := ClearMembers(s.db, r)))
    ensures Exec(s.(db := ClearMembers(s.db, r)), AddMembers(r, primary, ids, keyed)) ==
            WithDb(s, ReconcileMembers(s.db, r, primary, ids, keyed))
  {
    DropsClear(s, r, listed);
    ExecAdds(s.(db := ClearMembers(s.db, r)), r, primary, ids, keyed);
  }

  lemma UpdateKeepsMembers(db: Db, row: EmailRow)
    ensures db.UpdateEmail(row).Some? ==> db.UpdateEmail(row).value.members == db.members
  {}

  lemma NothingListed(listed: seq<MailboxId>)
    requires Elements(listed) == {}
    ensures listed == []
  {
    if listed != [] { FirstListed(listed); assert false; }
  }

  lemma FirstListed(listed: seq<MailboxId>)
    requires listed != []
    ensures exists m :: m in Elements(listed)
  {
    assert listed[0] in Elements(listed);
  }

  lemma DropsClear(s: Store, r: RowId, listed: seq<MailboxId>)
    requires Lists(listed, s.db.MembersOf(r).Keys)
    ensures Exec(s, DropMembers(r, listed)) == Some(s.(db := ClearMembers(s.db, r)))
  {
    if r in s.db.members {
      assert Elements(listed) == s.db.members[r].Keys;
      ExecDrops(s, r, listed);
    } else {
      assert Elements(listed) == {};
      NothingListed(listed);
    }
  }

  // -------------------------------------------------------------------------
  // What every write of an insert or an in-place update keeps
  // -------------------------------------------------------------------------

  /** Every row's email is on the server and its file is in the stored directory, untrashed, under some suffix. */
  ghost predicate AllPresent(server: Server, emails: map<RowId, EmailRow>, files: map<FilePath, Bytes>) {
    forall r :: r in emails ==> emails[r].jmapId in server && Present(files, emails[r])
  }

  ghost predicate Present(files: map<FilePath, Bytes>, row: EmailRow) {
    exists q :: q in files && SameBase(q, row.path) && 'T' !in q.flags
  }

  ghost predicate CrashInv(server: Server, s: Store, keyed: Keyed) {
    && Inv(s) && KeyedOk(s.db.mailboxes, keyed) && s.db.mailboxes != map[]
    && DiskOk(server, s.db.emails, s.files) && AllPresent(server, s.db.emails, s.files)
  }

  lemma FlagStringOnDisk(ks: set<Keyword>)
    ensures DiskFlags(FlagString(ks)) && 'T' !in FlagString(ks)
  {
    FlagStringIs(ks);
    FlagLetters(ks);
  }

  /** A store being hydrated satisfies it. */
  lemma HydratingIsCrashInv(server: Server, s: Store, keyed: Keyed, strays: map<FilePath, Bytes>)
    requires HydrateStore(server, s, keyed, strays) && s.db.mailboxes != map[]
    ensures CrashInv(server, s, keyed)
  {
    forall r | r in s.db.emails
      ensures s.db.emails[r].jmapId in server && Present(s.files, s.db.emails[r]) && DiskFlags(s.db.emails[r].path.flags)
    {
      var row := s.db.emails[r];
      FlagStringOnDisk(row.keywords.Keys);
      assert row.jmapId in InScope(server, keyed);
      assert SameBase(row.path, row.path);
    }
  }

  lemma WriteFileKeeps(server: Server, s: Store, keyed: Keyed, path: FilePath, blob: Bytes)
    requires CrashInv(server, s, keyed)
    requires forall p :: p in s.files ==> p.base.uuid != path.base.uuid
    requires forall r :: r in s.db.emails ==> s.db.emails[r].path.base.uuid != path.base.uuid
    ensures CrashInv(server, s.(files := s.files[path := blob]), keyed)
  {
    var files := s.files[path := blob];
    forall r | r in s.db.emails ensures Present(files, s.db.emails[r]) {
      assert Present(s.files, s.db.emails[r]);
      var q :| q in s.files && SameBase(q, s.db.emails[r].path) && 'T' !in q.flags;
      assert q in files;
    }
  }

  function WithRow(s: Store, row: EmailRow): Store {
    s.(db := s.db.(emails := s.db.emails[row.id := row]))
  }

  /** A row written beside the others keeps the store's own invariant. */
  lemma WithRowInv(s: Store, row: EmailRow)
    requires Inv(s) && Fits(s, row)
    requires row.id in s.db.emails ==> s.db.emails[row.id].primary == row.primary
    ensures Inv(WithRow(s, row))
  {
    var s' := WithRow(s, row);
    assert RowsInv(s'.db);
    assert MembersInv(s'.db);
  }

  lemma InsertRowKeeps(server: Server, s: Store, keyed: Keyed, row: EmailRow)
    requires CrashInv(server, s, keyed) && Fits(s, row) && row.id !in s.db.emails
    requires row.jmapId in server && row.path in s.files && s.files[row.path] == server[row.jmapId].blob
    ensures Do(s, InsertRow(row)) == Some(WithRow(s, row)) && CrashInv(server, WithRow(s, row), keyed)
  {
    assert !s.db.PathTaken(row.path, row.id) && !s.db.JmapTaken(row.jmapId, row.id);
    WithRowInv(s, row);
    FlagStringOnDisk(row.keywords.Keys);
    assert SameBase(row.path, row.path);
    WithRowOnDisk(server, s, row);
  }

  lemma WithRowOnDisk(server: Server, s: Store, row: EmailRow)
    requires OneFilePerUuid(s.files) && DiskOk(server, s.db.emails, s.files) && AllPresent(server, s.db.emails, s.files)
    requires row.jmapId in server && Present(s.files, row)
    requires forall q :: q in s.files && SameBase(q, row.path) ==> DiskFlags(q.flags) && s.files[q] == server[row.jmapId].blob
    ensures DiskOk(server, s.db.emails[row.id := row], s.files) && AllPresent(server, s.db.emails[row.id := row], s.files)
  {}

  lemma RenameKeepsDisk(server: Server, s: Store, keyed: Keyed, existing: EmailRow, dst: FilePath)
    requires CrashInv(server, s, keyed) && RowAt(s.db.emails, existing) && existing.path in s.files
    requires SameBase(dst, existing.path) && DiskFlags(dst.flags) && 'T' !in dst.flags
    ensures CrashInv(server, s.(files := RenameFile(s.files, existing.path, dst)), keyed)
  {
    var files := RenameFile(s.files, existing.path, dst);
    assert SameBase(existing.path, existing.path);
    assert OneFilePerUuid(files);
    RenamePresent(server, s, existing, dst, files);
  }

  lemma RenamePresent(server: Server, s: Store, existing: EmailRow, dst: FilePath, files: map<FilePath, Bytes>)
    requires RowsKeyed(s.db.emails) && AllPresent(server, s.db.emails, s.files) && RowAt(s.db.emails, existing)
    requires existing.path in s.files && files == RenameFile(s.files, existing.path, dst)
    requires SameBase(dst, existing.path) && 'T' !in dst.flags
    ensures AllPresent(server, s.db.emails, files)
  {
    forall r | r in s.db.emails ensures Present(files, s.db.emails[r]) {
      assert Present(s.files, s.db.emails[r]);
      var q :| q in s.files && SameBase(q, s.db.emails[r].path) && 'T' !in q.flags;
      assert (if r == existing.id then dst else q) in files;
    }
  }

  lemma UpdateRowKeeps(server: Server, s: Store, keyed: Keyed, existing: EmailRow, row: EmailRow)
    requires CrashInv(server, s, keyed) && RowAt(s.db.emails, existing)
    requires row.id == existing.id && row.jmapId == existing.jmapId && row.primary == existing.primary
    requires SameBase(row.path, existing.path) && RowOk(row)
    ensures Do(s, UpdateRow(row)) == Some(WithRow(s, row)) && CrashInv(server, WithRow(s, row), keyed)
  {
    UpdateFits(s, existing, row);
    WithRowInv(s, row);
    SameBaseOnDisk(server, s, existing, row);
    WithRowOnDisk(server, s, row);
  }

  lemma UpdateFits(s: Store, existing: EmailRow, row: EmailRow)
    requires RowsInv(s.db) && RowAt(s.db.emails, existing)
    requires row.id == existing.id && row.jmapId == existing.jmapId && row.primary == existing.primary
    requires SameBase(row.path, existing.path) && RowOk(row)
    ensures Fits(s, row) && Do(s, UpdateRow(row)) == Some(WithRow(s, row))
  {
    assert Fits(s, row);
    assert !s.db.PathTaken(row.path, row.id) && !s.db.JmapTaken(row.jmapId, row.id);
  }

  lemma SameBaseOnDisk(server: Server, s: Store, existing: EmailRow, row: EmailRow)
    requires DiskOk(server, s.db.emails, s.files) && AllPresent(server, s.db.emails, s.files)
    requires RowAt(s.db.emails, existing) && row.jmapId == existing.jmapId && SameBase(row.path, existing.path)
    ensures row.jmapId in server && Present(s.files, row)
    ensures forall q :: q in s.files && SameBase(q, row.path) ==> DiskFlags(q.flags) && s.files[q] == server[row.jmapId].blob
  {
    assert Present(s.files, existing);
    var q :| q in s.files && SameBase(q, existing.path) && 'T' !in q.flags;
    assert SameBase(q, row.path);
    forall p | p in s.files && SameBase(p, row.path) ensures SameBase(p, existing.path) {}
  }

  function WithMembers(s: Store, r: RowId, ms: map<MailboxId, bool>): Store {
    s.(db := s.db.(members := s.db.members[r := ms]))
  }

  lemma MemberKeeps(server: Server, s: Store, keyed: Keyed, r: RowId, ms: map<MailboxId, bool>)
    requires CrashInv(server, s, keyed) && r in s.db.emails
    requires ms.Keys <= s.db.mailboxes.Keys && forall m :: m in ms ==> ms[m] == (m == s.db.emails[r].primary)
    ensures CrashInv(server, WithMembers(s, r, ms), keyed)
  {
    var s' := WithMembers(s, r, ms);
    assert RowsInv(s'.db);
    assert MembersInv(s'.db);
  }

  // -------------------------------------------------------------------------
  // Every prefix is safe
  // -------------------------------------------------------------------------

  /** The invariant holds now and after each further write, none of which is refused. */
  ghost predicate Safe(server: Server, keyed: Keyed, s: Store, actions: seq<Action>)
    decreases |actions|
  {
    && CrashInv(server, s, keyed)
    && (actions != [] ==> Do(s, actions[0]).Some? && Safe(server, keyed, Do(s, actions[0]).value, actions[1..]))
  }

  lemma {:induction false} SafePrefix(server: Server, keyed: Keyed, s: Store, actions: seq<Action>, k: nat)
    requires Safe(server, keyed, s, actions) && k <= |actions|
    ensures Exec(s, actions[..k]).Some? && CrashInv(server, Exec(s, actions[..k]).value, keyed)
    decreases k
  {
    if k != 0 {
      assert actions[..k][1..] == actions[1..][..k - 1];
      SafePrefix(server, keyed, Do(s, actions[0]).value, actions[1..], k - 1);
    }
  }

  lemma SafeCons(server: Server, keyed: Keyed, s: Store, a: Action, rest: seq<Action>)
    requires CrashInv(server, s, keyed) && Do(s, a).Some? && Safe(server, keyed, Do(s, a).value, rest)
    ensures Safe(server, keyed, s, [a] + rest)
  {
    assert ([a] + rest)[1..] == rest;
  }

  lemma AddIs(keyed: Keyed, s: Store, r: RowId, primary: MailboxId, ids: seq<JmapId>)
    requires KeyedOk(s.db.mailboxes, keyed) && r in s.db.emails && NoRepeat(ids) && ids != [] && ids[0] in keyed
    requires forall j :: j in ids && j in keyed ==> keyed[j].id !in s.db.MembersOf(r)
    ensures var m := keyed[ids[0]].id;
            var s' := WithMembers(s, r, s.db.MembersOf(r)[m := m == primary]);
            && m in s.db.mailboxes
            && Do(s, AddMember(r, m, m == primary)) == Some(s')
            && forall j :: j in ids[1..] && j in keyed ==> keyed[j].id !in s'.db.MembersOf(r)
  {
    InsertMemberStep(s.db, r, primary, ids, keyed);
    var m := keyed[ids[0]].id;
    var ms := s.db.MembersOf(r)[m := m == primary];
    assert s.db.InsertMember(r, m, m == primary) == Some(s.db.(members := s.db.members[r := ms]));
  }

  lemma AddKeeps(server: Server, keyed: Keyed, s: Store, r: RowId, m: MailboxId)
    requires CrashInv(server, s, keyed) && r in s.db.emails && m in s.db.mailboxes
    ensures CrashInv(server, WithMembers(s, r, s.db.MembersOf(r)[m := m == s.db.emails[r].primary]), keyed)
  {
    MembersSound(s.db, r);
    MemberKeeps(server, s, keyed, r, s.db.MembersOf(r)[m := m == s.db.emails[r].primary]);
  }

  lemma MembersSound(db: Db, r: RowId)
    requires MembersInv(db) && r in db.emails
    ensures db.MembersOf(r).Keys <= db.mailboxes.Keys
    ensures forall m :: m in db.MembersOf(r) ==> db.MembersOf(r)[m] == (m == db.emails[r].primary)
  {}

  lemma {:induction false} SafeAdds(server: Server, keyed: Keyed, s: Store, r: RowId, primary: MailboxId, ids: seq<JmapId>)
    requires CrashInv(server, s, keyed) && r in s.db.emails && NoRepeat(ids) && primary == s.db.emails[r].primary
    requires forall j :: j in ids && j in keyed ==> keyed[j].id !in s.db.MembersOf(r)
    ensures Safe(server, keyed, s, AddMembers(r, primary, ids, keyed))
    decreases |ids|
  {
    if ids != [] {
      var rest := AddMembers(r, primary, ids[1..], keyed);
      assert ids == [ids[0]] + ids[1..];
      if ids[0] in keyed {
        var m := keyed[ids[0]].id;
        var s' := WithMembers(s, r, s.db.MembersOf(r)[m := m == primary]);
        AddReady(server, keyed, s, s', r, m, primary, ids);
        SafeAdds(server, keyed, s', r, primary, ids[1..]);
        SafeCons(server, keyed, s, AddMember(r, m, m == primary), rest);
      } else {
        assert [] + rest == rest;
        SafeAdds(server, keyed, s, r, primary, ids[1..]);
      }
    }
  }

  lemma AddReady(server: Server, keyed: Keyed, s: Store, s': Store, r: RowId, m: MailboxId, primary: MailboxId, ids: seq<JmapId>)
    requires CrashInv(server, s, keyed) && r in s.db.emails && NoRepeat(ids) && primary == s.db.emails[r].primary
    requires forall j :: j in ids && j in keyed ==> keyed[j].id !in s.db.MembersOf(r)
    requires ids != [] && ids[0] in keyed && m == keyed[ids[0]].id
    requires s' == WithMembers(s, r, s.db.MembersOf(r)[m := m == primary])
    ensures Do(s, AddMember(r, m, m == primary)) == Some(s') && CrashInv(server, s', keyed)
    ensures r in s'.db.emails && s'.db.emails[r].primary == primary && NoRepeat(ids[1..])
    ensures forall j :: j in ids[1..] && j in keyed ==> keyed[j].id !in s'.db.MembersOf(r)
  {
    AddIs(keyed, s, r, primary, ids);
    AddKeeps(server, keyed, s, r, m);
  }

  lemma DropKeeps(server: Server, keyed: Keyed, s: Store, r: RowId, m: MailboxId)
    requires CrashInv(server, s, keyed) && r in s.db.members
    ensures CrashInv(server, WithMembers(s, r, s.db.members[r] - {m}), keyed)
  {
    MembersSound(s.db, r);
    MemberKeeps(server, s, keyed, r, s.db.members[r] - {m});
  }

  lemma DropIs(s: Store, r: RowId, listed: seq<MailboxId>)
    requires r in s.db.members && listed != [] && NoRepeat(listed) && Elements(listed) == s.db.members[r].Keys
    ensures var s' := WithMembers(s, r, s.db.members[r] - {listed[0]});
            && Do(s, DropMember(r, listed[0])) == Some(s')
            && ClearMembers(s'.db, r) == ClearMembers(s.db, r)
            && r in s'.db.members && Elements(listed[1..]) == s'.db.members[r].Keys
  {
    TailElements(listed, s.db.members[r].Keys);
    var s' := WithMembers(s, r, s.db.members[r] - {listed[0]});
    assert s'.db.members[r := map[]] == s.db.members[r := map[]];
  }

  lemma TailElements(listed: seq<MailboxId>, all: set<MailboxId>)
    requires listed != [] && NoRepeat(listed) && Elements(listed) == all
    ensures Elements(listed[1..]) == all - {listed[0]}
  {
    assert listed == [listed[0]] + listed[1..];
  }

  lemma {:induction false} SafeDrops(server: Server, keyed: Keyed, s: Store, r: RowId, listed: seq<MailboxId>,
                                     cleared: Store, rest: seq<Action>)
    requires Dropping(server, keyed, s, r, listed, cleared) && Safe(server, keyed, cleared, rest)
    ensures Safe(server, keyed, s, DropMembers(r, listed) + rest)
    decreases |listed|
  {
    if listed == [] {
      SafeWithoutDrops(server, keyed, s, r, listed, cleared, rest);
    } else {
      var s' := DropOne(server, keyed, s, r, listed, cleared);
      SafeDrops(server, keyed, s', r, listed[1..], cleared, rest);
      SafeDropStep(server, keyed, s, s', r, listed, rest);
    }
  }

  /** `listed` are the memberships left to drop before the store is `cleared`. */
  ghost predicate Dropping(server: Server, keyed: Keyed, s: Store, r: RowId, listed: seq<MailboxId>, cleared: Store) {
    && CrashInv(server, s, keyed) && r in s.db.members && cleared == s.(db := ClearMembers(s.db, r))
    && NoRepeat(listed) && Elements(listed) == s.db.members[r].Keys
  }

  lemma SafeWithoutDrops(server: Server, keyed: Keyed, s: Store, r: RowId, listed: seq<MailboxId>, cleared: Store, rest: seq<Action>)
    requires listed == [] && r in s.db.members && cleared == s.(db := ClearMembers(s.db, r))
    requires Elements(listed) == s.db.members[r].Keys && Safe(server, keyed, cleared, rest)
    ensures Safe(server, keyed, s, DropMembers(r, listed) + rest)
  {
    NothingToDrop(s, r);
    NoDrops(r, listed, rest);
  }

  lemma NoDrops(r: RowId, listed: seq<MailboxId>, rest: seq<Action>)
    requires listed == []
    ensures DropMembers(r, listed) + rest == rest
  {}

  lemma DropOne(server: Server, keyed: Keyed, s: Store, r: RowId, listed: seq<MailboxId>, cleared: Store) returns (s': Store)
    requires Dropping(server, keyed, s, r, listed, cleared) && listed != []
    ensures Do(s, DropMember(r, listed[0])) == Some(s') && Dropping(server, keyed, s', r, listed[1..], cleared)
  {
    s' := WithMembers(s, r, s.db.members[r] - {listed[0]});
    DropIs(s, r, listed);
    DropKeeps(server, keyed, s, r, listed[0]);
  }

  lemma SafeDropStep(server: Server, keyed: Keyed, s: Store, s': Store, r: RowId, listed: seq<MailboxId>,
                     rest: seq<Action>)
    requires CrashInv(server, s, keyed) && listed != [] && Do(s, DropMember(r, listed[0])) == Some(s')
    requires Safe(server, keyed, s', DropMembers(r, listed[1..]) + rest)
    ensures Safe(server, keyed, s, DropMembers(r, listed) + rest)
  {
    DropsUnfold(r, listed, rest);
    SafeCons(server, keyed, s, DropMember(r, listed[0]), DropMembers(r, listed[1..]) + rest);
  }

  lemma NothingToDrop(s: Store, r: RowId)
    requires r in s.db.members && s.db.members[r].Keys == {}
    ensures s.(db := ClearMembers(s.db, r)) == s
  {
    assert s.db.members[r] == map[];
    assert s.db.members[r := map[]] == s.db.members;
  }

  lemma DropsUnfold(r: RowId, listed: seq<MailboxId>, rest: seq<Action>)
    requires listed != []
    ensures DropMembers(r, listed) + rest == [DropMember(r, listed[0])] + (DropMembers(r, listed[1..]) + rest)
  {}

  // -------------------------------------------------------------------------
  // The two healed operations
  // -------------------------------------------------------------------------

  lemma InsertSafe(server: Server, keyed: Keyed, s: Store, v: View, mb: MailboxRow, f: Fresh)
    requires CrashInv(server, s, keyed) && v.id in server && Matches(v, server[v.id])
    requires PickPrimary(v.mailboxes, keyed) == Some(mb) && FreshFor(s, f)
    requires forall r :: r in s.db.emails ==> s.db.emails[r].jmapId != v.id
    ensures Safe(server, keyed, s, InsertActions(v, mb, keyed, f))
  {
    var row := InsertedRow(v, mb, f);
    var adds := AddMembers(row.id, mb.id, v.mailboxes, keyed);
    var s1 := s.(files := s.files[row.path := v.blob]);
    PutSettles(server, s, keyed, v, mb, row);
    WriteFileKeeps(server, s, keyed, row.path, v.blob);
    InsertRowSafe(server, keyed, s1, v, row);
    SafeCons(server, keyed, s, WriteFile(row.path, v.blob), [InsertRow(row)] + adds);
    InsertActionsAre(v, mb, keyed, f);
  }

  lemma InsertActionsAre(v: View, mb: MailboxRow, keyed: Keyed, f: Fresh)
    ensures var row := InsertedRow(v, mb, f);
            InsertActions(v, mb, keyed, f) ==
            [WriteFile(row.path, v.blob)] + ([InsertRow(row)] + AddMembers(row.id, mb.id, v.mailboxes, keyed))
  {}

  lemma InsertRowSafe(server: Server, keyed: Keyed, s1: Store, v: View, row: EmailRow)
    requires CrashInv(server, s1, keyed) && Fits(s1, row) && row.id !in s1.db.emails && NoRepeat(v.mailboxes)
    requires row.jmapId in server && row.path in s1.files && s1.files[row.path] == server[row.jmapId].blob
    ensures Safe(server, keyed, s1, [InsertRow(row)] + AddMembers(row.id, row.primary, v.mailboxes, keyed))
  {
    InsertRowKeeps(server, s1, keyed, row);
    var s2 := WithRow(s1, row);
    assert s2.db.MembersOf(row.id) == map[];
    SafeAdds(server, keyed, s2, row.id, row.primary, v.mailboxes);
    SafeCons(server, keyed, s1, InsertRow(row), AddMembers(row.id, row.primary, v.mailboxes, keyed));
  }

  lemma ReconcileSafe(server: Server, keyed: Keyed, s: Store, r: RowId, primary: MailboxId, ids: seq<JmapId>,
                      listed: seq<MailboxId>)
    requires CrashInv(server, s, keyed) && r in s.db.emails && primary == s.db.emails[r].primary && NoRepeat(ids)
    requires Lists(listed, s.db.MembersOf(r).Keys)
    ensures Safe(server, keyed, s, DropMembers(r, listed) + AddMembers(r, primary, ids, keyed))
  {
    var adds := AddMembers(r, primary, ids, keyed);
    assert Elements(listed) == s.db.MembersOf(r).Keys;
    var cleared := s.(db := ClearMembers(s.db, r));
    assert cleared.db.MembersOf(r) == map[];
    if r in s.db.members {
      MemberKeeps(server, s, keyed, r, map[]);
      assert cleared == WithMembers(s, r, map[]);
      SafeAdds(server, keyed, cleared, r, primary, ids);
      assert Dropping(server, keyed, s, r, listed, cleared);
      SafeDrops(server, keyed, s, r, listed, cleared, adds);
    } else {
      NothingListed(listed);
      assert DropMembers(r, listed) + adds == adds;
      SafeAdds(server, keyed, s, r, primary, ids);
    }
  }

  lemma UpdateRowSafe(server: Server, keyed: Keyed, s: Store, existing: EmailRow, row: EmailRow, ids: seq<JmapId>,
                      listed: seq<MailboxId>)
    requires CrashInv(server, s, keyed) && RowAt(s.db.emails, existing) && NoRepeat(ids)
    requires row.id == existing.id && row.jmapId == existing.jmapId && row.primary == existing.primary
    requires SameBase(row.path, existing.path) && RowOk(row)
    requires Lists(listed, s.db.MembersOf(row.id).Keys)
    ensures Safe(server, keyed, s,
                 [UpdateRow(row)] + (DropMembers(row.id, listed) + AddMembers(row.id, row.primary, ids, keyed)))
  {
    UpdateRowKeeps(server, s, keyed, existing, row);
    ReconcileSafe(server, keyed, WithRow(s, row), row.id, row.primary, ids, listed);
    SafeCons(server, keyed, s, UpdateRow(row), DropMembers(row.id, listed) + AddMembers(row.id, row.primary, ids, keyed));
  }

  lemma RenameSafe(server: Server, keyed: Keyed, s: Store, existing: EmailRow, row: EmailRow, ids: seq<JmapId>,
                   listed: seq<MailboxId>)
    requires CrashInv(server, s, keyed) && RowAt(s.db.emails, existing) && existing.path in s.files && NoRepeat(ids)
    requires row.id == existing.id && row.jmapId == existing.jmapId && row.primary == existing.primary
    requires SameBase(row.path, existing.path) && RowOk(row)
    requires Lists(listed, s.db.MembersOf(row.id).Keys)
    ensures Safe(server, keyed, s, RewriteActions(existing, row, ids, keyed, listed))
  {
    RewriteActionsAre(existing, row, ids, keyed, listed);
    if row.path != existing.path {
      FlagStringOnDisk(row.keywords.Keys);
      RenameKeepsDisk(server, s, keyed, existing, row.path);
      var renamed := s.(files := RenameFile(s.files, existing.path, row.path));
      UpdateRowSafe(server, keyed, renamed, existing, row, ids, listed);
      SafeCons(server, keyed, s, RenameTo(existing.path, row.path),
               [UpdateRow(row)] + (DropMembers(row.id, listed) + AddMembers(row.id, row.primary, ids, keyed)));
    } else {
      UpdateRowSafe(server, keyed, s, existing, row, ids, listed);
    }
  }

  lemma UpdateSafe(server: Server, keyed: Keyed, s: Store, existing: EmailRow, v: View, listed: seq<MailboxId>)
    requires CrashInv(server, s, keyed) && RowAt(s.db.emails, existing) && existing.path in s.files
    requires existing.jmapId == v.id && v.id in server && Matches(v, server[v.id])
    requires Lists(listed, s.db.MembersOf(existing.id).Keys)
    ensures Safe(server, keyed, s, RewriteActions(existing, UpdatedRow(existing, v), v.mailboxes, keyed, listed))
  {
    ViewWrites(v, server[v.id]);
    RenameSafe(server, keyed, s, existing, UpdatedRow(existing, v), v.mailboxes, listed);
  }

  lemma RewriteActionsAre(existing: EmailRow, row: EmailRow, ids: seq<JmapId>, keyed: Keyed, listed: seq<MailboxId>)
    ensures var tail := [UpdateRow(row)] + (DropMembers(row.id, listed) + AddMembers(row.id, row.primary, ids, keyed));
            RewriteActions(existing, row, ids, keyed, listed) ==
            if row.path != existing.path then [RenameTo(existing.path, row.path)] + tail else tail
  {}

  // -------------------------------------------------------------------------
  // The next full tick
  // -------------------------------------------------------------------------

  lemma CleanupInv(s: Store)
    requires Inv(s)
    ensures Inv(CleanupOrphans(s))
  {
    var c := CleanupOrphans(s);
    assert RowsInv(c.db);
    assert MembersInv(c.db);
  }

  lemma CleanupPresent(server: Server, s: Store)
    requires RowsKeyed(s.db.emails) && AllPresent(server, s.db.emails, s.files)
    ensures AllPresent(server, CleanupOrphans(s).db.emails, CleanupOrphans(s).files)
  {
    var c := CleanupOrphans(s);
    forall r | r in c.db.emails ensures c.db.emails[r].jmapId in server && Present(c.files, c.db.emails[r]) {
      assert Present(s.files, s.db.emails[r]);
      var q :| q in s.files && SameBase(q, s.db.emails[r].path) && 'T' !in q.flags;
      assert q in c.files;
    }
  }

  /** After orphan cleanup the crashed store is one a tick may start from, and no destroy will be asked for. */
  lemma CleanupSane(server: Server, s: Store, keyed: Keyed)
    requires CrashInv(server, s, keyed)
    ensures var c := CleanupOrphans(s);
            && Sane(World(server, c), keyed) && JmapUnique(c.db.emails)
            && AskedDestroys(c.files, LocalOf(c.db.emails)) == {}
  {
    var c := CleanupOrphans(s);
    CleanupInv(s);
    CleanupPresent(server, s);
    LocalOfIs(c.db.emails);
    var local := LocalOf(c.db.emails);
    forall id ensures id !in AskedDestroys(c.files, local) {
      DestroyAskedIff(c, local, id);
      if id in local { assert Present(c.files, local[id]); }
    }
  }

  /** The writes of the operation the tick performs on an email it does not move to another primary mailbox. */
  ghost predicate IsPlan(s: Store, keyed: Keyed, local: map<JmapId, EmailRow>, v: View, f: Fresh, actions: seq<Action>) {
    PickPrimary(v.mailboxes, keyed).Some? &&
    var mb := PickPrimary(v.mailboxes, keyed).value;
    if v.id !in local then actions == InsertActions(v, mb, keyed, f)
    else
      && local[v.id].primary == mb.id
      && exists listed :: Lists(listed, s.db.MembersOf(local[v.id].id).Keys) &&
           actions == RewriteActions(local[v.id], UpdatedRow(local[v.id], v), v.mailboxes, keyed, listed)
  }

  /**
   A crash after any number of the writes of an insert or an in-place update is repaired by the next full tick:
   orphan cleanup leaves a store from which no destroy is asked for, and an accepted tick brings agreement.
   */
  lemma CrashHeals(server: Server, s: Store, keyed: Keyed, local: map<JmapId, EmailRow>, left: set<JmapId>,
                   supply: JmapId -> Fresh, strays: map<FilePath, Bytes>, v: View, actions: seq<Action>, k: nat, env: Env)
    requires HydrateInv(server, s, keyed, local, left, supply, strays) && s.db.mailboxes != map[]
    requires v.id in left && Matches(v, server[v.id]) && IsPlan(s, keyed, local, v, supply(v.id), actions)
    requires k <= |actions|
    ensures Exec(s, actions[..k]).Some?
    ensures var c := CleanupOrphans(Exec(s, actions[..k]).value);
            && JmapUnique(c.db.emails)
            && AskedDestroys(c.files, LocalOf(c.db.emails)) == {}
            && (Conforming(World(server, c), keyed, env) ==>
                  && Tick(World(server, c), keyed, env).Some?
                  && Agreed(Tick(World(server, c), keyed, env).value.0, keyed))
  {
    HydratingIsCrashInv(server, s, keyed, strays);
    PlanIsSafe(server, s, keyed, local, left, supply, strays, v, actions);
    SafePrefix(server, keyed, s, actions, k);
    var crashed := Exec(s, actions[..k]).value;
    CleanupSane(server, crashed, keyed);
    var w := World(server, CleanupOrphans(crashed));
    if Conforming(w, keyed, env) { TickConverges(w, keyed, env); }
  }

  lemma PlanIsSafe(server: Server, s: Store, keyed: Keyed, local: map<JmapId, EmailRow>, left: set<JmapId>,
                   supply: JmapId -> Fresh, strays: map<FilePath, Bytes>, v: View, actions: seq<Action>)
    requires HydrateInv(server, s, keyed, local, left, supply, strays) && CrashInv(server, s, keyed)
    requires v.id in left && Matches(v, server[v.id]) && IsPlan(s, keyed, local, v, supply(v.id), actions)
    ensures Safe(server, keyed, s, actions)
  {
    if v.id !in local {
      assert FreshFor(s, supply(v.id));
      InsertSafe(server, keyed, s, v, PickPrimary(v.mailboxes, keyed).value, supply(v.id));
    } else {
      var existing := local[v.id];
      var listed :| Lists(listed, s.db.MembersOf(existing.id).Keys) &&
        actions == RewriteActions(existing, UpdatedRow(existing, v), v.mailboxes, keyed, listed);
      assert RowAt(s.db.emails, existing);
      UpdateSafe(server, keyed, s, existing, v, listed);
    }
  }
}
