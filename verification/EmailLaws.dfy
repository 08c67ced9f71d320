/** Three-way merge of keywords, the fixed point, and what a tick destroys. */
module EmailLaws {
  import opened Prelude
  import opened Keywords
  import opened Primary
  import opened Tables
  import opened EmailStore
  import opened EmailTick
  import opened EmailWriteback
  import opened EmailConvergence
  import opened EmailPasses
  import opened EmailTheorems

  // -------------------------------------------------------------------------
  // Three-way merge
  // -------------------------------------------------------------------------

  /** The disk's value if the disk differs from the stored row, else the server's. */
  ghost predicate Merged(server: set<Keyword>, stored: Stored, diskFlags: string, k: Keyword) {
    if FlagOf(k).Some? && FlagIn(k, diskFlags) != (k in stored) then FlagIn(k, diskFlags) else k in server
  }

  /** What the user left on disk for a row that is not being destroyed, and whether it is pushed, give the merge. */
  lemma MergeOfRow(server: set<Keyword>, files: map<FilePath, Bytes>, row: EmailRow, q: FilePath, k: Keyword)
    requires RowOk(row) && OneFilePerUuid(files) && q in files && SameBase(q, row.path)
    requires DiskFlags(q.flags) && 'T' !in q.flags
    ensures k in (if WantsUpdate(files, row) then ApplyPatch(server, PatchOf(files, row)) else server) <==>
            Merged(server, row.keywords, q.flags, k)
  {
    LocateUnique(files, row.path, q);
    PlainFlags(q.flags);
    ChangeSays(files, row);
    StandardHasFlag(k);
    StoredFlag(row.keywords, k);
    if WantsUpdate(files, row) {
      PatchPointwise(server, ExtractStandardFlags(row.keywords), q.flags, k);
    } else {
      NoMergeIff(row.keywords, q.flags);
    }
  }

  /** The letters read from canonical stored keywords are those of the standard ones. */
  lemma StoredFlag(stored: Stored, k: Keyword)
    requires Canonical(stored)
    ensures FlagOf(k).Some? ==> (FlagIn(k, ExtractStandardFlags(stored)) <==> k in stored)
  {
    ExtractIsFlagString(stored);
    assert TrueKeys(stored) == stored.Keys;
    if FlagOf(k).Some? { FlagInString(stored.Keys, k); }
  }

  /** The merge of disk, stored row and server for one keyword of one email; the server's value if there is no row. */
  ghost predicate Expectation(w: World, local: map<JmapId, EmailRow>, id: JmapId, k: Keyword)
    requires id in w.server
  {
    if id !in local then k in w.server[id].keywords
    else exists q :: q in w.s.files && SameBase(q, local[id].path) &&
           Merged(w.server[id].keywords, local[id].keywords, q.flags, k)
  }

  lemma ServerKeyword(w: World, local: map<JmapId, EmailRow>, env: Env, id: JmapId, k: Keyword)
    requires Inv(w.s) && DiskOk(w.server, w.s.db.emails, w.s.files) && LocalIs(w.s.db.emails, local)
    requires Accepted(w.server, w.s.files, local, env.destroyed, env.updated)
    requires id in w.server && id !in env.destroyed
    ensures var server := EmailSet(w.server, w.s.files, local, env.destroyed, env.updated);
            k in server[id].keywords <==> Expectation(w, local, id, k)
  {
    if id in local {
      var row := local[id];
      LocateFinds(w.s.files, row.path);
      assert !WantsDestroy(w.s.files, row);
      var q := Locate(w.s.files, row.path).value;
      MergeOfRow(w.server[id].keywords, w.s.files, row, q, k);
      assert forall p :: p in w.s.files && SameBase(p, row.path) ==> p == q;
    }
  }

  /** The server, the row and the suffix of the file all give the keyword this value. */
  ghost predicate KeywordIs(w: World, id: JmapId, k: Keyword, value: bool) {
    && id in w.server && (k in w.server[id].keywords <==> value)
    && exists r :: r in w.s.db.emails && w.s.db.emails[r].jmapId == id
         && (k in w.s.db.emails[r].keywords <==> value)
         && w.s.db.emails[r].path in w.s.files
         && (FlagOf(k).Some? ==> (FlagIn(k, w.s.db.emails[r].path.flags) <==> value))
  }

  lemma AgreedKeyword(w: World, keyed: Keyed, id: JmapId, k: Keyword)
    requires Agreed(w, keyed) && id in InScope(w.server, keyed)
    ensures KeywordIs(w, id, k, k in w.server[id].keywords)
  {
    var r :| r in w.s.db.emails && w.s.db.emails[r].jmapId == id && Settled(w.server, w.s, keyed, w.s.db.emails[r]);
    if FlagOf(k).Some? { FlagInString(w.server[id].keywords, k); }
    assert k in w.s.db.emails[r].keywords <==> k in w.server[id].keywords;
  }

  /**
   Where the three values of a keyword end up for an email that stays: on the server, in the row and on the file,
   each standard keyword has the disk's value if the disk differs from the stored row, else the server's, and every
   other keyword has the server's value.
   */
  lemma ThreeWayMerge(w: World, keyed: Keyed, env: Env, id: JmapId, k: Keyword)
    requires Sane(w, keyed) && JmapUnique(w.s.db.emails) && Conforming(w, keyed, env)
    requires id in InScope(w.server, keyed) && id !in env.destroyed
    ensures Tick(w, keyed, env).Some?
    ensures KeywordIs(Tick(w, keyed, env).value.0, id, k, Expectation(w, LocalOf(w.s.db.emails), id, k))
  {
    TickConverges(w, keyed, env);
    var local := LocalOf(w.s.db.emails);
    LocalOfIs(w.s.db.emails);
    ServerKeyword(w, local, env, id, k);
    InScopeAfterSet(w.server, keyed, w.s.files, local, env.destroyed, env.updated);
    AgreedKeyword(Tick(w, keyed, env).value.0, keyed, id, k);
  }

  // -------------------------------------------------------------------------
  // Destroy precision
  // -------------------------------------------------------------------------

  /**
   A destroy is asked for exactly the rows none of whose files survives untrashed: the base name is absent from the
   stored directory, or the file there carries T.
   */
  lemma DestroyAskedIff(s: Store, local: map<JmapId, EmailRow>, id: JmapId)
    requires OneFilePerUuid(s.files)
    ensures id in AskedDestroys(s.files, local) <==>
            id in local && forall q :: q in s.files && SameBase(q, local[id].path) ==> 'T' in q.flags
  {
    if id in local {
      LocateFinds(s.files, local[id].path);
      if q :| q in s.files && SameBase(q, local[id].path) { LocateUnique(s.files, local[id].path, q); }
    }
  }

  /**
   A move finds no file when its suffix on disk is not the stored one, as after a letter the server does not know or a
   keyword patch it refused. The file then stays behind, and the next tick asks the server to destroy the email exactly
   when the move changed its directory or its timestamp.
   */
  lemma StrayMoveDestroys(s: Store, existing: EmailRow, v: View, mb: MailboxRow, keyed: Keyed, q: FilePath)
    requires Inv(s) && KeyedOk(s.db.mailboxes, keyed) && RowAt(s.db.emails, existing)
    requires PickPrimary(v.mailboxes, keyed) == Some(mb) && NoRepeat(v.mailboxes)
    requires q in s.files && SameBase(q, existing.path) && q != existing.path && 'T' !in q.flags
    ensures var moved := MoveEmail(s, existing, v, mb, keyed);
            && moved.Some? && moved.value.files == s.files && JmapUnique(moved.value.db.emails)
            && (existing.jmapId in AskedDestroys(moved.value.files, LocalOf(moved.value.db.emails)) <==>
                  mb.path != existing.path.dir || v.receivedAt != existing.path.base.ts)
  {
    PickPrimaryChooses(v.mailboxes, keyed);
    var row := MovedRow(existing, v, mb);
    RewriteIsPut(s, existing, row, v.mailboxes, keyed);
    var emails := s.db.emails[row.id := row];
    SameIdsKeyed(s.db.emails, row, emails);
    LocalOfIs(emails);
    DestroyAskedIff(s.(db := s.db.(emails := emails)), LocalOf(emails), row.jmapId);
    assert SameBase(q, row.path) <==> mb.path == existing.path.dir && v.receivedAt == existing.path.base.ts;
  }

  lemma SameIdsKeyed(emails: map<RowId, EmailRow>, row: EmailRow, emails': map<RowId, EmailRow>)
    requires RowsKeyed(emails) && row.id in emails && emails' == emails[row.id := row]
    requires row.jmapId == emails[row.id].jmapId && row.path.base.uuid == emails[row.id].path.base.uuid
    ensures RowsKeyed(emails') && JmapUnique(emails') && RowAt(emails', row)
  {}

  // -------------------------------------------------------------------------
  // Fixed point
  // -------------------------------------------------------------------------

  lemma PlainFlagString(ks: set<Keyword>)
    ensures StandardOnly(FlagString(ks)) == FlagString(ks) && 'T' !in FlagString(ks)
  {
    FlagLetters(ks);
    StandardOnlyKeeps(FlagString(ks));
  }

  /** A row on its own file shows no drift. */
  lemma NoDrift(files: map<FilePath, Bytes>, row: EmailRow)
    requires RowOk(row) && OneFilePerUuid(files) && row.path in files
    ensures ChangeOf(files, row) == None
  {
    LocateUnique(files, row.path, row.path);
    PlainFlagString(row.keywords.Keys);
    forall k | k in STANDARD ensures k in row.keywords <==> FlagIn(k, row.path.flags) {
      StandardHasFlag(k);
      FlagInString(row.keywords.Keys, k);
    }
    NoMergeIff(row.keywords, row.path.flags);
  }

  ghost predicate NoChanges(files: map<FilePath, Bytes>, local: map<JmapId, EmailRow>) {
    forall id :: id in local ==> ChangeOf(files, local[id]) == None
  }

  lemma {:induction false} DetectNothing(files: map<FilePath, Bytes>, local: map<JmapId, EmailRow>, order: seq<JmapId>)
    requires NoChanges(files, local) && forall id :: id in order ==> id in local
    ensures Detect(files, local, order) == []
  {
    if order != [] { DetectNothing(files, local, order[..|order| - 1]); }
  }

  lemma {:induction false} DeleteNothing(p: Pass, order: seq<JmapId>)
    requires forall id :: id in order ==> id in p.local && id in p.ids
    ensures DeletePass(p, order).0 == p.s && DeletePass(p, order).1 == p.st
    decreases |order|
  {
    if order != [] { DeleteNothing(p, order[..|order| - 1]); }
  }

  lemma SettledNeedsNothing(server: Server, s: Store, keyed: Keyed, row: EmailRow, v: View)
    requires KeyedOk(s.db.mailboxes, keyed) && NoTies(keyed)
    requires v.id in server && Matches(v, server[v.id]) && row.jmapId == v.id && Settled(server, s, keyed, row)
    ensures PickPrimary(v.mailboxes, keyed).Some? && row.primary == PickPrimary(v.mailboxes, keyed).value.id
    ensures !NeedsUpdate(s, row, v, keyed)
  {
    PickPrimaryChooses(v.mailboxes, keyed);
    var e := server[v.id];
    var i :| i in e.mailboxes && i in keyed && keyed[i] == s.db.mailboxes[row.primary];
    assert i in v.mailboxes;
    var mb := PickPrimary(v.mailboxes, keyed).value;
    PrimaryChoiceUnique(e.mailboxes, keyed, mb, s.db.mailboxes[row.primary]);
    ViewWrites(v, e);
    assert keyed[i] == mb;
    assert !MembershipsDiffer(s.db, row.id, v.mailboxes, keyed);
  }

  /** A settled email is left alone, whatever order the server lists its mailboxes and keywords in. */
  lemma SettledIsLeft(server: Server, s: Store, keyed: Keyed, local: map<JmapId, EmailRow>, v: View, f: Fresh, st: Stats)
    requires RowsKeyed(s.db.emails) && KeyedOk(s.db.mailboxes, keyed) && NoTies(keyed)
    requires LocalIs(s.db.emails, local)
    requires v.id in server && Matches(v, server[v.id]) && HasSettled(server, s, keyed, v.id)
    ensures ApplyEmail(s, keyed, local, v, f, st) == Some((s, st))
  {
    var r :| r in s.db.emails && s.db.emails[r].jmapId == v.id && Settled(server, s, keyed, s.db.emails[r]);
    assert local[v.id] == s.db.emails[r];
    SettledNeedsNothing(server, s, keyed, local[v.id], v);
  }

  lemma {:induction false} HydrateNothing(server: Server, s: Store, keyed: Keyed, local: map<JmapId, EmailRow>,
                                          views: seq<View>, supply: JmapId -> Fresh, st: Stats)
    requires RowsKeyed(s.db.emails) && KeyedOk(s.db.mailboxes, keyed) && NoTies(keyed) && LocalIs(s.db.emails, local)
    requires forall i :: 0 <= i < |views| ==>
               views[i].id in server && Matches(views[i], server[views[i].id]) && HasSettled(server, s, keyed, views[i].id)
    ensures Hydrate(s, keyed, local, views, supply, st) == Some((s, st))
    decreases |views|
  {
    if views != [] {
      var n := |views| - 1;
      HydrateNothing(server, s, keyed, local, views[..n], supply, st);
      SettledIsLeft(server, s, keyed, local, views[n], supply(views[n].id), st);
    }
  }

  lemma AgreedHasNoDrift(w: World, keyed: Keyed)
    requires Agreed(w, keyed) && JmapUnique(w.s.db.emails)
    ensures NoChanges(w.s.files, LocalOf(w.s.db.emails))
    ensures AskedDestroys(w.s.files, LocalOf(w.s.db.emails)) == {} && AskedUpdates(w.s.files, LocalOf(w.s.db.emails)) == {}
    ensures LocalOf(w.s.db.emails).Keys <= InScope(w.server, keyed)
  {
    var local := LocalOf(w.s.db.emails);
    LocalOfIs(w.s.db.emails);
    forall id | id in local ensures ChangeOf(w.s.files, local[id]) == None && id in InScope(w.server, keyed) {
      AgreedRowHasNoDrift(w, keyed, local[id]);
    }
    NothingAsked(w.s.files, local);
  }

  lemma NothingAsked(files: map<FilePath, Bytes>, local: map<JmapId, EmailRow>)
    requires NoChanges(files, local)
    ensures AskedDestroys(files, local) == {} && AskedUpdates(files, local) == {}
  {}

  lemma AgreedRowHasNoDrift(w: World, keyed: Keyed, row: EmailRow)
    requires Agreed(w, keyed) && RowAt(w.s.db.emails, row)
    ensures ChangeOf(w.s.files, row) == None && row.jmapId in InScope(w.server, keyed)
  {
    assert row.jmapId in InScope(w.server, keyed);
    var r :| r in w.s.db.emails && w.s.db.emails[r].jmapId == row.jmapId && Settled(w.server, w.s, keyed, w.s.db.emails[r]);
    assert r == row.id;
    NoDrift(w.s.files, row);
  }

  lemma QuietWriteback(w: World, keyed: Keyed, env: Env)
    requires Agreed(w, keyed) && JmapUnique(w.s.db.emails) && OrdersOk(w, keyed, env)
    ensures Writeback(w, keyed, env) == Some(Pass(w.s, InScope(w.server, keyed), LocalOf(w.s.db.emails), ZERO_STATS))
  {
    AgreedHasNoDrift(w, keyed);
    DetectNothing(w.s.files, LocalOf(w.s.db.emails), env.changeOrder);
  }

  lemma QuietHydrate(server: Server, keyed: Keyed, p: Pass, env: Env)
    requires RowsKeyed(p.s.db.emails) && KeyedOk(p.s.db.mailboxes, keyed) && NoTies(keyed)
    requires LocalIs(p.s.db.emails, p.local) && p.ids == InScope(server, keyed) && p.local.Keys <= p.ids
    requires forall id :: id in p.ids ==> HasSettled(server, p.s, keyed, id)
    requires Lists(env.deleteOrder, p.local.Keys) && Lists(env.hydrationOrder, p.ids)
    requires AnswersOk(server, env.hydrationOrder, env.answers)
    ensures var d := DeletePass(p, env.deleteOrder);
            var h := Hydrate(d.0, keyed, p.local, Taken(env.hydrationOrder, env.answers, ChunkCount(env.hydrationOrder)),
                             env.supply, d.1);
            h.Some? && h.value.0 == p.s && h.value.1 == p.st
  {
    DeleteNothing(p, env.deleteOrder);
    AllTaken(server, env.hydrationOrder, env.answers, p.ids);
    HydrateNothing(server, p.s, keyed, p.local,
                   Taken(env.hydrationOrder, env.answers, ChunkCount(env.hydrationOrder)), env.supply, p.st);
  }

  lemma SetNothing(server: Server, files: map<FilePath, Bytes>, local: map<JmapId, EmailRow>)
    ensures EmailSet(server, files, local, {}, {}) == server
  {}

  /**
   From an agreed state a tick changes nothing on the server, in the rows or on disk, and counts nothing,
   given that no two synced mailboxes tie.
   */
  lemma AgreedIsFixed(w: World, keyed: Keyed, env: Env)
    requires Agreed(w, keyed) && NoTies(keyed) && JmapUnique(w.s.db.emails) && OrdersOk(w, keyed, env)
    requires ResponseOk(w.s.files, LocalOf(w.s.db.emails), env.destroyed, env.updated)
    requires AnswersOk(w.server, env.hydrationOrder, env.answers)
    ensures Tick(w, keyed, env) == Some((w, Stats(0, 0, 0, 0, 0, 0, 0)))
  {
    var local := LocalOf(w.s.db.emails);
    AgreedHasNoDrift(w, keyed);
    NothingAccepted(w.s.files, local, env.destroyed, env.updated);
    QuietTick(w, keyed, env, local);
  }

  lemma NothingAccepted(files: map<FilePath, Bytes>, local: map<JmapId, EmailRow>, destroyed: set<JmapId>, updated: set<JmapId>)
    requires ResponseOk(files, local, destroyed, updated) && AskedDestroys(files, local) == {} && AskedUpdates(files, local) == {}
    ensures destroyed == {} && updated == {}
  {}

  lemma QuietTick(w: World, keyed: Keyed, env: Env, local: map<JmapId, EmailRow>)
    requires Agreed(w, keyed) && NoTies(keyed) && JmapUnique(w.s.db.emails) && OrdersOk(w, keyed, env)
    requires AnswersOk(w.server, env.hydrationOrder, env.answers) && env.destroyed == {} && env.updated == {}
    requires local == LocalOf(w.s.db.emails) && local.Keys <= InScope(w.server, keyed)
    ensures Tick(w, keyed, env) == Some((w, Stats(0, 0, 0, 0, 0, 0, 0)))
  {
    LocalOfIs(w.s.db.emails);
    QuietWriteback(w, keyed, env);
    SetNothing(w.server, w.s.files, local);
    var p := Pass(w.s, InScope(w.server, keyed), local, ZERO_STATS);
    OrdersAre(w, keyed, env, p);
    QuietPasses(w, keyed, env, p);
    TickIs(w, keyed, env, p);
  }

  lemma OrdersAre(w: World, keyed: Keyed, env: Env, p: Pass)
    requires JmapUnique(w.s.db.emails) && OrdersOk(w, keyed, env) && w.s.db.mailboxes != map[]
    requires Writeback(w, keyed, env) == Some(p)
    ensures Lists(env.deleteOrder, p.local.Keys) && Lists(env.hydrationOrder, p.ids)
  {}

  lemma QuietPasses(w: World, keyed: Keyed, env: Env, p: Pass)
    requires Agreed(w, keyed) && NoTies(keyed) && AnswersOk(w.server, env.hydrationOrder, env.answers)
    requires p.s == w.s && p.ids == InScope(w.server, keyed) && LocalIs(w.s.db.emails, p.local) && p.local.Keys <= p.ids
    requires Lists(env.deleteOrder, p.local.Keys) && Lists(env.hydrationOrder, p.ids)
    ensures var d := DeletePass(p, env.deleteOrder);
            var h := Hydrate(d.0, keyed, p.local, Taken(env.hydrationOrder, env.answers, ChunkCount(env.hydrationOrder)),
                             env.supply, d.1);
            h.Some? && h.value.0 == p.s && h.value.1 == p.st
  {
    QuietHydrate(w.server, keyed, p, env);
  }

  /** So a second tick after a tick that converged does nothing. */
  lemma SecondTickDoesNothing(w: World, keyed: Keyed, env: Env, w1: World, env1: Env)
    requires Sane(w, keyed) && JmapUnique(w.s.db.emails) && Conforming(w, keyed, env) && NoTies(keyed)
    requires Tick(w, keyed, env).Some? && w1 == Tick(w, keyed, env).value.0
    requires JmapUnique(w1.s.db.emails) && OrdersOk(w1, keyed, env1)
    requires ResponseOk(w1.s.files, LocalOf(w1.s.db.emails), env1.destroyed, env1.updated)
    requires AnswersOk(w1.server, env1.hydrationOrder, env1.answers)
    ensures Tick(w1, keyed, env1) == Some((w1, Stats(0, 0, 0, 0, 0, 0, 0)))
  {
    TickConverges(w, keyed, env);
    AgreedIsFixed(w1, keyed, env1);
  }
}
