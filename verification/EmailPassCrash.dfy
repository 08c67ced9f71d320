/** Crashes between hydrations: in write-back, once the server has taken its part, and in the delete pass. */
module EmailPassCrash {
  import opened Prelude
  import opened Primary
  import opened Tables
  import opened EmailStore
  import opened EmailTick
  import opened EmailWriteback
  import opened EmailConvergence
  import opened EmailPasses
  import opened EmailTheorems
  import opened EmailLaws

  /** The same tables, some files gone. */
  ghost predicate SomeFilesGone(s: Store, s': Store) {
    s'.db == s.db && forall q :: q in s'.files ==> q in s.files && s'.files[q] == s.files[q]
  }

  lemma FewerFilesSane(server: Server, s: Store, s': Store, keyed: Keyed)
    requires Sane(World(server, s), keyed) && SomeFilesGone(s, s')
    ensures Sane(World(server, s'), keyed)
  {}

  lemma SaneConverges(w: World, keyed: Keyed, env: Env)
    requires Sane(w, keyed) && JmapUnique(w.s.db.emails)
    ensures Conforming(w, keyed, env) ==>
              && Tick(w, keyed, env).Some? && Agreed(Tick(w, keyed, env).value.0, keyed)
              && StraysAre(Tick(w, keyed, env).value.0.s, Strays(w))
  {
    if Conforming(w, keyed, env) { TickConverges(w, keyed, env); }
  }

  // -------------------------------------------------------------------------
  // In write-back
  // -------------------------------------------------------------------------

  /** The store after the accepted changes among the first `k` rows visited. */
  ghost function Stopped(w: World, keyed: Keyed, local: map<JmapId, EmailRow>, env: Env, k: nat): Option<Pass>
    requires k <= |env.changeOrder| && forall id :: id in env.changeOrder ==> id in local
  {
    ApplyChanges(Pass(w.s, InScope(w.server, keyed), local, ZERO_STATS), Detect(w.s.files, local, env.changeOrder[..k]),
                 env.destroyed, env.updated)
  }

  lemma StoppedIs(w: World, keyed: Keyed, local: map<JmapId, EmailRow>, env: Env, k: nat)
    requires Inv(w.s) && LocalIs(w.s.db.emails, local) && Lists(env.changeOrder, local.Keys) && k <= |env.changeOrder|
    requires ResponseOk(w.s.files, local, env.destroyed, env.updated)
    ensures var ids := Elements(env.changeOrder[..k]);
            Stopped(w, keyed, local, env, k) ==
            Some(Expected(w.s, local, Changes(w.s.files, local), InScope(w.server, keyed), env.destroyed * ids, env.updated * ids))
  {
    var order := env.changeOrder[..k];
    assert forall id :: id in order ==> id in env.changeOrder;
    ChangesDoFit(w.s, local);
    ResponseDoesFit(w.s.files, local, env.destroyed, env.updated);
    DetectIs(w.s.files, local, order);
    ChangesInOrder(w.s, local, Changes(w.s.files, local), InScope(w.server, keyed), order, env.destroyed, env.updated);
  }

  /** The server has taken all it accepts, the store only some of it. */
  lemma HalfTakenSane(w: World, keyed: Keyed, local: map<JmapId, EmailRow>, destroyed: set<JmapId>, updated: set<JmapId>,
                      gone: set<JmapId>, synced: set<JmapId>)
    requires Sane(w, keyed) && LocalIs(w.s.db.emails, local)
    ensures var s := After(w.s, Changes(w.s.files, local), gone, synced);
            Sane(World(EmailSet(w.server, w.s.files, local, destroyed, updated), s), keyed)
  {
    var changes := Changes(w.s.files, local);
    AfterInvOf(w.server, w.s, local, gone, synced);
    var s := After(w.s, changes, gone, synced);
    forall r | r in s.db.emails ensures s.db.emails[r].jmapId == w.s.db.emails[r].jmapId && SameBase(s.db.emails[r].path, w.s.db.emails[r].path) {
      SyncedRowKeeps(w.s, changes, w.s.db.emails[r], synced);
    }
  }

  /**
   A crash in write-back, after the server has taken the accepted destroys and updates and at any point of applying them
   to rows and files, leaves a state the next tick may start from: an accepted tick brings agreement.
   */
  lemma WritebackCrashHeals(w: World, keyed: Keyed, local: map<JmapId, EmailRow>, env: Env, k: nat, s: Store, next: Env)
    requires Sane(w, keyed) && LocalIs(w.s.db.emails, local) && Lists(env.changeOrder, local.Keys) && k <= |env.changeOrder|
    requires ResponseOk(w.s.files, local, env.destroyed, env.updated)
    requires Stopped(w, keyed, local, env, k).Some? ==> SomeFilesGone(Stopped(w, keyed, local, env, k).value.s, s)
    ensures Stopped(w, keyed, local, env, k).Some?
    ensures var w1 := World(EmailSet(w.server, w.s.files, local, env.destroyed, env.updated), s);
            && Sane(w1, keyed) && JmapUnique(s.db.emails)
            && (Conforming(w1, keyed, next) ==>
                  && Tick(w1, keyed, next).Some? && Agreed(Tick(w1, keyed, next).value.0, keyed)
                  && StraysAre(Tick(w1, keyed, next).value.0.s, Strays(w1)))
  {
    StoppedIs(w, keyed, local, env, k);
    var ids := Elements(env.changeOrder[..k]);
    HalfTakenSane(w, keyed, local, env.destroyed, env.updated, env.destroyed * ids, env.updated * ids);
    var server := EmailSet(w.server, w.s.files, local, env.destroyed, env.updated);
    FewerFilesSane(server, Stopped(w, keyed, local, env, k).value.s, s, keyed);
    LocalOfIs(s.db.emails);
    SaneConverges(World(server, s), keyed, next);
  }

  /**
   The trashed file of an email the server has destroyed, not at its stored path, is then a stray: it stays on disk after
   its row has gone.
   */
  lemma TrashedIsStray(w: World, keyed: Keyed, row: EmailRow, q: FilePath)
    requires Sane(w, keyed) && RowAt(w.s.db.emails, row) && row.jmapId !in w.server
    requires q in w.s.files && SameBase(q, row.path) && q != row.path
    ensures q in Strays(w)
  {
    forall r | r in w.s.db.emails && SameBase(q, w.s.db.emails[r].path) ensures r == row.id {
      assert w.s.db.emails[r].path.base.uuid == row.path.base.uuid;
    }
  }

  // -------------------------------------------------------------------------
  // In the delete pass
  // -------------------------------------------------------------------------

  lemma DroppedSane(server: Server, s: Store, keyed: Keyed, gone: set<JmapId>)
    requires Sane(World(server, s), keyed)
    ensures Sane(World(server, Dropped(s, gone)), keyed)
  {
    DroppedInv(s, gone);
  }

  /** A crash in the delete pass, after any number of rows and with some file of the next gone, leaves such a state too. */
  lemma DeleteCrashHeals(server: Server, keyed: Keyed, p: Pass, order: seq<JmapId>, n: nat, s: Store, next: Env)
    requires Sane(World(server, p.s), keyed) && LocalIs(p.s.db.emails, p.local) && Lists(order, p.local.Keys) && n <= |order|
    requires (forall id :: id in order[..n] ==> id in p.local) ==> SomeFilesGone(DeletePass(p, order[..n]).0, s)
    ensures var w1 := World(server, s);
            && Sane(w1, keyed) && JmapUnique(s.db.emails)
            && (Conforming(w1, keyed, next) ==>
                  && Tick(w1, keyed, next).Some? && Agreed(Tick(w1, keyed, next).value.0, keyed)
                  && StraysAre(Tick(w1, keyed, next).value.0.s, Strays(w1)))
  {
    assert forall id :: id in order[..n] ==> id in order;
    var gone := Elements(order[..n]) - p.ids;
    DeletesInOrder(p, order[..n], gone);
    DroppedSane(server, p.s, keyed, gone);
    FewerFilesSane(server, Dropped(p.s, gone), s, keyed);
    LocalOfIs(s.db.emails);
    SaneConverges(World(server, s), keyed, next);
  }

  /**
   The file goes first: after a crash before its row goes too, the next tick asks to destroy this email besides those it
   would have asked for, so the server loses it exactly when it still had it, as one that only left the synced mailboxes.
   */
  lemma DeleteCrashDestroys(w: World, keyed: Keyed, row: EmailRow, c: World, env: Env)
    requires Sane(w, keyed) && RowAt(w.s.db.emails, row) && row.path in w.s.files
    requires c == World(w.server, w.s.(files := w.s.files - {row.path}))
    ensures JmapUnique(c.s.db.emails)
    ensures AskedDestroys(c.s.files, LocalOf(c.s.db.emails)) == AskedDestroys(w.s.files, LocalOf(w.s.db.emails)) + {row.jmapId}
    ensures Conforming(c, keyed, env) ==>
              && Tick(c, keyed, env).Some? && row.jmapId !in Tick(c, keyed, env).value.0.server
              && (row.jmapId in env.destroyed <==> row.jmapId in w.server)
  {
    LocalOfIs(w.s.db.emails);
    var local := LocalOf(w.s.db.emails);
    FileGoneAsked(w.s, c.s, local, row);
    if Conforming(c, keyed, env) { TickConverges(c, keyed, env); }
  }

  lemma FileGoneAsked(s: Store, c: Store, local: map<JmapId, EmailRow>, row: EmailRow)
    requires RowsKeyed(s.db.emails) && LocalIs(s.db.emails, local) && OneFilePerUuid(s.files) && RowAt(s.db.emails, row)
    requires row.path in s.files && c == s.(files := s.files - {row.path})
    ensures AskedDestroys(c.files, local) == AskedDestroys(s.files, local) + {row.jmapId}
  {
    forall id ensures id in AskedDestroys(c.files, local) <==> id in AskedDestroys(s.files, local) || id == row.jmapId {
      DestroyAskedIff(s, local, id);
      DestroyAskedIff(c, local, id);
      if id in local && id != row.jmapId {
        assert RowAt(s.db.emails, local[id]) && local[id].path.base.uuid != row.path.base.uuid;
        assert forall q :: SameBase(q, local[id].path) ==> (q in c.files <==> q in s.files);
      }
    }
  }
}
