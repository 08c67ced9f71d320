/**
 Ticks in which the server refuses some of the writes, or leaves emails out of its answers: each leaves a state the
 next tick may start from, so whatever went before, the first tick accepted in full brings agreement.
 */
module EmailRefusals {
  import opened Prelude
  import opened Keywords
  import opened Primary
  import opened Tables
  import opened EmailStore
  import opened EmailTick
  import opened EmailWriteback
  import opened EmailConvergence
  import opened EmailHydrate
  import opened EmailPasses
  import opened EmailTheorems
  import opened EmailCounts
  import opened EmailCrash

  /** The file of each row, wherever it is, has an ordinary suffix and the server's content. */
  ghost predicate FilesOk(server: Server, emails: map<RowId, EmailRow>, files: map<FilePath, Bytes>) {
    forall r, q :: r in emails && q in files && q.base.uuid == emails[r].path.base.uuid ==>
      && DiskFlags(q.flags)
      && (emails[r].jmapId in server ==> files[q] == server[emails[r].jmapId].blob)
  }

  /** A state a tick may start from, and in which no file of a row has an odd suffix or content elsewhere. */
  ghost predicate Steady(w: World, keyed: Keyed) {
    Sane(w, keyed) && FilesOk(w.server, w.s.db.emails, w.s.files)
  }

  /** What was asked for and answered is the server's, each id once; ids may be missing. */
  ghost predicate Truthful(server: Server, order: seq<JmapId>, answers: nat -> seq<View>) {
    forall n: nat, v :: n < ChunkCount(order) && v in Requested(answers(n), Chunk(order, n)) ==>
      v.id in server && Matches(v, server[v.id])
  }

  /** Any part of the writes is accepted, any part of the answers given. */
  ghost predicate Partial(w: World, keyed: Keyed, env: Env)
    requires JmapUnique(w.s.db.emails)
  {
    && AnyServer(w, keyed, env) && EachOnce(env.hydrationOrder, env.answers)
    && SupplyOk(w.s, InScope(w.server, keyed), env.supply)
    && Truthful(EmailSet(w.server, w.s.files, LocalOf(w.s.db.emails), env.destroyed, env.updated), env.hydrationOrder, env.answers)
  }

  // -------------------------------------------------------------------------
  // While answers come in
  // -------------------------------------------------------------------------

  ghost predicate Going(server: Server, s: Store, keyed: Keyed, local: map<JmapId, EmailRow>, left: set<JmapId>,
                        supply: JmapId -> Fresh)
  {
    && Inv(s) && KeyedOk(s.db.mailboxes, keyed) && FilesOk(server, s.db.emails, s.files)
    && left <= InScope(server, keyed) && Untouched(s.db.emails, local, left) && SupplyOk(s, left, supply)
    && (forall r :: r in s.db.emails ==> s.db.emails[r].jmapId in server)
  }

  /** The row written, its file in place if it was where the row said, and otherwise as it was. */
  ghost predicate Wrote(s: Store, s': Store, row: EmailRow, ms: map<MailboxId, bool>, blob: Bytes) {
    && s'.db == Put(s, row, ms, blob).db
    && (s'.files == Put(s, row, ms, blob).files || s'.files == s.files)
  }

  lemma WroteInv(s: Store, s': Store, row: EmailRow, ms: map<MailboxId, bool>, blob: Bytes)
    requires Inv(s) && Fits(s, row) && Wrote(s, s', row, ms, blob)
    requires ms.Keys <= s.db.mailboxes.Keys && forall m :: m in ms ==> ms[m] == (m == row.primary)
    ensures Inv(s')
  {
    PutInv(s, row, ms, blob);
  }

  lemma WroteFiles(server: Server, s: Store, s': Store, row: EmailRow, ms: map<MailboxId, bool>, blob: Bytes)
    requires FilesOk(server, s.db.emails, s.files) && Fits(s, row) && Wrote(s, s', row, ms, blob) && DiskFlags(row.path.flags)
    requires row.jmapId in server && blob == server[row.jmapId].blob
    requires s'.files == s.files ==>
               row.id in s.db.emails && s.db.emails[row.id].jmapId == row.jmapId &&
               s.db.emails[row.id].path.base.uuid == row.path.base.uuid
    ensures FilesOk(server, s'.db.emails, s'.files)
  {}

  lemma WroteSupply(s: Store, s': Store, local: map<JmapId, EmailRow>, left: set<JmapId>, supply: JmapId -> Fresh,
                    row: EmailRow, ms: map<MailboxId, bool>, blob: Bytes)
    requires Untouched(s.db.emails, local, left) && SupplyOk(s, left, supply) && Wrote(s, s', row, ms, blob)
    requires row.jmapId in left && Replaces(s, local, row, supply(row.jmapId))
    ensures SupplyOk(s', left - {row.jmapId}, supply)
  {
    PutSupply(s, local, left, supply, row, ms, blob);
    forall id | id in left - {row.jmapId} ensures FreshFor(s', supply(id)) {
      assert FreshFor(s, supply(id)) && FreshFor(Put(s, row, ms, blob), supply(id));
    }
  }

  lemma WroteGoing(server: Server, s: Store, s': Store, keyed: Keyed, local: map<JmapId, EmailRow>, left: set<JmapId>,
                   supply: JmapId -> Fresh, row: EmailRow, ms: map<MailboxId, bool>, blob: Bytes)
    requires Going(server, s, keyed, local, left, supply) && Fits(s, row) && Wrote(s, s', row, ms, blob)
    requires row.jmapId in left && Replaces(s, local, row, supply(row.jmapId))
    requires ms.Keys <= s.db.mailboxes.Keys && forall m :: m in ms ==> ms[m] == (m == row.primary)
    requires DiskFlags(row.path.flags) && blob == server[row.jmapId].blob
    requires s'.files == s.files ==>
               row.id in s.db.emails && s.db.emails[row.id].jmapId == row.jmapId &&
               s.db.emails[row.id].path.base.uuid == row.path.base.uuid
    ensures Going(server, s', keyed, local, left - {row.jmapId}, supply)
  {
    WroteInv(s, s', row, ms, blob);
    WroteFiles(server, s, s', row, ms, blob);
    WroteSupply(s, s', local, left, supply, row, ms, blob);
    PutUntouched(s, local, left, supply, row, ms, blob);
  }

  /** A row as an answer asks for fits beside the others. */
  lemma AskedFits(server: Server, s: Store, keyed: Keyed, local: map<JmapId, EmailRow>, left: set<JmapId>,
                  supply: JmapId -> Fresh, v: View, mb: MailboxRow, row: EmailRow)
    requires Going(server, s, keyed, local, left, supply) && v.id in left && Matches(v, server[v.id])
    requires PickPrimary(v.mailboxes, keyed) == Some(mb)
    requires row.jmapId == v.id && row.primary == mb.id && row.path.dir == mb.path
    requires row.keywords == SerializeKeywords(v.keywords) && row.path.flags == ViewFlags(v)
    requires Replaces(s, local, row, supply(v.id))
    ensures Fits(s, row) && DiskFlags(row.path.flags) && (exists j :: j in v.mailboxes && j in keyed)
    ensures var ms := ExpectedMembers(Elements(v.mailboxes), keyed, mb.id);
            ms.Keys <= s.db.mailboxes.Keys && forall m :: m in ms ==> ms[m] == (m == row.primary)
  {
    PutSettles(server, s, keyed, v, mb, row);
    ViewWrites(v, server[v.id]);
    FlagStringOnDisk(server[v.id].keywords);
    assert FreshFor(s, supply(v.id));
  }

  lemma NewGoing(server: Server, s: Store, keyed: Keyed, local: map<JmapId, EmailRow>, left: set<JmapId>,
                 supply: JmapId -> Fresh, v: View, mb: MailboxRow)
    requires Going(server, s, keyed, local, left, supply) && v.id in left && Matches(v, server[v.id])
    requires PickPrimary(v.mailboxes, keyed) == Some(mb) && v.id !in local
    ensures var r := InsertEmail(s, v, mb, keyed, supply(v.id));
            r.Some? && Going(server, r.value, keyed, local, left - {v.id}, supply)
  {
    assert FreshFor(s, supply(v.id));
    var row := InsertedRow(v, mb, supply(v.id));
    InsertIsPut(s, v, mb, keyed, supply(v.id));
    AskedFits(server, s, keyed, local, left, supply, v, mb, row);
    var ms := ExpectedMembers(Elements(v.mailboxes), keyed, mb.id);
    assert row.path !in s.files;
    WroteGoing(server, s, Put(s, row, ms, v.blob), keyed, local, left, supply, row, ms, v.blob);
  }

  lemma KnownGoing(server: Server, s: Store, keyed: Keyed, local: map<JmapId, EmailRow>, left: set<JmapId>,
                   supply: JmapId -> Fresh, v: View, mb: MailboxRow, row: EmailRow)
    requires Going(server, s, keyed, local, left, supply) && v.id in left && Matches(v, server[v.id])
    requires PickPrimary(v.mailboxes, keyed) == Some(mb)
    requires v.id in local && row.id == local[v.id].id && row.path.base.uuid == local[v.id].path.base.uuid
    requires row.jmapId == v.id && row.primary == mb.id && row.path.dir == mb.path
    requires row.keywords == SerializeKeywords(v.keywords) && row.path.flags == ViewFlags(v)
    ensures var r := Rewrite(s, local[v.id], row, v.mailboxes, keyed);
            r.Some? && Going(server, r.value, keyed, local, left - {v.id}, supply)
  {
    var existing := local[v.id];
    assert RowAt(s.db.emails, existing);
    AskedFits(server, s, keyed, local, left, supply, v, mb, row);
    RewriteIsPut(s, existing, row, v.mailboxes, keyed);
    var ms := ExpectedMembers(Elements(v.mailboxes), keyed, mb.id);
    WroteGoing(server, s, Rewrite(s, existing, row, v.mailboxes, keyed).value, keyed, local, left, supply, row, ms,
               server[v.id].blob);
  }

  lemma DoneGoing(server: Server, s: Store, keyed: Keyed, local: map<JmapId, EmailRow>, left: set<JmapId>,
                  supply: JmapId -> Fresh, id: JmapId)
    requires Going(server, s, keyed, local, left, supply)
    ensures Going(server, s, keyed, local, left - {id}, supply)
  {
    assert SupplyOk(s, left - {id}, supply);
    assert Untouched(s.db.emails, local, left - {id});
  }

  lemma AnswerGoing(server: Server, s: Store, keyed: Keyed, local: map<JmapId, EmailRow>, left: set<JmapId>,
                    supply: JmapId -> Fresh, v: View, st: Stats)
    requires Going(server, s, keyed, local, left, supply) && v.id in left && Matches(v, server[v.id])
    ensures var r := ApplyEmail(s, keyed, local, v, supply(v.id), st);
            r.Some? && Going(server, r.value.0, keyed, local, left - {v.id}, supply)
  {
    PickPrimaryChooses(v.mailboxes, keyed);
    var mb := PickPrimary(v.mailboxes, keyed).value;
    if v.id !in local {
      NewGoing(server, s, keyed, local, left, supply, v, mb);
    } else {
      var existing := local[v.id];
      assert RowAt(s.db.emails, existing);
      if existing.primary != mb.id {
        KnownGoing(server, s, keyed, local, left, supply, v, mb, MovedRow(existing, v, mb));
      } else if NeedsUpdate(s, existing, v, keyed) {
        SameDirectory(s, keyed, existing, v, mb);
        KnownGoing(server, s, keyed, local, left, supply, v, mb, UpdatedRow(existing, v));
      } else {
        DoneGoing(server, s, keyed, local, left, supply, v.id);
      }
    }
  }

  lemma SameDirectory(s: Store, keyed: Keyed, existing: EmailRow, v: View, mb: MailboxRow)
    requires Inv(s) && KeyedOk(s.db.mailboxes, keyed) && RowAt(s.db.emails, existing)
    requires PickPrimary(v.mailboxes, keyed) == Some(mb) && existing.primary == mb.id
    ensures existing.path.dir == mb.path
  {
    PickPrimaryChooses(v.mailboxes, keyed);
  }

  lemma {:induction false} AnswersGoing(server: Server, s: Store, keyed: Keyed, local: map<JmapId, EmailRow>, left: set<JmapId>,
                                        supply: JmapId -> Fresh, views: seq<View>, st: Stats)
    requires Going(server, s, keyed, local, left, supply)
    requires forall i :: 0 <= i < |views| ==> views[i].id in left && Matches(views[i], server[views[i].id])
    requires forall i, j :: 0 <= i < j < |views| ==> views[i].id != views[j].id
    ensures var r := Hydrate(s, keyed, local, views, supply, st);
            r.Some? && Going(server, r.value.0, keyed, local, left - Ids(views), supply)
    decreases |views|
  {
    if views == [] {
      assert left - Ids(views) == left;
    } else {
      var n := |views| - 1;
      AnswersGoing(server, s, keyed, local, left, supply, views[..n], st);
      var (s1, st1) := Hydrate(s, keyed, local, views[..n], supply, st).value;
      LeftSnoc(left, views);
      AnswerGoing(server, s1, keyed, local, left - Ids(views[..n]), supply, views[n], st1);
    }
  }

  // -------------------------------------------------------------------------
  // Write-back and deletes
  // -------------------------------------------------------------------------

  lemma FilesOkAfter(server: Server, s: Store, local: map<JmapId, EmailRow>, gone: set<JmapId>, updated: set<JmapId>)
    requires FilesOk(server, s.db.emails, s.files) && ChangesFit(s, Changes(s.files, local)) && RowsKeyed(s.db.emails)
    ensures var s1 := After(s, Changes(s.files, local), gone, updated);
            FilesOk(EmailSet(server, s.files, local, gone, updated), s1.db.emails, s1.files)
  {
    var s1 := After(s, Changes(s.files, local), gone, updated);
    forall r | r in s1.db.emails
      ensures s1.db.emails[r].jmapId == s.db.emails[r].jmapId && s1.db.emails[r].path.base == s.db.emails[r].path.base
    {
      SyncedRowKeeps(s, Changes(s.files, local), s.db.emails[r], updated);
    }
  }

  /** Fewer rows and files, and the memberships of the rows left. */
  ghost predicate Fewer(s: Store, s': Store) {
    && Inv(s') && s'.db.mailboxes == s.db.mailboxes
    && (forall q :: q in s'.files ==> q in s.files && s'.files[q] == s.files[q])
  }

  lemma DeleteIsFewer(s: Store, s1: Store, row: EmailRow)
    requires Fewer(s, s1)
    ensures Fewer(s, DeleteEmail(s1, row))
  {
    var s2 := DeleteEmail(s1, row);
    assert RowsInv(s2.db);
    assert MembersInv(s2.db);
  }

  lemma {:induction false} DeletesAreFewer(p: Pass, order: seq<JmapId>)
    requires Inv(p.s) && forall id :: id in order ==> id in p.local
    ensures Fewer(p.s, DeletePass(p, order).0)
    decreases |order|
  {
    if order != [] {
      var n := |order| - 1;
      DeletesAreFewer(p, order[..n]);
      DeleteIsFewer(p.s, DeletePass(p, order[..n]).0, p.local[order[n]]);
    }
  }

  lemma DeletesGoing(server: Server, keyed: Keyed, p: Pass, order: seq<JmapId>, supply: JmapId -> Fresh)
    requires Inv(p.s) && KeyedOk(p.s.db.mailboxes, keyed) && FilesOk(server, p.s.db.emails, p.s.files)
    requires LocalIs(p.s.db.emails, p.local) && Lists(order, p.local.Keys) && p.ids == InScope(server, keyed)
    requires SupplyOk(p.s, p.ids, supply)
    ensures Going(server, DeletePass(p, order).0, keyed, p.local, p.ids, supply)
  {
    var gone := p.local.Keys - p.ids;
    ElementsOfListed(order, p.local.Keys);
    DeletePassRows(p, order, gone);
    DeletesAreFewer(p, order);
    DropUntouched(p.s, p.local, p.ids, gone);
    FewerFiles(server, p.s, DeletePass(p, order).0, gone, p.ids, supply);
  }

  lemma FewerFiles(server: Server, s: Store, s': Store, gone: set<JmapId>, left: set<JmapId>, supply: JmapId -> Fresh)
    requires FilesOk(server, s.db.emails, s.files) && SupplyOk(s, left, supply) && Fewer(s, s')
    requires s'.db.emails == AfterEmails(s.db.emails, map[], gone, {})
    ensures FilesOk(server, s'.db.emails, s'.files) && SupplyOk(s', left, supply)
  {
    assert forall r :: r in s'.db.emails ==> r in s.db.emails && s'.db.emails[r] == s.db.emails[r];
    forall id | id in left ensures FreshFor(s', supply(id)) { assert FreshFor(s, supply(id)); }
  }

  // -------------------------------------------------------------------------
  // Ticks
  // -------------------------------------------------------------------------

  lemma {:induction false} TakenTruthful(server: Server, order: seq<JmapId>, answers: nat -> seq<View>, n: nat)
    requires n <= ChunkCount(order) && Truthful(server, order, answers)
    ensures forall v :: v in Taken(order, answers, n) ==> v.id in server && Matches(v, server[v.id])
  {
    if n != 0 {
      TakenTruthful(server, order, answers, n - 1);
      var m: nat := n - 1;
      forall v | v in Taken(order, answers, n) ensures v.id in server && Matches(v, server[v.id]) {
        if v !in Taken(order, answers, m) { assert v in Requested(answers(m), Chunk(order, m)); }
      }
    }
  }

  /** Write-back leaves a sound store, whatever part of it was accepted. */
  lemma WritebackSteady(w: World, keyed: Keyed, env: Env)
    requires Steady(w, keyed) && JmapUnique(w.s.db.emails) && Partial(w, keyed, env)
    ensures Writeback(w, keyed, env).Some?
    ensures var p := Writeback(w, keyed, env).value;
            var server := EmailSet(w.server, w.s.files, LocalOf(w.s.db.emails), env.destroyed, env.updated);
            && Inv(p.s) && p.s.db.mailboxes == w.s.db.mailboxes && FilesOk(server, p.s.db.emails, p.s.files)
            && LocalIs(p.s.db.emails, p.local) && p.ids == InScope(server, keyed) && SupplyOk(p.s, p.ids, env.supply)
  {
    var local := LocalOf(w.s.db.emails);
    LocalOfIs(w.s.db.emails);
    WritebackIs(w, keyed, env, local);
    AfterInvOf(w.server, w.s, local, env.destroyed, env.updated);
    FilesOkAfter(w.server, w.s, local, env.destroyed, env.updated);
    AfterLocalOf(w.s, local, env.destroyed, env.updated);
    InScopeAfterSet(w.server, keyed, w.s.files, local, env.destroyed, env.updated);
    AfterSupply(w.s, Changes(w.s.files, local), env.destroyed, env.updated, InScope(w.server, keyed),
                InScope(w.server, keyed) - env.destroyed, env.supply);
  }

  lemma PassGoing(server: Server, keyed: Keyed, p: Pass, env: Env)
    requires Inv(p.s) && KeyedOk(p.s.db.mailboxes, keyed) && FilesOk(server, p.s.db.emails, p.s.files)
    requires LocalIs(p.s.db.emails, p.local) && p.ids == InScope(server, keyed) && SupplyOk(p.s, p.ids, env.supply)
    requires Lists(env.deleteOrder, p.local.Keys) && Lists(env.hydrationOrder, p.ids)
    requires Truthful(server, env.hydrationOrder, env.answers) && EachOnce(env.hydrationOrder, env.answers)
    ensures var d := DeletePass(p, env.deleteOrder);
            var views := Taken(env.hydrationOrder, env.answers, ChunkCount(env.hydrationOrder));
            var h := Hydrate(d.0, keyed, p.local, views, env.supply, d.1);
            h.Some? && Going(server, h.value.0, keyed, p.local, p.ids - Ids(views), env.supply)
  {
    var n := ChunkCount(env.hydrationOrder);
    DeletesGoing(server, keyed, p, env.deleteOrder, env.supply);
    TakenInOrder(env.hydrationOrder, env.answers, n);
    TakenOnce(env.hydrationOrder, env.answers, n);
    TakenTruthful(server, env.hydrationOrder, env.answers, n);
    var d := DeletePass(p, env.deleteOrder);
    AnswersGoing(server, d.0, keyed, p.local, p.ids, env.supply, Taken(env.hydrationOrder, env.answers, n), d.1);
  }

  lemma GoingIsSteady(server: Server, s: Store, keyed: Keyed, local: map<JmapId, EmailRow>, left: set<JmapId>,
                      supply: JmapId -> Fresh)
    requires Going(server, s, keyed, local, left, supply) && s.db.mailboxes != map[]
    ensures Steady(World(server, s), keyed)
  {}

  /** A tick goes through whatever part of it the server takes, and leaves a state the next may start from. */
  lemma PartialTickKeepsSteady(w: World, keyed: Keyed, env: Env)
    requires Steady(w, keyed) && JmapUnique(w.s.db.emails) && Partial(w, keyed, env)
    ensures Tick(w, keyed, env).Some?
    ensures Steady(Tick(w, keyed, env).value.0, keyed) && JmapUnique(Tick(w, keyed, env).value.0.s.db.emails)
  {
    WritebackSteady(w, keyed, env);
    var p := Writeback(w, keyed, env).value;
    TickIs(w, keyed, env, p);
    var server := EmailSet(w.server, w.s.files, LocalOf(w.s.db.emails), env.destroyed, env.updated);
    PassGoing(server, keyed, p, env);
    var views := Taken(env.hydrationOrder, env.answers, ChunkCount(env.hydrationOrder));
    var d := DeletePass(p, env.deleteOrder);
    PassKeepsMailboxes(p, keyed, env, views);
    var h := Hydrate(d.0, keyed, p.local, views, env.supply, d.1);
    GoingIsSteady(server, h.value.0, keyed, p.local, p.ids - Ids(views), env.supply);
    LocalOfIs(h.value.0.db.emails);
  }

  lemma PassKeepsMailboxes(p: Pass, keyed: Keyed, env: Env, views: seq<View>)
    requires Inv(p.s) && forall id :: id in env.deleteOrder ==> id in p.local
    ensures var d := DeletePass(p, env.deleteOrder);
            var h := Hydrate(d.0, keyed, p.local, views, env.supply, d.1);
            h.Some? ==> h.value.0.db.mailboxes == p.s.db.mailboxes
  {
    DeletesAreFewer(p, env.deleteOrder);
    var d := DeletePass(p, env.deleteOrder);
    HydrateKeepsMailboxes(d.0, keyed, p.local, views, env.supply, d.1);
  }

  ghost predicate IsTick(w: World, keyed: Keyed, env: Env, w': World) {
    JmapUnique(w.s.db.emails) && Partial(w, keyed, env) && Tick(w, keyed, env).Some? && Tick(w, keyed, env).value.0 == w'
  }

  /** Ticks one after the other, each with its own surroundings. */
  ghost predicate AreTicks(keyed: Keyed, trace: seq<World>, envs: seq<Env>) {
    |trace| == |envs| + 1 && forall i :: 0 <= i < |envs| ==> IsTick(trace[i], keyed, envs[i], trace[i + 1])
  }

  lemma {:induction false} TicksKeepSteady(keyed: Keyed, trace: seq<World>, envs: seq<Env>, n: nat)
    requires AreTicks(keyed, trace, envs) && Steady(trace[0], keyed) && n <= |envs|
    ensures Steady(trace[n], keyed)
    decreases n
  {
    if n > 0 {
      TicksKeepSteady(keyed, trace, envs, n - 1);
      var m: nat := n - 1;
      NextIsSteady(trace[m], keyed, envs[m], trace[m + 1]);
    }
  }

  lemma NextIsSteady(w: World, keyed: Keyed, env: Env, w': World)
    requires Steady(w, keyed) && IsTick(w, keyed, env, w')
    ensures Steady(w', keyed)
  {
    PartialTickKeepsSteady(w, keyed, env);
  }

  /** However many ticks were refused in part or half answered, the first that is accepted in full brings agreement. */
  lemma FirstAcceptedTickConverges(keyed: Keyed, trace: seq<World>, envs: seq<Env>, env: Env)
    requires AreTicks(keyed, trace, envs) && Steady(trace[0], keyed)
    requires var w := trace[|envs|]; JmapUnique(w.s.db.emails) && Conforming(w, keyed, env)
    ensures var w := trace[|envs|]; Tick(w, keyed, env).Some? && Agreed(Tick(w, keyed, env).value.0, keyed)
  {
    TicksKeepSteady(keyed, trace, envs, |envs|);
    TickConverges(trace[|envs|], keyed, env);
  }
}
