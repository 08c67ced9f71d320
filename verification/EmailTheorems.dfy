/** The main results about one tick. */
module EmailTheorems {
  import opened Prelude
  import opened Primary
  import opened Tables
  import opened EmailStore
  import opened EmailTick
  import opened EmailWriteback
  import opened EmailConvergence
  import opened EmailHydrate
  import opened EmailPasses

  // -------------------------------------------------------------------------
  // Email/get in chunks
  // -------------------------------------------------------------------------

  /** Among the answers to each chunk, those that were requested name each id of the chunk once, truthfully. */
  ghost predicate AnswersOk(server: Server, order: seq<JmapId>, answers: nat -> seq<View>) {
    forall i: nat :: i < ChunkCount(order) ==>
      Answers(server, Requested(answers(i), Chunk(order, i)), Elements(Chunk(order, i)))
  }

  ghost function TakenIds(order: seq<JmapId>, n: nat): seq<JmapId>
    requires n <= ChunkCount(order)
  {
    order[..if n * CHUNK <= |order| then n * CHUNK else |order|]
  }

  lemma AnswersJoin(server: Server, a: seq<View>, b: seq<View>, ia: set<JmapId>, ib: set<JmapId>)
    requires Answers(server, a, ia) && Answers(server, b, ib) && ia !! ib
    ensures Answers(server, a + b, ia + ib)
  {
    var c := a + b;
    forall id | id in ia + ib ensures exists i :: 0 <= i < |c| && c[i].id == id {
      if id in ia {
        var i :| 0 <= i < |a| && a[i].id == id;
        assert c[i].id == id;
      } else {
        var i :| 0 <= i < |b| && b[i].id == id;
        assert c[|a| + i].id == id;
      }
    }
  }

  lemma TakenIdsNext(order: seq<JmapId>, n: nat)
    requires 0 < n <= ChunkCount(order) && NoRepeat(order)
    ensures TakenIds(order, n) == TakenIds(order, n - 1) + Chunk(order, n - 1)
    ensures Elements(TakenIds(order, n)) == Elements(TakenIds(order, n - 1)) + Elements(Chunk(order, n - 1))
    ensures Elements(TakenIds(order, n - 1)) !! Elements(Chunk(order, n - 1))
  {
    assert TakenIds(order, n) == TakenIds(order, n - 1) + Chunk(order, n - 1);
  }

  lemma {:induction false} TakenAnswers(server: Server, order: seq<JmapId>, answers: nat -> seq<View>, n: nat)
    requires n <= ChunkCount(order) && NoRepeat(order) && AnswersOk(server, order, answers)
    ensures Answers(server, Taken(order, answers, n), Elements(TakenIds(order, n)))
    decreases n
  {
    if n != 0 {
      TakenAnswers(server, order, answers, n - 1);
      TakenIdsNext(order, n);
      var i: nat := n - 1;
      assert Answers(server, Requested(answers(i), Chunk(order, i)), Elements(Chunk(order, i)));
      AnswersJoin(server, Taken(order, answers, i), Requested(answers(i), Chunk(order, i)),
                  Elements(TakenIds(order, i)), Elements(Chunk(order, i)));
    }
  }

  /** All chunks together answer the whole list, also when its length is a multiple of the chunk size. */
  lemma AllTaken(server: Server, order: seq<JmapId>, answers: nat -> seq<View>, ids: set<JmapId>)
    requires Lists(order, ids) && AnswersOk(server, order, answers)
    ensures Answers(server, Taken(order, answers, ChunkCount(order)), ids)
  {
    TakenAnswers(server, order, answers, ChunkCount(order));
    assert TakenIds(order, ChunkCount(order)) == order;
    assert Elements(order) == ids;
  }

  // -------------------------------------------------------------------------
  // Convergence
  // -------------------------------------------------------------------------

  /** What is left to the surroundings is as a conforming, quiescent, accepting server and a fresh supply make it. */
  ghost predicate Conforming(w: World, keyed: Keyed, env: Env)
    requires JmapUnique(w.s.db.emails)
  {
    var local := LocalOf(w.s.db.emails);
    && OrdersOk(w, keyed, env)
    && Accepted(w.server, w.s.files, local, env.destroyed, env.updated)
    && SupplyOk(w.s, InScope(w.server, keyed), env.supply)
    && AnswersOk(EmailSet(w.server, w.s.files, local, env.destroyed, env.updated), env.hydrationOrder, env.answers)
  }

  lemma AfterLocalOf(s: Store, local: map<JmapId, EmailRow>, gone: set<JmapId>, updated: set<JmapId>)
    requires LocalIs(s.db.emails, local)
    ensures LocalIs(AfterEmails(s.db.emails, Changes(s.files, local), gone, updated),
                    AfterLocal(local, Changes(s.files, local), gone, updated))
  {
    ChangesDoFit(s, local);
    AfterLocalIs(s, local, Changes(s.files, local), gone, updated);
  }

  lemma AfterInvOf(server: Server, s: Store, local: map<JmapId, EmailRow>, gone: set<JmapId>, updated: set<JmapId>)
    requires Inv(s) && LocalIs(s.db.emails, local) && DiskOk(server, s.db.emails, s.files)
    ensures Inv(After(s, Changes(s.files, local), gone, updated)) && ChangesFit(s, Changes(s.files, local))
  {
    var changes := Changes(s.files, local);
    ChangesDoFit(s, local);
    forall r | r in s.db.emails
      ensures var t := SyncedRow(changes, s.db.emails[r], updated);
              RowOk(t) && t.primary == s.db.emails[r].primary && t.path.dir == s.db.emails[r].path.dir
    {
      SyncedRowOk(server, s, local, s.db.emails[r], updated);
    }
    AfterInv(s, changes, gone, updated);
  }

  /** Write-back leaves every row on its file, and is the closed form. */
  lemma WritebackPlaced(w: World, keyed: Keyed, env: Env)
    requires Sane(w, keyed) && JmapUnique(w.s.db.emails) && OrdersOk(w, keyed, env)
    requires Accepted(w.server, w.s.files, LocalOf(w.s.db.emails), env.destroyed, env.updated)
    requires SupplyOk(w.s, InScope(w.server, keyed), env.supply)
    ensures var local := LocalOf(w.s.db.emails);
            var server := EmailSet(w.server, w.s.files, local, env.destroyed, env.updated);
            && Writeback(w, keyed, env) == Some(Expected(w.s, local, Changes(w.s.files, local), InScope(w.server, keyed),
                                                         env.destroyed, env.updated))
            && var p := Writeback(w, keyed, env).value;
               && Inv(p.s) && KnownPlaced(server, p.s) && LocalIs(p.s.db.emails, p.local)
               && p.s.db.mailboxes == w.s.db.mailboxes
               && p.ids == InScope(server, keyed) && SupplyOk(p.s, p.ids, env.supply)
               && StraysAre(p.s, Strays(w))
  {
    var local := LocalOf(w.s.db.emails);
    LocalOfIs(w.s.db.emails);
    WritebackIs(w, keyed, env, local);
    ExpectedPlaced(w, keyed, local, env.destroyed, env.updated, env.supply);
  }

  lemma WritebackIs(w: World, keyed: Keyed, env: Env, local: map<JmapId, EmailRow>)
    requires Inv(w.s) && JmapUnique(w.s.db.emails) && ChangeOrderOk(w, env) && local == LocalOf(w.s.db.emails)
    requires ResponseOk(w.s.files, local, env.destroyed, env.updated)
    ensures Writeback(w, keyed, env) ==
            Some(Expected(w.s, local, Changes(w.s.files, local), InScope(w.server, keyed), env.destroyed, env.updated))
  {
    LocalOfIs(w.s.db.emails);
    WritebackClosedForm(w.s, local, InScope(w.server, keyed), env.changeOrder, env.destroyed, env.updated);
  }

  lemma ExpectedPlaced(w: World, keyed: Keyed, local: map<JmapId, EmailRow>, destroyed: set<JmapId>, updated: set<JmapId>,
                       supply: JmapId -> Fresh)
    requires Sane(w, keyed) && LocalIs(w.s.db.emails, local) && Accepted(w.server, w.s.files, local, destroyed, updated)
    requires SupplyOk(w.s, InScope(w.server, keyed), supply)
    ensures var server := EmailSet(w.server, w.s.files, local, destroyed, updated);
            var p := Expected(w.s, local, Changes(w.s.files, local), InScope(w.server, keyed), destroyed, updated);
            && Inv(p.s) && KnownPlaced(server, p.s) && LocalIs(p.s.db.emails, p.local)
            && p.s.db.mailboxes == w.s.db.mailboxes
            && p.ids == InScope(server, keyed) && SupplyOk(p.s, p.ids, supply)
            && StraysAre(p.s, Strays(w))
  {
    AfterInvOf(w.server, w.s, local, destroyed, updated);
    AfterPlaced(w.server, w.s, local, destroyed, updated);
    AfterLocalOf(w.s, local, destroyed, updated);
    InScopeAfterSet(w.server, keyed, w.s.files, local, destroyed, updated);
    AfterSupply(w.s, Changes(w.s.files, local), destroyed, updated, InScope(w.server, keyed),
                InScope(w.server, keyed) - destroyed, supply);
    AfterStrays(w.server, w.s, local, destroyed, updated);
  }

  /** After one accepted tick the server, the rows and the Maildir agree. */
  lemma TickConverges(w: World, keyed: Keyed, env: Env)
    requires Sane(w, keyed) && JmapUnique(w.s.db.emails) && Conforming(w, keyed, env)
    ensures Tick(w, keyed, env).Some?
    ensures Agreed(Tick(w, keyed, env).value.0, keyed)
    ensures StraysAre(Tick(w, keyed, env).value.0.s, Strays(w))
    ensures Tick(w, keyed, env).value.0.server ==
            EmailSet(w.server, w.s.files, LocalOf(w.s.db.emails), env.destroyed, env.updated)
  {
    WritebackPlaced(w, keyed, env);
    var p := Writeback(w, keyed, env).value;
    TickIs(w, keyed, env, p);
    PassConverges(EmailSet(w.server, w.s.files, LocalOf(w.s.db.emails), env.destroyed, env.updated), keyed, p, env,
                  Strays(w));
  }

  lemma PassConverges(server: Server, keyed: Keyed, p: Pass, env: Env, strays: map<FilePath, Bytes>)
    requires Inv(p.s) && KeyedOk(p.s.db.mailboxes, keyed) && p.s.db.mailboxes != map[] && KnownPlaced(server, p.s)
    requires LocalIs(p.s.db.emails, p.local) && p.ids == InScope(server, keyed) && SupplyOk(p.s, p.ids, env.supply)
    requires Lists(env.deleteOrder, p.local.Keys) && Lists(env.hydrationOrder, p.ids)
    requires AnswersOk(server, env.hydrationOrder, env.answers) && StraysAre(p.s, strays)
    ensures var d := DeletePass(p, env.deleteOrder);
            var h := Hydrate(d.0, keyed, p.local, Taken(env.hydrationOrder, env.answers, ChunkCount(env.hydrationOrder)),
                             env.supply, d.1);
            h.Some? && Agreed(World(server, h.value.0), keyed) && StraysAre(h.value.0, strays)
  {
    DeletesReady(server, keyed, p, env.deleteOrder, env.supply, strays, p.local.Keys - p.ids);
    AllTaken(server, env.hydrationOrder, env.answers, p.ids);
    var d := DeletePass(p, env.deleteOrder);
    HydrateAgrees(server, d.0, keyed, p.local, env.supply, strays,
                  Taken(env.hydrationOrder, env.answers, ChunkCount(env.hydrationOrder)), d.1);
  }
}
