/** Whatever the server accepts and answers: destroyed emails stay gone, and rows are conserved. */
module EmailCounts {
  import opened Prelude
  import opened Primary
  import opened Tables
  import opened EmailStore
  import opened EmailTick
  import opened EmailWriteback
  import opened EmailHydrate
  import opened EmailPasses
  import opened EmailTheorems

  // -------------------------------------------------------------------------
  // Counting rows by server id
  // -------------------------------------------------------------------------

  lemma {:induction false} LocalCount(emails: map<RowId, EmailRow>, local: map<JmapId, EmailRow>)
    requires RowsKeyed(emails) && LocalIs(emails, local)
    ensures |emails| == |local|
    decreases |emails|
  {
    if r :| r in emails {
      var id := emails[r].jmapId;
      MinusOne(emails, r);
      MinusOne(local, id);
      LocalMinusRow(emails, local, emails[r]);
      LocalCount(emails - {r}, local - {id});
    } else {
      assert local == map[];
    }
  }

  lemma LocalMinusRow(emails: map<RowId, EmailRow>, local: map<JmapId, EmailRow>, row: EmailRow)
    requires RowsKeyed(emails) && LocalIs(emails, local) && RowAt(emails, row)
    ensures RowsKeyed(emails - {row.id}) && LocalIs(emails - {row.id}, local - {row.jmapId})
  {
    OnlyRowHas(emails, row);
  }

  lemma MinusOne<K, V>(m: map<K, V>, k: K)
    requires k in m
    ensures |m - {k}| == |m| - 1
  {
    assert m == (m - {k})[k := m[k]];
  }

  lemma {:induction false} MinusCount<K, V>(m: map<K, V>, gone: set<K>)
    requires gone <= m.Keys
    ensures |m - gone| == |m| - |gone|
    decreases |gone|
  {
    if k :| k in gone {
      MinusCount(m, gone - {k});
      var rest := m - (gone - {k});
      assert rest == (m - gone)[k := m[k]];
    } else {
      assert m - gone == m;
    }
  }

  /** Dropping the rows of `gone` drops that many. */
  lemma AfterCount(s: Store, local: map<JmapId, EmailRow>, changes: map<JmapId, Change>, gone: set<JmapId>,
                   updated: set<JmapId>)
    requires RowsKeyed(s.db.emails) && LocalIs(s.db.emails, local) && ChangesFit(s, changes) && gone <= local.Keys
    ensures |AfterEmails(s.db.emails, changes, gone, updated)| == |s.db.emails| - |gone|
  {
    LocalCount(s.db.emails, local);
    AfterKeyed(s, changes, gone, updated);
    AfterLocalIs(s, local, changes, gone, updated);
    var after := AfterLocal(local, changes, gone, updated);
    LocalCount(AfterEmails(s.db.emails, changes, gone, updated), after);
    MinusCount(local, gone);
    assert after.Keys == (local - gone).Keys;
    SameKeysSameSize(after, local - gone);
  }

  lemma {:induction false} SameKeysSameSize<K, V, W>(a: map<K, V>, b: map<K, W>)
    requires a.Keys == b.Keys
    ensures |a| == |b|
  {
    assert |a| == |a.Keys| && |b| == |b.Keys|;
  }

  // -------------------------------------------------------------------------
  // The delete pass
  // -------------------------------------------------------------------------

  lemma {:induction false} DeletePassRows(p: Pass, order: seq<JmapId>, gone: set<JmapId>)
    requires RowsKeyed(p.s.db.emails) && LocalIs(p.s.db.emails, p.local)
    requires NoRepeat(order) && forall id :: id in order ==> id in p.local
    requires gone == Elements(order) - p.ids
    ensures DeletePass(p, order).0.db.emails == AfterEmails(p.s.db.emails, map[], gone, {})
    ensures DeletePass(p, order).1 == p.st.(deleted := p.st.deleted + |gone|)
    decreases |order|
  {
    if order == [] {
      assert gone == {};
    } else {
      var n := |order| - 1;
      var rest, id := order[..n], order[n];
      var before := Elements(rest) - p.ids;
      DeletePassRows(p, rest, before);
      LastMinus(order, p.ids);
      if id !in p.ids { OneMoreDeleted(p, DeletePass(p, rest).0, before, gone, id); }
    }
  }

  lemma OneMoreDeleted(p: Pass, s: Store, before: set<JmapId>, gone: set<JmapId>, id: JmapId)
    requires RowsKeyed(p.s.db.emails) && LocalIs(p.s.db.emails, p.local) && id in p.local && id !in before && gone == before + {id}
    requires s.db.emails == AfterEmails(p.s.db.emails, map[], before, {})
    ensures DeleteEmail(s, p.local[id]).db.emails == AfterEmails(p.s.db.emails, map[], gone, {}) && |gone| == |before| + 1
  {
    AfterDestroyRows(p.s.db.emails, map[], before, {}, p.local[id]);
    CountAdd(before, id);
  }

  // -------------------------------------------------------------------------
  // Hydration
  // -------------------------------------------------------------------------

  /** Each local row left is still in the table, and no two local rows share a table id. */
  ghost predicate RowsLeft(emails: map<RowId, EmailRow>, local: map<JmapId, EmailRow>, left: set<JmapId>) {
    && (forall id :: id in left && id in local ==> local[id].id in emails)
    && (forall i, j :: i in local && j in local && i != j ==> local[i].id != local[j].id)
  }

  lemma RewriteRows(s: Store, existing: EmailRow, row: EmailRow, ids: seq<JmapId>, keyed: Keyed)
    requires row.id in s.db.emails
    ensures var r := Rewrite(s, existing, row, ids, keyed);
            r.Some? ==> r.value.db.emails == s.db.emails[row.id := row]
  {
    var db := s.db.UpdateEmail(row);
    if db.Some? { InsertMembersKeepsRest(ClearMembers(db.value, row.id), row.id, row.primary, ids, keyed); }
  }

  lemma InsertRows(s: Store, v: View, mb: MailboxRow, keyed: Keyed, f: Fresh)
    ensures var r := InsertEmail(s, v, mb, keyed, f);
            r.Some? ==> f.rowId !in s.db.emails && r.value.db.emails == s.db.emails[f.rowId := InsertedRow(v, mb, f)]
  {
    var db := s.db.InsertEmail(InsertedRow(v, mb, f));
    if db.Some? { InsertMembersKeepsRest(db.value, f.rowId, mb.id, v.mailboxes, keyed); }
  }

  ghost predicate SameUpstream(st: Stats, st': Stats) {
    st'.destroyedUpstream == st.destroyedUpstream && st'.updatedUpstream == st.updatedUpstream
  }

  /** What one answer does to the rows: drop the local one, add one, replace the local one, or nothing. */
  ghost predicate RowEffect(emails: map<RowId, EmailRow>, local: map<JmapId, EmailRow>, v: View,
                            emails': map<RowId, EmailRow>, st: Stats, st': Stats)
  {
    || (v.id in local && emails' == emails - {local[v.id].id} && st' == st.(deleted := st.deleted + 1))
    || (exists row: EmailRow :: row.id !in emails && row.jmapId == v.id && emails' == emails[row.id := row]
          && st'.created == st.created + 1 && st'.deleted == st.deleted && SameUpstream(st, st'))
    || (st'.created == st.created && st'.deleted == st.deleted && SameUpstream(st, st')
        && (|| emails' == emails
            || (v.id in local &&
                (exists row: EmailRow :: row.id == local[v.id].id && row.jmapId == local[v.id].jmapId
                   && emails' == emails[row.id := row]))))
  }

  lemma ApplyRows(s: Store, keyed: Keyed, local: map<JmapId, EmailRow>, v: View, f: Fresh, st: Stats)
    requires v.id in local ==> local[v.id].id in s.db.emails
    ensures var r := ApplyEmail(s, keyed, local, v, f, st);
            r.Some? ==> RowEffect(s.db.emails, local, v, r.value.0.db.emails, st, r.value.1)
  {
    var r := ApplyEmail(s, keyed, local, v, f, st);
    var pick := PickPrimary(v.mailboxes, keyed);
    if r.Some? && pick.Some? {
      var mb := pick.value;
      if v.id !in local {
        InsertRows(s, v, mb, keyed, f);
      } else {
        RewriteRows(s, local[v.id], MovedRow(local[v.id], v, mb), v.mailboxes, keyed);
        RewriteRows(s, local[v.id], UpdatedRow(local[v.id], v), v.mailboxes, keyed);
      }
    }
  }

  lemma EffectCounts(emails: map<RowId, EmailRow>, local: map<JmapId, EmailRow>, left: set<JmapId>, v: View,
                     emails': map<RowId, EmailRow>, st: Stats, st': Stats)
    requires RowEffect(emails, local, v, emails', st, st') && RowsLeft(emails, local, left) && v.id in left
    ensures |emails'| + st'.deleted + st.created == |emails| + st.deleted + st'.created
    ensures SameUpstream(st, st')
    ensures RowsLeft(emails', local, left - {v.id})
  {
    if v.id in local && emails' == emails - {local[v.id].id} {
      assert emails == emails'[local[v.id].id := emails[local[v.id].id]];
    }
  }

  lemma {:induction false} HydrateCounts(s: Store, keyed: Keyed, local: map<JmapId, EmailRow>, left: set<JmapId>,
                                         views: seq<View>, supply: JmapId -> Fresh, st: Stats)
    requires RowsLeft(s.db.emails, local, left)
    requires forall i :: 0 <= i < |views| ==> views[i].id in left
    requires forall i, j :: 0 <= i < j < |views| ==> views[i].id != views[j].id
    ensures var r := Hydrate(s, keyed, local, views, supply, st);
            r.Some? ==>
              && |r.value.0.db.emails| + r.value.1.deleted + st.created == |s.db.emails| + st.deleted + r.value.1.created
              && SameUpstream(st, r.value.1)
              && RowsLeft(r.value.0.db.emails, local, left - Ids(views))
    decreases |views|
  {
    if views == [] {
      assert left - Ids(views) == left;
    } else {
      var n := |views| - 1;
      HydrateCounts(s, keyed, local, left, views[..n], supply, st);
      var r := Hydrate(s, keyed, local, views[..n], supply, st);
      if r.Some? {
        LeftSnoc(left, views);
        ApplyRows(r.value.0, keyed, local, views[n], supply(views[n].id), r.value.1);
        var r' := Hydrate(s, keyed, local, views, supply, st);
        if r'.Some? {
          EffectCounts(r.value.0.db.emails, local, left - Ids(views[..n]), views[n], r'.value.0.db.emails,
                       r.value.1, r'.value.1);
        }
      }
    }
  }

  lemma EffectKeepsAbsent(emails: map<RowId, EmailRow>, local: map<JmapId, EmailRow>, v: View,
                          emails': map<RowId, EmailRow>, st: Stats, st': Stats, id: JmapId)
    requires RowEffect(emails, local, v, emails', st, st') && v.id != id
    requires v.id in local ==> local[v.id].jmapId == v.id
    requires forall r :: r in emails ==> emails[r].jmapId != id
    ensures forall r :: r in emails' ==> emails'[r].jmapId != id
  {}

  /** The row count inside ApplyRows needs the local row; without it the row is only absent or added. */
  lemma ApplyKeepsAbsent(s: Store, keyed: Keyed, local: map<JmapId, EmailRow>, v: View, f: Fresh, st: Stats, id: JmapId)
    requires v.id != id && (v.id in local ==> local[v.id].jmapId == v.id)
    requires forall r :: r in s.db.emails ==> s.db.emails[r].jmapId != id
    ensures var r := ApplyEmail(s, keyed, local, v, f, st);
            r.Some? ==> forall k :: k in r.value.0.db.emails ==> r.value.0.db.emails[k].jmapId != id
  {
    if v.id !in local || local[v.id].id in s.db.emails {
      ApplyRows(s, keyed, local, v, f, st);
      var r := ApplyEmail(s, keyed, local, v, f, st);
      if r.Some? { EffectKeepsAbsent(s.db.emails, local, v, r.value.0.db.emails, st, r.value.1, id); }
    } else {
      var pick := PickPrimary(v.mailboxes, keyed);
      if pick.Some? {
        var a, b := MovedRow(local[v.id], v, pick.value), UpdatedRow(local[v.id], v);
        RewriteAbsent(s, local[v.id], a, v.mailboxes, keyed);
        RewriteAbsent(s, local[v.id], b, v.mailboxes, keyed);
      }
    }
  }

  lemma RewriteAbsent(s: Store, existing: EmailRow, row: EmailRow, ids: seq<JmapId>, keyed: Keyed)
    requires row.id !in s.db.emails
    ensures var r := Rewrite(s, existing, row, ids, keyed);
            r.Some? ==> r.value.db.emails == s.db.emails
  {
    InsertMembersKeepsRest(ClearMembers(s.db, row.id), row.id, row.primary, ids, keyed);
  }

  lemma {:induction false} HydrateKeepsAbsent(s: Store, keyed: Keyed, local: map<JmapId, EmailRow>, views: seq<View>,
                                              supply: JmapId -> Fresh, st: Stats, id: JmapId)
    requires forall i :: 0 <= i < |views| ==> views[i].id != id
    requires forall k :: k in local ==> local[k].jmapId == k
    requires forall r :: r in s.db.emails ==> s.db.emails[r].jmapId != id
    ensures var r := Hydrate(s, keyed, local, views, supply, st);
            r.Some? ==> forall k :: k in r.value.0.db.emails ==> r.value.0.db.emails[k].jmapId != id
    decreases |views|
  {
    if views != [] {
      var n := |views| - 1;
      HydrateKeepsAbsent(s, keyed, local, views[..n], supply, st, id);
      var r := Hydrate(s, keyed, local, views[..n], supply, st);
      if r.Some? { ApplyKeepsAbsent(r.value.0, keyed, local, views[n], supply(views[n].id), r.value.1, id); }
    }
  }

  // -------------------------------------------------------------------------
  // Which answers are taken
  // -------------------------------------------------------------------------

  lemma {:induction false} RequestedInChunk(views: seq<View>, chunk: seq<JmapId>)
    ensures forall i :: 0 <= i < |Requested(views, chunk)| ==> Requested(views, chunk)[i].id in chunk
  {
    if views != [] { RequestedInChunk(views[..|views| - 1], chunk); }
  }

  lemma {:induction false} TakenInOrder(order: seq<JmapId>, answers: nat -> seq<View>, n: nat)
    requires n <= ChunkCount(order)
    ensures forall i :: 0 <= i < |Taken(order, answers, n)| ==> Taken(order, answers, n)[i].id in TakenIds(order, n)
  {
    if n != 0 {
      TakenInOrder(order, answers, n - 1);
      RequestedInChunk(answers(n - 1), Chunk(order, n - 1));
      assert TakenIds(order, n) == TakenIds(order, n - 1) + Chunk(order, n - 1);
    }
  }

  /** The server lists each id at most once in the answer to a chunk. */
  ghost predicate EachOnce(order: seq<JmapId>, answers: nat -> seq<View>) {
    forall n: nat, i, j :: n < ChunkCount(order) && 0 <= i < j < |Requested(answers(n), Chunk(order, n))| ==>
      Requested(answers(n), Chunk(order, n))[i].id != Requested(answers(n), Chunk(order, n))[j].id
  }

  lemma {:induction false} TakenOnce(order: seq<JmapId>, answers: nat -> seq<View>, n: nat)
    requires n <= ChunkCount(order) && NoRepeat(order) && EachOnce(order, answers)
    ensures forall i, j :: 0 <= i < j < |Taken(order, answers, n)| ==>
              Taken(order, answers, n)[i].id != Taken(order, answers, n)[j].id
  {
    if n != 0 {
      var m: nat := n - 1;
      TakenOnce(order, answers, m);
      TakenInOrder(order, answers, m);
      RequestedInChunk(answers(m), Chunk(order, m));
      TakenIdsNext(order, n);
      var a, b := Taken(order, answers, m), Requested(answers(m), Chunk(order, m));
      var c: seq<View> := a + b;
      forall i, j | 0 <= i < j < |c| ensures c[i].id != c[j].id {
        if i < |a| <= j {
          assert a[i].id in Elements(TakenIds(order, m)) && b[j - |a|].id in Elements(Chunk(order, m));
        }
      }
    }
  }

  // -------------------------------------------------------------------------
  // The results
  // -------------------------------------------------------------------------

  /** The server only acts on what it was asked; otherwise its answers are arbitrary. */
  ghost predicate AnyServer(w: World, keyed: Keyed, env: Env)
    requires JmapUnique(w.s.db.emails)
  {
    OrdersOk(w, keyed, env) && ResponseOk(w.s.files, LocalOf(w.s.db.emails), env.destroyed, env.updated)
  }

  lemma WritebackRows(w: World, keyed: Keyed, env: Env)
    requires Inv(w.s) && JmapUnique(w.s.db.emails) && AnyServer(w, keyed, env) && w.s.db.mailboxes != map[]
    ensures Writeback(w, keyed, env).Some?
    ensures var p := Writeback(w, keyed, env).value;
            && RowsKeyed(p.s.db.emails) && LocalIs(p.s.db.emails, p.local)
            && p.ids == InScope(w.server, keyed) - env.destroyed
            && |p.s.db.emails| == |w.s.db.emails| - |env.destroyed|
            && p.st == Stats(0, 0, 0, 0, 0, |env.destroyed|, |env.updated|)
            && forall id :: id in env.destroyed ==> id !in p.local
  {
    var local := LocalOf(w.s.db.emails);
    var changes := Changes(w.s.files, local);
    LocalOfIs(w.s.db.emails);
    WritebackClosedForm(w.s, local, InScope(w.server, keyed), env.changeOrder, env.destroyed, env.updated);
    ChangesDoFit(w.s, local);
    AfterKeyed(w.s, changes, env.destroyed, env.updated);
    AfterLocalIs(w.s, local, changes, env.destroyed, env.updated);
    AfterCount(w.s, local, changes, env.destroyed, env.updated);
  }

  lemma ElementsOfListed(order: seq<JmapId>, all: set<JmapId>)
    requires Lists(order, all)
    ensures Elements(order) == all
  {}

  lemma DeletesCount(p: Pass, order: seq<JmapId>)
    requires RowsKeyed(p.s.db.emails) && LocalIs(p.s.db.emails, p.local) && Lists(order, p.local.Keys)
    ensures var d := DeletePass(p, order);
            && |d.0.db.emails| + d.1.deleted == |p.s.db.emails| + p.st.deleted
            && d.1 == p.st.(deleted := d.1.deleted)
            && RowsLeft(d.0.db.emails, p.local, p.ids)
            && (forall r :: r in d.0.db.emails ==> d.0.db.emails[r].jmapId in p.local)
  {
    var gone := p.local.Keys - p.ids;
    ElementsOfListed(order, p.local.Keys);
    DeletePassRows(p, order, gone);
    GoneRows(p.s, p.local, p.ids, gone);
  }

  lemma GoneRows(s: Store, local: map<JmapId, EmailRow>, ids: set<JmapId>, gone: set<JmapId>)
    requires RowsKeyed(s.db.emails) && LocalIs(s.db.emails, local) && gone == local.Keys - ids
    ensures var emails := AfterEmails(s.db.emails, map[], gone, {});
            && |emails| + |gone| == |s.db.emails| && RowsLeft(emails, local, ids)
            && forall r :: r in emails ==> emails[r].jmapId in local
  {
    CountGone(s, local, gone);
    KnownRows(s.db.emails, local, gone);
    DroppedRowsLeft(s.db.emails, local, ids, gone);
  }

  lemma CountGone(s: Store, local: map<JmapId, EmailRow>, gone: set<JmapId>)
    requires RowsKeyed(s.db.emails) && LocalIs(s.db.emails, local) && gone <= local.Keys
    ensures |AfterEmails(s.db.emails, map[], gone, {})| + |gone| == |s.db.emails|
  {
    AfterCount(s, local, map[], gone, {});
  }

  lemma KnownRows(emails: map<RowId, EmailRow>, local: map<JmapId, EmailRow>, gone: set<JmapId>)
    requires LocalIs(emails, local)
    ensures forall r :: r in AfterEmails(emails, map[], gone, {}) ==> AfterEmails(emails, map[], gone, {})[r].jmapId in local
  {}

  lemma DroppedRowsLeft(emails: map<RowId, EmailRow>, local: map<JmapId, EmailRow>, ids: set<JmapId>, gone: set<JmapId>)
    requires LocalIs(emails, local) && gone == local.Keys - ids
    ensures RowsLeft(AfterEmails(emails, map[], gone, {}), local, ids)
  {
    forall id | id in ids && id in local ensures local[id].id in AfterEmails(emails, map[], gone, {}) {
      assert RowAt(emails, local[id]);
    }
    forall i, j | i in local && j in local && i != j ensures local[i].id != local[j].id {
      assert RowAt(emails, local[i]) && RowAt(emails, local[j]);
    }
  }

  /** A destroyed email has no row after the tick and is not on the server, even if Email/get still echoes it. */
  lemma DestroyedStaysGone(w: World, keyed: Keyed, env: Env, id: JmapId)
    requires Inv(w.s) && JmapUnique(w.s.db.emails) && AnyServer(w, keyed, env) && w.s.db.mailboxes != map[]
    requires id in env.destroyed && Tick(w, keyed, env).Some?
    ensures var w' := Tick(w, keyed, env).value.0;
            id !in w'.server && forall r :: r in w'.s.db.emails ==> w'.s.db.emails[r].jmapId != id
  {
    WritebackRows(w, keyed, env);
    var p := Writeback(w, keyed, env).value;
    TickIs(w, keyed, env, p);
    AbsentStaysAbsent(p, keyed, env, id);
  }

  /** An id neither in the rows nor to be hydrated gets no row. */
  lemma AbsentStaysAbsent(p: Pass, keyed: Keyed, env: Env, id: JmapId)
    requires RowsKeyed(p.s.db.emails) && LocalIs(p.s.db.emails, p.local) && id !in p.local && id !in p.ids
    requires Lists(env.deleteOrder, p.local.Keys) && Lists(env.hydrationOrder, p.ids)
    ensures var d := DeletePass(p, env.deleteOrder);
            var h := Hydrate(d.0, keyed, p.local, Taken(env.hydrationOrder, env.answers, ChunkCount(env.hydrationOrder)),
                             env.supply, d.1);
            h.Some? ==> forall r :: r in h.value.0.db.emails ==> h.value.0.db.emails[r].jmapId != id
  {
    DeletesCount(p, env.deleteOrder);
    var d := DeletePass(p, env.deleteOrder);
    var views := Taken(env.hydrationOrder, env.answers, ChunkCount(env.hydrationOrder));
    TakenInOrder(env.hydrationOrder, env.answers, ChunkCount(env.hydrationOrder));
    assert forall i :: 0 <= i < |views| ==> views[i].id in p.ids;
    if Hydrate(d.0, keyed, p.local, views, env.supply, d.1).Some? {
      HydrateKeepsAbsent(d.0, keyed, p.local, views, env.supply, d.1, id);
    }
  }

  /** Rows after = rows before + created - deleted - destroyed upstream, and both upstream counters count what the server took. */
  lemma RowsConserved(w: World, keyed: Keyed, env: Env)
    requires Inv(w.s) && JmapUnique(w.s.db.emails) && AnyServer(w, keyed, env)
    requires EachOnce(env.hydrationOrder, env.answers) && Tick(w, keyed, env).Some?
    ensures var (w', st) := Tick(w, keyed, env).value;
            && |w'.s.db.emails| == |w.s.db.emails| + st.created - st.deleted - st.destroyedUpstream
            && (w.s.db.mailboxes != map[] ==> st.destroyedUpstream == |env.destroyed| && st.updatedUpstream == |env.updated|)
  {
    if w.s.db.mailboxes != map[] {
      WritebackRows(w, keyed, env);
      var p := Writeback(w, keyed, env).value;
      DeletesCount(p, env.deleteOrder);
      var d := DeletePass(p, env.deleteOrder);
      var n := ChunkCount(env.hydrationOrder);
      TakenInOrder(env.hydrationOrder, env.answers, n);
      TakenOnce(env.hydrationOrder, env.answers, n);
      HydrateCounts(d.0, keyed, p.local, p.ids, Taken(env.hydrationOrder, env.answers, n), env.supply, d.1);
      TickIs(w, keyed, env, p);
    }
  }
}
