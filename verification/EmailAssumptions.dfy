/** What the convergence theorem assumes can be met: from every state a tick may start from, some surroundings conform. */
module EmailAssumptions {
  import opened Prelude
  import opened Primary
  import opened Tables
  import opened EmailStore
  import opened EmailTick
  import opened EmailWriteback
  import opened EmailConvergence
  import opened EmailHydrate
  import opened EmailPasses
  import opened EmailTheorems

  // -------------------------------------------------------------------------
  // Orders and answers
  // -------------------------------------------------------------------------

  ghost function ListOf<T(!new)>(s: set<T>): (order: seq<T>)
    ensures Lists(order, s)
  {
    ListExists(s);
    var order :| Lists(order, s);
    order
  }

  lemma ListExists<T(!new)>(s: set<T>)
    ensures exists order: seq<T> :: Lists(order, s)
  {
    var order := CanList(s);
  }

  ghost function ViewOf(server: Server, id: JmapId): (v: View)
    requires id in server
    ensures v.id == id && Matches(v, server[id])
  {
    var v := View(id, ListOf(server[id].mailboxes), ListOf(server[id].keywords), server[id].blob, 0);
    ListIs(v.mailboxes, server[id].mailboxes);
    ListIs(v.keywords, server[id].keywords);
    v
  }

  lemma ListIs(order: seq<string>, s: set<string>)
    requires Lists(order, s)
    ensures NoRepeat(order) && Elements(order) == s
  {}

  /** The server's answer to a list of ids; of a list it does not know, nothing. */
  ghost function ViewsOf(server: Server, ids: seq<JmapId>): (views: seq<View>)
    ensures (forall id :: id in ids ==> id in server) ==>
              |views| == |ids| && forall i :: 0 <= i < |ids| ==> views[i].id == ids[i] && Matches(views[i], server[ids[i]])
  {
    if ids == [] then []
    else
      var n := |ids| - 1;
      assert ids == ids[..n] + [ids[n]];
      if ids[n] in server then ViewsOf(server, ids[..n]) + [ViewOf(server, ids[n])] else []
  }

  lemma {:induction false} RequestedAll(views: seq<View>, chunk: seq<JmapId>)
    requires forall i :: 0 <= i < |views| ==> views[i].id in chunk
    ensures Requested(views, chunk) == views
    decreases |views|
  {
    if views != [] {
      var n := |views| - 1;
      RequestedAll(views[..n], chunk);
      assert views == views[..n] + [views[n]];
    }
  }

  lemma ChunkAnswered(server: Server, chunk: seq<JmapId>)
    requires NoRepeat(chunk) && forall id :: id in chunk ==> id in server
    ensures Answers(server, Requested(ViewsOf(server, chunk), chunk), Elements(chunk))
  {
    var views := ViewsOf(server, chunk);
    RequestedAll(views, chunk);
    ViewsAnswer(server, chunk, views);
  }

  lemma ViewsAnswer(server: Server, chunk: seq<JmapId>, views: seq<View>)
    requires NoRepeat(chunk) && (forall id :: id in chunk ==> id in server) && |views| == |chunk|
    requires forall i :: 0 <= i < |chunk| ==> views[i].id == chunk[i] && Matches(views[i], server[chunk[i]])
    ensures Answers(server, views, Elements(chunk))
  {
    forall id | id in Elements(chunk) ensures exists i :: 0 <= i < |views| && views[i].id == id {
      var i :| 0 <= i < |chunk| && chunk[i] == id;
      assert views[i].id == id;
    }
  }

  ghost function Answering(server: Server, order: seq<JmapId>): nat -> seq<View> {
    (i: nat) => if i < ChunkCount(order) then ViewsOf(server, Chunk(order, i)) else []
  }

  lemma AllAnswered(server: Server, order: seq<JmapId>)
    requires NoRepeat(order) && forall id :: id in order ==> id in server
    ensures AnswersOk(server, order, Answering(server, order))
  {
    forall i: nat | i < ChunkCount(order)
      ensures Answers(server, Requested(Answering(server, order)(i), Chunk(order, i)), Elements(Chunk(order, i)))
    {
      ChunkOf(order, i, Chunk(order, i));
      ChunkAnswered(server, Chunk(order, i));
    }
  }

  lemma ChunkOf(order: seq<JmapId>, i: nat, chunk: seq<JmapId>)
    requires i < ChunkCount(order) && chunk == Chunk(order, i) && NoRepeat(order)
    ensures NoRepeat(chunk) && forall id :: id in chunk ==> id in order
  {
    var start := i * CHUNK;
    assert forall k :: 0 <= k < |chunk| ==> chunk[k] == order[start + k];
  }

  // -------------------------------------------------------------------------
  // Fresh identifiers
  // -------------------------------------------------------------------------

  lemma {:induction false} Longer(names: set<string>) returns (p: string)
    ensures forall n :: n in names ==> |n| < |p|
    decreases |names|
  {
    if names == {} {
      p := "";
    } else {
      var x :| x in names;
      var q := Longer(names - {x});
      p := q + x + ".";
      forall n | n in names ensures |n| < |p| {
        if n != x { assert n in names - {x}; }
      }
    }
  }

  function Supplying(prefix: string): JmapId -> Fresh {
    (id: JmapId) => Fresh(prefix + id, prefix + id)
  }

  lemma SupplyExists(s: Store, left: set<JmapId>) returns (supply: JmapId -> Fresh)
    ensures SupplyOk(s, left, supply)
  {
    var rows := set r | r in s.db.emails;
    var uuids := set r | r in s.db.emails :: s.db.emails[r].path.base.uuid;
    var onDisk := set q | q in s.files :: q.base.uuid;
    var names := rows + uuids + onDisk;
    var prefix := Longer(names);
    supply := Supplying(prefix);
    forall id | id in left ensures FreshFor(s, supply(id)) {
      var name := prefix + id;
      assert forall n :: n in names ==> n != name;
      assert forall r :: r in s.db.emails ==> r in names && s.db.emails[r].path.base.uuid in names;
      assert forall q :: q in s.files ==> q.base.uuid in names;
    }
    forall i, j | i in left && j in left && i != j ensures Differ(supply(i), supply(j)) {
      assert i == (prefix + i)[|prefix|..] && j == (prefix + j)[|prefix|..];
    }
  }

  // -------------------------------------------------------------------------
  // The surroundings
  // -------------------------------------------------------------------------

  /** From every state a tick may start from there is a tick that the convergence theorem speaks about. */
  lemma ConformingExists(w: World, keyed: Keyed) returns (env: Env)
    requires Sane(w, keyed) && JmapUnique(w.s.db.emails)
    ensures Conforming(w, keyed, env)
  {
    var local := LocalOf(w.s.db.emails);
    var destroyed, updated := AskedDestroys(w.s.files, local) * w.server.Keys, AskedUpdates(w.s.files, local) * w.server.Keys;
    var server := EmailSet(w.server, w.s.files, local, destroyed, updated);
    var order := ListOf(local.Keys);
    var supply := SupplyExists(w.s, InScope(w.server, keyed));
    var env0 := Env(order, destroyed, updated, [], [], (i: nat) => [], supply);
    StartsOk(w, keyed, env0, local);
    var p := Writeback(w, keyed, env0).value;
    IdsKnown(w.server, w.s.files, keyed, local, destroyed, updated);
    var hydration := ListOf(p.ids);
    env := env0.(deleteOrder := ListOf(p.local.Keys), hydrationOrder := hydration, answers := Answering(server, hydration));
    assert Writeback(w, keyed, env) == Writeback(w, keyed, env0);
    AllAnswered(server, hydration);
  }

  /** Write-back goes through and leaves ids the server knows. */
  lemma StartsOk(w: World, keyed: Keyed, env: Env, local: map<JmapId, EmailRow>)
    requires Sane(w, keyed) && JmapUnique(w.s.db.emails) && ChangeOrderOk(w, env) && local == LocalOf(w.s.db.emails)
    requires Accepted(w.server, w.s.files, local, env.destroyed, env.updated)
    ensures Writeback(w, keyed, env).Some?
    ensures Writeback(w, keyed, env).value.ids == InScope(w.server, keyed) - env.destroyed
  {
    ResponseFits(w.server, w.s.files, local, env.destroyed, env.updated);
    WritebackIs(w, keyed, env, local);
  }

  lemma ResponseFits(server: Server, files: map<FilePath, Bytes>, local: map<JmapId, EmailRow>, destroyed: set<JmapId>, updated: set<JmapId>)
    requires Accepted(server, files, local, destroyed, updated)
    ensures ResponseOk(files, local, destroyed, updated)
  {}

  lemma IdsKnown(server: Server, files: map<FilePath, Bytes>, keyed: Keyed, local: map<JmapId, EmailRow>,
                 destroyed: set<JmapId>, updated: set<JmapId>)
    ensures forall id :: id in InScope(server, keyed) - destroyed ==> id in EmailSet(server, files, local, destroyed, updated)
  {}

  /** In particular a first sync into empty tables and an empty Maildir brings agreement with any server. */
  lemma FirstSyncAgrees(w: World, keyed: Keyed) returns (env: Env)
    requires KeyedOk(w.s.db.mailboxes, keyed) && w.s.db.mailboxes != map[]
    requires w.s.db.emails == map[] && w.s.db.members == map[] && w.s.files == map[]
    ensures JmapUnique(w.s.db.emails) && Conforming(w, keyed, env)
    ensures Tick(w, keyed, env).Some? && Agreed(Tick(w, keyed, env).value.0, keyed)
  {
    EmptyIsSane(w, keyed);
    env := ConformingExists(w, keyed);
    TickConverges(w, keyed, env);
  }

  lemma EmptyIsSane(w: World, keyed: Keyed)
    requires KeyedOk(w.s.db.mailboxes, keyed) && w.s.db.mailboxes != map[]
    requires w.s.db.emails == map[] && w.s.db.members == map[] && w.s.files == map[]
    ensures Sane(w, keyed)
  {}
}
