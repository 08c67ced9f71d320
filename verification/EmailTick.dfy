/**
 One email sync tick as a function of the three stores and of everything the tick does not decide itself:
 iteration orders, the server's accept or reject of each write, its Email/get answers, and fresh identifiers.
 */
module EmailTick {
  import opened Prelude
  import opened Keywords
  import opened Primary
  import opened Tables
  import opened EmailStore

  datatype World = World(server: Server, s: Store)

  // -------------------------------------------------------------------------
  // Local drift
  // -------------------------------------------------------------------------

  predicate SameBase(p: FilePath, q: FilePath) {
    p.dir == q.dir && p.base == q.base
  }

  /** The file in the stored directory with the stored base name, whatever its suffix. */
  ghost function Locate(files: map<FilePath, Bytes>, stored: FilePath): Option<FilePath> {
    if q :| q in files && SameBase(q, stored) then Some(q) else None
  }

  datatype Change =
    | Destroy(jmapId: JmapId, actual: Option<FilePath>)
    | UpdateKeywords(jmapId: JmapId, newFlags: string, newKeywords: Stored, newPath: FilePath)

  function ChangeFor(row: EmailRow, found: Option<FilePath>): Option<Change> {
    match found
    case None => Some(Destroy(row.jmapId, None))
    case Some(q) =>
      if 'T' in q.flags then Some(Destroy(row.jmapId, Some(q)))
      else
        var disk := StandardOnly(q.flags);
        var merged := MergeKeywordsJson(row.keywords, disk);
        if merged != row.keywords then Some(UpdateKeywords(row.jmapId, disk, merged, q)) else None
  }

  ghost function ChangeOf(files: map<FilePath, Bytes>, row: EmailRow): Option<Change> {
    ChangeFor(row, Locate(files, row.path))
  }

  function LocalOf(emails: map<RowId, EmailRow>): map<JmapId, EmailRow>
    requires JmapUnique(emails)
  {
    map r | r in emails :: emails[r].jmapId := emails[r]
  }

  /** Changes found when the local rows are visited in the given order. */
  ghost function Detect(files: map<FilePath, Bytes>, local: map<JmapId, EmailRow>, order: seq<JmapId>): seq<Change>
    requires forall id :: id in order ==> id in local
  {
    if order == [] then []
    else
      var n := |order| - 1;
      Detect(files, local, order[..n]) +
      (match ChangeOf(files, local[order[n]]) case None => [] case Some(c) => [c])
  }

  // -------------------------------------------------------------------------
  // Write-back
  // -------------------------------------------------------------------------

  function PatchFor(row: EmailRow, newFlags: string): seq<PatchOp> {
    KeywordPatchOps(ExtractStandardFlags(row.keywords), newFlags)
  }

  /** The patch sent for a row: that of its keyword change, none otherwise. */
  ghost function PatchOf(files: map<FilePath, Bytes>, row: EmailRow): seq<PatchOp> {
    match ChangeOf(files, row)
    case Some(UpdateKeywords(_, flags, _, _)) => PatchFor(row, flags)
    case _ => []
  }

  ghost predicate WantsDestroy(files: map<FilePath, Bytes>, row: EmailRow) {
    ChangeOf(files, row).Some? && ChangeOf(files, row).value.Destroy?
  }

  ghost predicate WantsUpdate(files: map<FilePath, Bytes>, row: EmailRow) {
    PatchOf(files, row) != []
  }

  ghost function AskedDestroys(files: map<FilePath, Bytes>, local: map<JmapId, EmailRow>): set<JmapId> {
    set id | id in local && WantsDestroy(files, local[id])
  }

  ghost function AskedUpdates(files: map<FilePath, Bytes>, local: map<JmapId, EmailRow>): set<JmapId> {
    set id | id in local && WantsUpdate(files, local[id])
  }

  /** The server after an Email/set of which it accepted these destroys and these updates. */
  ghost function EmailSet(server: Server, files: map<FilePath, Bytes>, local: map<JmapId, EmailRow>,
                          destroyed: set<JmapId>, updated: set<JmapId>): Server
  {
    map id | id in server && id !in destroyed ::
      if id in updated && id in local
      then server[id].(keywords := ApplyPatch(server[id].keywords, PatchOf(files, local[id])))
      else server[id]
  }

  /** What the tick carries along: the store, the ids to hydrate, the local rows by server id, the counters. */
  datatype Pass = Pass(s: Store, ids: set<JmapId>, local: map<JmapId, EmailRow>, st: Stats)

  function ApplyChange(p: Pass, c: Change, destroyed: set<JmapId>, updated: set<JmapId>): Option<Pass> {
    match c
    case Destroy(id, actual) =>
      if id !in destroyed then Some(p)
      else
        var st := p.st.(destroyedUpstream := p.st.destroyedUpstream + 1);
        if id !in p.local then Some(p.(ids := p.ids - {id}, st := st))
        else
          var row := p.local[id];
          var s := DeleteEmail(p.s, if actual.Some? then row.(path := actual.value) else row);
          Some(Pass(s, p.ids - {id}, p.local - {id}, st))
    case UpdateKeywords(id, _, kws, path) =>
      if id !in updated then Some(p)
      else
        var st := p.st.(updatedUpstream := p.st.updatedUpstream + 1);
        if id !in p.local then Some(p.(st := st))
        else
          var row := p.local[id].(keywords := kws, path := path);
          match p.s.db.UpdateEmail(row)
          case None => None
          case Some(db) => Some(Pass(p.s.(db := db), p.ids, p.local[id := row], st))
  }

  function ApplyChanges(p: Pass, changes: seq<Change>, destroyed: set<JmapId>, updated: set<JmapId>): Option<Pass> {
    if changes == [] then Some(p)
    else
      var n := |changes| - 1;
      match ApplyChanges(p, changes[..n], destroyed, updated)
      case None => None
      case Some(q) => ApplyChange(q, changes[n], destroyed, updated)
  }

  // -------------------------------------------------------------------------
  // Delete pass and hydration
  // -------------------------------------------------------------------------

  /** Drop every local row whose id the server no longer lists in a synced mailbox. */
  function DeletePass(p: Pass, order: seq<JmapId>): (Store, Stats)
    requires forall id :: id in order ==> id in p.local
  {
    if order == [] then (p.s, p.st)
    else
      var n := |order| - 1;
      var (s, st) := DeletePass(p, order[..n]);
      if order[n] in p.ids then (s, st)
      else (DeleteEmail(s, p.local[order[n]]), st.(deleted := st.deleted + 1))
  }

  const CHUNK := 100

  function ChunkCount(order: seq<JmapId>): nat {
    (|order| + CHUNK - 1) / CHUNK
  }

  function ChunkEnd(order: seq<JmapId>, i: nat): nat {
    if (i + 1) * CHUNK <= |order| then (i + 1) * CHUNK else |order|
  }

  function Chunk(order: seq<JmapId>, i: nat): seq<JmapId>
    requires i < ChunkCount(order)
  {
    order[i * CHUNK..ChunkEnd(order, i)]
  }

  /** Answers that were not asked for are skipped. */
  function Requested(views: seq<View>, chunk: seq<JmapId>): seq<View> {
    if views == [] then []
    else
      var n := |views| - 1;
      Requested(views[..n], chunk) + (if views[n].id in chunk then [views[n]] else [])
  }

  /** The answers taken from the first `n` chunks. */
  function Taken(order: seq<JmapId>, answers: nat -> seq<View>, n: nat): seq<View>
    requires n <= ChunkCount(order)
  {
    if n == 0 then [] else Taken(order, answers, n - 1) + Requested(answers(n - 1), Chunk(order, n - 1))
  }

  function Hydrate(s: Store, keyed: Keyed, local: map<JmapId, EmailRow>, views: seq<View>, supply: JmapId -> Fresh,
                   st: Stats): Option<(Store, Stats)>
  {
    if views == [] then Some((s, st))
    else
      var n := |views| - 1;
      match Hydrate(s, keyed, local, views[..n], supply, st)
      case None => None
      case Some((s', st')) => ApplyEmail(s', keyed, local, views[n], supply(views[n].id), st')
  }

  // -------------------------------------------------------------------------
  // The tick
  // -------------------------------------------------------------------------

  datatype Env = Env(
    changeOrder: seq<JmapId>,
    destroyed: set<JmapId>,
    updated: set<JmapId>,
    deleteOrder: seq<JmapId>,
    hydrationOrder: seq<JmapId>,
    answers: nat -> seq<View>,
    supply: JmapId -> Fresh)

  /** Ids that some synced mailbox lists. */
  ghost function InScope(server: Server, keyed: Keyed): set<JmapId> {
    set id | id in server && exists j :: j in server[id].mailboxes && j in keyed
  }

  ghost predicate ChangeOrderOk(w: World, env: Env)
    requires JmapUnique(w.s.db.emails)
  {
    Lists(env.changeOrder, LocalOf(w.s.db.emails).Keys)
  }

  /** The pass state after write-back. */
  ghost function Writeback(w: World, keyed: Keyed, env: Env): Option<Pass>
    requires JmapUnique(w.s.db.emails) && ChangeOrderOk(w, env)
  {
    var local := LocalOf(w.s.db.emails);
    ApplyChanges(Pass(w.s, InScope(w.server, keyed), local, ZERO_STATS),
                 Detect(w.s.files, local, env.changeOrder), env.destroyed, env.updated)
  }

  /** The orders list what they visit; a tick without mailboxes visits nothing. */
  ghost predicate OrdersOk(w: World, keyed: Keyed, env: Env)
    requires JmapUnique(w.s.db.emails)
  {
    w.s.db.mailboxes != map[] ==>
      && ChangeOrderOk(w, env)
      && (Writeback(w, keyed, env).Some? ==>
            var p := Writeback(w, keyed, env).value;
            Lists(env.deleteOrder, p.local.Keys) && Lists(env.hydrationOrder, p.ids))
  }

  ghost function Tick(w: World, keyed: Keyed, env: Env): Option<(World, Stats)>
    requires JmapUnique(w.s.db.emails) && OrdersOk(w, keyed, env)
  {
    if w.s.db.mailboxes == map[] then Some((w, ZERO_STATS))
    else
      match Writeback(w, keyed, env)
      case None => None
      case Some(p) =>
        var server := EmailSet(w.server, w.s.files, LocalOf(w.s.db.emails), env.destroyed, env.updated);
        var (s, st) := DeletePass(p, env.deleteOrder);
        var views := Taken(env.hydrationOrder, env.answers, ChunkCount(env.hydrationOrder));
        match Hydrate(s, keyed, p.local, views, env.supply, st)
        case None => None
        case Some((s', st')) => Some((World(server, s'), st'))
  }

  /** The tick put together from its passes. */
  lemma TickIs(w: World, keyed: Keyed, env: Env, p: Pass)
    requires JmapUnique(w.s.db.emails) && OrdersOk(w, keyed, env) && w.s.db.mailboxes != map[]
    requires Writeback(w, keyed, env) == Some(p)
    ensures var d := DeletePass(p, env.deleteOrder);
            var h := Hydrate(d.0, keyed, p.local, Taken(env.hydrationOrder, env.answers, ChunkCount(env.hydrationOrder)),
                             env.supply, d.1);
            && (Tick(w, keyed, env).Some? <==> h.Some?)
            && (h.Some? ==>
                  && Tick(w, keyed, env).value.0.s == h.value.0 && Tick(w, keyed, env).value.1 == h.value.1
                  && Tick(w, keyed, env).value.0.server ==
                     EmailSet(w.server, w.s.files, LocalOf(w.s.db.emails), env.destroyed, env.updated))
  {
    TickOf(w, keyed, env, p, DeletePass(p, env.deleteOrder));
  }

  lemma TickOf(w: World, keyed: Keyed, env: Env, p: Pass, d: (Store, Stats))
    requires JmapUnique(w.s.db.emails) && OrdersOk(w, keyed, env) && w.s.db.mailboxes != map[]
    requires Writeback(w, keyed, env) == Some(p) && d == DeletePass(p, env.deleteOrder)
    ensures Tick(w, keyed, env) ==
            match Hydrate(d.0, keyed, p.local, Taken(env.hydrationOrder, env.answers, ChunkCount(env.hydrationOrder)),
                          env.supply, d.1)
            case None => None
            case Some((s, st)) =>
              Some((World(EmailSet(w.server, w.s.files, LocalOf(w.s.db.emails), env.destroyed, env.updated), s), st))
  {}
}
