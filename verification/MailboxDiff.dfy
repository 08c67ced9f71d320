/** One pass of the mailbox diff as a function: ordered deletes, then creates and updates, under the schema's rules. */
module MailboxDiff {
  import opened Prelude
  import opened Primary
  import opened Tables
  import opened MailboxTree
  import opened MailboxOrder

  // -------------------------------------------------------------------------
  // Directories
  // -------------------------------------------------------------------------

  /**
   Mailbox directories, those of them that are maildirs (with cur, new and tmp), and the mail in them; disk operations
   fail on the faulty paths.
   */
  datatype Disk = Disk(dirs: set<string>, maildirs: set<string>, files: map<FilePath, Bytes>, faulty: set<string>)

  /** The directory itself or one below it. */
  predicate Under(dir: string, path: string) {
    dir == path || (|dir| > |path| && dir[..|path|] == path && dir[|path|] == '/')
  }

  function Ancestors(path: string): set<string> {
    set n | 0 <= n < |path| && path[n] == '/' :: path[..n]
  }

  function MakeParents(d: Disk, path: string): Disk {
    d.(dirs := d.dirs + Ancestors(path))
  }

  function MakeMaildir(d: Disk, path: string): Disk {
    d.(dirs := d.dirs + Ancestors(path) + {path}, maildirs := d.maildirs + {path})
  }

  function RemoveTree(d: Disk, path: string): Disk {
    d.(dirs := (set x | x in d.dirs && !Under(x, path)),
       maildirs := (set x | x in d.maildirs && !Under(x, path)),
       files := map q | q in d.files && !Under(q.dir, path) :: d.files[q])
  }

  /** Where a directory is after the rename. */
  function Moved(dir: string, src: string, dst: string): string {
    if Under(dir, src) then dst + dir[|src|..] else dir
  }

  function MovedFile(q: FilePath, src: string, dst: string): FilePath {
    q.(dir := Moved(q.dir, src, dst))
  }

  /** A directory cannot be renamed into itself, nor onto one that holds something; an empty one is replaced. */
  predicate CanRename(d: Disk, src: string, dst: string) {
    && !Under(dst, src)
    && (forall x :: x in d.dirs && Under(x, dst) ==> x == dst)
    && (forall x :: x in d.maildirs ==> !Under(x, dst))
    && (forall q :: q in d.files ==> !Under(q.dir, dst))
  }

  function RenameTree(d: Disk, src: string, dst: string): Disk
    requires CanRename(d, src, dst)
  {
    Moving(d, src, dst);
    d.(dirs := (set x | x in d.dirs :: Moved(x, src, dst)) + Ancestors(dst),
       maildirs := (set x | x in d.maildirs :: Moved(x, src, dst)),
       files := map q | q in d.files :: MovedFile(q, src, dst) := d.files[q])
  }

  /** Nothing lands on anything else. */
  lemma Moving(d: Disk, src: string, dst: string)
    requires CanRename(d, src, dst)
    ensures forall p, q :: p in d.files && q in d.files && MovedFile(p, src, dst) == MovedFile(q, src, dst) ==> p == q
  {
    forall p, q | p in d.files && q in d.files && MovedFile(p, src, dst) == MovedFile(q, src, dst) ensures p == q {
      MovedApart(p.dir, q.dir, src, dst);
    }
  }

  lemma MovedUnder(dir: string, src: string, dst: string)
    requires Under(dir, src)
    ensures Under(Moved(dir, src, dst), dst) && Moved(dir, src, dst)[|dst|..] == dir[|src|..]
  {
    var to := dst + dir[|src|..];
    assert to[..|dst|] == dst;
    if dir == src { assert to == dst; } else { assert to[|dst|] == dir[|src|]; }
  }

  lemma MovedApart(p: string, q: string, src: string, dst: string)
    requires !Under(p, dst) && !Under(q, dst) && Moved(p, src, dst) == Moved(q, src, dst)
    ensures p == q
  {
    if Under(p, src) { MovedUnder(p, src, dst); UnderIs(p, src); }
    if Under(q, src) { MovedUnder(q, src, dst); UnderIs(q, src); }
  }

  lemma UnderIs(dir: string, path: string)
    requires Under(dir, path)
    ensures dir == path + dir[|path|..]
  {}

  // -------------------------------------------------------------------------
  // Rows
  // -------------------------------------------------------------------------

  datatype Tree = Tree(db: Db, disk: Disk)

  /** Exactly the table's rows that have a server id. */
  ghost predicate IsKeyed(mailboxes: map<MailboxId, MailboxRow>, k: Keyed) {
    && (forall j :: j in k ==> k[j].jmapId == Some(j) && k[j].id in mailboxes && mailboxes[k[j].id] == k[j])
    && (forall m :: m in mailboxes ==> mailboxes[m].id == m)
    && (forall m :: m in mailboxes && mailboxes[m].jmapId.Some? ==> mailboxes[m].jmapId.value in k && k[mailboxes[m].jmapId.value] == mailboxes[m])
  }

  function ParentInSnapshot(tgt: Target, snap: Keyed): Option<MailboxId> {
    if tgt.parent.Some? && tgt.parent.value in snap then Some(snap[tgt.parent.value].id) else None
  }

  function DiffAndBuildUpdate(existing: MailboxRow, tgt: Target, snap: Keyed): Option<MailboxRow> {
    var parent := ParentInSnapshot(tgt, snap);
    if existing.name == tgt.name && existing.parentId == parent && existing.role == tgt.role &&
       existing.sortOrder == tgt.sortOrder && existing.path == tgt.path
    then None
    else Some(MailboxRow(existing.id, existing.jmapId, tgt.name, parent, tgt.role, tgt.sortOrder, tgt.path))
  }

  /** The row the target asks for, with its parent looked up in the snapshot. */
  function Wanted(existing: MailboxRow, tgt: Target, snap: Keyed): MailboxRow {
    MailboxRow(existing.id, existing.jmapId, tgt.name, ParentInSnapshot(tgt, snap), tgt.role, tgt.sortOrder, tgt.path)
  }

  lemma DiffGivesWanted(existing: MailboxRow, tgt: Target, snap: Keyed)
    ensures DiffAndBuildUpdate(existing, tgt, snap) ==
            if Wanted(existing, tgt, snap) == existing then None else Some(Wanted(existing, tgt, snap))
  {}

  ghost function Lookup(mailboxes: map<MailboxId, MailboxRow>, j: JmapId): Option<MailboxId> {
    if m :| m in mailboxes && mailboxes[m].jmapId == Some(j) then Some(m) else None
  }

  /** The snapshot first, then the table, which has what this pass created. */
  ghost function ParentForCreate(tgt: Target, snap: Keyed, mailboxes: map<MailboxId, MailboxRow>): Option<MailboxId> {
    if tgt.parent.None? then None
    else if tgt.parent.value in snap then Some(snap[tgt.parent.value].id)
    else Lookup(mailboxes, tgt.parent.value)
  }

  function NewRow(id: MailboxId, tgt: Target, parent: Option<MailboxId>): MailboxRow {
    MailboxRow(id, Some(tgt.jmapId), tgt.name, parent, tgt.role, tgt.sortOrder, tgt.path)
  }

  // -------------------------------------------------------------------------
  // Entries: each changes the directory first, then the row
  // -------------------------------------------------------------------------

  function DeleteEntry(w: Tree, row: MailboxRow): (Tree, bool) {
    if row.path in w.disk.dirs && row.path in w.disk.faulty then (w, false)
    else
      var removed := if row.path in w.disk.dirs then w.(disk := RemoveTree(w.disk, row.path)) else w;
      match w.db.DeleteMailbox(row.id)
      case None => (removed, false)
      case Some(db) => (removed.(db := db), true)
  }

  ghost function CreateEntry(w: Tree, tgt: Target, snap: Keyed, id: MailboxId): (Tree, bool) {
    if tgt.path in w.disk.faulty then (w, false)
    else
      var made := w.(disk := MakeMaildir(w.disk, tgt.path));
      match w.db.InsertMailbox(NewRow(id, tgt, ParentForCreate(tgt, snap, w.db.mailboxes)))
      case None => (made, false)
      case Some(db) => (made.(db := db), true)
  }

  /** The parent directories are made before anything is looked up, and stay when the rename fails. */
  function Relocate(d: Disk, src: string, dst: string): (Disk, bool) {
    if src == dst then (d, true)
    else if dst in d.faulty then (d, false)
    else
      var made := MakeParents(d, dst);
      if src !in made.dirs then (MakeMaildir(made, dst), true)
      else if CanRename(made, src, dst) then (RenameTree(made, src, dst), true)
      else (made, false)
  }

  function UpdateEntry(w: Tree, existing: MailboxRow, row: MailboxRow): (Tree, bool) {
    var (disk, ok) := Relocate(w.disk, existing.path, row.path);
    if !ok then (w.(disk := disk), false)
    else
      match w.db.UpdateMailbox(row)
      case None => (w.(disk := disk), false)
      case Some(db) => (Tree(db, disk), true)
  }

  ghost function UpsertEntry(w: Tree, tgt: Target, snap: Keyed, id: MailboxId): (Tree, bool) {
    if tgt.jmapId !in snap then CreateEntry(w, tgt, snap, id)
    else
      match DiffAndBuildUpdate(snap[tgt.jmapId], tgt, snap)
      case None => (w, true)
      case Some(row) => UpdateEntry(w, snap[tgt.jmapId], row)
  }

  // -------------------------------------------------------------------------
  // A pass
  // -------------------------------------------------------------------------

  function Deletes(w: Tree, snap: Keyed, js: seq<JmapId>): (Tree, bool)
    requires forall j :: j in js ==> j in snap
  {
    if js == [] then (w, true)
    else
      var n := |js| - 1;
      var (w', ok) := Deletes(w, snap, js[..n]);
      if ok then DeleteEntry(w', snap[js[n]]) else (w', false)
  }

  ghost function Upserts(w: Tree, t: Targets, snap: Keyed, ids: map<JmapId, MailboxId>, order: seq<JmapId>): (Tree, bool)
    requires forall j :: j in order ==> j in t && (j in snap || j in ids)
  {
    if order == [] then (w, true)
    else
      var n := |order| - 1;
      var (w', ok) := Upserts(w, t, snap, ids, order[..n]);
      if ok then UpsertEntry(w', t[order[n]], snap, if order[n] in ids then ids[order[n]] else "") else (w', false)
  }

  function ToDelete(t: Targets, snap: Keyed, excluded: set<string>): set<JmapId> {
    set j | j in snap && j !in t && snap[j].path !in excluded
  }

  ghost predicate DeepestFirst(snap: Keyed, js: seq<JmapId>)
    requires forall j :: j in js ==> j in snap
  {
    forall a, b :: 0 <= a < b < |js| ==> PathLength(snap[js[a]].path) >= PathLength(snap[js[b]].path)
  }

  /** In bytes of UTF-8, counted from the number of code units each character takes. */
  function PathLength(path: string): nat {
    if path == "" then 0 else PathLength(path[..|path| - 1]) + CharLength(path[|path| - 1])
  }

  function CharLength(c: char): (n: nat)
    ensures 1 <= n <= 4
  {
    var x := c as int;
    if x < 0x80 then 1 else if x < 0x800 then 2 else if x < 0x1_0000 then 3 else 4
  }

  /** The run of a pass: what it deletes and in which order, the order of the rest, and the ids for new rows. */
  datatype Plan = Plan(deletes: seq<JmapId>, order: seq<JmapId>, ids: map<JmapId, MailboxId>)

  ghost predicate PlanOk(t: Targets, snap: Keyed, excluded: set<string>, p: Plan) {
    && (forall j :: j in t ==> t[j].jmapId == j)
    && Lists(p.deletes, ToDelete(t, snap, excluded)) && DeepestFirst(snap, p.deletes)
    && Rounds(t, snap.Keys, t.Keys, p.order) && Lists(p.order, t.Keys)
    && (forall j :: j in p.ids <==> j in t && j !in snap)
  }

  ghost function Pass(w: Tree, t: Targets, snap: Keyed, p: Plan): (Tree, bool)
    requires forall j :: j in p.deletes ==> j in snap
    requires forall j :: j in p.order ==> j in t && (j in snap || j in p.ids)
  {
    var (w', ok) := Deletes(w, snap, p.deletes);
    if ok then Upserts(w', t, snap, p.ids, p.order) else (w', false)
  }

  // -------------------------------------------------------------------------
  // Longest path first
  // -------------------------------------------------------------------------

  function Inserted(js: seq<JmapId>, j: JmapId, at: nat): seq<JmapId>
    requires at <= |js|
  {
    js[..at] + [j] + js[at..]
  }

  lemma InsertedHas(js: seq<JmapId>, j: JmapId, at: nat)
    requires j !in js && NoRepeat(js) && at <= |js|
    ensures (forall i :: i in Inserted(js, j, at) <==> i == j || i in js) && NoRepeat(Inserted(js, j, at))
  {
    var longer := Inserted(js, j, at);
    assert js == js[..at] + js[at..];
    assert forall a :: 0 <= a < |longer| ==> longer[a] == if a < at then js[a] else if a == at then j else js[a - 1];
  }

  lemma InsertKeepsOrder(snap: Keyed, js: seq<JmapId>, j: JmapId, at: nat)
    requires (forall i :: i in js ==> i in snap) && j in snap && j !in js && NoRepeat(js) && DeepestFirst(snap, js) && at <= |js|
    requires forall a :: 0 <= a < at ==> PathLength(snap[js[a]].path) >= PathLength(snap[j].path)
    requires at < |js| ==> PathLength(snap[js[at]].path) <= PathLength(snap[j].path)
    ensures var longer := Inserted(js, j, at);
            (forall i :: i in longer <==> i == j || i in js) && NoRepeat(longer) && DeepestFirst(snap, longer)
  {
    var longer := Inserted(js, j, at);
    InsertedHas(js, j, at);
    forall a, b | 0 <= a < b < |longer| ensures PathLength(snap[longer[a]].path) >= PathLength(snap[longer[b]].path) {
      var x, y := (if a < at then a else a - 1), (if b < at then b else b - 1);
      if a == at {
        assert longer[b] == js[y] && js[y] in js && js[at] in js;
      } else if b == at {
        assert longer[a] == js[x];
      } else {
        assert longer[a] == js[x] && longer[b] == js[y];
      }
    }
  }
}
