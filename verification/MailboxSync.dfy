/** The mailbox sync as it runs: directories and rows changed in place, entry by entry. */
module MailboxSync {
  import opened Prelude
  import opened Primary
  import opened Tables
  import opened EmailStore
  import opened Orphans
  import opened Stores
  import opened MailboxTree
  import opened MailboxOrder
  import opened MailboxDiff

  /** The Maildir root: every operation says whether the disk let it through. */
  class Folders {
    var dirs: set<string>
    var maildirs: set<string>
    var files: map<FilePath, Bytes>
    const faulty: set<string>

    constructor (d: Disk)
      ensures Now() == d
    {
      dirs, maildirs, files, faulty := d.dirs, d.maildirs, d.files, d.faulty;
    }

    function Now(): Disk
      reads this
    {
      Disk(dirs, maildirs, files, faulty)
    }

    method CreateMaildir(path: string) returns (ok: bool)
      modifies this
      ensures ok == (path !in faulty)
      ensures Now() == if ok then MakeMaildir(old(Now()), path) else old(Now())
    {
      ok := path !in faulty;
      if ok { dirs, maildirs := dirs + Ancestors(path) + {path}, maildirs + {path}; }
    }

    method CreateParents(path: string) returns (ok: bool)
      modifies this
      ensures ok == (path !in faulty)
      ensures Now() == if ok then MakeParents(old(Now()), path) else old(Now())
    {
      ok := path !in faulty;
      if ok { dirs := dirs + Ancestors(path); }
    }

    method RemoveDirAll(path: string) returns (ok: bool)
      modifies this
      ensures ok == (path !in faulty)
      ensures Now() == if ok then RemoveTree(old(Now()), path) else old(Now())
    {
      ok := path !in faulty;
      if ok {
        dirs, maildirs := (set x | x in dirs && !Under(x, path)), (set x | x in maildirs && !Under(x, path));
        files := map q | q in files && !Under(q.dir, path) :: files[q];
      }
    }

    method Rename(src: string, dst: string) returns (ok: bool)
      requires dst !in faulty
      modifies this
      ensures ok == CanRename(old(Now()), src, dst)
      ensures Now() == if ok then RenameTree(old(Now()), src, dst) else old(Now())
    {
      ok := CanRename(Now(), src, dst);
      if ok {
        var d := RenameTree(Now(), src, dst);
        dirs, maildirs, files := d.dirs, d.maildirs, d.files;
      }
    }
  }

  class Mailboxes {
    const db: Database
    const folders: Folders

    constructor (db: Database, folders: Folders)
      ensures this.db == db && this.folders == folders
    {
      this.db, this.folders := db, folders;
    }

    ghost function Now(): Tree
      reads this, db, folders
    {
      Tree(db.Tables(), folders.Now())
    }

    method GetMailboxByJmapId(j: JmapId) returns (r: Option<MailboxId>)
      requires db.Tables().Constraints()
      ensures r == Lookup(db.mailboxes, j)
    {
      var found := set m | m in db.mailboxes && db.mailboxes[m].jmapId == Some(j);
      if found == {} {
        assert forall m :: m in db.mailboxes && db.mailboxes[m].jmapId == Some(j) ==> m in found;
        return None;
      }
      var m :| m in found;
      r := Some(m);
    }

    method DeleteMailbox(row: MailboxRow) returns (ok: bool)
      requires db.Tables().Constraints()
      modifies db, folders
      ensures db.Tables().Constraints() && (Now(), ok) == DeleteEntry(old(Now()), row)
    {
      MailboxOpsKeepConstraints(db.Tables(), row, row.id);
      if row.path in folders.dirs {
        ok := folders.RemoveDirAll(row.path);
        if !ok { return; }
      }
      ok := db.DeleteMailbox(row.id);
    }

    /** The parent is looked up in the snapshot, then in the table. */
    method CreateMailbox(tgt: Target, snap: Keyed, id: MailboxId) returns (ok: bool)
      requires db.Tables().Constraints()
      modifies db, folders
      ensures db.Tables().Constraints() && (Now(), ok) == CreateEntry(old(Now()), tgt, snap, id)
    {
      var parent: Option<MailboxId> := None;
      if tgt.parent.Some? {
        if tgt.parent.value in snap {
          parent := Some(snap[tgt.parent.value].id);
        } else {
          parent := GetMailboxByJmapId(tgt.parent.value);
        }
      }
      var row := NewRow(id, tgt, parent);
      MailboxOpsKeepConstraints(db.Tables(), row, id);
      ok := folders.CreateMaildir(tgt.path);
      if !ok { return; }
      ok := db.InsertMailbox(row);
    }

    method RelocateDir(src: string, dst: string) returns (ok: bool)
      modifies folders
      ensures (folders.Now(), ok) == Relocate(old(folders.Now()), src, dst)
    {
      if src == dst { return true; }
      ok := folders.CreateParents(dst);
      if !ok { return; }
      if src in folders.dirs { ok := folders.Rename(src, dst); } else { ok := folders.CreateMaildir(dst); }
    }

    method UpdateMailbox(existing: MailboxRow, row: MailboxRow) returns (ok: bool)
      requires db.Tables().Constraints()
      modifies db, folders
      ensures db.Tables().Constraints() && (Now(), ok) == UpdateEntry(old(Now()), existing, row)
    {
      MailboxOpsKeepConstraints(db.Tables(), row, row.id);
      ok := RelocateDir(existing.path, row.path);
      if !ok { return; }
      ok := db.UpdateMailbox(row);
    }

    method Upsert(tgt: Target, snap: Keyed, id: MailboxId) returns (ok: bool)
      requires db.Tables().Constraints()
      modifies db, folders
      ensures db.Tables().Constraints() && (Now(), ok) == UpsertEntry(old(Now()), tgt, snap, id)
    {
      if tgt.jmapId !in snap {
        ok := CreateMailbox(tgt, snap, id);
      } else {
        var existing := snap[tgt.jmapId];
        var diff := DiffAndBuildUpdate(existing, tgt, snap);
        if diff.None? { return true; }
        ok := UpdateMailbox(existing, diff.value);
      }
    }

    method RunDeletes(snap: Keyed, js: seq<JmapId>) returns (ok: bool)
      requires db.Tables().Constraints() && forall j :: j in js ==> j in snap
      modifies db, folders
      ensures db.Tables().Constraints() && (Now(), ok) == Deletes(old(Now()), snap, js)
    {
      ok := true;
      for n := 0 to |js|
        invariant db.Tables().Constraints() && ok
        invariant (Now(), ok) == Deletes(old(Now()), snap, js[..n])
      {
        DeletesNext(old(Now()), snap, js, n);
        ok := DeleteMailbox(snap[js[n]]);
        if !ok {
          DeletesStop(old(Now()), snap, js, n + 1);
          return;
        }
      }
      assert js[..|js|] == js;
    }

    method RunUpserts(t: Targets, snap: Keyed, ids: map<JmapId, MailboxId>, order: seq<JmapId>) returns (ok: bool)
      requires db.Tables().Constraints() && forall j :: j in order ==> j in t && (j in snap || j in ids)
      modifies db, folders
      ensures db.Tables().Constraints() && (Now(), ok) == Upserts(old(Now()), t, snap, ids, order)
    {
      ok := true;
      for n := 0 to |order|
        invariant db.Tables().Constraints() && ok
        invariant (Now(), ok) == Upserts(old(Now()), t, snap, ids, order[..n])
      {
        UpsertsNext(old(Now()), t, snap, ids, order, n);
        ok := Upsert(t[order[n]], snap, if order[n] in ids then ids[order[n]] else "");
        if !ok { return; }
      }
      assert order[..|order|] == order;
    }

    /** One pass; `ids` are the ids generated for new rows. */
    method ApplyDiff(t: Targets, snap: Keyed, excluded: set<string>, ids: map<JmapId, MailboxId>)
      returns (ok: bool, ghost plan: Plan)
      requires db.Tables().Constraints()
      requires (forall j :: j in t ==> t[j].jmapId == j) && forall j :: j in ids <==> j in t && j !in snap
      modifies db, folders
      ensures PlanOk(t, snap, excluded, plan) && db.Tables().Constraints()
      ensures (Now(), ok) == Pass(old(Now()), t, snap, plan)
    {
      var js := SortDeletes(snap, ToDelete(t, snap, excluded));
      var order, _ := TopoSort(t, snap.Keys);
      RoundsListAll(t, snap.Keys, t.Keys, order);
      plan := Plan(js, order, ids);
      ok := RunDeletes(snap, js);
      if !ok { return; }
      ok := RunUpserts(t, snap, ids, order);
    }
  }

  lemma DeletesNext(w: Tree, snap: Keyed, js: seq<JmapId>, n: nat)
    requires (forall j :: j in js ==> j in snap) && n < |js| && Deletes(w, snap, js[..n]).1
    ensures Deletes(w, snap, js[..n + 1]) == DeleteEntry(Deletes(w, snap, js[..n]).0, snap[js[n]])
  {
    assert js[..n + 1][..n] == js[..n];
  }

  lemma {:induction false} DeletesStop(w: Tree, snap: Keyed, js: seq<JmapId>, n: nat)
    requires (forall j :: j in js ==> j in snap) && n <= |js| && !Deletes(w, snap, js[..n]).1
    ensures Deletes(w, snap, js) == Deletes(w, snap, js[..n])
    decreases |js|
  {
    if n == |js| {
      assert js[..n] == js;
    } else {
      var front := js[..|js| - 1];
      assert front[..n] == js[..n];
      DeletesStop(w, snap, front, n);
    }
  }

  lemma UpsertsNext(w: Tree, t: Targets, snap: Keyed, ids: map<JmapId, MailboxId>, order: seq<JmapId>, n: nat)
    requires (forall j :: j in order ==> j in t && (j in snap || j in ids)) && n < |order|
    requires Upserts(w, t, snap, ids, order[..n]).1
    ensures var entry := UpsertEntry(Upserts(w, t, snap, ids, order[..n]).0, t[order[n]], snap,
                                     if order[n] in ids then ids[order[n]] else "");
            Upserts(w, t, snap, ids, if entry.1 then order[..n + 1] else order) == entry
  {
    assert order[..n + 1][..n] == order[..n];
    if !Upserts(w, t, snap, ids, order[..n + 1]).1 { UpsertsStop(w, t, snap, ids, order, n + 1); }
  }

  lemma {:induction false} UpsertsStop(w: Tree, t: Targets, snap: Keyed, ids: map<JmapId, MailboxId>, order: seq<JmapId>, n: nat)
    requires (forall j :: j in order ==> j in t && (j in snap || j in ids)) && n <= |order|
    requires !Upserts(w, t, snap, ids, order[..n]).1
    ensures Upserts(w, t, snap, ids, order) == Upserts(w, t, snap, ids, order[..n])
    decreases |order|
  {
    if n == |order| {
      assert order[..n] == order;
    } else {
      var front := order[..|order| - 1];
      assert front[..n] == order[..n];
      UpsertsStop(w, t, snap, ids, front, n);
    }
  }

  /** Longest path first. */
  method SortDeletes(snap: Keyed, doomed: set<JmapId>) returns (js: seq<JmapId>)
    requires forall j :: j in doomed ==> j in snap
    ensures Lists(js, doomed) && DeepestFirst(snap, js)
  {
    js := [];
    var rest := doomed;
    while rest != {}
      invariant rest <= doomed && Lists(js, doomed - rest) && (forall a :: 0 <= a < |js| ==> js[a] in snap) && DeepestFirst(snap, js)
      decreases |rest|
    {
      var j :| j in rest;
      var at := 0;
      while at < |js| && PathLength(snap[js[at]].path) >= PathLength(snap[j].path)
        invariant at <= |js|
        invariant forall a :: 0 <= a < at ==> PathLength(snap[js[a]].path) >= PathLength(snap[j].path)
      {
        at := at + 1;
      }
      InsertKeepsOrder(snap, js, j, at);
      js, rest := Inserted(js, j, at), rest - {j};
    }
  }

  // -------------------------------------------------------------------------
  // Orphaned emails
  // -------------------------------------------------------------------------

  /** Rows without memberships go, each with the file at its stored path. */
  method CleanupOrphanedEmails(db: Database, maildir: Maildir) returns (cleaned: nat)
    requires db.Tables().Constraints()
    modifies db, maildir
    ensures Store(db.Tables(), maildir.files) == CleanupOrphans(old(Store(db.Tables(), maildir.files)))
    ensures cleaned == |set r | r in old(db.emails) && IsOrphan(old(db.Tables()), r)|
  {
    var orphans := set r | r in db.emails && IsOrphan(db.Tables(), r);
    cleaned := |orphans|;
    var rest := orphans;
    ghost var s := Store(db.Tables(), maildir.files);
    ghost var gone: set<RowId> := {};
    CleanedNothing(s);
    assert Halves(gone, rest, orphans);
    while rest != {}
      invariant Halves(gone, rest, orphans)
      invariant db.Tables() == CleanedOf(s, gone).db && maildir.files == CleanedOf(s, gone).files
      decreases |rest|
    {
      var r :| r in rest;
      HalvesNext(gone, rest, orphans, r);
      CleanedOne(s, gone, r);
      CleanupOne(db, maildir, r);
      gone, rest := gone + {r}, rest - {r};
    }
    assert gone == orphans;
    CleanedAll(s, orphans);
  }

  ghost predicate Halves(gone: set<RowId>, rest: set<RowId>, all: set<RowId>) {
    forall r :: (r in all <==> r in gone || r in rest) && !(r in gone && r in rest)
  }

  lemma HalvesNext(gone: set<RowId>, rest: set<RowId>, all: set<RowId>, r: RowId)
    requires Halves(gone, rest, all) && r in rest
    ensures Halves(gone + {r}, rest - {r}, all) && r in all && r !in gone
  {}

  /** The file if it is there, then the row. */
  method CleanupOne(db: Database, maildir: Maildir, r: RowId)
    requires r in db.emails
    modifies db, maildir
    ensures db.Tables() == old(db.Tables()).DeleteEmail(r)
    ensures maildir.files == old(maildir.files) - {old(db.emails)[r].path}
  {
    var path := db.emails[r].path;
    if path in maildir.files { maildir.Remove(path); }
    db.DeleteEmail(r);
  }

  /** The store without these rows and without the files at their paths. */
  function CleanedOf(s: Store, gone: set<RowId>): Store {
    Store(s.db.(emails := map r | r in s.db.emails && r !in gone :: s.db.emails[r],
                members := map r | r in s.db.members && r !in gone :: s.db.members[r]),
          map q | q in s.files && !(exists r :: r in gone && r in s.db.emails && s.db.emails[r].path == q) :: s.files[q])
  }

  lemma CleanedNothing(s: Store)
    ensures CleanedOf(s, {}) == s
  {
    assert CleanedOf(s, {}).files == s.files && CleanedOf(s, {}).db.emails == s.db.emails && CleanedOf(s, {}).db.members == s.db.members;
  }

  lemma CleanedOne(s: Store, gone: set<RowId>, r: RowId)
    requires r in s.db.emails && r !in gone
    ensures r in CleanedOf(s, gone).db.emails && CleanedOf(s, gone).db.emails[r] == s.db.emails[r]
    ensures CleanedOf(s, gone + {r}).files == CleanedOf(s, gone).files - {s.db.emails[r].path}
    ensures CleanedOf(s, gone + {r}).db == CleanedOf(s, gone).db.DeleteEmail(r)
  {
    assert CleanedOf(s, gone + {r}).db.emails == CleanedOf(s, gone).db.emails - {r};
    assert CleanedOf(s, gone + {r}).db.members == CleanedOf(s, gone).db.members - {r};
  }

  lemma CleanedAll(s: Store, orphans: set<RowId>)
    requires orphans == set r | r in s.db.emails && IsOrphan(s.db, r)
    ensures CleanedOf(s, orphans) == CleanupOrphans(s)
  {
    assert CleanedOf(s, orphans).db.emails == CleanupOrphans(s).db.emails;
    assert CleanedOf(s, orphans).db.members == CleanupOrphans(s).db.members;
    assert CleanedOf(s, orphans).files == CleanupOrphans(s).files;
  }
}
