/** What a mailbox rename does to the emails filed there. */
module MailboxMail {
  import opened Prelude
  import opened Primary
  import opened Tables
  import opened EmailStore
  import opened EmailTick
  import opened EmailLaws
  import opened MailboxDiff

  lemma RenameKeepsOnePerUuid(d: Disk, src: string, dst: string)
    requires CanRename(d, src, dst) && OneFilePerUuid(d.files)
    ensures OneFilePerUuid(RenameTree(d, src, dst).files)
  {
    var files := RenameTree(d, src, dst).files;
    forall p, q | p in files && q in files && p.base.uuid == q.base.uuid ensures p == q {
      var p0 :| p0 in d.files && MovedFile(p0, src, dst) == p;
      var q0 :| q0 in d.files && MovedFile(q0, src, dst) == q;
    }
  }

  lemma FilesOutsideStay(d: Disk, src: string, dst: string, stored: FilePath)
    requires CanRename(d, src, dst) && !Under(stored.dir, src) && !Under(stored.dir, dst)
    ensures forall q :: SameBase(q, stored) ==> (q in RenameTree(d, src, dst).files <==> q in d.files)
  {
    var files := RenameTree(d, src, dst).files;
    forall q | SameBase(q, stored) ensures q in files <==> q in d.files {
      if q in d.files { assert MovedFile(q, src, dst) == q; }
      if q in files {
        var q0 :| q0 in d.files && MovedFile(q0, src, dst) == q;
        if Under(q0.dir, src) { MovedUnder(q0.dir, src, dst); }
      }
    }
  }

  lemma FilesInsideLeave(d: Disk, src: string, dst: string, stored: FilePath)
    requires CanRename(d, src, dst) && Under(stored.dir, src) && !Under(src, dst)
    ensures forall q :: SameBase(q, stored) ==> q !in RenameTree(d, src, dst).files
  {
    var files := RenameTree(d, src, dst).files;
    forall q | SameBase(q, stored) ensures q !in files {
      if q in files {
        var q0 :| q0 in d.files && MovedFile(q0, src, dst) == q;
        if Under(q0.dir, src) {
          MovedUnder(q0.dir, src, dst);
          Apart(q.dir, src, dst);
        }
      }
    }
  }

  /** Nothing is under two directories neither of which is under the other. */
  lemma Apart(dir: string, a: string, b: string)
    requires Under(dir, a) && Under(dir, b)
    ensures Under(a, b) || Under(b, a)
  {
    UnderIs(dir, a);
    UnderIs(dir, b);
    if |a| >= |b| { assert a == dir[..|a|] && a[..|b|] == dir[..|b|]; } else { assert b[..|a|] == dir[..|a|]; }
  }

  lemma AskedAfterRename(db: Db, d: Disk, files: map<FilePath, Bytes>, src: string, dst: string, local: map<JmapId, EmailRow>, id: JmapId)
    requires CanRename(d, src, dst) && OneFilePerUuid(d.files) && files == RenameTree(d, src, dst).files && !Under(src, dst)
    requires id in local && !Under(local[id].path.dir, dst)
    ensures id in AskedDestroys(files, local) <==> id in AskedDestroys(d.files, local) || Under(local[id].path.dir, src)
  {
    RenameKeepsOnePerUuid(d, src, dst);
    DestroyAskedIff(Store(db, d.files), local, id);
    DestroyAskedIff(Store(db, files), local, id);
    if Under(local[id].path.dir, src) {
      FilesInsideLeave(d, src, dst, local[id].path);
    } else {
      FilesOutsideStay(d, src, dst, local[id].path);
    }
  }

  lemma UpdateIsRename(w: Tree, existing: MailboxRow, row: MailboxRow)
    requires existing.path != row.path && existing.path in w.disk.dirs && CanRename(w.disk, existing.path, row.path)
    requires UpdateEntry(w, existing, row).1
    ensures UpdateEntry(w, existing, row).0.db.emails == w.db.emails
    ensures UpdateEntry(w, existing, row).0.disk.files == RenameTree(w.disk, existing.path, row.path).files
    ensures !Under(existing.path, row.path)
  {
    ParentsDoNotMatter(w.disk, existing.path, row.path);
  }

  lemma ParentsDoNotMatter(d: Disk, src: string, dst: string)
    requires CanRename(d, src, dst)
    ensures CanRename(MakeParents(d, dst), src, dst)
    ensures RenameTree(MakeParents(d, dst), src, dst).files == RenameTree(d, src, dst).files
  {
    forall x | x in Ancestors(dst) ensures !Under(x, dst) { assert |x| < |dst|; }
  }

  /** The emails whose stored directory is this one or below it. */
  function FiledUnder(local: map<JmapId, EmailRow>, path: string): set<JmapId> {
    set id | id in local && Under(local[id].path.dir, path)
  }

  lemma AskedSetsAfterRename(db: Db, d: Disk, files: map<FilePath, Bytes>, src: string, dst: string, local: map<JmapId, EmailRow>)
    requires CanRename(d, src, dst) && OneFilePerUuid(d.files) && files == RenameTree(d, src, dst).files && !Under(src, dst)
    requires forall id :: id in local ==> !Under(local[id].path.dir, dst)
    ensures AskedDestroys(files, local) == AskedDestroys(d.files, local) + FiledUnder(local, src)
  {
    forall id | id in local
      ensures id in AskedDestroys(files, local) <==> id in AskedDestroys(d.files, local) || id in FiledUnder(local, src)
    {
      AskedAfterRename(db, d, files, src, dst, local, id);
    }
    SameMembers(AskedDestroys(files, local), AskedDestroys(d.files, local), FiledUnder(local, src), local.Keys);
  }

  lemma SameMembers(a: set<JmapId>, b: set<JmapId>, c: set<JmapId>, all: set<JmapId>)
    requires a <= all && b <= all && c <= all && forall id :: id in all ==> (id in a <==> id in b || id in c)
    ensures a == b + c
  {}

  /**
   A rename on the server moves the directory and updates the mailbox row, but no email row: the next tick then asks
   the server to destroy, besides what it would have asked for, exactly every email filed under the old path.
   */
  lemma RenameQueuesDestroys(w: Tree, existing: MailboxRow, row: MailboxRow, local: map<JmapId, EmailRow>)
    requires OneFilePerUuid(w.disk.files) && JmapUnique(w.db.emails) && local == LocalOf(w.db.emails)
    requires existing.path != row.path && existing.path in w.disk.dirs && CanRename(w.disk, existing.path, row.path)
    requires forall id :: id in local ==> !Under(local[id].path.dir, row.path)
    requires UpdateEntry(w, existing, row).1
    ensures var w' := UpdateEntry(w, existing, row).0;
            && w'.db.emails == w.db.emails
            && AskedDestroys(w'.disk.files, local) == AskedDestroys(w.disk.files, local) + FiledUnder(local, existing.path)
  {
    UpdateIsRename(w, existing, row);
    AskedSetsAfterRename(w.db, w.disk, UpdateEntry(w, existing, row).0.disk.files, existing.path, row.path, local);
  }
}
