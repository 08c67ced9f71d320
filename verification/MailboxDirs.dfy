/** What the directory operations of the mailbox sync do, path by path. */
module MailboxDirs {
  import opened Prelude
  import opened Primary
  import opened Tables
  import opened MailboxTree
  import opened MailboxDiff
  import Family2

  /** The directory itself or one below it, and what its path is under another directory. */
  ghost predicate Below(dir: string, path: string, rest: string) {
    dir == path + rest && (rest == "" || rest[0] == '/')
  }

  lemma UnderIff(dir: string, path: string)
    ensures Under(dir, path) <==> exists rest :: Below(dir, path, rest)
  {
    if Under(dir, path) {
      assert Below(dir, path, dir[|path|..]);
    }
    if rest :| Below(dir, path, rest) {
      if rest == "" { assert dir == path; } else { assert dir[|path|] == rest[0] && dir[..|path|] == path; }
    }
  }

  /** The directories above a path. */
  lemma AncestorIff(dir: string, path: string)
    ensures dir in Ancestors(path) <==> dir != path && exists rest :: Below(path, dir, rest)
  {
    if dir in Ancestors(path) {
      var n :| 0 <= n < |path| && path[n] == '/' && path[..n] == dir;
      assert Below(path, dir, path[n..]);
    }
    if rest :| Below(path, dir, rest) && dir != path {
      assert rest == "" ==> path == dir;
      assert path[|dir|] == '/' && path[..|dir|] == dir;
    }
  }

  /** Removing a directory takes everything at or below it, and nothing else. */
  lemma RemovedIff(d: Disk, path: string, dir: string, q: FilePath)
    ensures var d' := RemoveTree(d, path);
            && (dir in d'.dirs <==> dir in d.dirs && forall rest :: !Below(dir, path, rest))
            && (dir in d'.maildirs <==> dir in d.maildirs && forall rest :: !Below(dir, path, rest))
            && (q in d'.files <==> q in d.files && forall rest :: !Below(q.dir, path, rest))
            && (q in d'.files ==> d'.files[q] == d.files[q])
  {
    UnderIff(dir, path);
    UnderIff(q.dir, path);
  }

  /** Making a maildir brings it and the directories above it, and touches no mail. */
  lemma MadeIff(d: Disk, path: string, dir: string)
    ensures var d' := MakeMaildir(d, path);
            && (dir in d'.dirs <==> dir in d.dirs || exists rest :: Below(path, dir, rest))
            && (dir in d'.maildirs <==> dir in d.maildirs || dir == path)
            && d'.files == d.files && d'.faulty == d.faulty
  {
    AncestorIff(dir, path);
    if dir == path { assert Below(path, dir, ""); }
  }

  lemma MovedIs(dir: string, src: string, dst: string, rest: string)
    requires Below(dir, src, rest)
    ensures Moved(dir, src, dst) == dst + rest
  {
    UnderIff(dir, src);
    assert dir[|src|..] == rest;
  }

  lemma MovedNot(dir: string, src: string, dst: string)
    requires forall rest :: !Below(dir, src, rest)
    ensures Moved(dir, src, dst) == dir
  {
    UnderIff(dir, src);
  }

  /** The file is there after the rename as it was before, under the new directory if it was under the old one. */
  ghost predicate Follows(d: Disk, src: string, dst: string, d': Disk, q: FilePath)
    requires q in d.files
  {
    && (forall rest :: Below(q.dir, src, rest) ==> q.(dir := dst + rest) in d'.files && d'.files[q.(dir := dst + rest)] == d.files[q])
    && ((forall rest :: !Below(q.dir, src, rest)) ==> q in d'.files && d'.files[q] == d.files[q])
  }

  /** A rename takes a directory with everything below it to the new place; all the rest stays, and no mail is lost. */
  lemma RenamedIs(d: Disk, src: string, dst: string, q: FilePath, dir: string)
    requires CanRename(d, src, dst)
    ensures var d' := RenameTree(d, src, dst);
            && (q in d.files ==> Follows(d, src, dst, d', q))
            && |d'.files| == |d.files|
            && (dir in d.maildirs ==>
                  && (forall rest :: Below(dir, src, rest) ==> dst + rest in d'.maildirs)
                  && ((forall rest :: !Below(dir, src, rest)) ==> dir in d'.maildirs))
  {
    var d' := RenameTree(d, src, dst);
    Moving(d, src, dst);
    if q in d.files {
      assert MovedFile(q, src, dst) in d'.files && d'.files[MovedFile(q, src, dst)] == d.files[q];
      FileFollows(d, src, dst, d', q);
    }
    if dir in d.maildirs {
      assert Moved(dir, src, dst) in d'.maildirs;
      forall rest | Below(dir, src, rest) ensures dst + rest in d'.maildirs { MovedIs(dir, src, dst, rest); }
      if forall rest :: !Below(dir, src, rest) { MovedNot(dir, src, dst); }
    }
    RenameKeepsCount(d, src, dst);
  }

  lemma FileFollows(d: Disk, src: string, dst: string, d': Disk, q: FilePath)
    requires q in d.files && MovedFile(q, src, dst) in d'.files && d'.files[MovedFile(q, src, dst)] == d.files[q]
    ensures Follows(d, src, dst, d', q)
  {
    forall rest | Below(q.dir, src, rest)
      ensures q.(dir := dst + rest) in d'.files && d'.files[q.(dir := dst + rest)] == d.files[q]
    {
      MovedIs(q.dir, src, dst, rest);
    }
    if forall rest :: !Below(q.dir, src, rest) { MovedNot(q.dir, src, dst); }
  }

  lemma RenameKeepsCount(d: Disk, src: string, dst: string)
    requires CanRename(d, src, dst)
    ensures |RenameTree(d, src, dst).files| == |d.files|
  {
    var files := RenameTree(d, src, dst).files;
    Moving(d, src, dst);
    assert files.Keys == set q | q in d.files.Keys :: MovedFile(q, src, dst);
    InjectiveCount(d.files.Keys, src, dst);
    assert |files| == |files.Keys| && |d.files| == |d.files.Keys|;
  }

  lemma {:induction false} InjectiveCount(s: set<FilePath>, src: string, dst: string)
    requires forall p, q :: p in s && q in s && MovedFile(p, src, dst) == MovedFile(q, src, dst) ==> p == q
    ensures |set q | q in s :: MovedFile(q, src, dst)| == |s|
    decreases |s|
  {
    var image := set q | q in s :: MovedFile(q, src, dst);
    if s == {} {
      assert image == {};
    } else {
      var x :| x in s;
      InjectiveCount(s - {x}, src, dst);
      assert image == (set q | q in s - {x} :: MovedFile(q, src, dst)) + {MovedFile(x, src, dst)};
    }
  }

  /** When a directory can be renamed: the new place is neither within the old one nor holds anything. */
  lemma CanRenameIff(d: Disk, src: string, dst: string)
    ensures CanRename(d, src, dst) <==>
            && (forall rest :: !Below(dst, src, rest))
            && (forall x, rest :: x in d.dirs && Below(x, dst, rest) ==> rest == "")
            && (forall x, rest :: x in d.maildirs ==> !Below(x, dst, rest))
            && (forall q, rest :: q in d.files ==> !Below(q.dir, dst, rest))
  {
    UnderIff(dst, src);
    forall x ensures Under(x, dst) <==> exists rest :: Below(x, dst, rest) { UnderIff(x, dst); }
    forall x, rest | Below(x, dst, rest) ensures x == dst <==> rest == "" {}
  }

  /**
   Relocating a mailbox: onto itself it does nothing; if the old directory is there it is renamed or, if that cannot be,
   nothing but the parent directories is made; if it is not, the new one is made.
   */
  lemma RelocatedIs(d: Disk, src: string, dst: string, q: FilePath)
    ensures var (d', ok) := Relocate(d, src, dst);
            && (src == dst ==> ok && d' == d)
            && (src != dst && dst in d.faulty ==> !ok && d' == d)
            && (src != dst && dst !in d.faulty && src in d.dirs && ok ==>
                  && (q in d.files ==> Follows(d, src, dst, d', q)) && |d'.files| == |d.files|
                  && (src in d.maildirs ==> dst in d'.maildirs))
            && (src != dst && dst !in d.faulty && src !in d.dirs && ok ==> d'.files == d.files && d'.maildirs == d.maildirs + {dst} && dst in d'.dirs)
            && (!ok ==> d'.files == d.files && d'.maildirs == d.maildirs && d.dirs <= d'.dirs)
            && (src != dst && dst !in d.faulty ==> (!ok <==> src in MakeParents(d, dst).dirs && !CanRename(MakeParents(d, dst), src, dst)))
  {
    if src != dst && dst !in d.faulty {
      var made := MakeParents(d, dst);
      if CanRename(made, src, dst) {
        RenamedIs(made, src, dst, q, src);
        if q in d.files { FollowsSame(made, d, src, dst, RenameTree(made, src, dst), q); }
        assert Below(src, src, "");
        assert dst + "" == dst;
      }
    }
  }

  lemma FollowsSame(d: Disk, e: Disk, src: string, dst: string, d': Disk, q: FilePath)
    requires e.files == d.files && q in d.files && Follows(d, src, dst, d', q)
    ensures Follows(e, src, dst, d', q)
  {}

  // -------------------------------------------------------------------------
  // Entries
  // -------------------------------------------------------------------------

  /** Nothing is left under the path of a mailbox whose deletion went through, and all other mail is. */
  lemma DeletedIs(w: Tree, row: MailboxRow, q: FilePath)
    requires DeleteEntry(w, row).1 && row.path in w.disk.dirs
    ensures var d' := DeleteEntry(w, row).0.disk;
            && row.path !in d'.dirs && row.path !in d'.maildirs
            && (q in d'.files <==> q in w.disk.files && forall rest :: !Below(q.dir, row.path, rest))
            && row.id !in DeleteEntry(w, row).0.db.mailboxes
  {
    RemovedIff(w.disk, row.path, row.path, q);
    assert Below(row.path, row.path, "");
  }

  /** A mailbox that was made has its maildir, and no mail is touched. */
  lemma CreatedIs(w: Tree, tgt: Target, snap: Keyed, id: MailboxId)
    requires CreateEntry(w, tgt, snap, id).1
    ensures var (w', _) := CreateEntry(w, tgt, snap, id);
            && w'.disk.maildirs == w.disk.maildirs + {tgt.path} && tgt.path in w'.disk.dirs && w'.disk.files == w.disk.files
            && id in w'.db.mailboxes && w'.db.mailboxes[id].jmapId == Some(tgt.jmapId) && w'.db.mailboxes[id].path == tgt.path
  {}

  // -------------------------------------------------------------------------
  // Lengths
  // -------------------------------------------------------------------------

  /** The length deletes are ordered by is that of the path's UTF-8. */
  lemma {:induction false} PathLengthIs(path: string)
    ensures PathLength(path) == |Family2.Utf8(path)|
    decreases |path|
  {
    if path != "" {
      var most, c := path[..|path| - 1], path[|path| - 1];
      assert path == most + [c];
      PathLengthIs(most);
      Utf8Snoc(most, c);
    }
  }

  lemma {:induction false} Utf8Snoc(s: string, c: char)
    ensures |Family2.Utf8(s + [c])| == |Family2.Utf8(s)| + |Family2.EncodeChar(c)|
  {
    if s == "" {
      assert (s + [c])[0] == c && (s + [c])[1..] == "";
    } else {
      assert (s + [c])[0] == s[0] && (s + [c])[1..] == s[1..] + [c];
      Utf8Snoc(s[1..], c);
    }
  }
}
