/** Email rows without any membership, and what the cleanup before an email sync does to them. */
module Orphans {
  import opened Tables
  import opened EmailStore

  predicate IsOrphan(db: Db, r: RowId) {
    db.MembersOf(r) == map[]
  }

  /** Rows without any membership are dropped, with the file at their stored path if there is one. */
  function CleanupOrphans(s: Store): Store {
    Store(s.db.(emails := map r | r in s.db.emails && !IsOrphan(s.db, r) :: s.db.emails[r],
                members := map r | r in s.db.members && !(r in s.db.emails && IsOrphan(s.db, r)) :: s.db.members[r]),
          map q | q in s.files && !(exists r :: r in s.db.emails && IsOrphan(s.db, r) && s.db.emails[r].path == q) :: s.files[q])
  }

  /**
   A row stays exactly when some mailbox has it, and its memberships with it; a file goes exactly when it is at the
   stored path of a row that goes. Mailboxes and the other rows' data stay as they are.
   */
  lemma CleanupSays(s: Store, r: RowId, q: FilePath)
    ensures var s' := CleanupOrphans(s);
            && (r in s'.db.emails <==> r in s.db.emails && exists m :: r in s.db.members && m in s.db.members[r])
            && (r in s'.db.emails ==> s'.db.emails[r] == s.db.emails[r] && r in s'.db.members && s'.db.members[r] == s.db.members[r])
            && (q in s'.files <==> q in s.files && forall x :: x in s.db.emails && s.db.emails[x].path == q ==> exists m :: x in s.db.members && m in s.db.members[x])
            && (q in s'.files ==> s'.files[q] == s.files[q])
            && s'.db.mailboxes == s.db.mailboxes
  {
    forall x ensures IsOrphan(s.db, x) <==> !(exists m :: x in s.db.members && m in s.db.members[x]) { OrphanIff(s.db, x); }
  }

  lemma OrphanIff(db: Db, r: RowId)
    ensures IsOrphan(db, r) <==> forall m :: !(r in db.members && m in db.members[r])
  {
    if r in db.members && db.members[r] != map[] {
      assert db.members[r].Keys != {};
      var m :| m in db.members[r].Keys;
      assert m in db.members[r];
    }
  }
}
