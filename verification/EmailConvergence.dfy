/** Convergence: after one accepted tick the server, the rows and the Maildir agree. */
module EmailConvergence {
  import opened Prelude
  import opened Keywords
  import opened Primary
  import opened Tables
  import opened EmailStore
  import opened EmailTick

  // -------------------------------------------------------------------------
  // What is assumed before, what is promised after
  // -------------------------------------------------------------------------

  /** An ordered subset of the letters D, F, R, S, T. */
  ghost predicate DiskFlags(flags: string) {
    StrictlyAscending(flags) && forall c :: c in flags ==> c in {'D', 'F', 'R', 'S', 'T'}
  }

  /** Files of known rows carry ordinary suffixes and, while the email is on the server, its content. */
  ghost predicate DiskOk(server: Server, emails: map<RowId, EmailRow>, files: map<FilePath, Bytes>) {
    forall r, q :: r in emails && q in files && SameBase(q, emails[r].path) ==>
      && DiskFlags(q.flags)
      && (emails[r].jmapId in server ==> files[q] == server[emails[r].jmapId].blob)
  }

  /**
   A state a tick may start from. Files may be missing, renamed or flagged by the user, memberships may be
   incomplete after a crash.
   */
  ghost predicate Sane(w: World, keyed: Keyed) {
    Inv(w.s) && KeyedOk(w.s.db.mailboxes, keyed) && w.s.db.mailboxes != map[] && DiskOk(w.server, w.s.db.emails, w.s.files)
  }

  /** The file of every row is where the row says, with the server's content. */
  ghost predicate Placed(server: Server, s: Store) {
    forall r :: r in s.db.emails ==>
      && s.db.emails[r].path in s.files
      && (s.db.emails[r].jmapId in server ==> s.files[s.db.emails[r].path] == server[s.db.emails[r].jmapId].blob)
  }

  /** The same for the rows whose email the server has. */
  ghost predicate KnownPlaced(server: Server, s: Store) {
    forall r :: r in s.db.emails && s.db.emails[r].jmapId in server ==>
      && s.db.emails[r].path in s.files
      && s.files[s.db.emails[r].path] == server[s.db.emails[r].jmapId].blob
  }

  /** Row, file and memberships are what the server says. */
  ghost predicate Settled(server: Server, s: Store, keyed: Keyed, row: EmailRow) {
    && row.jmapId in server
    && var e := server[row.jmapId];
       && row.keywords == AllTrue(e.keywords) && row.path.flags == FlagString(e.keywords)
       && row.path in s.files && s.files[row.path] == e.blob
       && row.primary in s.db.mailboxes && IsPrimaryChoice(e.mailboxes, keyed, s.db.mailboxes[row.primary])
       && row.path.dir == s.db.mailboxes[row.primary].path
       && s.db.MembersOf(row.id) == ExpectedMembers(e.mailboxes, keyed, row.primary)
  }

  ghost predicate HasSettled(server: Server, s: Store, keyed: Keyed, id: JmapId) {
    exists r :: r in s.db.emails && s.db.emails[r].jmapId == id && Settled(server, s, keyed, s.db.emails[r])
  }

  /** The three stores agree: one settled row and one file per email in scope, and no other row. */
  ghost predicate Agreed(w: World, keyed: Keyed) {
    && Inv(w.s) && KeyedOk(w.s.db.mailboxes, keyed) && w.s.db.mailboxes != map[]
    && (forall id :: id in InScope(w.server, keyed) ==> HasSettled(w.server, w.s, keyed, id))
    && (forall r :: r in w.s.db.emails ==> w.s.db.emails[r].jmapId in InScope(w.server, keyed))
  }

  ghost predicate IsRowPath(emails: map<RowId, EmailRow>, q: FilePath) {
    exists r :: r in emails && emails[r].path == q
  }

  /** The files no row points at, with their content. */
  ghost predicate StraysAre(s: Store, strays: map<FilePath, Bytes>) {
    && (forall q :: q in s.files && !IsRowPath(s.db.emails, q) ==> q in strays)
    && (forall q :: q in strays ==> q in s.files && s.files[q] == strays[q] && !IsRowPath(s.db.emails, q))
  }

  /** A row whose email is on the server claims its file by directory and base name, another row by its full path. */
  ghost predicate Claimed(server: Server, emails: map<RowId, EmailRow>, q: FilePath) {
    exists r :: r in emails && SameBase(q, emails[r].path) && (emails[r].jmapId in server || q == emails[r].path)
  }

  /** The files that no row can claim. */
  ghost function Strays(w: World): map<FilePath, Bytes> {
    map q | q in w.s.files && !Claimed(w.server, w.s.db.emails, q) :: w.s.files[q]
  }

  // -------------------------------------------------------------------------
  // Writing one email whole keeps everything else
  // -------------------------------------------------------------------------

  /** The row fits beside the other rows. */
  ghost predicate Fits(s: Store, row: EmailRow) {
    && row.primary in s.db.mailboxes && RowOk(row) && row.path.dir == s.db.mailboxes[row.primary].path
    && forall r :: r in s.db.emails && r != row.id ==>
         s.db.emails[r].jmapId != row.jmapId && s.db.emails[r].path.base.uuid != row.path.base.uuid
  }

  lemma PutInv(s: Store, row: EmailRow, ms: map<MailboxId, bool>, blob: Bytes)
    requires Inv(s) && Fits(s, row)
    requires ms.Keys <= s.db.mailboxes.Keys && forall m :: m in ms ==> ms[m] == (m == row.primary)
    ensures Inv(Put(s, row, ms, blob))
  {
    var s' := Put(s, row, ms, blob);
    assert RowsInv(s'.db);
    assert MembersInv(s'.db) by { PutMembersInv(s, row, ms, blob); }
    assert OneFilePerUuid(s'.files);
  }

  lemma PutMembersInv(s: Store, row: EmailRow, ms: map<MailboxId, bool>, blob: Bytes)
    requires MembersInv(s.db)
    requires ms.Keys <= s.db.mailboxes.Keys && forall m :: m in ms ==> ms[m] == (m == row.primary)
    ensures MembersInv(Put(s, row, ms, blob).db)
  {}

  lemma PutPlaced(server: Server, s: Store, row: EmailRow, ms: map<MailboxId, bool>, blob: Bytes)
    requires Placed(server, s) && Fits(s, row)
    requires row.jmapId in server ==> blob == server[row.jmapId].blob
    ensures Placed(server, Put(s, row, ms, blob))
  {}

  lemma PutKeepsSettled(server: Server, s: Store, keyed: Keyed, row: EmailRow, ms: map<MailboxId, bool>, blob: Bytes,
                        id: JmapId)
    requires RowsKeyed(s.db.emails) && Fits(s, row) && id != row.jmapId && HasSettled(server, s, keyed, id)
    requires row.id in s.db.emails ==> s.db.emails[row.id].jmapId == row.jmapId
    ensures HasSettled(server, Put(s, row, ms, blob), keyed, id)
  {
    var s' := Put(s, row, ms, blob);
    var r :| r in s.db.emails && s.db.emails[r].jmapId == id && Settled(server, s, keyed, s.db.emails[r]);
    assert r != row.id && s.db.emails[r].path.base.uuid != row.path.base.uuid;
    assert r in s'.db.emails && s'.db.emails[r] == s.db.emails[r];
    assert s'.db.MembersOf(r) == s.db.MembersOf(r);
    assert Settled(server, s', keyed, s'.db.emails[r]);
  }

  /** The row a view asks for, with memberships and content, is settled once written. */
  lemma PutSettles(server: Server, s: Store, keyed: Keyed, v: View, mb: MailboxRow, row: EmailRow)
    requires KeyedOk(s.db.mailboxes, keyed) && v.id in server && Matches(v, server[v.id])
    requires PickPrimary(v.mailboxes, keyed) == Some(mb)
    requires row.jmapId == v.id && row.primary == mb.id && row.path.dir == mb.path
    requires row.keywords == SerializeKeywords(v.keywords) && row.path.flags == ViewFlags(v)
    ensures HasSettled(server, Put(s, row, ExpectedMembers(Elements(v.mailboxes), keyed, mb.id), v.blob), keyed, v.id)
    ensures RowOk(row) && mb.id in s.db.mailboxes && s.db.mailboxes[mb.id] == mb
    ensures exists j :: j in v.mailboxes && j in keyed
  {
    PickPrimaryChooses(v.mailboxes, keyed);
    ViewWrites(v, server[v.id]);
    var s' := Put(s, row, ExpectedMembers(Elements(v.mailboxes), keyed, mb.id), v.blob);
    var j :| j in v.mailboxes && j in keyed && keyed[j] == mb;
    assert s'.db.emails[row.id] == row;
    assert Settled(server, s', keyed, row);
  }
}
