/** The SQLite tables as values, with the schema's unique, foreign-key and cascade rules. */
module Tables {
  import opened Prelude
  import opened Keywords
  import opened Primary

  type RowId = string

  /** `{ts}.{uuid}`: the part of a Maildir file name before the flag suffix. */
  datatype Base = Base(ts: int, uuid: string)

  /** `{dir}/cur/{ts}.{uuid}:2,{flags}` */
  datatype FilePath = FilePath(dir: string, base: Base, flags: string)

  datatype EmailRow = EmailRow(id: RowId, jmapId: JmapId, path: FilePath, primary: MailboxId, keywords: Stored)

  /** Memberships are grouped by email row; the primary key (email, mailbox) is built into the shape. */
  datatype Db = Db(
    mailboxes: map<MailboxId, MailboxRow>,
    emails: map<RowId, EmailRow>,
    members: map<RowId, map<MailboxId, bool>>)
  {
    function MembersOf(r: RowId): map<MailboxId, bool> {
      if r in members then members[r] else map[]
    }

    predicate JmapTaken(jmapId: JmapId, except: RowId) {
      exists r :: r in emails && r != except && emails[r].jmapId == jmapId
    }

    predicate PathTaken(path: FilePath, except: RowId) {
      exists r :: r in emails && r != except && emails[r].path == path
    }

    predicate MailboxJmapTaken(jmapId: Option<JmapId>, except: MailboxId) {
      jmapId.Some? && exists m :: m in mailboxes && m != except && mailboxes[m].jmapId == jmapId
    }

    predicate ParentOk(m: MailboxRow) {
      m.parentId.Some? ==> m.parentId.value in mailboxes || m.parentId.value == m.id
    }

    // ---- mailboxes --------------------------------------------------------

    function InsertMailbox(m: MailboxRow): Option<Db> {
      if m.id in mailboxes || MailboxJmapTaken(m.jmapId, m.id) || !ParentOk(m) then None
      else Some(this.(mailboxes := mailboxes[m.id := m]))
    }

    /** An update whose id matches no row changes nothing and is no error. */
    function UpdateMailbox(m: MailboxRow): Option<Db> {
      if m.id !in mailboxes then Some(this)
      else if MailboxJmapTaken(m.jmapId, m.id) || !ParentOk(m) then None
      else Some(this.(mailboxes := mailboxes[m.id := m]))
    }

    predicate MailboxReferenced(id: MailboxId) {
      || (exists m :: m in mailboxes && m != id && mailboxes[m].parentId == Some(id))
      || (exists r :: r in emails && emails[r].primary == id)
    }

    /** Memberships go with the mailbox; child mailboxes and primary emails block the delete. */
    function DeleteMailbox(id: MailboxId): Option<Db> {
      if id !in mailboxes then Some(this)
      else if MailboxReferenced(id) then None
      else Some(this.(mailboxes := mailboxes - {id}, members := map r | r in members :: members[r] - {id}))
    }

    // ---- emails -----------------------------------------------------------

    function InsertEmail(row: EmailRow): Option<Db> {
      if row.id in emails || JmapTaken(row.jmapId, row.id) || PathTaken(row.path, row.id) || row.primary !in mailboxes
      then None
      else Some(this.(emails := emails[row.id := row]))
    }

    function UpdateEmail(row: EmailRow): Option<Db> {
      if row.id !in emails then Some(this)
      else if JmapTaken(row.jmapId, row.id) || PathTaken(row.path, row.id) || row.primary !in mailboxes then None
      else Some(this.(emails := emails[row.id := row]))
    }

    /** Memberships go with the email. */
    function DeleteEmail(id: RowId): Db {
      this.(emails := emails - {id}, members := members - {id})
    }

    // ---- memberships ------------------------------------------------------

    function InsertMember(r: RowId, m: MailboxId, isPrimary: bool): Option<Db> {
      if m in MembersOf(r) || r !in emails || m !in mailboxes then None
      else Some(this.(members := members[r := MembersOf(r)[m := isPrimary]]))
    }

    function DeleteMember(r: RowId, m: MailboxId): Db {
      if r in members then this.(members := members[r := members[r] - {m}]) else this
    }

    /** What the schema declares. */
    ghost predicate Constraints() {
      && (forall m :: m in mailboxes ==> mailboxes[m].id == m && ParentOk(mailboxes[m]))
      && (forall m, n :: m in mailboxes && n in mailboxes && m != n && mailboxes[m].jmapId.Some? ==>
            mailboxes[m].jmapId != mailboxes[n].jmapId)
      && (forall r :: r in emails ==> emails[r].id == r && emails[r].primary in mailboxes)
      && (forall r, s :: r in emails && s in emails && r != s ==>
            emails[r].jmapId != emails[s].jmapId && emails[r].path != emails[s].path)
      && (forall r :: r in members ==> r in emails && members[r].Keys <= mailboxes.Keys)
    }
  }

  ghost predicate JmapUnique(emails: map<RowId, EmailRow>) {
    forall r, s :: r in emails && s in emails && r != s ==> emails[r].jmapId != emails[s].jmapId
  }

  lemma InsertMailboxKeeps(db: Db, m: MailboxRow)
    requires db.Constraints() && db.InsertMailbox(m).Some?
    ensures db.InsertMailbox(m).value.Constraints()
  {}

  lemma UpdateMailboxKeeps(db: Db, m: MailboxRow)
    requires db.Constraints() && db.UpdateMailbox(m).Some?
    ensures db.UpdateMailbox(m).value.Constraints()
  {}

  lemma DeleteMailboxKeeps(db: Db, id: MailboxId)
    requires db.Constraints() && db.DeleteMailbox(id).Some?
    ensures db.DeleteMailbox(id).value.Constraints()
  {}

  lemma MailboxOpsKeepConstraints(db: Db, m: MailboxRow, id: MailboxId)
    requires db.Constraints()
    ensures db.InsertMailbox(m).Some? ==> db.InsertMailbox(m).value.Constraints()
    ensures db.UpdateMailbox(m).Some? ==> db.UpdateMailbox(m).value.Constraints()
    ensures db.DeleteMailbox(id).Some? ==> db.DeleteMailbox(id).value.Constraints()
  {
    if db.InsertMailbox(m).Some? { InsertMailboxKeeps(db, m); }
    if db.UpdateMailbox(m).Some? { UpdateMailboxKeeps(db, m); }
    if db.DeleteMailbox(id).Some? { DeleteMailboxKeeps(db, id); }
  }

  lemma InsertEmailKeeps(db: Db, row: EmailRow)
    requires db.Constraints() && db.InsertEmail(row).Some?
    ensures db.InsertEmail(row).value.Constraints()
  {}

  lemma UpdateEmailKeeps(db: Db, row: EmailRow)
    requires db.Constraints() && db.UpdateEmail(row).Some?
    ensures db.UpdateEmail(row).value.Constraints()
  {}

  lemma EmailOpsKeepConstraints(db: Db, row: EmailRow, r: RowId)
    requires db.Constraints()
    ensures db.InsertEmail(row).Some? ==> db.InsertEmail(row).value.Constraints()
    ensures db.UpdateEmail(row).Some? ==> db.UpdateEmail(row).value.Constraints()
    ensures db.DeleteEmail(r).Constraints()
  {
    if db.InsertEmail(row).Some? { InsertEmailKeeps(db, row); }
    if db.UpdateEmail(row).Some? { UpdateEmailKeeps(db, row); }
  }

  lemma MemberOpsKeepConstraints(db: Db, r: RowId, m: MailboxId, p: bool)
    requires db.Constraints()
    ensures db.InsertMember(r, m, p).Some? ==> db.InsertMember(r, m, p).value.Constraints()
    ensures db.DeleteMember(r, m).Constraints()
  {
  }

  // -------------------------------------------------------------------------
  // What is refused
  // -------------------------------------------------------------------------

  /** The write, if the tables then keep every rule. */
  ghost function IfSound(after: Db): Option<Db> {
    if after.Constraints() then Some(after) else None
  }

  /** The mailbox gone, and its memberships with it. */
  ghost function WithoutMailbox(db: Db, id: MailboxId): Db {
    Db(db.mailboxes - {id}, db.emails, map r | r in db.members :: map m | m in db.members[r] && m != id :: db.members[r][m])
  }

  lemma InsertMailboxIff(db: Db, m: MailboxRow)
    requires db.Constraints() && m.id !in db.mailboxes
    ensures db.InsertMailbox(m) == IfSound(db.(mailboxes := db.mailboxes[m.id := m]))
  {
    var after := db.(mailboxes := db.mailboxes[m.id := m]);
    if db.MailboxJmapTaken(m.jmapId, m.id) {
      var n :| n in db.mailboxes && n != m.id && db.mailboxes[n].jmapId == m.jmapId;
      assert n in after.mailboxes && after.mailboxes[n].jmapId == after.mailboxes[m.id].jmapId;
    } else if !db.ParentOk(m) {
      assert !after.ParentOk(after.mailboxes[m.id]);
    } else {
      InsertMailboxKeeps(db, m);
    }
  }

  lemma UpdateMailboxIff(db: Db, m: MailboxRow)
    requires db.Constraints() && m.id in db.mailboxes
    ensures db.UpdateMailbox(m) == IfSound(db.(mailboxes := db.mailboxes[m.id := m]))
  {
    var after := db.(mailboxes := db.mailboxes[m.id := m]);
    if db.MailboxJmapTaken(m.jmapId, m.id) {
      var n :| n in db.mailboxes && n != m.id && db.mailboxes[n].jmapId == m.jmapId;
      assert n in after.mailboxes && after.mailboxes[n].jmapId == after.mailboxes[m.id].jmapId;
    } else if !db.ParentOk(m) {
      assert !after.ParentOk(after.mailboxes[m.id]);
    } else {
      UpdateMailboxKeeps(db, m);
    }
  }

  lemma WithoutIs(db: Db, id: MailboxId)
    requires id in db.mailboxes && !db.MailboxReferenced(id)
    ensures db.DeleteMailbox(id) == Some(WithoutMailbox(db, id))
  {
    forall r | r in db.members ensures db.members[r] - {id} == map m | m in db.members[r] && m != id :: db.members[r][m] {}
    assert db.DeleteMailbox(id).value.members == WithoutMailbox(db, id).members;
  }

  lemma ReferencedBreaks(db: Db, id: MailboxId)
    requires id in db.mailboxes && db.MailboxReferenced(id)
    ensures !WithoutMailbox(db, id).Constraints()
  {
    var after := WithoutMailbox(db, id);
    if m :| m in db.mailboxes && m != id && db.mailboxes[m].parentId == Some(id) {
      assert m in after.mailboxes && after.mailboxes[m] == db.mailboxes[m];
      ChildBreaks(after, m, id);
    } else {
      var r :| r in db.emails && db.emails[r].primary == id;
      assert r in after.emails && after.emails[r] == db.emails[r];
    }
  }

  lemma ChildBreaks(db: Db, m: MailboxId, id: MailboxId)
    requires m in db.mailboxes && m != id && id !in db.mailboxes && db.mailboxes[m].parentId == Some(id)
    ensures !db.Constraints()
  {
    if db.mailboxes[m].id == m { assert !db.ParentOk(db.mailboxes[m]); }
  }

  lemma DeleteMailboxIff(db: Db, id: MailboxId)
    requires db.Constraints() && id in db.mailboxes
    ensures db.DeleteMailbox(id) == IfSound(WithoutMailbox(db, id))
  {
    if db.MailboxReferenced(id) {
      ReferencedBreaks(db, id);
    } else {
      DeleteMailboxKeeps(db, id);
      WithoutIs(db, id);
    }
  }

  /**
   A write to the mailboxes is refused exactly when it would break a rule, or insert an id that is there; an update or
   delete of an id that is not there does nothing.
   */
  lemma MailboxRefusedIff(db: Db, m: MailboxRow, id: MailboxId)
    requires db.Constraints()
    ensures db.InsertMailbox(m) == if m.id in db.mailboxes then None else IfSound(db.(mailboxes := db.mailboxes[m.id := m]))
    ensures db.UpdateMailbox(m) == if m.id in db.mailboxes then IfSound(db.(mailboxes := db.mailboxes[m.id := m])) else Some(db)
    ensures db.DeleteMailbox(id) == if id in db.mailboxes then IfSound(WithoutMailbox(db, id)) else Some(db)
  {
    if m.id in db.mailboxes { UpdateMailboxIff(db, m); } else { InsertMailboxIff(db, m); }
    if id in db.mailboxes { DeleteMailboxIff(db, id); }
  }

  lemma EmailRowIff(db: Db, row: EmailRow)
    requires db.Constraints()
    ensures var after := db.(emails := db.emails[row.id := row]);
            after.Constraints() <==> !db.JmapTaken(row.jmapId, row.id) && !db.PathTaken(row.path, row.id) && row.primary in db.mailboxes
  {
    var after := db.(emails := db.emails[row.id := row]);
    if r :| r in db.emails && r != row.id && (db.emails[r].jmapId == row.jmapId || db.emails[r].path == row.path) {
      assert r in after.emails && after.emails[r] == db.emails[r] && after.emails[row.id] == row;
    }
    if row.primary !in db.mailboxes { assert after.emails[row.id] == row; }
  }

  /** The same of email rows; a deleted one takes its memberships along and is never refused. */
  lemma EmailRefusedIff(db: Db, row: EmailRow, r: RowId)
    requires db.Constraints()
    ensures db.InsertEmail(row) == if row.id in db.emails then None else IfSound(db.(emails := db.emails[row.id := row]))
    ensures db.UpdateEmail(row) == if row.id in db.emails then IfSound(db.(emails := db.emails[row.id := row])) else Some(db)
    ensures var after := db.DeleteEmail(r);
            && after.mailboxes == db.mailboxes && after.Constraints()
            && (forall x :: x in after.emails <==> x in db.emails && x != r) && (forall x :: x in after.emails ==> after.emails[x] == db.emails[x])
            && (forall x :: x in after.members <==> x in db.members && x != r) && (forall x :: x in after.members ==> after.members[x] == db.members[x])
  {
    EmailRowIff(db, row);
    EmailOpsKeepConstraints(db, row, r);
  }

  /** The membership, added to those there are. */
  ghost function WithMember(db: Db, r: RowId, m: MailboxId, p: bool): Db {
    db.(members := db.members[r := (if r in db.members then db.members[r] else map[])[m := p]])
  }

  lemma WithMemberBreaks(db: Db, r: RowId, m: MailboxId, p: bool)
    requires r !in db.emails || m !in db.mailboxes
    ensures !WithMember(db, r, m, p).Constraints()
  {
    var after := WithMember(db, r, m, p);
    assert r in after.members && m in after.members[r].Keys;
  }

  /** And of memberships. */
  lemma InsertMemberRefusedIff(db: Db, r: RowId, m: MailboxId, p: bool)
    requires db.Constraints()
    ensures db.InsertMember(r, m, p) == if r in db.members && m in db.members[r] then None else IfSound(WithMember(db, r, m, p))
  {
    if r in db.emails && m in db.mailboxes { MemberOpsKeepConstraints(db, r, m, p); } else { WithMemberBreaks(db, r, m, p); }
  }

  /** Deleting one takes just it. */
  lemma DeleteMemberIs(db: Db, r: RowId, m: MailboxId)
    ensures var after := db.DeleteMember(r, m);
            && after.mailboxes == db.mailboxes && after.emails == db.emails && after.members.Keys == db.members.Keys
            && forall x, y :: x in db.members ==>
                 && (y in after.members[x] <==> y in db.members[x] && !(x == r && y == m))
                 && (y in after.members[x] ==> after.members[x][y] == db.members[x][y])
  {}
}
