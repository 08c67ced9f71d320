/** The stores the sync updates in place: the SQLite connection, the Maildir tree, and the server's email store. */
module Stores {
  import opened Prelude
  import opened Keywords
  import opened Primary
  import opened Tables
  import opened EmailStore
  import opened EmailTick

  /** Every method either does what the tables allow or changes nothing and says so. */
  class Database {
    var mailboxes: map<MailboxId, MailboxRow>
    var emails: map<RowId, EmailRow>
    var members: map<RowId, map<MailboxId, bool>>

    constructor ()
      ensures Tables() == Db(map[], map[], map[])
    {
      mailboxes, emails, members := map[], map[], map[];
    }

    function Tables(): Db
      reads this
    {
      Db(mailboxes, emails, members)
    }

    method InsertMailbox(m: MailboxRow) returns (ok: bool)
      modifies this
      ensures ok == old(Tables()).InsertMailbox(m).Some?
      ensures Tables() == if ok then old(Tables()).InsertMailbox(m).value else old(Tables())
    {
      ok := m.id !in mailboxes && !Tables().MailboxJmapTaken(m.jmapId, m.id) && Tables().ParentOk(m);
      if ok { mailboxes := mailboxes[m.id := m]; }
    }

    method UpdateMailbox(m: MailboxRow) returns (ok: bool)
      modifies this
      ensures ok == old(Tables()).UpdateMailbox(m).Some?
      ensures Tables() == if ok then old(Tables()).UpdateMailbox(m).value else old(Tables())
    {
      if m.id !in mailboxes { return true; }
      ok := !Tables().MailboxJmapTaken(m.jmapId, m.id) && Tables().ParentOk(m);
      if ok { mailboxes := mailboxes[m.id := m]; }
    }

    method DeleteMailbox(id: MailboxId) returns (ok: bool)
      modifies this
      ensures ok == old(Tables()).DeleteMailbox(id).Some?
      ensures Tables() == if ok then old(Tables()).DeleteMailbox(id).value else old(Tables())
    {
      if id !in mailboxes { return true; }
      ok := !Tables().MailboxReferenced(id);
      if ok {
        mailboxes := mailboxes - {id};
        members := map r | r in members :: members[r] - {id};
      }
    }

    method InsertEmail(row: EmailRow) returns (ok: bool)
      modifies this
      ensures ok == old(Tables()).InsertEmail(row).Some?
      ensures Tables() == if ok then old(Tables()).InsertEmail(row).value else old(Tables())
    {
      ok := row.id !in emails && !Tables().JmapTaken(row.jmapId, row.id) && !Tables().PathTaken(row.path, row.id)
        && row.primary in mailboxes;
      if ok { emails := emails[row.id := row]; }
    }

    method UpdateEmail(row: EmailRow) returns (ok: bool)
      modifies this
      ensures ok == old(Tables()).UpdateEmail(row).Some?
      ensures Tables() == if ok then old(Tables()).UpdateEmail(row).value else old(Tables())
    {
      if row.id !in emails { return true; }
      ok := !Tables().JmapTaken(row.jmapId, row.id) && !Tables().PathTaken(row.path, row.id) && row.primary in mailboxes;
      if ok { emails := emails[row.id := row]; }
    }

    method DeleteEmail(id: RowId)
      modifies this
      ensures Tables() == old(Tables()).DeleteEmail(id)
    {
      emails, members := emails - {id}, members - {id};
    }

    method InsertEmailMailbox(r: RowId, m: MailboxId, isPrimary: bool) returns (ok: bool)
      modifies this
      ensures ok == old(Tables()).InsertMember(r, m, isPrimary).Some?
      ensures Tables() == if ok then old(Tables()).InsertMember(r, m, isPrimary).value else old(Tables())
    {
      ok := m !in Tables().MembersOf(r) && r in emails && m in mailboxes;
      if ok { members := members[r := Tables().MembersOf(r)[m := isPrimary]]; }
    }

    method DeleteEmailMailbox(r: RowId, m: MailboxId)
      modifies this
      ensures Tables() == old(Tables()).DeleteMember(r, m)
    {
      if r in members { members := members[r := members[r] - {m}]; }
    }

    /** The memberships of the row, in no particular order. */
    method GetEmailMailboxesByEmail(r: RowId) returns (listed: seq<MailboxId>)
      ensures Lists(listed, Tables().MembersOf(r).Keys)
    {
      listed := ListSet(Tables().MembersOf(r).Keys);
    }

    /** The rows by server id. */
    method GetAllEmails() returns (local: map<JmapId, EmailRow>)
      requires JmapUnique(emails)
      ensures local == LocalOf(emails)
    {
      local := LocalOf(emails);
    }
  }

  class Maildir {
    var files: map<FilePath, Bytes>

    constructor (initial: map<FilePath, Bytes>)
      ensures files == initial
    {
      files := initial;
    }

    /** Write under tmp, then rename into cur: the file appears whole. */
    method Write(path: FilePath, bytes: Bytes)
      modifies this
      ensures files == old(files)[path := bytes]
    {
      files := files[path := bytes];
    }

    /** Rename if the source is there. */
    method Rename(src: FilePath, dst: FilePath)
      modifies this
      ensures files == RenameFile(old(files), src, dst)
    {
      if src in files { files := (files - {src})[dst := files[src]]; }
    }

    method Remove(path: FilePath)
      modifies this
      ensures files == old(files) - {path}
    {
      files := files - {path};
    }
  }

  /** The server's emails; it decides itself which writes it accepts. */
  class MailServer {
    var emails: Server

    constructor (initial: Server)
      ensures emails == initial
    {
      emails := initial;
    }

    /** Email/set: of what is asked, the ids also in `willing` and known to the server are carried out. */
    method EmailSet(destroys: set<JmapId>, updates: map<JmapId, seq<PatchOp>>, willing: set<JmapId>)
      returns (destroyed: set<JmapId>, updated: set<JmapId>)
      modifies this
      ensures destroyed == destroys * willing * old(emails).Keys && updated == updates.Keys * willing * old(emails).Keys
      ensures emails == map id | id in old(emails) && id !in destroyed ::
                          if id in updated then old(emails)[id].(keywords := ApplyPatch(old(emails)[id].keywords, updates[id]))
                          else old(emails)[id]
    {
      destroyed := destroys * willing * emails.Keys;
      updated := updates.Keys * willing * emails.Keys;
      emails := map id | id in emails && id !in destroyed ::
        if id in updated then emails[id].(keywords := ApplyPatch(emails[id].keywords, updates[id])) else emails[id];
    }
  }
}
