/**
 The local side of the email sync: rows plus Maildir files, and the four completed operations on one email.
 An operation yields None exactly when SQLite would refuse one of its writes.
 */
module EmailStore {
  import opened Prelude
  import opened Keywords
  import opened Primary
  import opened Tables

  datatype Store = Store(db: Db, files: map<FilePath, Bytes>)

  datatype ServerEmail = ServerEmail(mailboxes: set<JmapId>, keywords: set<Keyword>, blob: Bytes)

  type Server = map<JmapId, ServerEmail>

  /** One entry of an Email/get answer, with its blob. */
  datatype View = View(id: JmapId, mailboxes: seq<JmapId>, keywords: seq<Keyword>, blob: Bytes, receivedAt: int)

  /** Freshly generated identifiers for one insert. */
  datatype Fresh = Fresh(rowId: RowId, uuid: string)

  datatype Stats = Stats(created: nat, updated: nat, moved: nat, deleted: nat, bytes: nat,
                         destroyedUpstream: nat, updatedUpstream: nat)

  const ZERO_STATS := Stats(0, 0, 0, 0, 0, 0, 0)

  // -------------------------------------------------------------------------
  // Memberships
  // -------------------------------------------------------------------------

  function InsertMembers(db: Db, r: RowId, primary: MailboxId, ids: seq<JmapId>, keyed: Keyed): Option<Db>
    decreases |ids|
  {
    if ids == [] then Some(db)
    else if ids[0] !in keyed then InsertMembers(db, r, primary, ids[1..], keyed)
    else
      match db.InsertMember(r, keyed[ids[0]].id, keyed[ids[0]].id == primary)
      case None => None
      case Some(next) => InsertMembers(next, r, primary, ids[1..], keyed)
  }

  /** All memberships of the row deleted. */
  function ClearMembers(db: Db, r: RowId): Db {
    if r in db.members then db.(members := db.members[r := map[]]) else db
  }

  function ReconcileMembers(db: Db, r: RowId, primary: MailboxId, ids: seq<JmapId>, keyed: Keyed): Option<Db> {
    InsertMembers(ClearMembers(db, r), r, primary, ids, keyed)
  }

  function ExpectedIds(ids: set<JmapId>, keyed: Keyed): set<MailboxId> {
    set j | j in ids && j in keyed :: keyed[j].id
  }

  function ExpectedMembers(ids: set<JmapId>, keyed: Keyed, primary: MailboxId): map<MailboxId, bool> {
    map m | m in ExpectedIds(ids, keyed) :: m == primary
  }

  predicate MembershipsDiffer(db: Db, r: RowId, ids: seq<JmapId>, keyed: Keyed) {
    db.MembersOf(r).Keys != ExpectedIds(Elements(ids), keyed)
  }

  // -------------------------------------------------------------------------
  // Insert, update in place, move, delete
  // -------------------------------------------------------------------------

  function RenameFile(files: map<FilePath, Bytes>, src: FilePath, dst: FilePath): map<FilePath, Bytes> {
    if src in files then (files - {src})[dst := files[src]] else files
  }

  function ViewFlags(v: View): string {
    KeywordsToFlagString(v.keywords)
  }

  function InsertedRow(v: View, mb: MailboxRow, f: Fresh): EmailRow {
    EmailRow(f.rowId, v.id, FilePath(mb.path, Base(v.receivedAt, f.uuid), ViewFlags(v)), mb.id,
             SerializeKeywords(v.keywords))
  }

  function InsertEmail(s: Store, v: View, mb: MailboxRow, keyed: Keyed, f: Fresh): Option<Store> {
    var row := InsertedRow(v, mb, f);
    match s.db.InsertEmail(row)
    case None => None
    case Some(db) =>
      match InsertMembers(db, row.id, mb.id, v.mailboxes, keyed)
      case None => None
      case Some(db') => Some(Store(db', s.files[row.path := v.blob]))
  }

  function UpdatedRow(existing: EmailRow, v: View): EmailRow {
    existing.(path := existing.path.(flags := ViewFlags(v)), keywords := SerializeKeywords(v.keywords))
  }

  function MovedRow(existing: EmailRow, v: View, mb: MailboxRow): EmailRow {
    existing.(path := FilePath(mb.path, Base(v.receivedAt, existing.path.base.uuid), ViewFlags(v)),
              primary := mb.id, keywords := SerializeKeywords(v.keywords))
  }

  /** Rename the file if it is there, rewrite the row, reconcile the memberships. */
  function Rewrite(s: Store, existing: EmailRow, row: EmailRow, ids: seq<JmapId>, keyed: Keyed): Option<Store> {
    var files := if row.path != existing.path then RenameFile(s.files, existing.path, row.path) else s.files;
    match s.db.UpdateEmail(row)
    case None => None
    case Some(db) =>
      match ReconcileMembers(db, row.id, row.primary, ids, keyed)
      case None => None
      case Some(db') => Some(Store(db', files))
  }

  function UpdateInPlace(s: Store, existing: EmailRow, v: View, keyed: Keyed): Option<Store> {
    Rewrite(s, existing, UpdatedRow(existing, v), v.mailboxes, keyed)
  }

  function MoveEmail(s: Store, existing: EmailRow, v: View, mb: MailboxRow, keyed: Keyed): Option<Store> {
    Rewrite(s, existing, MovedRow(existing, v, mb), v.mailboxes, keyed)
  }

  function DeleteEmail(s: Store, row: EmailRow): Store {
    Store(s.db.DeleteEmail(row.id), s.files - {row.path})
  }

  // -------------------------------------------------------------------------
  // Three-state dispatch
  // -------------------------------------------------------------------------

  predicate NeedsUpdate(s: Store, existing: EmailRow, v: View, keyed: Keyed) {
    || existing.path.flags != ViewFlags(v)
    || existing.keywords != SerializeKeywords(v.keywords)
    || MembershipsDiffer(s.db, existing.id, v.mailboxes, keyed)
  }

  function ApplyEmail(s: Store, keyed: Keyed, local: map<JmapId, EmailRow>, v: View, f: Fresh, st: Stats)
    : Option<(Store, Stats)>
  {
    match PickPrimary(v.mailboxes, keyed)
    case None =>
      if v.id in local then Some((DeleteEmail(s, local[v.id]), st.(deleted := st.deleted + 1)))
      else Some((s, st))
    case Some(mb) =>
      if v.id !in local then
        match InsertEmail(s, v, mb, keyed, f)
        case None => None
        case Some(s') => Some((s', st.(created := st.created + 1, bytes := st.bytes + |v.blob|)))
      else
        var existing := local[v.id];
        if existing.primary != mb.id then
          match MoveEmail(s, existing, v, mb, keyed)
          case None => None
          case Some(s') => Some((s', st.(moved := st.moved + 1)))
        else if NeedsUpdate(s, existing, v, keyed) then
          match UpdateInPlace(s, existing, v, keyed)
          case None => None
          case Some(s') => Some((s', st.(updated := st.updated + 1)))
        else Some((s, st))
  }

  // -------------------------------------------------------------------------
  // Invariant of the store
  // -------------------------------------------------------------------------

  /** The synced mailboxes are the table's, under their own server id. */
  ghost predicate KeyedOk(mailboxes: map<MailboxId, MailboxRow>, keyed: Keyed) {
    && (forall m :: m in mailboxes ==> mailboxes[m].id == m)
    && (forall j :: j in keyed ==>
          keyed[j].id in mailboxes && mailboxes[keyed[j].id] == keyed[j] && keyed[j].jmapId == Some(j))
  }

  function AllTrue(ks: set<Keyword>): Stored {
    map k | k in ks :: true
  }

  /** The row's keywords are canonical and its stored path carries their letters. */
  ghost predicate RowOk(row: EmailRow) {
    Canonical(row.keywords) && row.path.flags == FlagString(row.keywords.Keys)
  }

  /** Rows sit under their id, and no two share a server id or a file uuid (so neither a path). */
  ghost predicate RowsKeyed(emails: map<RowId, EmailRow>) {
    && (forall r :: r in emails ==> emails[r].id == r)
    && (forall r, s :: r in emails && s in emails && r != s ==>
          emails[r].jmapId != emails[s].jmapId && emails[r].path.base.uuid != emails[s].path.base.uuid)
  }

  ghost predicate RowsInv(db: Db) {
    && RowsKeyed(db.emails)
    && (forall r :: r in db.emails ==>
          && db.emails[r].primary in db.mailboxes && RowOk(db.emails[r])
          && db.emails[r].path.dir == db.mailboxes[db.emails[r].primary].path)
  }

  /** Memberships belong to rows and mailboxes that exist, and only the row's primary one is marked so. */
  ghost predicate MembersInv(db: Db) {
    && (forall r :: r in db.members ==> r in db.emails && db.members[r].Keys <= db.mailboxes.Keys)
    && (forall r, m :: r in db.members && m in db.members[r] ==> db.members[r][m] == (m == db.emails[r].primary))
  }

  ghost predicate OneFilePerUuid(files: map<FilePath, Bytes>) {
    forall p, q :: p in files && q in files && p.base.uuid == q.base.uuid ==> p == q
  }

  ghost predicate Inv(s: Store) {
    RowsInv(s.db) && MembersInv(s.db) && OneFilePerUuid(s.files)
  }

  /** The file of the row is where the row says. */
  ghost predicate Tracked(s: Store, row: EmailRow) {
    row.path in s.files
  }

  // -------------------------------------------------------------------------
  // Normal form: write one email whole
  // -------------------------------------------------------------------------

  function WithoutUuid(files: map<FilePath, Bytes>, uuid: string): map<FilePath, Bytes> {
    map p | p in files && p.base.uuid != uuid :: files[p]
  }

  /** The row, its memberships and its one file all replaced. */
  function Put(s: Store, row: EmailRow, ms: map<MailboxId, bool>, blob: Bytes): Store {
    Store(s.db.(emails := s.db.emails[row.id := row], members := s.db.members[row.id := ms]),
          WithoutUuid(s.files, row.path.base.uuid)[row.path := blob])
  }

  /** `after` differs from `db` only in the memberships of `r`, which are now `ms`. */
  ghost predicate OnlyMembers(db: Db, after: Db, r: RowId, ms: map<MailboxId, bool>) {
    && after.mailboxes == db.mailboxes && after.emails == db.emails
    && after.members - {r} == db.members - {r} && after.MembersOf(r) == ms
  }

  lemma {:induction false} InsertMembersGivesExpected(db: Db, r: RowId, primary: MailboxId, ids: seq<JmapId>, keyed: Keyed)
    requires KeyedOk(db.mailboxes, keyed) && r in db.emails && NoRepeat(ids)
    requires forall j :: j in ids && j in keyed ==> keyed[j].id !in db.MembersOf(r)
    ensures InsertMembers(db, r, primary, ids, keyed).Some?
    ensures OnlyMembers(db, InsertMembers(db, r, primary, ids, keyed).value, r,
                        db.MembersOf(r) + ExpectedMembers(Elements(ids), keyed, primary))
    ensures r in db.members || (exists j :: j in ids && j in keyed) ==>
              r in InsertMembers(db, r, primary, ids, keyed).value.members
    decreases |ids|
  {
    if ids != [] {
      assert ids == [ids[0]] + ids[1..];
      assert ids[0] !in ids[1..];
      if ids[0] !in keyed {
        InsertMembersGivesExpected(db, r, primary, ids[1..], keyed);
        assert ExpectedIds(Elements(ids), keyed) == ExpectedIds(Elements(ids[1..]), keyed);
      } else {
        InsertMemberStep(db, r, primary, ids, keyed);
        var next := db.InsertMember(r, keyed[ids[0]].id, keyed[ids[0]].id == primary).value;
        InsertMembersGivesExpected(next, r, primary, ids[1..], keyed);
        ExpectedSplits(db.MembersOf(r), ids, keyed, primary);
      }
    }
  }

  lemma InsertMemberStep(db: Db, r: RowId, primary: MailboxId, ids: seq<JmapId>, keyed: Keyed)
    requires KeyedOk(db.mailboxes, keyed) && r in db.emails && NoRepeat(ids) && ids != [] && ids[0] in keyed
    requires forall j :: j in ids && j in keyed ==> keyed[j].id !in db.MembersOf(r)
    ensures var m := keyed[ids[0]].id;
            var next := db.InsertMember(r, m, m == primary);
            && next.Some? && OnlyMembers(db, next.value, r, db.MembersOf(r)[m := m == primary])
            && r in next.value.members
            && forall j :: j in ids[1..] && j in keyed ==> keyed[j].id !in next.value.MembersOf(r)
  {
    assert ids == [ids[0]] + ids[1..];
    var m := keyed[ids[0]].id;
    assert m in db.mailboxes && m !in db.MembersOf(r);
    var next := db.InsertMember(r, m, m == primary).value;
    assert next.members - {r} == db.members - {r};
    forall j | j in ids[1..] && j in keyed ensures keyed[j].id !in next.MembersOf(r) {
      assert j in ids && keyed[j].jmapId == Some(j);
    }
  }

  lemma ExpectedSplits(ms: map<MailboxId, bool>, ids: seq<JmapId>, keyed: Keyed, primary: MailboxId)
    requires ids != [] && ids[0] in keyed
    ensures var m := keyed[ids[0]].id;
            ms + ExpectedMembers(Elements(ids), keyed, primary) ==
            ms[m := m == primary] + ExpectedMembers(Elements(ids[1..]), keyed, primary)
  {
    assert ids == [ids[0]] + ids[1..];
    assert ExpectedIds(Elements(ids), keyed) == {keyed[ids[0]].id} + ExpectedIds(Elements(ids[1..]), keyed);
  }

  lemma OnlyMembersExact(db: Db, after: Db, r: RowId, ms: map<MailboxId, bool>)
    requires OnlyMembers(db, after, r, ms) && r in after.members
    ensures after == db.(members := db.members[r := ms])
  {
    forall k | k in db.members && k != r ensures k in after.members && after.members[k] == db.members[k] {
      assert k in db.members - {r};
    }
    forall k | k in after.members && k != r ensures k in db.members {
      assert k in after.members - {r};
    }
  }

  /** A view is a faithful answer about an email. */
  ghost predicate Matches(v: View, e: ServerEmail) {
    && NoRepeat(v.mailboxes) && Elements(v.mailboxes) == e.mailboxes
    && Elements(v.keywords) == e.keywords && v.blob == e.blob
  }

  lemma ViewWrites(v: View, e: ServerEmail)
    requires Matches(v, e)
    ensures ViewFlags(v) == FlagString(e.keywords)
    ensures SerializeKeywords(v.keywords) == AllTrue(e.keywords)
  {
    FlagStringRefined(v.keywords);
    assert SerializeKeywords(v.keywords).Keys == e.keywords;
  }

  lemma InsertIsPut(s: Store, v: View, mb: MailboxRow, keyed: Keyed, f: Fresh)
    requires Inv(s) && KeyedOk(s.db.mailboxes, keyed) && PickPrimary(v.mailboxes, keyed) == Some(mb)
    requires NoRepeat(v.mailboxes)
    requires f.rowId !in s.db.emails
    requires forall r :: r in s.db.emails ==> s.db.emails[r].jmapId != v.id && s.db.emails[r].path.base.uuid != f.uuid
    requires forall p :: p in s.files ==> p.base.uuid != f.uuid
    ensures InsertEmail(s, v, mb, keyed, f) ==
            Some(Put(s, InsertedRow(v, mb, f), ExpectedMembers(Elements(v.mailboxes), keyed, mb.id), v.blob))
  {
    PickPrimaryChooses(v.mailboxes, keyed);
    var row := InsertedRow(v, mb, f);
    InsertAllowed(s, row);
    InsertedMembers(s.db.InsertEmail(row).value, row.id, mb.id, v.mailboxes, keyed);
    assert WithoutUuid(s.files, f.uuid) == s.files;
  }

  lemma InsertAllowed(s: Store, row: EmailRow)
    requires Inv(s) && row.id !in s.db.emails && row.primary in s.db.mailboxes
    requires forall r :: r in s.db.emails ==> s.db.emails[r].jmapId != row.jmapId && s.db.emails[r].path.base.uuid != row.path.base.uuid
    ensures s.db.InsertEmail(row) == Some(s.db.(emails := s.db.emails[row.id := row])) && row.id !in s.db.members
  {
    assert !s.db.PathTaken(row.path, row.id);
  }

  lemma InsertedMembers(db: Db, r: RowId, primary: MailboxId, ids: seq<JmapId>, keyed: Keyed)
    requires KeyedOk(db.mailboxes, keyed) && r in db.emails && r !in db.members && NoRepeat(ids)
    requires exists j :: j in ids && j in keyed
    ensures InsertMembers(db, r, primary, ids, keyed) ==
            Some(db.(members := db.members[r := ExpectedMembers(Elements(ids), keyed, primary)]))
  {
    InsertMembersGivesExpected(db, r, primary, ids, keyed);
    var ms := ExpectedMembers(Elements(ids), keyed, primary);
    assert map[] + ms == ms;
    OnlyMembersExact(db, InsertMembers(db, r, primary, ids, keyed).value, r, ms);
  }

  lemma ReconcileGivesExpected(db: Db, r: RowId, primary: MailboxId, ids: seq<JmapId>, keyed: Keyed)
    requires KeyedOk(db.mailboxes, keyed) && r in db.emails && NoRepeat(ids)
    requires exists j :: j in ids && j in keyed
    ensures ReconcileMembers(db, r, primary, ids, keyed) ==
            Some(db.(members := db.members[r := ExpectedMembers(Elements(ids), keyed, primary)]))
  {
    var cleared := ClearMembers(db, r);
    assert cleared.MembersOf(r) == map[];
    InsertMembersGivesExpected(cleared, r, primary, ids, keyed);
    var ms := ExpectedMembers(Elements(ids), keyed, primary);
    assert map[] + ms == ms;
    OnlyMembersExact(cleared, ReconcileMembers(db, r, primary, ids, keyed).value, r, ms);
    assert cleared.members[r := ms] == db.members[r := ms];
  }

  lemma RenameIsReplace(files: map<FilePath, Bytes>, src: FilePath, dst: FilePath)
    requires OneFilePerUuid(files) && src in files && dst.base.uuid == src.base.uuid
    ensures (if dst != src then RenameFile(files, src, dst) else files) ==
            WithoutUuid(files, dst.base.uuid)[dst := files[src]]
  {
    assert WithoutUuid(files, dst.base.uuid) == files - {src};
    assert (files - {src})[src := files[src]] == files;
  }

  /** A file that is not at its stored path stays where it is; the row is written all the same. */
  lemma RewriteIsPut(s: Store, existing: EmailRow, row: EmailRow, ids: seq<JmapId>, keyed: Keyed)
    requires Inv(s) && KeyedOk(s.db.mailboxes, keyed) && NoRepeat(ids)
    requires existing.id in s.db.emails && s.db.emails[existing.id] == existing
    requires row.id == existing.id && row.jmapId == existing.jmapId && row.path.base.uuid == existing.path.base.uuid
    requires row.primary in s.db.mailboxes
    requires exists j :: j in ids && j in keyed
    ensures var ms := ExpectedMembers(Elements(ids), keyed, row.primary);
            Rewrite(s, existing, row, ids, keyed) ==
            Some(if Tracked(s, existing) then Put(s, row, ms, s.files[existing.path])
                 else Store(s.db.(emails := s.db.emails[row.id := row], members := s.db.members[row.id := ms]), s.files))
  {
    assert !s.db.PathTaken(row.path, row.id);
    assert !s.db.JmapTaken(row.jmapId, row.id);
    var db := s.db.UpdateEmail(row).value;
    ReconcileGivesExpected(db, row.id, row.primary, ids, keyed);
    if Tracked(s, existing) { RenameIsReplace(s.files, existing.path, row.path); }
  }
}
