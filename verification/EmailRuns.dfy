/** What every sequence of completed insert, update, move, write-back and delete steps keeps, with files changed in between. */
module EmailRuns {
  import opened Prelude
  import opened Primary
  import opened Tables
  import opened EmailStore
  import opened EmailTick
  import opened EmailWriteback

  datatype Step =
    | Insert(v: View, f: Fresh)
    | Update(r: RowId, v: View)
    | Move(r: RowId, v: View)
    | PushBack(r: RowId)
    | Delete(r: RowId)
    /** Whatever users and other programs do to the files. */
    | Drift(files: map<FilePath, Bytes>)

  /** The situation in which the tick takes the step. */
  ghost predicate Enabled(s: Store, keyed: Keyed, step: Step) {
    match step
    case Insert(v, f) =>
      && PickPrimary(v.mailboxes, keyed).Some? && NoRepeat(v.mailboxes)
      && f.rowId !in s.db.emails
      && (forall r :: r in s.db.emails ==> s.db.emails[r].jmapId != v.id && s.db.emails[r].path.base.uuid != f.uuid)
    case Update(r, v) =>
      && r in s.db.emails && PickPrimary(v.mailboxes, keyed).Some? && NoRepeat(v.mailboxes)
      && s.db.emails[r].primary == PickPrimary(v.mailboxes, keyed).value.id
    case Move(r, v) =>
      && r in s.db.emails && PickPrimary(v.mailboxes, keyed).Some? && NoRepeat(v.mailboxes)
      && s.db.emails[r].primary != PickPrimary(v.mailboxes, keyed).value.id
    case PushBack(r) =>
      r in s.db.emails && WantsUpdate(s.files, s.db.emails[r])
    case Delete(r) =>
      r in s.db.emails
    case Drift(_) => true
  }

  /** The row with the merged keywords, at the path found. */
  ghost function PushedRow(files: map<FilePath, Bytes>, row: EmailRow): EmailRow
    requires WantsUpdate(files, row)
  {
    var c := ChangeOf(files, row).value;
    row.(keywords := c.newKeywords, path := c.newPath)
  }

  /** The store after the step, None if SQLite would refuse it. */
  ghost function Result(s: Store, keyed: Keyed, step: Step): Option<Store>
    requires Enabled(s, keyed, step)
  {
    match step
    case Insert(v, f) => InsertEmail(s, v, PickPrimary(v.mailboxes, keyed).value, keyed, f)
    case Update(r, v) => UpdateInPlace(s, s.db.emails[r], v, keyed)
    case Move(r, v) => MoveEmail(s, s.db.emails[r], v, PickPrimary(v.mailboxes, keyed).value, keyed)
    case PushBack(r) =>
      (match s.db.UpdateEmail(PushedRow(s.files, s.db.emails[r]))
       case None => None
       case Some(db) => Some(s.(db := db)))
    case Delete(r) => Some(DeleteEmail(s, s.db.emails[r]))
    case Drift(files) => Some(s.(files := files))
  }

  /** The row has its primary mailbox among its memberships, and exactly that one is marked primary. */
  ghost predicate OnePrimary(db: Db, row: EmailRow) {
    && row.primary in db.MembersOf(row.id)
    && forall m :: m in db.MembersOf(row.id) ==> db.MembersOf(row.id)[m] == (m == row.primary)
  }

  ghost predicate RunInv(db: Db) {
    && RowsKeyed(db.emails)
    && (forall r :: r in db.emails ==> db.emails[r].primary in db.mailboxes && OnePrimary(db, db.emails[r]))
    && (forall r :: r in db.members ==> r in db.emails)
  }

  /** In particular server ids and file paths are unique. */
  lemma RunInvUnique(db: Db)
    requires RunInv(db)
    ensures forall r, s :: r in db.emails && s in db.emails && r != s ==>
              db.emails[r].jmapId != db.emails[s].jmapId && db.emails[r].path != db.emails[s].path
  {}

  /** One row written with exactly these memberships. */
  ghost predicate Wrote(db: Db, db': Db, row: EmailRow, keyed: Keyed, ids: seq<JmapId>) {
    && db'.mailboxes == db.mailboxes && db'.emails == db.emails[row.id := row]
    && db'.members == db.members[row.id := ExpectedMembers(Elements(ids), keyed, row.primary)]
  }

  lemma WroteKeeps(db: Db, db': Db, row: EmailRow, keyed: Keyed, ids: seq<JmapId>)
    requires RunInv(db) && KeyedOk(db.mailboxes, keyed) && Wrote(db, db', row, keyed, ids)
    requires exists j :: j in ids && j in keyed && keyed[j].id == row.primary
    requires forall r :: r in db.emails && r != row.id ==>
               db.emails[r].jmapId != row.jmapId && db.emails[r].path.base.uuid != row.path.base.uuid
    ensures RunInv(db')
  {
    WrittenPrimary(db, db', row, keyed, ids);
    OthersKeepPrimary(db, db', row, keyed, ids);
    PutKeepsKeyed(db.emails, row, db'.emails);
  }

  lemma PutKeepsKeyed(emails: map<RowId, EmailRow>, row: EmailRow, emails': map<RowId, EmailRow>)
    requires RowsKeyed(emails) && emails' == emails[row.id := row]
    requires forall r :: r in emails && r != row.id ==>
               emails[r].jmapId != row.jmapId && emails[r].path.base.uuid != row.path.base.uuid
    ensures RowsKeyed(emails')
  {}

  lemma OthersKeepPrimary(db: Db, db': Db, row: EmailRow, keyed: Keyed, ids: seq<JmapId>)
    requires RunInv(db) && Wrote(db, db', row, keyed, ids)
    ensures forall r :: r in db.emails && r != row.id ==> OnePrimary(db', db.emails[r])
  {
    forall r | r in db.emails && r != row.id ensures OnePrimary(db', db.emails[r]) {
      assert db'.MembersOf(r) == db.MembersOf(r) && OnePrimary(db, db.emails[r]);
    }
  }

  lemma WrittenPrimary(db: Db, db': Db, row: EmailRow, keyed: Keyed, ids: seq<JmapId>)
    requires KeyedOk(db.mailboxes, keyed) && Wrote(db, db', row, keyed, ids)
    requires exists j :: j in ids && j in keyed && keyed[j].id == row.primary
    ensures OnePrimary(db', row) && row.primary in db'.mailboxes
  {
    var j :| j in ids && j in keyed && keyed[j].id == row.primary;
    assert row.primary in ExpectedIds(Elements(ids), keyed);
  }

  lemma InsertWrites(s: Store, v: View, mb: MailboxRow, keyed: Keyed, f: Fresh)
    requires RunInv(s.db) && KeyedOk(s.db.mailboxes, keyed)
    requires PickPrimary(v.mailboxes, keyed) == Some(mb) && Enabled(s, keyed, Insert(v, f))
    ensures var r := InsertEmail(s, v, mb, keyed, f);
            r.Some? && Wrote(s.db, r.value.db, InsertedRow(v, mb, f), keyed, v.mailboxes)
  {
    PickPrimaryChooses(v.mailboxes, keyed);
    var row := InsertedRow(v, mb, f);
    assert mb.id in s.db.mailboxes;
    assert !s.db.PathTaken(row.path, row.id) && !s.db.JmapTaken(row.jmapId, row.id);
    InsertedMembers(s.db.InsertEmail(row).value, row.id, mb.id, v.mailboxes, keyed);
  }

  lemma RewriteWrites(s: Store, existing: EmailRow, row: EmailRow, keyed: Keyed, ids: seq<JmapId>)
    requires RunInv(s.db) && KeyedOk(s.db.mailboxes, keyed) && RowAt(s.db.emails, existing) && NoRepeat(ids)
    requires row.id == existing.id && row.jmapId == existing.jmapId && row.path.base.uuid == existing.path.base.uuid
    requires exists j :: j in ids && j in keyed && keyed[j].id == row.primary
    ensures var r := Rewrite(s, existing, row, ids, keyed);
            r.Some? && Wrote(s.db, r.value.db, row, keyed, ids)
  {
    assert !s.db.PathTaken(row.path, row.id) && !s.db.JmapTaken(row.jmapId, row.id);
    var db := s.db.UpdateEmail(row).value;
    ReconcileGivesExpected(db, row.id, row.primary, ids, keyed);
  }

  /** The invariant holds after, and no surviving row changed its server id or file uuid. */
  ghost predicate Kept(s: Store, s': Store) {
    && RunInv(s'.db) && s'.db.mailboxes == s.db.mailboxes
    && forall r :: r in s.db.emails && r in s'.db.emails ==>
         && s'.db.emails[r].jmapId == s.db.emails[r].jmapId
         && s'.db.emails[r].path.base.uuid == s.db.emails[r].path.base.uuid
  }

  lemma InsertKept(s: Store, keyed: Keyed, v: View, f: Fresh)
    requires RunInv(s.db) && KeyedOk(s.db.mailboxes, keyed) && Enabled(s, keyed, Insert(v, f))
    ensures Result(s, keyed, Insert(v, f)).Some? && Kept(s, Result(s, keyed, Insert(v, f)).value)
  {
    var mb := PickPrimary(v.mailboxes, keyed).value;
    PickPrimaryChooses(v.mailboxes, keyed);
    InsertWrites(s, v, mb, keyed, f);
    WroteKeeps(s.db, InsertEmail(s, v, mb, keyed, f).value.db, InsertedRow(v, mb, f), keyed, v.mailboxes);
  }

  lemma RewriteKept(s: Store, existing: EmailRow, row: EmailRow, keyed: Keyed, ids: seq<JmapId>)
    requires RunInv(s.db) && KeyedOk(s.db.mailboxes, keyed) && RowAt(s.db.emails, existing) && NoRepeat(ids)
    requires row.id == existing.id && row.jmapId == existing.jmapId && row.path.base.uuid == existing.path.base.uuid
    requires exists j :: j in ids && j in keyed && keyed[j].id == row.primary
    ensures Rewrite(s, existing, row, ids, keyed).Some? && Kept(s, Rewrite(s, existing, row, ids, keyed).value)
  {
    RewriteWrites(s, existing, row, keyed, ids);
    WroteKeeps(s.db, Rewrite(s, existing, row, ids, keyed).value.db, row, keyed, ids);
  }

  /** The step is not refused, keeps the invariant, and no surviving row changes its identity or uuid. */
  lemma StepKeeps(s: Store, keyed: Keyed, step: Step)
    requires RunInv(s.db) && KeyedOk(s.db.mailboxes, keyed) && Enabled(s, keyed, step)
    ensures Result(s, keyed, step).Some? && Kept(s, Result(s, keyed, step).value)
  {
    match step {
      case Insert(v, f) => InsertKept(s, keyed, v, f);
      case Update(r, v) => UpdateKept(s, keyed, r, v);
      case Move(r, v) => MoveKept(s, keyed, r, v);
      case PushBack(r) => PushBackKept(s, keyed, r);
      case Delete(r) => DeleteKeeps(s.db, r);
      case Drift(files) =>
    }
  }

  lemma UpdateKept(s: Store, keyed: Keyed, r: RowId, v: View)
    requires RunInv(s.db) && KeyedOk(s.db.mailboxes, keyed) && Enabled(s, keyed, Update(r, v))
    ensures Result(s, keyed, Update(r, v)).Some? && Kept(s, Result(s, keyed, Update(r, v)).value)
  {
    PickPrimaryChooses(v.mailboxes, keyed);
    RewriteKept(s, s.db.emails[r], UpdatedRow(s.db.emails[r], v), keyed, v.mailboxes);
  }

  lemma MoveKept(s: Store, keyed: Keyed, r: RowId, v: View)
    requires RunInv(s.db) && KeyedOk(s.db.mailboxes, keyed) && Enabled(s, keyed, Move(r, v))
    ensures Result(s, keyed, Move(r, v)).Some? && Kept(s, Result(s, keyed, Move(r, v)).value)
  {
    PickPrimaryChooses(v.mailboxes, keyed);
    RewriteKept(s, s.db.emails[r], MovedRow(s.db.emails[r], v, PickPrimary(v.mailboxes, keyed).value), keyed, v.mailboxes);
  }

  lemma PushBackKept(s: Store, keyed: Keyed, r: RowId)
    requires RunInv(s.db) && KeyedOk(s.db.mailboxes, keyed) && Enabled(s, keyed, PushBack(r))
    ensures Result(s, keyed, PushBack(r)).Some? && Kept(s, Result(s, keyed, PushBack(r)).value)
  {
    PushBackKeeps(s, s.db.emails[r]);
    ReplacedIsKept(s, s.db.emails[r], PushedRow(s.files, s.db.emails[r]));
  }

  lemma ReplacedIsKept(s: Store, row: EmailRow, row': EmailRow)
    requires RowAt(s.db.emails, row) && row'.id == row.id && row'.jmapId == row.jmapId
    requires row'.path.base.uuid == row.path.base.uuid && RunInv(s.db.(emails := s.db.emails[row.id := row']))
    ensures Kept(s, s.(db := s.db.(emails := s.db.emails[row.id := row'])))
  {}

  lemma PushBackKeeps(s: Store, row: EmailRow)
    requires RunInv(s.db) && RowAt(s.db.emails, row) && WantsUpdate(s.files, row)
    ensures var row' := PushedRow(s.files, row);
            && row'.path.base.uuid == row.path.base.uuid
            && s.db.UpdateEmail(row') == Some(s.db.(emails := s.db.emails[row.id := row']))
            && RunInv(s.db.(emails := s.db.emails[row.id := row']))
  {
    ChangeOfFits(s.files, row);
    UpdateRowKeeps(s.db, row, PushedRow(s.files, row));
  }

  lemma UpdateRowKeeps(db: Db, row: EmailRow, row': EmailRow)
    requires RunInv(db) && RowAt(db.emails, row)
    requires row'.id == row.id && row'.jmapId == row.jmapId && row'.primary == row.primary
    requires row'.path.base.uuid == row.path.base.uuid
    ensures db.UpdateEmail(row') == Some(db.(emails := db.emails[row.id := row']))
    ensures RunInv(db.(emails := db.emails[row.id := row']))
  {
    UpdateRowAllowed(db, row, row');
    UpdateRowInv(db, row, row', db.(emails := db.emails[row.id := row']));
  }

  lemma UpdateRowAllowed(db: Db, row: EmailRow, row': EmailRow)
    requires RunInv(db) && RowAt(db.emails, row)
    requires row'.id == row.id && row'.jmapId == row.jmapId && row'.primary == row.primary
    requires row'.path.base.uuid == row.path.base.uuid
    ensures db.UpdateEmail(row') == Some(db.(emails := db.emails[row.id := row']))
  {
    assert !db.PathTaken(row'.path, row'.id) && !db.JmapTaken(row'.jmapId, row'.id);
  }

  lemma UpdateRowInv(db: Db, row: EmailRow, row': EmailRow, db': Db)
    requires RunInv(db) && RowAt(db.emails, row) && db' == db.(emails := db.emails[row.id := row'])
    requires row'.id == row.id && row'.jmapId == row.jmapId && row'.primary == row.primary
    requires row'.path.base.uuid == row.path.base.uuid
    ensures RunInv(db')
  {
    PutKeepsKeyed(db.emails, row', db'.emails);
    SamePrimaries(db, db');
  }

  /** Memberships and primary mailboxes are as they were. */
  lemma SamePrimaries(db: Db, db': Db)
    requires RunInv(db) && db'.members == db.members && db'.mailboxes == db.mailboxes && db'.emails.Keys == db.emails.Keys
    requires forall r :: r in db.emails ==> db'.emails[r].id == db.emails[r].id && db'.emails[r].primary == db.emails[r].primary
    ensures forall r :: r in db'.emails ==> db'.emails[r].primary in db'.mailboxes && OnePrimary(db', db'.emails[r])
    ensures forall r :: r in db'.members ==> r in db'.emails
  {
    forall r | r in db'.emails ensures db'.emails[r].primary in db'.mailboxes && OnePrimary(db', db'.emails[r]) {
      assert db'.MembersOf(r) == db.MembersOf(r) && OnePrimary(db, db.emails[r]);
    }
  }

  lemma DeleteKeeps(db: Db, r: RowId)
    requires RunInv(db)
    ensures RunInv(db.DeleteEmail(r))
  {
    var db' := db.DeleteEmail(r);
    forall k | k in db'.emails ensures db'.emails[k].primary in db'.mailboxes && OnePrimary(db', db'.emails[k]) {
      assert db'.MembersOf(k) == db.MembersOf(k) && OnePrimary(db, db.emails[k]);
    }
  }

  ghost predicate IsRun(keyed: Keyed, trace: seq<Store>, steps: seq<Step>) {
    && |trace| == |steps| + 1
    && forall i :: 0 <= i < |steps| ==>
         Enabled(trace[i], keyed, steps[i]) && Result(trace[i], keyed, steps[i]) == Some(trace[i + 1])
  }

  /** The row is in the table at every point up to `n`. */
  ghost predicate Alive(trace: seq<Store>, r: RowId, n: nat)
    requires n < |trace|
  {
    forall i :: 0 <= i <= n ==> r in trace[i].db.emails
  }

  ghost predicate SameIdentity(a: Store, b: Store, r: RowId) {
    && r in a.db.emails && r in b.db.emails
    && b.db.emails[r].jmapId == a.db.emails[r].jmapId
    && b.db.emails[r].path.base.uuid == a.db.emails[r].path.base.uuid
  }

  /** Over every run the invariant holds throughout, and a row that survives keeps its server id and file uuid. */
  lemma {:induction false} RunKeeps(keyed: Keyed, trace: seq<Store>, steps: seq<Step>, n: nat)
    requires IsRun(keyed, trace, steps) && n < |trace|
    requires RunInv(trace[0].db) && KeyedOk(trace[0].db.mailboxes, keyed)
    ensures RunInv(trace[n].db) && trace[n].db.mailboxes == trace[0].db.mailboxes
    ensures forall r :: Alive(trace, r, n) ==> SameIdentity(trace[0], trace[n], r)
    decreases n
  {
    if n != 0 {
      var m: nat := n - 1;
      RunKeeps(keyed, trace, steps, m);
      StepKeeps(trace[m], keyed, steps[m]);
      assert Kept(trace[m], trace[n]);
      forall r | Alive(trace, r, n) ensures SameIdentity(trace[0], trace[n], r) {
        assert Alive(trace, r, m) && r in trace[m].db.emails && r in trace[n].db.emails;
      }
    }
  }
}
