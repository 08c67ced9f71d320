/** The operations on one email as lists of single writes, and the stores these pass through. */
module EmailActions {
  import opened Prelude
  import opened Primary
  import opened Tables
  import opened EmailStore

  datatype Action =
    | WriteFile(path: FilePath, bytes: Bytes)
    | RenameTo(src: FilePath, dst: FilePath)
    | InsertRow(row: EmailRow)
    | UpdateRow(row: EmailRow)
    | AddMember(r: RowId, m: MailboxId, isPrimary: bool)
    | DropMember(r: RowId, m: MailboxId)

  function WithDb(s: Store, db: Option<Db>): Option<Store> {
    match db case None => None case Some(d) => Some(s.(db := d))
  }

  function Do(s: Store, a: Action): Option<Store> {
    match a
    case WriteFile(path, bytes) => Some(s.(files := s.files[path := bytes]))
    case RenameTo(src, dst) => Some(s.(files := RenameFile(s.files, src, dst)))
    case InsertRow(row) => WithDb(s, s.db.InsertEmail(row))
    case UpdateRow(row) => WithDb(s, s.db.UpdateEmail(row))
    case AddMember(r, m, p) => WithDb(s, s.db.InsertMember(r, m, p))
    case DropMember(r, m) => Some(s.(db := s.db.DeleteMember(r, m)))
  }

  function Exec(s: Store, actions: seq<Action>): Option<Store>
    decreases |actions|
  {
    if actions == [] then Some(s)
    else
      match Do(s, actions[0])
      case None => None
      case Some(s') => Exec(s', actions[1..])
  }

  function AddMembers(r: RowId, primary: MailboxId, ids: seq<JmapId>, keyed: Keyed): seq<Action> {
    if ids == [] then []
    else
      (if ids[0] in keyed then [AddMember(r, keyed[ids[0]].id, keyed[ids[0]].id == primary)] else []) +
      AddMembers(r, primary, ids[1..], keyed)
  }

  function DropMembers(r: RowId, listed: seq<MailboxId>): seq<Action> {
    if listed == [] then [] else [DropMember(r, listed[0])] + DropMembers(r, listed[1..])
  }

  /** The file is written under tmp and renamed into place, so it appears whole in one write. */
  function InsertActions(v: View, mb: MailboxRow, keyed: Keyed, f: Fresh): seq<Action> {
    var row := InsertedRow(v, mb, f);
    [WriteFile(row.path, v.blob), InsertRow(row)] + AddMembers(row.id, mb.id, v.mailboxes, keyed)
  }

  /** `listed` is the row's memberships in the order SQLite returned them. */
  function RewriteActions(existing: EmailRow, row: EmailRow, ids: seq<JmapId>, keyed: Keyed, listed: seq<MailboxId>)
    : seq<Action>
  {
    (if row.path != existing.path then [RenameTo(existing.path, row.path)] else []) + [UpdateRow(row)] +
    DropMembers(row.id, listed) + AddMembers(row.id, row.primary, ids, keyed)
  }

  lemma {:induction false} ExecAppend(s: Store, a: seq<Action>, b: seq<Action>)
    ensures Exec(s, a + b) == match Exec(s, a) case None => None case Some(s') => Exec(s', b)
    decreases |a|
  {
    if a == [] {
      assert a + b == b;
    } else {
      assert (a + b)[1..] == a[1..] + b;
      var s' := Do(s, a[0]);
      if s'.Some? { ExecAppend(s'.value, a[1..], b); }
    }
  }

  // -------------------------------------------------------------------------
  // The stores in between
  // -------------------------------------------------------------------------

  /**
   The writes were made one by one up to `now`, all of them or up to one that was refused, with these stores in between,
   the last one included.
   */
  ghost predicate Passed(s: Store, actions: seq<Action>, states: seq<Store>, now: Store, ok: bool)
    decreases |states|
  {
    if states == [] then now == s && (ok <==> actions == [])
    else actions != [] && Do(s, actions[0]) == Some(states[0]) && Passed(states[0], actions[1..], states[1..], now, ok)
  }

  lemma PassedOne(s: Store, a: Action, now: Store)
    requires Do(s, a) == Some(now)
    ensures Passed(s, [a], [now], now, true)
  {
    assert [a][1..] == [] && [now][1..] == [];
  }

  lemma {:induction false} PassedAppend(s: Store, a: seq<Action>, x: seq<Store>, mid: Store, b: seq<Action>, y: seq<Store>,
                                        now: Store, ok: bool)
    requires Passed(s, a, x, mid, true) && Passed(mid, b, y, now, ok)
    ensures Passed(s, a + b, x + y, now, ok)
    decreases |x|
  {
    if x == [] {
      assert a + b == b && x + y == y;
    } else {
      assert (a + b)[0] == a[0] && (a + b)[1..] == a[1..] + b && (x + y)[0] == x[0] && (x + y)[1..] == x[1..] + y;
      PassedAppend(x[0], a[1..], x[1..], mid, b, y, now, ok);
    }
  }

  lemma PassedSnoc(s: Store, a: seq<Action>, x: seq<Store>, mid: Store, next: Action, now: Store)
    requires Passed(s, a, x, mid, true) && Do(mid, next) == Some(now)
    ensures Passed(s, a + [next], x + [now], now, true)
  {
    PassedOne(mid, next, now);
    PassedAppend(s, a, x, mid, [next], [now], now, true);
  }

  /** When the next write is refused, it and what comes after it are not made. */
  lemma PassedStops(s: Store, a: seq<Action>, x: seq<Store>, now: Store, b: seq<Action>)
    requires Passed(s, a, x, now, true) && b != []
    ensures Passed(s, a + b, x, now, false)
  {
    PassedAppend(s, a, x, now, b, [], now, false);
    assert x + [] == x;
  }

  /** Each of the stores is what some first writes make of the one at the start: where a crash can leave it. */
  lemma {:induction false} PassedIsExec(s: Store, actions: seq<Action>, states: seq<Store>, now: Store, ok: bool, k: nat)
    requires Passed(s, actions, states, now, ok) && k <= |states|
    ensures k <= |actions| && Exec(s, actions[..k]) == Some(if k == 0 then s else states[k - 1])
    ensures now == (if states == [] then s else states[|states| - 1]) && (ok <==> |states| == |actions|)
    decreases |states|
  {
    if states != [] {
      PassedIsExec(states[0], actions[1..], states[1..], now, ok, if k == 0 then 0 else k - 1);
      if k > 0 { assert actions[..k][0] == actions[0] && actions[..k][1..] == actions[1..][..k - 1]; }
    }
  }
}
