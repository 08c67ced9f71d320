/** Mailbox rows and the choice of an email's primary mailbox. */
module Primary {
  import opened Prelude

  type JmapId = string
  type MailboxId = string

  datatype MailboxRow = MailboxRow(
    id: MailboxId,
    jmapId: Option<JmapId>,
    name: string,
    parentId: Option<MailboxId>,
    role: Option<string>,
    sortOrder: Option<int>,
    path: string)

  /** `mailbox_by_jmap`: the synced mailboxes by server id. */
  type Keyed = map<JmapId, MailboxRow>

  const I64_MAX := 0x7FFF_FFFF_FFFF_FFFF

  function RoleRank(role: Option<string>): nat {
    match role
    case None => 6
    case Some(r) =>
      if r == "inbox" then 0
      else if r == "sent" then 1
      else if r == "drafts" then 2
      else if r == "archive" then 3
      else if r == "trash" then 4
      else if r == "junk" then 5
      else 6
  }

  function SortKey(m: MailboxRow): int {
    match m.sortOrder case None => I64_MAX case Some(n) => n
  }

  predicate StringLess(a: string, b: string) {
    b != "" && (a == "" || a[0] < b[0] || (a[0] == b[0] && StringLess(a[1..], b[1..])))
  }

  /** Strictly preferred: by role rank, then sort order, then name. */
  predicate Before(a: MailboxRow, b: MailboxRow) {
    || RoleRank(a.role) < RoleRank(b.role)
    || (RoleRank(a.role) == RoleRank(b.role) &&
        (|| SortKey(a) < SortKey(b)
         || (SortKey(a) == SortKey(b) && StringLess(a.name, b.name))))
  }

  lemma {:induction false} StringLessLinear(a: string, b: string)
    ensures StringLess(a, b) || a == b || StringLess(b, a)
    ensures !(StringLess(a, b) && (a == b || StringLess(b, a)))
  {
    if a != "" && b != "" && a[0] == b[0] {
      StringLessLinear(a[1..], b[1..]);
      assert a == [a[0]] + a[1..] && b == [b[0]] + b[1..];
    }
  }

  lemma {:induction false} StringLessTransitive(a: string, b: string, c: string)
    requires StringLess(a, b) && StringLess(b, c)
    ensures StringLess(a, c)
  {
    if a != "" && a[0] == b[0] && b[0] == c[0] {
      StringLessTransitive(a[1..], b[1..], c[1..]);
    }
  }

  lemma NotBeforeTransitive(a: MailboxRow, b: MailboxRow, c: MailboxRow)
    requires !Before(b, a) && !Before(c, b)
    ensures !Before(c, a)
  {
    StringLessLinear(a.name, b.name);
    StringLessLinear(b.name, c.name);
    StringLessLinear(a.name, c.name);
    if StringLess(a.name, b.name) && StringLess(b.name, c.name) {
      StringLessTransitive(a.name, b.name, c.name);
    }
  }

  lemma BeforeAsymmetric(a: MailboxRow, b: MailboxRow)
    requires Before(a, b)
    ensures !Before(b, a)
  {
    StringLessLinear(a.name, b.name);
  }

  function Candidates(ids: seq<JmapId>, keyed: Keyed): seq<MailboxRow> {
    if ids == [] then []
    else (if ids[0] in keyed then [keyed[ids[0]]] else []) + Candidates(ids[1..], keyed)
  }

  /** The head of the stable sort: the leftmost of the most preferred rows. */
  function LeftmostFirst(rows: seq<MailboxRow>): MailboxRow
    requires rows != []
  {
    if |rows| == 1 then rows[0]
    else
      var rest := LeftmostFirst(rows[1..]);
      if Before(rest, rows[0]) then rest else rows[0]
  }

  function PickPrimary(ids: seq<JmapId>, keyed: Keyed): Option<MailboxRow> {
    var rows := Candidates(ids, keyed);
    if rows == [] then None else Some(LeftmostFirst(rows))
  }

  lemma {:induction false} CandidatesAre(ids: seq<JmapId>, keyed: Keyed)
    ensures forall m :: m in Candidates(ids, keyed) <==> exists j :: j in ids && j in keyed && keyed[j] == m
  {
    if ids != [] {
      CandidatesAre(ids[1..], keyed);
      assert ids == [ids[0]] + ids[1..];
      forall m ensures m in Candidates(ids, keyed) <==> exists j :: j in ids && j in keyed && keyed[j] == m {
        if m in Candidates(ids[1..], keyed) {
          var j :| j in ids[1..] && j in keyed && keyed[j] == m;
          assert j in ids;
        }
        if ids[0] in keyed && keyed[ids[0]] == m { assert ids[0] in ids; }
      }
    }
  }

  lemma {:induction false} LeftmostFirstIsFirst(rows: seq<MailboxRow>)
    requires rows != []
    ensures LeftmostFirst(rows) in rows
    ensures forall m :: m in rows ==> !Before(m, LeftmostFirst(rows))
  {
    var r := LeftmostFirst(rows);
    if |rows| == 1 {
      assert !Before(rows[0], rows[0]) by { StringLessLinear(rows[0].name, rows[0].name); }
    } else {
      var rest := LeftmostFirst(rows[1..]);
      LeftmostFirstIsFirst(rows[1..]);
      assert rows == [rows[0]] + rows[1..];
      forall m | m in rows ensures !Before(m, r) {
        StringLessLinear(m.name, m.name);
        if Before(rest, rows[0]) {
          if m == rows[0] { BeforeAsymmetric(rest, rows[0]); }
        } else if m in rows[1..] {
          NotBeforeTransitive(rows[0], rest, m);
        }
      }
    }
  }

  /** `m` is a most preferred synced mailbox among `ids`. */
  ghost predicate IsPrimaryChoice(ids: set<JmapId>, keyed: Keyed, m: MailboxRow) {
    && (exists j :: j in ids && j in keyed && keyed[j] == m)
    && (forall j :: j in ids && j in keyed ==> !Before(keyed[j], m))
  }

  /** Two synced mailboxes never compare equal. */
  ghost predicate NoTies(keyed: Keyed) {
    forall i, j :: i in keyed && j in keyed && keyed[i] != keyed[j] ==> Before(keyed[i], keyed[j]) || Before(keyed[j], keyed[i])
  }

  lemma PickPrimaryChooses(ids: seq<JmapId>, keyed: Keyed)
    ensures PickPrimary(ids, keyed).None? <==> forall j :: j in ids ==> j !in keyed
    ensures PickPrimary(ids, keyed).Some? ==>
              IsPrimaryChoice(Elements(ids), keyed, PickPrimary(ids, keyed).value)
  {
    CandidatesAre(ids, keyed);
    var rows := Candidates(ids, keyed);
    assert forall j :: j in ids && j in keyed ==> keyed[j] in rows;
    if rows != [] {
      assert rows[0] in rows;
      LeftmostFirstIsFirst(rows);
    }
  }

  /** Without ties the choice depends only on the set of mailboxes, not on the order they are listed in. */
  lemma PrimaryChoiceUnique(ids: set<JmapId>, keyed: Keyed, a: MailboxRow, b: MailboxRow)
    requires NoTies(keyed) && IsPrimaryChoice(ids, keyed, a) && IsPrimaryChoice(ids, keyed, b)
    ensures a == b
  {
    var i :| i in ids && i in keyed && keyed[i] == a;
    var j :| j in ids && j in keyed && keyed[j] == b;
  }

  /** A tie makes the choice depend on the order: the two rows that compare equal, listed both ways round. */
  lemma TieDependsOnOrder(keyed: Keyed, i: JmapId, j: JmapId)
    requires i in keyed && j in keyed && keyed[i] != keyed[j] && !Before(keyed[i], keyed[j]) && !Before(keyed[j], keyed[i])
    ensures Elements([i, j]) == Elements([j, i])
    ensures PickPrimary([i, j], keyed) == Some(keyed[i]) && PickPrimary([j, i], keyed) == Some(keyed[j])
  {
    PickOfTwo(keyed, i, j);
    PickOfTwo(keyed, j, i);
  }

  lemma PickOfTwo(keyed: Keyed, i: JmapId, j: JmapId)
    requires i in keyed && j in keyed && !Before(keyed[j], keyed[i])
    ensures PickPrimary([i, j], keyed) == Some(keyed[i])
  {
    var a, b := keyed[i], keyed[j];
    assert [i, j][1..] == [j] && [j][1..] == [];
    assert Candidates([j], keyed) == [b] && Candidates([i, j], keyed) == [a, b];
    assert [a, b][1..] == [b];
    assert LeftmostFirst([a, b]) == a;
  }

  ghost predicate OrderFree(keyed: Keyed) {
    forall a: seq<JmapId>, b: seq<JmapId> :: Elements(a) == Elements(b) ==> PickPrimary(a, keyed) == PickPrimary(b, keyed)
  }

  /** The choice depends only on the set of mailboxes, in whatever order they are listed, exactly when no two tie. */
  lemma OrderFreeIff(keyed: Keyed)
    ensures OrderFree(keyed) <==> NoTies(keyed)
  {
    if NoTies(keyed) {
      forall a: seq<JmapId>, b: seq<JmapId> | Elements(a) == Elements(b) ensures PickPrimary(a, keyed) == PickPrimary(b, keyed) {
        SameSetSamePick(keyed, a, b);
      }
    } else {
      var i, j :| i in keyed && j in keyed && keyed[i] != keyed[j] && !Before(keyed[i], keyed[j]) && !Before(keyed[j], keyed[i]);
      TieDependsOnOrder(keyed, i, j);
    }
  }

  lemma SameSetSamePick(keyed: Keyed, a: seq<JmapId>, b: seq<JmapId>)
    requires NoTies(keyed) && Elements(a) == Elements(b)
    ensures PickPrimary(a, keyed) == PickPrimary(b, keyed)
  {
    PickPrimaryChooses(a, keyed);
    PickPrimaryChooses(b, keyed);
    assert forall j :: j in a <==> j in Elements(a);
    assert forall j :: j in b <==> j in Elements(b);
    if PickPrimary(a, keyed).Some? {
      PrimaryChoiceUnique(Elements(a), keyed, PickPrimary(a, keyed).value, PickPrimary(b, keyed).value);
    }
  }

  // -------------------------------------------------------------------------
  // What preferred means
  // -------------------------------------------------------------------------

  /** The role is at this place of inbox, sent, drafts, archive, trash, junk. */
  ghost predicate RoleAt(role: Option<string>, i: int) {
    0 <= i < 6 && role == Some(["inbox", "sent", "drafts", "archive", "trash", "junk"][i])
  }

  /** An earlier place in that list; any other role, or none, comes after all of them. */
  ghost predicate EarlierRole(a: Option<string>, b: Option<string>) {
    exists i :: RoleAt(a, i) && forall h :: RoleAt(b, h) ==> i < h
  }

  /** The same place, or both none. */
  ghost predicate SamePlace(a: Option<string>, b: Option<string>) {
    forall i :: RoleAt(a, i) <==> RoleAt(b, i)
  }

  /** A smaller sort order; none counts as the largest 64-bit one. */
  ghost predicate LessSort(a: Option<int>, b: Option<int>) {
    match (a, b)
    case (Some(x), Some(y)) => x < y
    case (Some(x), None) => x < 0x7FFF_FFFF_FFFF_FFFF
    case (None, Some(y)) => 0x7FFF_FFFF_FFFF_FFFF < y
    case (None, None) => false
  }

  /** The first difference is a smaller character, or the end. */
  ghost predicate LessName(a: string, b: string) {
    exists i :: 0 <= i <= |a| && i < |b| && a[..i] == b[..i] && (i == |a| || a[i] < b[i])
  }

  /** By role, then sort order, then name. */
  ghost predicate Preferred(a: MailboxRow, b: MailboxRow) {
    || EarlierRole(a.role, b.role)
    || (SamePlace(a.role, b.role) &&
        (|| LessSort(a.sortOrder, b.sortOrder)
         || (!LessSort(b.sortOrder, a.sortOrder) && LessName(a.name, b.name))))
  }

  lemma RoleRankIs(role: Option<string>)
    ensures forall i :: RoleAt(role, i) <==> i == RoleRank(role) && i < 6
    ensures RoleRank(role) <= 6
  {
    forall i ensures RoleAt(role, i) <==> i == RoleRank(role) && i < 6 {
      RoleIsAt(role, i);
    }
  }

  lemma RoleIsAt(role: Option<string>, i: int)
    ensures RoleAt(role, i) <==> i == RoleRank(role) && i < 6
  {
    var roles := ["inbox", "sent", "drafts", "archive", "trash", "junk"];
    assert roles[0][0] == 'i' && |roles[1]| == 4 && roles[1][0] == 's' && roles[2][0] == 'd' && roles[3][0] == 'a';
    assert roles[4][0] == 't' && roles[5][0] == 'j';
  }

  lemma RanksIff(a: Option<string>, b: Option<string>)
    ensures EarlierRole(a, b) <==> RoleRank(a) < RoleRank(b)
    ensures SamePlace(a, b) <==> RoleRank(a) == RoleRank(b)
  {
    RoleRankIs(a);
    RoleRankIs(b);
    if RoleRank(a) < RoleRank(b) { assert RoleAt(a, RoleRank(a)); }
    if EarlierRole(a, b) {
      var i :| RoleAt(a, i) && forall h :: RoleAt(b, h) ==> i < h;
      assert RoleAt(b, RoleRank(b)) <==> RoleRank(b) < 6;
    }
    if SamePlace(a, b) && RoleRank(a) < 6 { assert RoleAt(a, RoleRank(a)) && RoleAt(b, RoleRank(a)); }
    if SamePlace(a, b) && RoleRank(b) < 6 { assert RoleAt(b, RoleRank(b)) && RoleAt(a, RoleRank(b)); }
  }

  lemma {:induction false} StringLessIff(a: string, b: string)
    ensures StringLess(a, b) <==> LessName(a, b)
  {
    if a != "" && b != "" && a[0] == b[0] {
      StringLessIff(a[1..], b[1..]);
      LessNameTail(a, b);
    } else {
      assert a[..0] == b[..0];
      forall i | 0 < i <= |a| && i < |b| ensures a[..i] == b[..i] ==> a[0] == b[0] {
        assert a[..i][0] == a[0] && b[..i][0] == b[0];
      }
    }
  }

  lemma LessNameTail(a: string, b: string)
    requires a != "" && b != "" && a[0] == b[0]
    ensures LessName(a, b) <==> LessName(a[1..], b[1..])
  {
    if i :| 0 <= i <= |a| && i < |b| && a[..i] == b[..i] && (i == |a| || a[i] < b[i]) {
      assert a[1..][..i - 1] == a[..i][1..] && b[1..][..i - 1] == b[..i][1..];
    }
    if i :| 0 <= i <= |a[1..]| && i < |b[1..]| && a[1..][..i] == b[1..][..i] && (i == |a[1..]| || a[1..][i] < b[1..][i]) {
      assert a[..i + 1] == [a[0]] + a[1..][..i] && b[..i + 1] == [b[0]] + b[1..][..i];
    }
  }

  /** The program's comparison is the intended one. */
  lemma BeforeIff(a: MailboxRow, b: MailboxRow)
    ensures Before(a, b) <==> Preferred(a, b)
  {
    RanksIff(a.role, b.role);
    StringLessIff(a.name, b.name);
  }

  /** No synced mailbox of the email is preferred to the one picked. */
  lemma PickIsPreferred(ids: seq<JmapId>, keyed: Keyed)
    ensures PickPrimary(ids, keyed).Some? <==> exists j :: j in ids && j in keyed
    ensures PickPrimary(ids, keyed).Some? ==>
              var p := PickPrimary(ids, keyed).value;
              && (exists j :: j in ids && j in keyed && keyed[j] == p)
              && (forall j :: j in ids && j in keyed ==> !Preferred(keyed[j], p))
  {
    PickPrimaryChooses(ids, keyed);
    if PickPrimary(ids, keyed).Some? {
      var p := PickPrimary(ids, keyed).value;
      forall j | j in ids && j in keyed ensures !Preferred(keyed[j], p) {
        assert j in Elements(ids);
        BeforeIff(keyed[j], p);
      }
    }
  }

  /** So its role comes no later than that of any of them. */
  lemma PickHasEarliestRole(ids: seq<JmapId>, keyed: Keyed, j: JmapId, i: int)
    requires PickPrimary(ids, keyed).Some? && j in ids && j in keyed && RoleAt(keyed[j].role, i)
    ensures exists h :: h <= i && RoleAt(PickPrimary(ids, keyed).value.role, h)
  {
    PickIsPreferred(ids, keyed);
    var p := PickPrimary(ids, keyed).value;
    RanksIff(keyed[j].role, p.role);
    RoleRankIs(keyed[j].role);
    RoleRankIs(p.role);
    assert RoleAt(p.role, RoleRank(p.role));
  }

  /** Two mailboxes tie when they have the same place, sort order and name, none being the largest sort order. */
  lemma NoTiesIff(keyed: Keyed)
    ensures NoTies(keyed) <==>
            forall i, j :: i in keyed && j in keyed && keyed[i] != keyed[j] ==>
              || !SamePlace(keyed[i].role, keyed[j].role) || keyed[i].name != keyed[j].name
              || LessSort(keyed[i].sortOrder, keyed[j].sortOrder) || LessSort(keyed[j].sortOrder, keyed[i].sortOrder)
  {
    forall i, j | i in keyed && j in keyed
      ensures Before(keyed[i], keyed[j]) || Before(keyed[j], keyed[i]) <==>
              || !SamePlace(keyed[i].role, keyed[j].role) || keyed[i].name != keyed[j].name
              || LessSort(keyed[i].sortOrder, keyed[j].sortOrder) || LessSort(keyed[j].sortOrder, keyed[i].sortOrder)
    {
      TieIff(keyed[i], keyed[j]);
    }
  }

  lemma TieIff(a: MailboxRow, b: MailboxRow)
    ensures Before(a, b) || Before(b, a) <==>
            || !SamePlace(a.role, b.role) || a.name != b.name
            || LessSort(a.sortOrder, b.sortOrder) || LessSort(b.sortOrder, a.sortOrder)
  {
    RanksIff(a.role, b.role);
    StringLessLinear(a.name, b.name);
  }
}
