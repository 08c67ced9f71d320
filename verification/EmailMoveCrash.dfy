/** Crashes inside a move, write by write: which of them the next ticks repair. */
module EmailMoveCrash {
  import opened Prelude
  import opened Keywords
  import opened Primary
  import opened Tables
  import opened EmailStore
  import opened EmailTick
  import opened EmailWriteback
  import opened EmailLaws
  import opened EmailActions
  import opened EmailCrash

  // -------------------------------------------------------------------------
  // Before the row is updated
  // -------------------------------------------------------------------------

  /**
   A crash in a move, after the file is renamed and before the row is updated, makes the next tick ask the server to
   destroy the email exactly when the new name differs in directory or base from the stored one.
   */
  lemma MoveCrashDestroys(s: Store, existing: EmailRow, v: View, mb: MailboxRow, keyed: Keyed, listed: seq<MailboxId>)
    requires Inv(s) && RowAt(s.db.emails, existing) && existing.path in s.files
    requires MovedRow(existing, v, mb).path != existing.path
    ensures var row := MovedRow(existing, v, mb);
            var crashed := Exec(s, RewriteActions(existing, row, v.mailboxes, keyed, listed)[..1]);
            && crashed.Some? && crashed.value.db == s.db && JmapUnique(s.db.emails)
            && (existing.jmapId in AskedDestroys(crashed.value.files, LocalOf(s.db.emails)) <==>
                  mb.path != existing.path.dir || v.receivedAt != existing.path.base.ts)
  {
    var row := MovedRow(existing, v, mb);
    var all := RewriteActions(existing, row, v.mailboxes, keyed, listed);
    RewriteActionsAre(existing, row, v.mailboxes, keyed, listed);
    assert all[..1] == [RenameTo(existing.path, row.path)];
    assert all[..1][1..] == [];
    var crashed := s.(files := RenameFile(s.files, existing.path, row.path));
    assert Exec(s, all[..1]) == Some(crashed);
    LocalOfIs(s.db.emails);
    assert OneFilePerUuid(crashed.files);
    DestroyAskedIff(crashed, LocalOf(s.db.emails), existing.jmapId);
    assert row.path in crashed.files;
    NoTrash(v.keywords);
    assert SameBase(row.path, existing.path) <==> mb.path == existing.path.dir && v.receivedAt == existing.path.base.ts;
  }

  lemma NoTrash(keywords: seq<Keyword>)
    ensures 'T' !in KeywordsToFlagString(keywords)
  {
    FlagStringRefined(keywords);
    FlagStringOnDisk(Elements(keywords));
  }

  // -------------------------------------------------------------------------
  // After the row is updated
  // -------------------------------------------------------------------------

  /** What a move writes before it touches memberships. */
  function Opening(existing: EmailRow, row: EmailRow): seq<Action> {
    (if row.path != existing.path then [RenameTo(existing.path, row.path)] else []) + [UpdateRow(row)]
  }

  lemma ExecPrefix(s: Store, a: seq<Action>, b: seq<Action>, k: nat)
    requires |a| <= k <= |a + b|
    ensures Exec(s, (a + b)[..k]) == match Exec(s, a) case None => None case Some(s') => Exec(s', b[..k - |a|])
  {
    assert (a + b)[..k] == a + b[..k - |a|];
    ExecAppend(s, a, b[..k - |a|]);
  }

  /** Only memberships differ. */
  ghost predicate SameRows(s: Store, s': Store) {
    s'.db.mailboxes == s.db.mailboxes && s'.db.emails == s.db.emails && s'.files == s.files
  }

  ghost predicate Marked(db: Db, r: RowId, primary: MailboxId, expected: set<MailboxId>) {
    forall m :: m in db.MembersOf(r) ==> m in expected && db.MembersOf(r)[m] == (m == primary)
  }

  /** While memberships are added, those there are marked as they should be. */
  lemma {:induction false} AddsMark(keyed: Keyed, s: Store, r: RowId, primary: MailboxId, ids: seq<JmapId>,
                                    expected: set<MailboxId>, k: nat)
    requires KeyedOk(s.db.mailboxes, keyed) && r in s.db.emails && NoRepeat(ids) && k <= |AddMembers(r, primary, ids, keyed)|
    requires forall j :: j in ids && j in keyed ==> keyed[j].id !in s.db.MembersOf(r) && keyed[j].id in expected
    requires Marked(s.db, r, primary, expected)
    ensures var c := Exec(s, AddMembers(r, primary, ids, keyed)[..k]);
            c.Some? && SameRows(s, c.value) && Marked(c.value.db, r, primary, expected)
    decreases |ids|
  {
    if k > 0 {
      assert ids == [ids[0]] + ids[1..];
      var rest := AddMembers(r, primary, ids[1..], keyed);
      if ids[0] in keyed {
        AddIs(keyed, s, r, primary, ids);
        var m := keyed[ids[0]].id;
        var s' := WithMembers(s, r, s.db.MembersOf(r)[m := m == primary]);
        AddsMark(keyed, s', r, primary, ids[1..], expected, k - 1);
        ExecFirst(s, AddMember(r, m, m == primary), rest, k);
      } else {
        assert [] + rest == rest;
        AddsMark(keyed, s, r, primary, ids[1..], expected, k);
      }
    }
  }

  lemma ExecFirst(s: Store, a: Action, rest: seq<Action>, k: nat)
    requires 0 < k <= |rest| + 1 && Do(s, a).Some?
    ensures Exec(s, ([a] + rest)[..k]) == Exec(Do(s, a).value, rest[..k - 1])
  {
    assert ([a] + rest)[..k][1..] == rest[..k - 1];
  }

  /** After some drops, the others are left. */
  lemma {:induction false} DropsLeave(s: Store, r: RowId, listed: seq<MailboxId>, k: nat)
    requires k <= |listed| && (r !in s.db.members ==> listed == [])
    ensures |DropMembers(r, listed)| == |listed|
    ensures var c := Exec(s, DropMembers(r, listed)[..k]);
            && c.Some? && SameRows(s, c.value)
            && c.value.db.MembersOf(r) == s.db.MembersOf(r) - Elements(listed[..k])
    decreases |listed|
  {
    if listed != [] {
      var s' := WithMembers(s, r, s.db.members[r] - {listed[0]});
      DropsLeave(s', r, listed[1..], if k > 0 then k - 1 else 0);
      if k > 0 {
        ExecFirst(s, DropMember(r, listed[0]), DropMembers(r, listed[1..]), k);
        assert listed[..k] == [listed[0]] + listed[1..][..k - 1];
        assert s.db.members[r] - {listed[0]} - Elements(listed[1..][..k - 1]) == s.db.members[r] - Elements(listed[..k]);
      }
    }
  }

  /** The row is written and the file renamed. */
  lemma OpeningDone(s: Store, existing: EmailRow, row: EmailRow) returns (s1: Store)
    requires RowsInv(s.db) && RowAt(s.db.emails, existing)
    requires row.id == existing.id && row.jmapId == existing.jmapId && row.path.base.uuid == existing.path.base.uuid
    requires row.primary in s.db.mailboxes
    ensures Exec(s, Opening(existing, row)) == Some(s1)
    ensures s1.db == s.db.(emails := s.db.emails[row.id := row]) && RowsKeyed(s1.db.emails)
  {
    var files := if row.path != existing.path then RenameFile(s.files, existing.path, row.path) else s.files;
    var renamed := s.(files := files);
    var renames := if row.path != existing.path then [RenameTo(existing.path, row.path)] else [];
    ExecAppend(s, renames, [UpdateRow(row)]);
    assert Exec(s, renames) == Some(renamed);
    s1 := renamed.(db := s.db.(emails := s.db.emails[row.id := row]));
    RowWritten(renamed, existing, row);
  }

  lemma RowWritten(s: Store, existing: EmailRow, row: EmailRow)
    requires RowsInv(s.db) && RowAt(s.db.emails, existing)
    requires row.id == existing.id && row.jmapId == existing.jmapId && row.path.base.uuid == existing.path.base.uuid
    requires row.primary in s.db.mailboxes
    ensures Exec(s, [UpdateRow(row)]) == Some(s.(db := s.db.(emails := s.db.emails[row.id := row])))
    ensures RowsKeyed(s.db.emails[row.id := row])
  {
    assert !s.db.PathTaken(row.path, row.id) && !s.db.JmapTaken(row.jmapId, row.id);
  }

  /** The next answer with the same mailboxes, keywords and mail. */
  lemma AnsweredAgain(c: Store, keyed: Keyed, local: map<JmapId, EmailRow>, v: View, mb: MailboxRow, row: EmailRow, f: Fresh, st: Stats)
    requires RowsKeyed(c.db.emails) && KeyedOk(c.db.mailboxes, keyed) && RowAt(c.db.emails, row)
    requires PickPrimary(v.mailboxes, keyed) == Some(mb) && row.primary == mb.id && NoRepeat(v.mailboxes)
    requires v.id in local && local[v.id] == row
    requires row.path.flags == ViewFlags(v) && row.keywords == SerializeKeywords(v.keywords)
    ensures var again := ApplyEmail(c, keyed, local, v, f, st); var expected := ExpectedMembers(Elements(v.mailboxes), keyed, mb.id);
            && again.Some?
            && (c.db.MembersOf(row.id).Keys == expected.Keys ==> again == Some((c, st)))
            && (c.db.MembersOf(row.id).Keys != expected.Keys ==> again.value.0.db.MembersOf(row.id) == expected)
  {
    PickPrimaryChooses(v.mailboxes, keyed);
    SameRowAgain(c.db, v, row);
    ReconcileGivesExpected(c.db, row.id, mb.id, v.mailboxes, keyed);
  }

  lemma SameRowAgain(db: Db, v: View, row: EmailRow)
    requires RowsKeyed(db.emails) && RowAt(db.emails, row) && row.primary in db.mailboxes
    requires row.path.flags == ViewFlags(v) && row.keywords == SerializeKeywords(v.keywords)
    ensures UpdatedRow(row, v) == row && db.UpdateEmail(row) == Some(db)
  {
    assert !db.PathTaken(row.path, row.id) && !db.JmapTaken(row.jmapId, row.id);
    assert db.emails[row.id := row] == db.emails;
  }

  /** `k` membership writes into the move, all old memberships that are left are exactly the new ones. */
  ghost predicate LooksMoved(before: map<MailboxId, bool>, ids: seq<JmapId>, keyed: Keyed, listed: seq<MailboxId>, k: nat) {
    k <= |listed| && before.Keys - Elements(listed[..k]) == ExpectedIds(Elements(ids), keyed)
  }

  /** What the drops and adds have made of the memberships. */
  lemma MembersInTail(keyed: Keyed, s: Store, r: RowId, primary: MailboxId, ids: seq<JmapId>, listed: seq<MailboxId>, k: nat)
    requires KeyedOk(s.db.mailboxes, keyed) && r in s.db.emails && NoRepeat(ids) && Lists(listed, s.db.MembersOf(r).Keys)
    requires k <= |DropMembers(r, listed) + AddMembers(r, primary, ids, keyed)|
    ensures var c := Exec(s, (DropMembers(r, listed) + AddMembers(r, primary, ids, keyed))[..k]);
            && c.Some? && SameRows(s, c.value)
            && (k <= |listed| ==> c.value.db.MembersOf(r) == s.db.MembersOf(r) - Elements(listed[..k]))
            && (k > |listed| ==> Marked(c.value.db, r, primary, ExpectedIds(Elements(ids), keyed)))
  {
    var drops, adds := DropMembers(r, listed), AddMembers(r, primary, ids, keyed);
    if r !in s.db.members { NoneListed(listed); }
    DropsLeave(s, r, listed, |listed|);
    if k <= |listed| {
      assert (drops + adds)[..k] == drops[..k];
      DropsLeave(s, r, listed, k);
    } else {
      ExecPrefix(s, drops, adds, k);
      WholeList(listed, drops, s.db.MembersOf(r));
      AddsMark(keyed, Exec(s, drops).value, r, primary, ids, ExpectedIds(Elements(ids), keyed), k - |drops|);
    }
  }

  /** What a crash leaves that has the row updated and came `k` membership writes later: old memberships, or new ones. */
  ghost predicate Left(s: Store, c: Store, row: EmailRow, ids: seq<JmapId>, keyed: Keyed, listed: seq<MailboxId>, k: nat) {
    && c.db.mailboxes == s.db.mailboxes && RowsKeyed(c.db.emails) && RowAt(c.db.emails, row)
    && (if k <= |listed| then c.db.MembersOf(row.id) == s.db.MembersOf(row.id) - Elements(listed[..k])
        else Marked(c.db, row.id, row.primary, ExpectedIds(Elements(ids), keyed)))
  }

  lemma LeftInTail(s: Store, s1: Store, row: EmailRow, ids: seq<JmapId>, keyed: Keyed, listed: seq<MailboxId>, k: nat)
    returns (c: Store)
    requires KeyedOk(s.db.mailboxes, keyed) && NoRepeat(ids) && Lists(listed, s.db.MembersOf(row.id).Keys)
    requires s1.db == s.db.(emails := s.db.emails[row.id := row]) && RowsKeyed(s1.db.emails)
    requires k <= |DropMembers(row.id, listed) + AddMembers(row.id, row.primary, ids, keyed)|
    ensures Exec(s1, (DropMembers(row.id, listed) + AddMembers(row.id, row.primary, ids, keyed))[..k]) == Some(c)
    ensures Left(s, c, row, ids, keyed, listed, k)
  {
    MembersInTail(keyed, s1, row.id, row.primary, ids, listed, k);
    c := Exec(s1, (DropMembers(row.id, listed) + AddMembers(row.id, row.primary, ids, keyed))[..k]).value;
  }

  lemma LeftAfterCrash(s: Store, existing: EmailRow, row: EmailRow, ids: seq<JmapId>, keyed: Keyed, listed: seq<MailboxId>, k: nat)
    returns (c: Store)
    requires Inv(s) && KeyedOk(s.db.mailboxes, keyed) && RowAt(s.db.emails, existing) && NoRepeat(ids)
    requires row.id == existing.id && row.jmapId == existing.jmapId && row.path.base.uuid == existing.path.base.uuid
    requires row.primary in s.db.mailboxes && Lists(listed, s.db.MembersOf(existing.id).Keys)
    requires |Opening(existing, row)| <= k <= |RewriteActions(existing, row, ids, keyed, listed)|
    ensures Exec(s, RewriteActions(existing, row, ids, keyed, listed)[..k]) == Some(c)
    ensures Left(s, c, row, ids, keyed, listed, k - |Opening(existing, row)|)
  {
    var s1 := OpeningDone(s, existing, row);
    RewriteSplits(existing, row, ids, keyed, listed);
    var tail := DropMembers(row.id, listed) + AddMembers(row.id, row.primary, ids, keyed);
    ExecPrefix(s, Opening(existing, row), tail, k);
    c := LeftInTail(s, s1, row, ids, keyed, listed, k - |Opening(existing, row)|);
  }

  lemma RewriteSplits(existing: EmailRow, row: EmailRow, ids: seq<JmapId>, keyed: Keyed, listed: seq<MailboxId>)
    ensures RewriteActions(existing, row, ids, keyed, listed) ==
            Opening(existing, row) + (DropMembers(row.id, listed) + AddMembers(row.id, row.primary, ids, keyed))
  {}

  lemma NoneListed(listed: seq<MailboxId>)
    requires forall m :: m !in listed
    ensures listed == []
  {
    assert Elements(listed) == {};
    NothingListed(listed);
  }

  lemma WholeList(listed: seq<MailboxId>, drops: seq<Action>, ms: map<MailboxId, bool>)
    requires Lists(listed, ms.Keys)
    ensures drops[..|drops|] == drops && ms - Elements(listed[..|listed|]) == map[]
  {
    assert listed[..|listed|] == listed;
  }

  /**
   When the server answers with the same email again, the row gets the memberships it should have, unless `stuck`: then
   nothing is done, now or at any later answer.
   */
  ghost predicate HealedUnless(stuck: bool, c: Store, keyed: Keyed, local: map<JmapId, EmailRow>, v: View, mb: MailboxRow,
                               r: RowId, f: Fresh, st: Stats)
  {
    var again := ApplyEmail(c, keyed, local, v, f, st);
    && again.Some? && (stuck ==> again == Some((c, st)))
    && (again.value.0.db.MembersOf(r) == ExpectedMembers(Elements(v.mailboxes), keyed, mb.id) <==> !stuck)
  }

  /**
   A crash in a move once the row is updated is repaired by the next answer, except exactly when the old memberships
   that are left are the very mailboxes expected: then the old primary mailbox stays marked. This is about the answer
   alone: a row left without any membership is dropped with its file by the orphan cleanup before, and is inserted anew.
   */
  lemma MoveCrashHealsIff(s: Store, existing: EmailRow, v: View, mb: MailboxRow, keyed: Keyed, listed: seq<MailboxId>, k: nat,
                          local: map<JmapId, EmailRow>, f: Fresh, st: Stats)
    returns (c: Store)
    requires Inv(s) && KeyedOk(s.db.mailboxes, keyed) && RowAt(s.db.emails, existing)
    requires PickPrimary(v.mailboxes, keyed) == Some(mb) && NoRepeat(v.mailboxes) && existing.primary != mb.id
    requires Lists(listed, s.db.MembersOf(existing.id).Keys)
    requires v.id in local && local[v.id] == MovedRow(existing, v, mb)
    requires |Opening(existing, local[v.id])| <= k <= |RewriteActions(existing, local[v.id], v.mailboxes, keyed, listed)|
    ensures Exec(s, RewriteActions(existing, MovedRow(existing, v, mb), v.mailboxes, keyed, listed)[..k]) == Some(c)
    ensures HealedUnless(LooksMoved(s.db.MembersOf(existing.id), v.mailboxes, keyed, listed, k - |Opening(existing, local[v.id])|),
                         c, keyed, local, v, mb, existing.id, f, st)
  {
    PrimaryExpected(v, mb, keyed);
    c := LeftAfterCrash(s, existing, local[v.id], v.mailboxes, keyed, listed, k);
    OldMarks(s, existing, mb);
    HealsAt(s, c, keyed, local, v, mb, local[v.id], f, st, listed, k - |Opening(existing, local[v.id])|);
  }

  lemma HealsAt(s: Store, c: Store, keyed: Keyed, local: map<JmapId, EmailRow>, v: View, mb: MailboxRow, row: EmailRow, f: Fresh,
                st: Stats, listed: seq<MailboxId>, k: nat)
    requires KeyedOk(s.db.mailboxes, keyed) && Left(s, c, row, v.mailboxes, keyed, listed, k)
    requires PickPrimary(v.mailboxes, keyed) == Some(mb) && row.primary == mb.id && NoRepeat(v.mailboxes)
    requires v.id in local && local[v.id] == row
    requires row.path.flags == ViewFlags(v) && row.keywords == SerializeKeywords(v.keywords)
    requires mb.id in s.db.MembersOf(row.id) ==> !s.db.MembersOf(row.id)[mb.id]
    ensures HealedUnless(LooksMoved(s.db.MembersOf(row.id), v.mailboxes, keyed, listed, k), c, keyed, local, v, mb, row.id, f, st)
  {
    var added := k > |listed|;
    HealsIff(c, keyed, local, v, mb, row, f, st, s.db.MembersOf(row.id), if added then {} else Elements(listed[..k]), added);
  }

  lemma HealsIff(c: Store, keyed: Keyed, local: map<JmapId, EmailRow>, v: View, mb: MailboxRow, row: EmailRow, f: Fresh, st: Stats,
                 before: map<MailboxId, bool>, dropped: set<MailboxId>, added: bool)
    requires RowsKeyed(c.db.emails) && KeyedOk(c.db.mailboxes, keyed) && RowAt(c.db.emails, row)
    requires PickPrimary(v.mailboxes, keyed) == Some(mb) && row.primary == mb.id && NoRepeat(v.mailboxes)
    requires v.id in local && local[v.id] == row
    requires row.path.flags == ViewFlags(v) && row.keywords == SerializeKeywords(v.keywords)
    requires added ==> Marked(c.db, row.id, mb.id, ExpectedIds(Elements(v.mailboxes), keyed))
    requires !added ==> c.db.MembersOf(row.id) == before - dropped && (mb.id in before ==> !before[mb.id])
    ensures HealedUnless(!added && before.Keys - dropped == ExpectedIds(Elements(v.mailboxes), keyed), c, keyed, local, v, mb, row.id, f, st)
  {
    AnsweredAgain(c, keyed, local, v, mb, row, f, st);
    PrimaryExpected(v, mb, keyed);
    var ids := Elements(v.mailboxes);
    if added {
      if c.db.MembersOf(row.id).Keys == ExpectedIds(ids, keyed) { MarkedIsExpected(c.db, row.id, mb.id, ids, keyed); }
    } else {
      assert (before - dropped).Keys == before.Keys - dropped;
    }
  }

  lemma PrimaryExpected(v: View, mb: MailboxRow, keyed: Keyed)
    requires PickPrimary(v.mailboxes, keyed) == Some(mb)
    ensures mb.id in ExpectedIds(Elements(v.mailboxes), keyed)
    ensures forall mailboxes: map<MailboxId, MailboxRow> :: KeyedOk(mailboxes, keyed) ==> mb.id in mailboxes
  {
    PickPrimaryChooses(v.mailboxes, keyed);
  }

  lemma OldMarks(s: Store, existing: EmailRow, mb: MailboxRow)
    requires Inv(s) && RowAt(s.db.emails, existing) && existing.primary != mb.id
    ensures var ms := s.db.MembersOf(existing.id); mb.id in ms ==> !ms[mb.id]
  {}

  lemma MarkedIsExpected(db: Db, r: RowId, primary: MailboxId, ids: set<JmapId>, keyed: Keyed)
    requires Marked(db, r, primary, ExpectedIds(ids, keyed)) && db.MembersOf(r).Keys == ExpectedIds(ids, keyed)
    ensures db.MembersOf(r) == ExpectedMembers(ids, keyed, primary)
  {}
}
