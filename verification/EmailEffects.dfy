/** What one answer of Email/get does, field by field: to the rows, the files and the counters. */
module EmailEffects {
  import opened Prelude
  import opened Keywords
  import opened Primary
  import opened Tables
  import opened EmailStore
  import opened EmailTick
  import EmailCounts

  /** The row carries what the server says: id, keywords, all true, and their letters in its path. */
  ghost predicate Says(row: EmailRow, v: View) {
    && row.jmapId == v.id && row.path.flags == KeywordsToFlagString(v.keywords)
    && (forall k :: k in row.keywords <==> k in v.keywords) && (forall k :: k in row.keywords ==> row.keywords[k])
  }

  /** A new row in the picked mailbox, named after the time the email was received and the fresh uuid. */
  ghost predicate IsNew(row: EmailRow, v: View, mb: MailboxRow, f: Fresh) {
    && Says(row, v) && row.id == f.rowId && row.primary == mb.id
    && row.path.dir == mb.path && row.path.base.ts == v.receivedAt && row.path.base.uuid == f.uuid
  }

  /** The row moved to the picked mailbox: a new directory and timestamp, the same uuid. */
  ghost predicate IsMoved(row: EmailRow, was: EmailRow, v: View, mb: MailboxRow) {
    && Says(row, v) && row.id == was.id && row.primary == mb.id
    && row.path.dir == mb.path && row.path.base.ts == v.receivedAt && row.path.base.uuid == was.path.base.uuid
  }

  /** The row where it was, with new keywords and letters. */
  ghost predicate IsUpdated(row: EmailRow, was: EmailRow, v: View) {
    && Says(row, v) && row.id == was.id && row.primary == was.primary
    && row.path.dir == was.path.dir && row.path.base == was.path.base
  }

  /** The file, if it is where the row said, is found where the new row says. */
  ghost predicate FileFollows(files: map<FilePath, Bytes>, was: FilePath, now: FilePath, files': map<FilePath, Bytes>) {
    files' == if was in files then (files - {was})[now := files[was]] else files
  }

  lemma InsertSays(s: Store, v: View, mb: MailboxRow, keyed: Keyed, f: Fresh)
    ensures var r := InsertEmail(s, v, mb, keyed, f);
            r.Some? ==>
              && f.rowId !in s.db.emails
              && exists row :: IsNew(row, v, mb, f) && r.value.db.emails == s.db.emails[f.rowId := row]
                   && r.value.files == s.files[row.path := v.blob]
  {
    EmailCounts.InsertRows(s, v, mb, keyed, f);
    var row := InsertedRow(v, mb, f);
    assert IsNew(row, v, mb, f);
  }

  lemma RewriteFiles(s: Store, was: EmailRow, row: EmailRow, ids: seq<JmapId>, keyed: Keyed)
    requires row.id in s.db.emails
    ensures var r := Rewrite(s, was, row, ids, keyed);
            r.Some? ==> r.value.db.emails == s.db.emails[row.id := row] && FileFollows(s.files, was.path, row.path, r.value.files)
  {
    EmailCounts.RewriteRows(s, was, row, ids, keyed);
    if was.path in s.files { assert (s.files - {was.path})[was.path := s.files[was.path]] == s.files; }
  }

  lemma MoveSays(s: Store, was: EmailRow, v: View, mb: MailboxRow, keyed: Keyed)
    requires was.id in s.db.emails && was.jmapId == v.id
    ensures var r := MoveEmail(s, was, v, mb, keyed);
            r.Some? ==>
              exists row :: IsMoved(row, was, v, mb) && r.value.db.emails == s.db.emails[was.id := row]
                && FileFollows(s.files, was.path, row.path, r.value.files)
  {
    var row := MovedRow(was, v, mb);
    RewriteFiles(s, was, row, v.mailboxes, keyed);
    assert IsMoved(row, was, v, mb);
  }

  lemma UpdateSays(s: Store, was: EmailRow, v: View, keyed: Keyed)
    requires was.id in s.db.emails && was.jmapId == v.id
    ensures var r := UpdateInPlace(s, was, v, keyed);
            r.Some? ==>
              exists row :: IsUpdated(row, was, v) && r.value.db.emails == s.db.emails[was.id := row]
                && FileFollows(s.files, was.path, row.path, r.value.files)
  {
    var row := UpdatedRow(was, v);
    RewriteFiles(s, was, row, v.mailboxes, keyed);
    assert IsUpdated(row, was, v);
  }

  /** A synced mailbox among these. */
  ghost predicate Among(m: MailboxId, ids: seq<JmapId>, keyed: Keyed) {
    exists j :: j in ids && j in keyed && keyed[j].id == m
  }

  /** A membership for every synced mailbox of the email and for no other. */
  ghost predicate MemberOfThose(db: Db, r: RowId, ids: seq<JmapId>, keyed: Keyed) {
    forall m :: Among(m, ids, keyed) <==> (r in db.members && m in db.members[r])
  }

  /** The row has the server's keywords, their letters, and its memberships. */
  ghost predicate UpToDate(s: Store, row: EmailRow, v: View, keyed: Keyed) {
    Says(row, v) && MemberOfThose(s.db, row.id, v.mailboxes, keyed)
  }

  lemma MembershipsDifferIff(db: Db, r: RowId, ids: seq<JmapId>, keyed: Keyed)
    ensures MembershipsDiffer(db, r, ids, keyed) <==> !MemberOfThose(db, r, ids, keyed)
  {
    var have, want := db.MembersOf(r).Keys, ExpectedIds(Elements(ids), keyed);
    forall m ensures m in want <==> Among(m, ids, keyed) {
      assert forall j :: j in Elements(ids) <==> j in ids;
    }
    if MemberOfThose(db, r, ids, keyed) {
      forall m ensures m in have <==> m in want { assert Among(m, ids, keyed) <==> (r in db.members && m in db.members[r]); }
    } else {
      var m :| !(Among(m, ids, keyed) <==> (r in db.members && m in db.members[r]));
      assert m in have <==> m !in want;
    }
  }

  lemma SaysIff(row: EmailRow, v: View)
    requires row.jmapId == v.id
    ensures Says(row, v) <==> row.path.flags == ViewFlags(v) && row.keywords == SerializeKeywords(v.keywords)
  {
    var stored := SerializeKeywords(v.keywords);
    assert forall k :: k in stored <==> k in v.keywords;
    if Says(row, v) { assert row.keywords.Keys == stored.Keys; }
  }

  lemma NeedsUpdateIff(s: Store, row: EmailRow, v: View, keyed: Keyed)
    requires row.jmapId == v.id
    ensures NeedsUpdate(s, row, v, keyed) <==> !UpToDate(s, row, v, keyed)
  {
    SaysIff(row, v);
    MembershipsDifferIff(s.db, row.id, v.mailboxes, keyed);
  }

  /** What an answer about an email without a row does. */
  ghost predicate NewEffect(s: Store, v: View, mb: MailboxRow, f: Fresh, st: Stats, s': Store, st': Stats) {
    && f.rowId !in s.db.emails
    && st' == st.(created := st.created + 1, bytes := st.bytes + |v.blob|)
    && exists row :: IsNew(row, v, mb, f) && s'.db.emails == s.db.emails[f.rowId := row] && s'.files == s.files[row.path := v.blob]
  }

  /** And about one with a row: moved if its primary mailbox is another now, else updated if anything differs. */
  ghost predicate OldEffect(s: Store, v: View, mb: MailboxRow, keyed: Keyed, was: EmailRow, st: Stats, s': Store, st': Stats) {
    if was.primary != mb.id then
      && st' == st.(moved := st.moved + 1)
      && exists row :: IsMoved(row, was, v, mb) && s'.db.emails == s.db.emails[was.id := row] && FileFollows(s.files, was.path, row.path, s'.files)
    else if !UpToDate(s, was, v, keyed) then
      && st' == st.(updated := st.updated + 1)
      && exists row :: IsUpdated(row, was, v) && s'.db.emails == s.db.emails[was.id := row] && FileFollows(s.files, was.path, row.path, s'.files)
    else s' == s && st' == st
  }

  /**
   One answer, applied: an email in no synced mailbox loses its row and the file at its stored path; another gets a row
   and a file, is moved, is updated in place, or is left alone; and the counter of just that goes up by one.
   */
  lemma ApplySays(s: Store, keyed: Keyed, local: map<JmapId, EmailRow>, v: View, f: Fresh, st: Stats)
    requires v.id in local ==> local[v.id].jmapId == v.id && local[v.id].id in s.db.emails
    ensures var r := ApplyEmail(s, keyed, local, v, f, st);
            r.Some? ==>
              match PickPrimary(v.mailboxes, keyed)
              case Some(mb) =>
                if v.id in local then OldEffect(s, v, mb, keyed, local[v.id], st, r.value.0, r.value.1)
                else NewEffect(s, v, mb, f, st, r.value.0, r.value.1)
              case None =>
                if v.id in local then
                  && r.value.0.db.emails == s.db.emails - {local[v.id].id}
                  && r.value.0.db.members == s.db.members - {local[v.id].id}
                  && r.value.0.files == s.files - {local[v.id].path}
                  && r.value.1 == st.(deleted := st.deleted + 1)
                else r.value == (s, st)
  {
    match PickPrimary(v.mailboxes, keyed) {
      case None =>
      case Some(mb) =>
        if v.id in local {
          NeedsUpdateIff(s, local[v.id], v, keyed);
          MoveSays(s, local[v.id], v, mb, keyed);
          UpdateSays(s, local[v.id], v, keyed);
        } else {
          InsertSays(s, v, mb, keyed, f);
        }
    }
  }

  // -------------------------------------------------------------------------
  // Chunks
  // -------------------------------------------------------------------------

  /** Every chunk has a hundred ids but the last, which has at least one; the i-th begins at the id number 100 i. */
  lemma ChunkIs(order: seq<JmapId>, i: nat, k: nat)
    requires i < ChunkCount(order)
    ensures 100 * i < |order|
    ensures |Chunk(order, i)| == if 100 * i + 100 <= |order| then 100 else |order| - 100 * i
    ensures k < |Chunk(order, i)| ==> Chunk(order, i)[k] == order[100 * i + k]
  {}

  /** There are as many as it takes. */
  lemma ChunkCountIs(order: seq<JmapId>)
    ensures var n := ChunkCount(order); |order| <= 100 * n && (n > 0 ==> 100 * (n - 1) < |order|)
  {}
}
