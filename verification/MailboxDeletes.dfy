/** The deletes of a pass: what they leave, and exactly when they go through. */
module MailboxDeletes {
  import opened Prelude
  import opened Primary
  import opened Tables
  import opened MailboxDiff

  // -------------------------------------------------------------------------
  // What deletes leave
  // -------------------------------------------------------------------------

  lemma DeleteKeeps(db: Db, k: Keyed, j: JmapId)
    requires IsKeyed(db.mailboxes, k) && j in k && db.DeleteMailbox(k[j].id).Some?
    ensures IsKeyed(db.DeleteMailbox(k[j].id).value.mailboxes, k - {j})
  {
    forall i | i in k && i != j ensures k[i].id != k[j].id { assert k[i].jmapId != k[j].jmapId; }
  }

  function Without(snap: Keyed, js: seq<JmapId>): Keyed {
    map j | j in snap && j !in js :: snap[j]
  }

  ghost predicate Gone(snap: Keyed, js: seq<JmapId>, m: MailboxId)
    requires forall j :: j in js ==> j in snap
  {
    exists a :: 0 <= a < |js| && snap[js[a]].id == m
  }

  lemma GoneOneMore(snap: Keyed, js: seq<JmapId>, n: nat, m: MailboxId)
    requires (forall j :: j in js ==> j in snap) && n < |js|
    ensures Gone(snap, js[..n + 1], m) <==> Gone(snap, js[..n], m) || snap[js[n]].id == m
  {
    if Gone(snap, js[..n], m) {
      var a :| 0 <= a < n && snap[js[..n][a]].id == m;
      assert js[..n + 1][a] == js[..n][a];
    }
    if snap[js[n]].id == m { assert js[..n + 1][n] == js[n]; }
    if Gone(snap, js[..n + 1], m) && snap[js[n]].id != m {
      var a :| 0 <= a < n + 1 && snap[js[..n + 1][a]].id == m;
      assert js[..n][a] == js[..n + 1][a];
    }
  }

  /** The tables less the rows deleted. */
  ghost predicate Deleted(before: Db, after: Db, snap: Keyed, js: seq<JmapId>)
    requires forall j :: j in js ==> j in snap
  {
    && IsKeyed(after.mailboxes, Without(snap, js)) && after.emails == before.emails
    && (forall m :: m in after.mailboxes <==> m in before.mailboxes && !Gone(snap, js, m))
    && (forall m :: m in after.mailboxes ==> after.mailboxes[m] == before.mailboxes[m])
  }

  lemma {:induction false} DeletesKeep(w: Tree, snap: Keyed, js: seq<JmapId>)
    requires IsKeyed(w.db.mailboxes, snap) && NoRepeat(js) && (forall j :: j in js ==> j in snap)
    requires Deletes(w, snap, js).1
    ensures Deleted(w.db, Deletes(w, snap, js).0.db, snap, js)
    decreases |js|
  {
    if js == [] {
      assert Without(snap, js) == snap;
    } else {
      var n := |js| - 1;
      DeletesKeep(w, snap, js[..n]);
      assert js[n] !in js[..n];
      DeletedOneMore(w.db, Deletes(w, snap, js[..n]).0.db, snap, js, n);
    }
  }

  lemma DeletedOneMore(before: Db, db: Db, snap: Keyed, js: seq<JmapId>, n: nat)
    requires (forall j :: j in js ==> j in snap) && |js| == n + 1 && js[n] !in js[..n]
    requires Deleted(before, db, snap, js[..n]) && db.DeleteMailbox(snap[js[n]].id).Some?
    ensures Deleted(before, db.DeleteMailbox(snap[js[n]].id).value, snap, js)
  {
    DeleteKeeps(db, Without(snap, js[..n]), js[n]);
    WithoutOneMore(snap, js, n);
  }

  lemma WithoutOneMore(snap: Keyed, js: seq<JmapId>, n: nat)
    requires (forall j :: j in js ==> j in snap) && |js| == n + 1
    ensures Without(snap, js[..n]) - {js[n]} == Without(snap, js)
    ensures forall m :: Gone(snap, js, m) <==> Gone(snap, js[..n], m) || snap[js[n]].id == m
  {
    assert js[..n + 1] == js;
    assert forall j :: j in js <==> j in js[..n] || j == js[n];
    forall m ensures Gone(snap, js, m) <==> Gone(snap, js[..n], m) || snap[js[n]].id == m { GoneOneMore(snap, js, n, m); }
  }

  lemma GonePrefix(snap: Keyed, js: seq<JmapId>, n: nat, m: MailboxId)
    requires (forall j :: j in js ==> j in snap) && n <= |js| && Gone(snap, js[..n], m)
    ensures Gone(snap, js, m)
  {
    var a :| 0 <= a < n && snap[js[..n][a]].id == m;
    assert js[a] == js[..n][a];
  }

  /** A row that stays points to a row that goes. */
  ghost predicate OrphansChild(mailboxes: map<MailboxId, MailboxRow>, snap: Keyed, js: seq<JmapId>)
    requires forall j :: j in js ==> j in snap
  {
    exists m, a :: m in mailboxes && !Gone(snap, js, m) && 0 <= a < |js| && mailboxes[m].parentId == Some(snap[js[a]].id)
  }

  /** An email's primary mailbox goes. */
  ghost predicate OrphansEmail(db: Db, snap: Keyed, js: seq<JmapId>)
    requires forall j :: j in js ==> j in snap
  {
    exists r :: r in db.emails && Gone(snap, js, db.emails[r].primary)
  }

  /** Among the rows that go, children come before their parents. */
  ghost predicate ChildrenFirst(snap: Keyed, js: seq<JmapId>)
    requires forall j :: j in js ==> j in snap
  {
    forall a, b :: 0 <= a < |js| && 0 <= b < |js| && a != b && snap[js[b]].parentId == Some(snap[js[a]].id) ==> b < a
  }

  /** The row at position n is still a parent then, or an email has it for its primary. */
  ghost predicate Refused(w: Tree, snap: Keyed, js: seq<JmapId>, n: nat)
    requires (forall j :: j in js ==> j in snap) && n < |js|
  {
    (exists m :: m in w.db.mailboxes && !Gone(snap, js[..n], m) && m != snap[js[n]].id && w.db.mailboxes[m].parentId == Some(snap[js[n]].id)) ||
    (exists r :: r in w.db.emails && w.db.emails[r].primary == snap[js[n]].id)
  }

  lemma RefusedIff(w: Tree, snap: Keyed, js: seq<JmapId>, n: nat)
    requires IsKeyed(w.db.mailboxes, snap) && NoRepeat(js) && (forall j :: j in js ==> j in snap) && n < |js|
    requires Deletes(w, snap, js[..n]).1
    ensures Deletes(w, snap, js[..n]).0.db.DeleteMailbox(snap[js[n]].id).None? <==> Refused(w, snap, js, n)
  {
    DeletesKeep(w, snap, js[..n]);
    assert js[n] !in js[..n];
    ReferencedIff(w, snap, js, n, Deletes(w, snap, js[..n]).0.db);
  }

  lemma ReferencedIff(w: Tree, snap: Keyed, js: seq<JmapId>, n: nat, db: Db)
    requires (forall j :: j in js ==> j in snap) && n < |js|
    requires db.emails == w.db.emails && snap[js[n]].id in db.mailboxes
    requires forall m :: m in db.mailboxes <==> m in w.db.mailboxes && !Gone(snap, js[..n], m)
    requires forall m :: m in db.mailboxes ==> db.mailboxes[m] == w.db.mailboxes[m]
    ensures db.DeleteMailbox(snap[js[n]].id).None? <==> Refused(w, snap, js, n)
  {
    var id := snap[js[n]].id;
    if m :| m in db.mailboxes && m != id && db.mailboxes[m].parentId == Some(id) { assert w.db.mailboxes[m].parentId == Some(id); }
    if m :| m in w.db.mailboxes && !Gone(snap, js[..n], m) && m != id && w.db.mailboxes[m].parentId == Some(id) {
      assert db.mailboxes[m].parentId == Some(id);
    }
  }

  // -------------------------------------------------------------------------
  // Directories on the way
  // -------------------------------------------------------------------------

  lemma UnderTransitive(x: string, y: string, z: string)
    requires Under(x, y) && Under(y, z)
    ensures Under(x, z)
  {
    UnderIs(x, y);
    UnderIs(y, z);
    if x != y && y != z { assert x[..|z|] == y[..|z|] && x[|z|] == y[|z|]; }
  }

  /** A directory that one of the first `n` deletes takes away. */
  ghost predicate Swept(d: Disk, snap: Keyed, js: seq<JmapId>, n: nat, x: string)
    requires (forall j :: j in js ==> j in snap) && n <= |js|
  {
    exists b :: 0 <= b < n && snap[js[b]].path in d.dirs && Under(x, snap[js[b]].path)
  }

  lemma {:induction false} DirsAfter(w: Tree, snap: Keyed, js: seq<JmapId>, n: nat)
    requires (forall j :: j in js ==> j in snap) && n <= |js| && Deletes(w, snap, js[..n]).1
    ensures Deletes(w, snap, js[..n]).0.disk.faulty == w.disk.faulty
    ensures forall x :: x in Deletes(w, snap, js[..n]).0.disk.dirs <==> x in w.disk.dirs && !Swept(w.disk, snap, js, n, x)
    decreases n
  {
    if n > 0 {
      var m: nat := n - 1;
      assert js[..n][..m] == js[..m] && js[..n][m] == js[m];
      DirsAfter(w, snap, js, m);
      OneMoreSwept(w.disk, snap, js, m, Deletes(w, snap, js[..m]).0.disk, Deletes(w, snap, js[..n]).0.disk);
    }
  }

  lemma OneMoreSwept(d: Disk, snap: Keyed, js: seq<JmapId>, n: nat, before: Disk, after: Disk)
    requires (forall j :: j in js ==> j in snap) && n < |js|
    requires forall x :: x in before.dirs <==> x in d.dirs && !Swept(d, snap, js, n, x)
    requires after == if snap[js[n]].path in before.dirs then RemoveTree(before, snap[js[n]].path) else before
    ensures forall x :: x in after.dirs <==> x in d.dirs && !Swept(d, snap, js, n + 1, x)
  {
    var p := snap[js[n]].path;
    forall x ensures Swept(d, snap, js, n + 1, x) <==> Swept(d, snap, js, n, x) || (p in d.dirs && Under(x, p)) {}
    forall x | p !in before.dirs && p in d.dirs && Under(x, p) ensures Swept(d, snap, js, n, x) {
      var b :| 0 <= b < n && snap[js[b]].path in d.dirs && Under(p, snap[js[b]].path);
      UnderTransitive(x, p, snap[js[b]].path);
    }
  }

  /** The directory to remove at position n is still there then, and cannot be removed. */
  ghost predicate Faulty(d: Disk, snap: Keyed, js: seq<JmapId>, n: nat)
    requires (forall j :: j in js ==> j in snap) && n < |js|
  {
    snap[js[n]].path in d.dirs && snap[js[n]].path in d.faulty && !Swept(d, snap, js, n, snap[js[n]].path)
  }

  // -------------------------------------------------------------------------
  // When the deletes go through
  // -------------------------------------------------------------------------

  lemma {:induction false} DeletesUpTo(w: Tree, snap: Keyed, js: seq<JmapId>, n: nat)
    requires IsKeyed(w.db.mailboxes, snap) && NoRepeat(js) && (forall j :: j in js ==> j in snap) && n <= |js|
    ensures Deletes(w, snap, js[..n]).1 <==> forall a :: 0 <= a < n ==> !Stops(w, snap, js, a)
    decreases n
  {
    if n > 0 {
      var m: nat := n - 1;
      DeletesUpTo(w, snap, js, m);
      NextDelete(w, snap, js, m);
      assert m + 1 == n;
    }
  }

  ghost predicate Stops(w: Tree, snap: Keyed, js: seq<JmapId>, n: nat)
    requires (forall j :: j in js ==> j in snap) && n < |js|
  {
    Refused(w, snap, js, n) || Faulty(w.disk, snap, js, n)
  }

  lemma NextDelete(w: Tree, snap: Keyed, js: seq<JmapId>, n: nat)
    requires IsKeyed(w.db.mailboxes, snap) && NoRepeat(js) && (forall j :: j in js ==> j in snap) && n < |js|
    ensures Deletes(w, snap, js[..n + 1]).1 <==>
            Deletes(w, snap, js[..n]).1 && !Stops(w, snap, js, n)
  {
    assert js[..n + 1][..n] == js[..n];
    if Deletes(w, snap, js[..n]).1 {
      RefusedIff(w, snap, js, n);
      DirsAfter(w, snap, js, n);
    }
  }

  lemma OwnPlace(mailboxes: map<MailboxId, MailboxRow>, snap: Keyed, js: seq<JmapId>, b: nat, n: nat)
    requires IsKeyed(mailboxes, snap) && NoRepeat(js) && (forall j :: j in js ==> j in snap) && n <= b < |js|
    ensures !Gone(snap, js[..n], snap[js[b]].id)
  {
    forall c | 0 <= c < n ensures snap[js[c]].id != snap[js[b]].id {
      assert snap[js[c]].jmapId != snap[js[b]].jmapId;
    }
  }

  /** Some delete is refused exactly for a child that stays, a primary mailbox, or a parent before its child. */
  lemma SomeRefusedIff(w: Tree, snap: Keyed, js: seq<JmapId>)
    requires IsKeyed(w.db.mailboxes, snap) && NoRepeat(js) && (forall j :: j in js ==> j in snap)
    ensures (exists a :: 0 <= a < |js| && Refused(w, snap, js, a)) <==>
            OrphansChild(w.db.mailboxes, snap, js) || OrphansEmail(w.db, snap, js) || !ChildrenFirst(snap, js)
  {
    if a :| 0 <= a < |js| && Refused(w, snap, js, a) { RefusedFor(w, snap, js, a); }
    if OrphansChild(w.db.mailboxes, snap, js) {
      var m, a :| m in w.db.mailboxes && !Gone(snap, js, m) && 0 <= a < |js| && w.db.mailboxes[m].parentId == Some(snap[js[a]].id);
      if Gone(snap, js[..a], m) { GonePrefix(snap, js, a, m); }
      assert Refused(w, snap, js, a);
    }
    if OrphansEmail(w.db, snap, js) {
      var r :| r in w.db.emails && Gone(snap, js, w.db.emails[r].primary);
      var a :| 0 <= a < |js| && snap[js[a]].id == w.db.emails[r].primary;
      assert Refused(w, snap, js, a);
    }
    if !ChildrenFirst(snap, js) {
      var a, b :| 0 <= a < |js| && 0 <= b < |js| && a != b && snap[js[b]].parentId == Some(snap[js[a]].id) && a <= b;
      OwnPlace(w.db.mailboxes, snap, js, b, a);
      assert snap[js[a]].jmapId != snap[js[b]].jmapId;
      assert Refused(w, snap, js, a);
    }
  }

  lemma RefusedFor(w: Tree, snap: Keyed, js: seq<JmapId>, a: nat)
    requires IsKeyed(w.db.mailboxes, snap) && NoRepeat(js) && (forall j :: j in js ==> j in snap) && a < |js|
    requires Refused(w, snap, js, a)
    ensures OrphansChild(w.db.mailboxes, snap, js) || OrphansEmail(w.db, snap, js) || !ChildrenFirst(snap, js)
  {
    if r :| r in w.db.emails && w.db.emails[r].primary == snap[js[a]].id {
      assert Gone(snap, js, w.db.emails[r].primary);
    } else {
      var m :| m in w.db.mailboxes && !Gone(snap, js[..a], m) && m != snap[js[a]].id && w.db.mailboxes[m].parentId == Some(snap[js[a]].id);
      if Gone(snap, js, m) {
        var b :| 0 <= b < |js| && snap[js[b]].id == m;
        NotGoneSoFar(snap, js, a, m);
      }
    }
  }

  lemma NotGoneSoFar(snap: Keyed, js: seq<JmapId>, n: nat, m: MailboxId)
    requires (forall j :: j in js ==> j in snap) && n <= |js| && !Gone(snap, js[..n], m)
    ensures forall b :: 0 <= b < n ==> snap[js[b]].id != m
  {
    forall b | 0 <= b < n ensures snap[js[b]].id != m { assert js[..n][b] == js[b]; }
  }

  /**
   The deletes go through exactly when no row that stays has a parent that goes, no email has a primary mailbox that
   goes, children come before their parents, and no directory that is still there at its turn cannot be removed.
   */
  lemma DeletesOkIff(w: Tree, snap: Keyed, js: seq<JmapId>)
    requires IsKeyed(w.db.mailboxes, snap) && NoRepeat(js) && (forall j :: j in js ==> j in snap)
    ensures Deletes(w, snap, js).1 <==>
            && !OrphansChild(w.db.mailboxes, snap, js) && !OrphansEmail(w.db, snap, js) && ChildrenFirst(snap, js)
            && forall a :: 0 <= a < |js| ==> !Faulty(w.disk, snap, js, a)
  {
    DeletesUpTo(w, snap, js, |js|);
    assert js[..|js|] == js;
    SomeRefusedIff(w, snap, js);
    assert forall a :: 0 <= a < |js| ==> (Stops(w, snap, js, a) <==> Refused(w, snap, js, a) || Faulty(w.disk, snap, js, a));
  }

  /** A child's path goes on from its parent's. */
  ghost predicate PathsNested(snap: Keyed) {
    forall i, j :: i in snap && j in snap && snap[j].parentId == Some(snap[i].id) ==> snap[i].path < snap[j].path
  }

  lemma {:induction false} PrefixIsShorter(a: string, b: string)
    requires a <= b
    ensures PathLength(a) <= PathLength(b) && (a < b ==> PathLength(a) < PathLength(b))
    decreases |b|
  {
    if |a| < |b| {
      PrefixIsShorter(a, b[..|b| - 1]);
    } else {
      assert a == b;
    }
  }

  /** Deleting the longest paths first deletes children first. */
  lemma DeepestIsChildrenFirst(snap: Keyed, js: seq<JmapId>)
    requires (forall j :: j in js ==> j in snap) && NoRepeat(js) && DeepestFirst(snap, js) && PathsNested(snap)
    ensures ChildrenFirst(snap, js)
  {
    forall a, b | 0 <= a < |js| && 0 <= b < |js| && a != b && snap[js[b]].parentId == Some(snap[js[a]].id) ensures b < a {
      PrefixIsShorter(snap[js[a]].path, snap[js[b]].path);
    }
  }

  // -------------------------------------------------------------------------
  // Every order, longest path first
  // -------------------------------------------------------------------------

  /** An order in which the mailbox comes before the others of paths as long as its own. */
  lemma {:induction false} OrderWithFirst(snap: Keyed, doomed: set<JmapId>, p: JmapId) returns (js: seq<JmapId>)
    requires doomed <= snap.Keys && p in doomed
    ensures Lists(js, doomed) && DeepestFirst(snap, js)
    ensures exists a :: 0 <= a < |js| && js[a] == p && forall b :: 0 <= b < a ==> PathLength(snap[js[b]].path) > PathLength(snap[p].path)
  {
    var others := SortedList(snap, doomed - {p});
    var at: nat := 0;
    while at < |others| && PathLength(snap[others[at]].path) > PathLength(snap[p].path)
      invariant at <= |others|
      invariant forall a :: 0 <= a < at ==> PathLength(snap[others[a]].path) > PathLength(snap[p].path)
    {
      at := at + 1;
    }
    InsertKeepsOrder(snap, others, p, at);
    js := Inserted(others, p, at);
    assert js[at] == p && forall b :: 0 <= b < at ==> js[b] == others[b];
  }

  lemma {:induction false} SortedList(snap: Keyed, doomed: set<JmapId>) returns (js: seq<JmapId>)
    requires doomed <= snap.Keys
    ensures Lists(js, doomed) && DeepestFirst(snap, js)
    decreases |doomed|
  {
    if doomed == {} {
      js := [];
    } else {
      var j :| j in doomed;
      var others := SortedList(snap, doomed - {j});
      var at: nat := 0;
      while at < |others| && PathLength(snap[others[at]].path) >= PathLength(snap[j].path)
        invariant at <= |others|
        invariant forall a :: 0 <= a < at ==> PathLength(snap[others[a]].path) >= PathLength(snap[j].path)
      {
        at := at + 1;
      }
      InsertKeepsOrder(snap, others, j, at);
      js := Inserted(others, j, at);
    }
  }

  /** Row of one of the mailboxes. */
  ghost predicate RowOf(snap: Keyed, doomed: set<JmapId>, m: MailboxId)
    requires doomed <= snap.Keys
  {
    exists j :: j in doomed && snap[j].id == m
  }

  /** What makes the deletes safe, read off the tables: no child stays, no email has its primary there, no directory is faulty. */
  ghost predicate NothingHangsOn(w: Tree, snap: Keyed, doomed: set<JmapId>)
    requires doomed <= snap.Keys
  {
    && (forall m :: m in w.db.mailboxes && w.db.mailboxes[m].parentId.Some? && RowOf(snap, doomed, w.db.mailboxes[m].parentId.value) ==>
          RowOf(snap, doomed, m))
    && (forall r :: r in w.db.emails ==> !RowOf(snap, doomed, w.db.emails[r].primary))
    && (forall j :: j in doomed ==> !(snap[j].path in w.disk.dirs && snap[j].path in w.disk.faulty))
  }

  /** Each child among them has a longer path than its parent. */
  ghost predicate ChildrenLonger(snap: Keyed, doomed: set<JmapId>)
    requires doomed <= snap.Keys
  {
    forall i, j :: i in doomed && j in doomed && i != j && snap[i].parentId == Some(snap[j].id) ==>
      PathLength(snap[j].path) < PathLength(snap[i].path)
  }

  lemma GoneIsRowOf(snap: Keyed, doomed: set<JmapId>, js: seq<JmapId>)
    requires doomed <= snap.Keys && Lists(js, doomed)
    ensures forall m :: Gone(snap, js, m) <==> RowOf(snap, doomed, m)
  {
    forall m ensures Gone(snap, js, m) <==> RowOf(snap, doomed, m) {
      if j :| j in doomed && snap[j].id == m {
        assert j in js;
        var a :| 0 <= a < |js| && js[a] == j;
        assert snap[js[a]].id == m;
      }
      if a :| 0 <= a < |js| && snap[js[a]].id == m { assert js[a] in js; }
    }
  }

  lemma {:induction false} UnderIsLonger(x: string, y: string)
    requires Under(x, y)
    ensures PathLength(y) <= PathLength(x) && (x != y ==> PathLength(y) < PathLength(x))
  {
    UnderIs(x, y);
    PrefixIsShorter(y, x);
  }

  /** Faults and hanging rows under one order. */
  lemma HangsIff(w: Tree, snap: Keyed, doomed: set<JmapId>, js: seq<JmapId>)
    requires IsKeyed(w.db.mailboxes, snap) && doomed <= snap.Keys && Lists(js, doomed) && DeepestFirst(snap, js)
    ensures NothingHangsOn(w, snap, doomed) <==>
            && !OrphansChild(w.db.mailboxes, snap, js) && !OrphansEmail(w.db, snap, js)
            && forall a :: 0 <= a < |js| ==> !Faulty(w.disk, snap, js, a)
  {
    GoneIsRowOf(snap, doomed, js);
    FaultsIff(w.disk, snap, doomed, js);
    ChildStaysIff(w.db.mailboxes, snap, doomed, js);
  }

  lemma ChildStaysIff(mailboxes: map<MailboxId, MailboxRow>, snap: Keyed, doomed: set<JmapId>, js: seq<JmapId>)
    requires doomed <= snap.Keys && Lists(js, doomed) && forall m :: Gone(snap, js, m) <==> RowOf(snap, doomed, m)
    ensures OrphansChild(mailboxes, snap, js) <==>
            exists m :: m in mailboxes && mailboxes[m].parentId.Some? && RowOf(snap, doomed, mailboxes[m].parentId.value) && !RowOf(snap, doomed, m)
  {
    if m, a :| m in mailboxes && !Gone(snap, js, m) && 0 <= a < |js| && mailboxes[m].parentId == Some(snap[js[a]].id) {
      assert Gone(snap, js, mailboxes[m].parentId.value);
    }
    if m :| m in mailboxes && mailboxes[m].parentId.Some? && RowOf(snap, doomed, mailboxes[m].parentId.value) && !RowOf(snap, doomed, m) {
      assert Gone(snap, js, mailboxes[m].parentId.value);
      var a :| 0 <= a < |js| && snap[js[a]].id == mailboxes[m].parentId.value;
      assert !Gone(snap, js, m) && mailboxes[m].parentId == Some(snap[js[a]].id);
    }
  }

  /** The first of the mailboxes of a faulty path meets it. */
  lemma FaultsIff(d: Disk, snap: Keyed, doomed: set<JmapId>, js: seq<JmapId>)
    requires doomed <= snap.Keys && Lists(js, doomed) && DeepestFirst(snap, js)
    ensures (exists a :: 0 <= a < |js| && Faulty(d, snap, js, a)) <==>
            exists j :: j in doomed && snap[j].path in d.dirs && snap[j].path in d.faulty
  {
    if a :| 0 <= a < |js| && Faulty(d, snap, js, a) { assert js[a] in doomed; }
    if j :| j in doomed && snap[j].path in d.dirs && snap[j].path in d.faulty {
      var a :| 0 <= a < |js| && js[a] == j;
      FirstOfPath(d, snap, js, a);
    }
  }

  lemma {:induction false} FirstOfPath(d: Disk, snap: Keyed, js: seq<JmapId>, a: nat)
    requires (forall j :: j in js ==> j in snap) && DeepestFirst(snap, js) && a < |js|
    requires snap[js[a]].path in d.dirs && snap[js[a]].path in d.faulty
    ensures exists b :: 0 <= b < |js| && Faulty(d, snap, js, b)
    decreases a
  {
    if Swept(d, snap, js, a, snap[js[a]].path) {
      var b :| 0 <= b < a && snap[js[b]].path in d.dirs && Under(snap[js[a]].path, snap[js[b]].path);
      UnderIsLonger(snap[js[a]].path, snap[js[b]].path);
      FirstOfPath(d, snap, js, b);
    } else {
      assert Faulty(d, snap, js, a);
    }
  }

  lemma LongerIsFirst(snap: Keyed, doomed: set<JmapId>, js: seq<JmapId>)
    requires doomed <= snap.Keys && Lists(js, doomed) && DeepestFirst(snap, js) && ChildrenLonger(snap, doomed)
    ensures ChildrenFirst(snap, js)
  {
    forall a, b | 0 <= a < |js| && 0 <= b < |js| && a != b && snap[js[b]].parentId == Some(snap[js[a]].id) ensures b < a {
      assert js[a] in doomed && js[b] in doomed;
    }
  }

  lemma FirstBeforeChild(snap: Keyed, doomed: set<JmapId>, child: JmapId, p: JmapId) returns (js: seq<JmapId>)
    requires doomed <= snap.Keys && p in doomed && child in doomed && child != p && snap[child].parentId == Some(snap[p].id)
    requires PathLength(snap[child].path) <= PathLength(snap[p].path)
    ensures Lists(js, doomed) && DeepestFirst(snap, js) && !ChildrenFirst(snap, js)
  {
    js := OrderWithFirst(snap, doomed, p);
    var a :| 0 <= a < |js| && js[a] == p && forall b :: 0 <= b < a ==> PathLength(snap[js[b]].path) > PathLength(snap[p].path);
    assert child in js;
    var b :| 0 <= b < |js| && js[b] == child;
  }

  /**
   Whatever the program's sort does with ties, the deletes go through exactly when nothing that stays hangs on what goes
   and every child that goes has a longer path than its parent.
   */
  lemma AllDeletesOkIff(w: Tree, snap: Keyed, doomed: set<JmapId>)
    requires IsKeyed(w.db.mailboxes, snap) && doomed <= snap.Keys
    ensures (forall js :: Lists(js, doomed) && DeepestFirst(snap, js) ==> Deletes(w, snap, js).1) <==>
            NothingHangsOn(w, snap, doomed) && ChildrenLonger(snap, doomed)
  {
    if NothingHangsOn(w, snap, doomed) && ChildrenLonger(snap, doomed) {
      forall js | Lists(js, doomed) && DeepestFirst(snap, js) ensures Deletes(w, snap, js).1 {
        DeletesOkIff(w, snap, js);
        HangsIff(w, snap, doomed, js);
        LongerIsFirst(snap, doomed, js);
      }
    } else {
      var js := FailingOrder(w, snap, doomed);
    }
  }

  lemma FailingOrder(w: Tree, snap: Keyed, doomed: set<JmapId>) returns (js: seq<JmapId>)
    requires IsKeyed(w.db.mailboxes, snap) && doomed <= snap.Keys && !(NothingHangsOn(w, snap, doomed) && ChildrenLonger(snap, doomed))
    ensures Lists(js, doomed) && DeepestFirst(snap, js) && !Deletes(w, snap, js).1
  {
    if !NothingHangsOn(w, snap, doomed) {
      js := SortedList(snap, doomed);
    } else {
      var i, j :| i in doomed && j in doomed && i != j && snap[i].parentId == Some(snap[j].id) &&
        PathLength(snap[j].path) >= PathLength(snap[i].path);
      js := FirstBeforeChild(snap, doomed, i, j);
    }
    DeletesOkIff(w, snap, js);
    HangsIff(w, snap, doomed, js);
  }

  /** A child with a shorter path than its parent fails the deletes in every order. */
  lemma ShorterChildBlocks(w: Tree, snap: Keyed, doomed: set<JmapId>, js: seq<JmapId>, child: JmapId, parent: JmapId)
    requires IsKeyed(w.db.mailboxes, snap) && doomed <= snap.Keys && Lists(js, doomed) && DeepestFirst(snap, js)
    requires child in doomed && parent in doomed && child != parent && snap[child].parentId == Some(snap[parent].id)
    requires PathLength(snap[child].path) < PathLength(snap[parent].path)
    ensures !Deletes(w, snap, js).1
  {
    assert child in js && parent in js;
    var a :| 0 <= a < |js| && js[a] == parent;
    var b :| 0 <= b < |js| && js[b] == child;
    DeletesOkIff(w, snap, js);
  }

  // -------------------------------------------------------------------------
  // One by one
  // -------------------------------------------------------------------------

  /** Deletes that go through all went through one by one. */
  lemma {:induction false} DeletedOneByOne(w: Tree, snap: Keyed, js: seq<JmapId>, n: nat)
    requires (forall j :: j in js ==> j in snap) && n < |js| && Deletes(w, snap, js).1
    ensures Deletes(w, snap, js[..n]).1 && DeleteEntry(Deletes(w, snap, js[..n]).0, snap[js[n]]).1
    decreases |js|
  {
    var front := js[..|js| - 1];
    if n < |front| {
      DeletedOneByOne(w, snap, front, n);
      assert front[..n] == js[..n] && front[n] == js[n];
    } else {
      assert js[..n] == front;
    }
  }

  /** Before its own delete a row is there, and the rows that stay and the emails are as they were. */
  lemma StillAt(w: Tree, snap: Keyed, js: seq<JmapId>, n: nat)
    requires IsKeyed(w.db.mailboxes, snap) && NoRepeat(js) && (forall j :: j in js ==> j in snap) && n < |js|
    requires Deletes(w, snap, js[..n]).1
    ensures var db := Deletes(w, snap, js[..n]).0.db;
            && db.emails == w.db.emails && snap[js[n]].id in db.mailboxes
            && forall m :: m in w.db.mailboxes && !Gone(snap, js, m) ==> m in db.mailboxes && db.mailboxes[m] == w.db.mailboxes[m]
  {
    DeletesKeep(w, snap, js[..n]);
    assert js[n] !in js[..n];
    forall m | m in w.db.mailboxes && !Gone(snap, js, m) ensures !Gone(snap, js[..n], m) {
      if Gone(snap, js[..n], m) { GonePrefix(snap, js, n, m); }
    }
  }

  /** A row that is not deleted keeps its parent from being deleted. */
  lemma ChildBlocks(w: Tree, snap: Keyed, js: seq<JmapId>, a: nat, child: MailboxId)
    requires IsKeyed(w.db.mailboxes, snap) && NoRepeat(js) && (forall j :: j in js ==> j in snap) && a < |js|
    requires child in w.db.mailboxes && !Gone(snap, js, child) && child != snap[js[a]].id
    requires w.db.mailboxes[child].parentId == Some(snap[js[a]].id)
    ensures !Deletes(w, snap, js).1
  {
    if Deletes(w, snap, js).1 {
      DeletedOneByOne(w, snap, js, a);
      StillAt(w, snap, js, a);
    }
  }
}
