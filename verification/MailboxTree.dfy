/** The server's mailbox tree: path resolution, the target set, and the order of creates and updates. */
module MailboxTree {
  import opened Prelude
  import opened Primary

  /** A mailbox as the server lists it. */
  datatype Remote = Remote(
    id: Option<JmapId>,
    name: Option<string>,
    parent: Option<JmapId>,
    role: Option<string>,
    sortOrder: int,
    subscribed: bool)

  datatype TreeError = NoId | Cycle(at: JmapId) | NoName(of: JmapId) | UnknownParent(child: JmapId, parent: JmapId)

  datatype Result<+T> = Ok(value: T) | Err(error: TreeError)

  type ById = map<JmapId, Remote>

  /** Each id is listed once. */
  ghost predicate Indexed(byId: ById) {
    forall i :: i in byId ==> byId[i].id == Some(i)
  }

  ghost predicate Listed(m: Remote, byId: ById) {
    m.id.Some? ==> m.id.value in byId && byId[m.id.value] == m
  }

  // -------------------------------------------------------------------------
  // Segments
  // -------------------------------------------------------------------------

  function Sanitize(s: string): (r: string)
    ensures '/' !in r && |r| == |s| && forall i :: 0 <= i < |s| ==> r[i] == if s[i] == '/' then '_' else s[i]
  {
    if s == "" then "" else [if s[0] == '/' then '_' else s[0]] + Sanitize(s[1..])
  }

  function Mapped(name: string, names: map<string, string>): string {
    if name in names then names[name] else name
  }

  function Join(segments: seq<string>): string {
    if segments == [] then ""
    else if |segments| == 1 then segments[0]
    else Join(segments[..|segments| - 1]) + "/" + segments[|segments| - 1]
  }

  function Reverse<T>(s: seq<T>): seq<T> {
    if s == [] then [] else [s[|s| - 1]] + Reverse(s[..|s| - 1])
  }

  // -------------------------------------------------------------------------
  // Resolving a path
  // -------------------------------------------------------------------------

  /** The segments from the root down, never meeting an id twice. */
  function Resolve(m: Remote, byId: ById, names: map<string, string>, seen: set<JmapId>): Result<seq<string>>
    requires Indexed(byId) && Listed(m, byId)
    decreases |byId.Keys - seen|
  {
    if m.id.None? then Err(NoId)
    else if m.id.value in seen then Err(Cycle(m.id.value))
    else if m.name.None? then Err(NoName(m.id.value))
    else
      var segment := Sanitize(Mapped(m.name.value, names));
      if m.parent.None? then Ok([segment])
      else if m.parent.value !in byId then Err(UnknownParent(m.id.value, m.parent.value))
      else
        var wider := seen + {m.id.value};
        assert byId.Keys - wider < byId.Keys - seen by { assert m.id.value in byId.Keys - seen; }
        Fewer(byId.Keys - wider, byId.Keys - seen);
        Below(Resolve(byId[m.parent.value], byId, names, wider), [segment])
  }

  lemma Fewer<T>(a: set<T>, b: set<T>)
    requires a < b
    ensures |a| < |b|
  {
    var x :| x in b && x !in a;
    assert |b - {x}| == |b| - 1;
    Subset(a, b - {x});
  }

  lemma Subset<T>(a: set<T>, b: set<T>)
    requires a <= b
    ensures |a| <= |b|
  {
    assert b == a + (b - a) && |a + (b - a)| == |a| + |b - a|;
  }

  /** The loop up the parent chain; the path is joined at the end. */
  method ResolvePath(mailbox: Remote, byId: ById, names: map<string, string>) returns (r: Result<string>)
    requires Indexed(byId) && Listed(mailbox, byId)
    ensures r == match Resolve(mailbox, byId, names, {}) case Err(e) => Err(e) case Ok(s) => Ok(Join(s))
    ensures r.Ok? <==> exists k: nat :: Rooted(mailbox, byId, k)
    ensures forall k: nat :: Rooted(mailbox, byId, k) ==> r.Ok? && IsPath(r.value, mailbox, byId, names, k)
    ensures r.Err? ==> Blames(mailbox, byId, {}, r.error)
  {
    ResolvedPath(mailbox, byId, names);
    ErrorBlames(mailbox, byId, names, {});
    var segments: seq<string> := [];
    var current := mailbox;
    var seen: set<JmapId> := {};
    BelowNothing(Resolve(mailbox, byId, names, {}));
    while true
      invariant Listed(current, byId)
      invariant Resolve(mailbox, byId, names, {}) == Below(Resolve(current, byId, names, seen), Reverse(segments))
      decreases |byId.Keys - seen|
    {
      if current.id.None? { return Err(NoId); }
      var id := current.id.value;
      if id in seen { return Err(Cycle(id)); }
      ghost var before := seen;
      seen := seen + {id};
      if current.name.None? { return Err(NoName(id)); }
      var segment := Sanitize(Mapped(current.name.value, names));
      ReverseAppend(segments, segment);
      segments := segments + [segment];
      if current.parent.None? { break; }
      if current.parent.value !in byId { return Err(UnknownParent(id, current.parent.value)); }
      assert byId.Keys - seen < byId.Keys - before by { assert id in byId.Keys - before; }
      Fewer(byId.Keys - seen, byId.Keys - before);
      current := byId[current.parent.value];
      BelowBelow(Resolve(current, byId, names, seen), segment, Reverse(segments[..|segments| - 1]));
    }
    r := Ok(Join(Reverse(segments)));
  }

  function Below(above: Result<seq<string>>, segments: seq<string>): Result<seq<string>> {
    match above case Err(e) => Err(e) case Ok(s) => Ok(s + segments)
  }

  lemma BelowNothing(above: Result<seq<string>>)
    ensures Below(above, []) == above
  {
    if above.Ok? { assert above.value + [] == above.value; }
  }

  lemma BelowBelow(above: Result<seq<string>>, segment: string, segments: seq<string>)
    ensures Below(Below(above, [segment]), segments) == Below(above, [segment] + segments)
  {
    if above.Ok? { assert above.value + [segment] + segments == above.value + ([segment] + segments); }
  }

  lemma ReverseAppend<T>(s: seq<T>, x: T)
    ensures Reverse(s + [x]) == [x] + Reverse(s)
  {
    assert (s + [x])[..|s|] == s;
  }

  // -------------------------------------------------------------------------
  // When a path resolves
  // -------------------------------------------------------------------------

  /** The k-th ancestor. */
  function Ancestor(m: Remote, byId: ById, k: nat): Option<Remote>
    decreases k
  {
    if k == 0 then Some(m)
    else if m.parent.Some? && m.parent.value in byId then Ancestor(byId[m.parent.value], byId, k - 1) else None
  }

  /** A root is reached in exactly k steps, past mailboxes with id and name. */
  predicate Rooted(m: Remote, byId: ById, k: nat)
    decreases k
  {
    && m.id.Some? && m.name.Some?
    && if m.parent.None? then k == 0
       else k > 0 && m.parent.value in byId && Rooted(byId[m.parent.value], byId, k - 1)
  }

  /** Segments from the root down, k steps away. */
  function SegmentsUp(m: Remote, byId: ById, names: map<string, string>, k: nat): seq<string>
    requires Rooted(m, byId, k)
    decreases k
  {
    (if k == 0 then [] else SegmentsUp(byId[m.parent.value], byId, names, k - 1)) + [Sanitize(Mapped(m.name.value, names))]
  }

  lemma {:induction false} RootedOnce(m: Remote, byId: ById, j: nat, k: nat)
    requires Rooted(m, byId, j) && Rooted(m, byId, k)
    ensures j == k
    decreases k
  {
    if m.parent.Some? { RootedOnce(byId[m.parent.value], byId, j - 1, k - 1); }
  }

  lemma {:induction false} AncestorRooted(m: Remote, byId: ById, i: nat, k: nat)
    requires Rooted(m, byId, k) && Ancestor(m, byId, i).Some?
    ensures i <= k && Rooted(Ancestor(m, byId, i).value, byId, k - i)
    decreases i
  {
    if i > 0 { AncestorRooted(byId[m.parent.value], byId, i - 1, k - 1); }
  }

  /** None of the mailboxes up to the root was seen. */
  ghost predicate Unseen(m: Remote, byId: ById, seen: set<JmapId>) {
    forall i: nat :: Ancestor(m, byId, i).Some? && Ancestor(m, byId, i).value.id.Some? ==> Ancestor(m, byId, i).value.id.value !in seen
  }

  lemma {:induction false} RootedResolves(m: Remote, byId: ById, names: map<string, string>, seen: set<JmapId>, k: nat)
    requires Indexed(byId) && Listed(m, byId) && Rooted(m, byId, k) && Unseen(m, byId, seen)
    ensures Resolve(m, byId, names, seen) == Ok(SegmentsUp(m, byId, names, k))
    decreases k
  {
    assert Ancestor(m, byId, 0).value.id.value !in seen;
    if k == 0 {
      assert [] + [Sanitize(Mapped(m.name.value, names))] == [Sanitize(Mapped(m.name.value, names))];
    } else {
      var parent, wider := byId[m.parent.value], seen + {m.id.value};
      forall i: nat | Ancestor(parent, byId, i).Some? && Ancestor(parent, byId, i).value.id.Some?
        ensures Ancestor(parent, byId, i).value.id.value !in wider
      {
        assert Ancestor(m, byId, i + 1) == Ancestor(parent, byId, i);
        AncestorRooted(parent, byId, i, k - 1);
        AncestorListed(m, byId, i + 1);
        if Ancestor(parent, byId, i).value == m { RootedOnce(m, byId, k, k - 1 - i); }
      }
      RootedResolves(parent, byId, names, wider, k - 1);
    }
  }

  lemma {:induction false} AncestorListed(m: Remote, byId: ById, i: nat)
    requires Indexed(byId) && Listed(m, byId) && Ancestor(m, byId, i).Some?
    ensures Listed(Ancestor(m, byId, i).value, byId)
    decreases i
  {
    if i > 0 { AncestorListed(byId[m.parent.value], byId, i - 1); }
  }

  lemma {:induction false} ResolvesRooted(m: Remote, byId: ById, names: map<string, string>, seen: set<JmapId>)
    requires Indexed(byId) && Listed(m, byId) && Resolve(m, byId, names, seen).Ok?
    ensures exists k: nat :: Rooted(m, byId, k)
    decreases |byId.Keys - seen|
  {
    if m.parent.None? {
      assert Rooted(m, byId, 0);
    } else {
      var wider := seen + {m.id.value};
      assert byId.Keys - wider < byId.Keys - seen by { assert m.id.value in byId.Keys - seen; }
      Fewer(byId.Keys - wider, byId.Keys - seen);
      ResolvesRooted(byId[m.parent.value], byId, names, wider);
      var k: nat :| Rooted(byId[m.parent.value], byId, k);
      assert Rooted(m, byId, k + 1);
    }
  }

  /** A path resolves exactly when climbing the parents reaches a root past named mailboxes; it is then those names. */
  lemma ResolveOkIff(m: Remote, byId: ById, names: map<string, string>)
    requires Indexed(byId) && Listed(m, byId)
    ensures Resolve(m, byId, names, {}).Ok? <==> exists k: nat :: Rooted(m, byId, k)
    ensures forall k: nat :: Rooted(m, byId, k) ==> Resolve(m, byId, names, {}) == Ok(SegmentsUp(m, byId, names, k))
  {
    if Resolve(m, byId, names, {}).Ok? { ResolvesRooted(m, byId, names, {}); }
    forall k: nat | Rooted(m, byId, k) ensures Resolve(m, byId, names, {}) == Ok(SegmentsUp(m, byId, names, k)) {
      RootedResolves(m, byId, names, {}, k);
    }
  }

  /** A mailbox met again on the way up means failure. */
  lemma CycleFails(m: Remote, byId: ById, names: map<string, string>, i: nat, j: nat)
    requires Indexed(byId) && Listed(m, byId) && i < j
    requires Ancestor(m, byId, i).Some? && Ancestor(m, byId, j) == Ancestor(m, byId, i)
    ensures Resolve(m, byId, names, {}).Err?
  {
    ResolveOkIff(m, byId, names);
    if k: nat :| Rooted(m, byId, k) {
      AncestorRooted(m, byId, i, k);
      AncestorRooted(m, byId, j, k);
      RootedOnce(Ancestor(m, byId, i).value, byId, k - i, k - j);
      assert false;
    }
  }

  /** A child resolves when its parent does, to the parent's path, a slash, and one segment. */
  lemma ChildPath(m: Remote, byId: ById, names: map<string, string>)
    requires Indexed(byId) && Listed(m, byId) && m.parent.Some? && Resolve(m, byId, names, {}).Ok?
    ensures m.parent.value in byId
    ensures var above := Resolve(byId[m.parent.value], byId, names, {});
            && above.Ok? && m.name.Some?
            && Join(Resolve(m, byId, names, {}).value) == Join(above.value) + "/" + Sanitize(Mapped(m.name.value, names))
  {
    ResolveOkIff(m, byId, names);
    var k: nat :| Rooted(m, byId, k);
    var parent := byId[m.parent.value];
    ResolveOkIff(parent, byId, names);
    var up, segment := SegmentsUp(parent, byId, names, k - 1), Sanitize(Mapped(m.name.value, names));
    assert Rooted(parent, byId, k - 1);
    assert SegmentsUp(m, byId, names, k) == up + [segment];
    assert |up| > 0 && (up + [segment])[..|up|] == up;
  }

  // -------------------------------------------------------------------------
  // What a path says
  // -------------------------------------------------------------------------

  /** The pieces between the slashes. */
  function Split(s: string): (pieces: seq<string>)
    ensures pieces != []
  {
    if s == "" then [""]
    else
      var rest := Split(s[1..]);
      if s[0] == '/' then [""] + rest else [[s[0]] + rest[0]] + rest[1..]
  }

  lemma {:induction false} SplitPlain(s: string)
    requires '/' !in s
    ensures Split(s) == [s]
  {
    if s != "" {
      assert s == [s[0]] + s[1..];
      SplitPlain(s[1..]);
    }
  }

  lemma {:induction false} SplitAppend(a: string, b: string)
    requires '/' !in b
    ensures Split(a + "/" + b) == Split(a) + [b]
  {
    var all := a + "/" + b;
    if a == "" {
      assert all[0] == '/' && all[1..] == b;
      SplitPlain(b);
    } else {
      assert all[0] == a[0] && all[1..] == a[1..] + "/" + b;
      SplitAppend(a[1..], b);
    }
  }

  /** A path determines its pieces, and they determine the path. */
  lemma {:induction false} SplitInjective(a: string, b: string)
    requires Split(a) == Split(b)
    ensures a == b
  {
    EmptyIff(a);
    EmptyIff(b);
    if a != "" && b != "" {
      assert a[0] == '/' <==> Split(a)[0] == "";
      assert b[0] == '/' <==> Split(b)[0] == "";
      SplitTail(a);
      SplitTail(b);
      SplitInjective(a[1..], b[1..]);
      assert a == [a[0]] + a[1..] && b == [b[0]] + b[1..];
    }
  }

  lemma EmptyIff(s: string)
    ensures s == "" <==> Split(s) == [""]
  {
    if s != "" && s[0] != '/' {
      assert Split(s)[0][0] == s[0];
    }
  }

  lemma SplitTail(s: string)
    requires s != ""
    ensures var pieces := Split(s);
            Split(s[1..]) == if pieces[0] == "" then pieces[1..] else [pieces[0][1..]] + pieces[1..]
    ensures Split(s)[0] != "" ==> s[0] == Split(s)[0][0]
  {}

  /** No segment holds a slash, so splitting a joined path gives the segments back. */
  lemma {:induction false} SplitJoin(segments: seq<string>)
    requires segments != [] && forall i :: 0 <= i < |segments| ==> '/' !in segments[i]
    ensures Split(Join(segments)) == segments
    decreases |segments|
  {
    var n := |segments| - 1;
    if n == 0 {
      SplitPlain(segments[0]);
    } else {
      SplitJoin(segments[..n]);
      SplitAppend(Join(segments[..n]), segments[n]);
      assert segments == segments[..n] + [segments[n]];
    }
  }

  /** The segment shows this name, or the one configured for it, with '_' for each slash. */
  ghost predicate Shows(segment: string, name: string, names: map<string, string>) {
    var local := if name in names then names[name] else name;
    |segment| == |local| && forall j :: 0 <= j < |local| ==> segment[j] == if local[j] == '/' then '_' else local[j]
  }

  /** The path of a mailbox k steps below its root: between its slashes the names on the way, the root's first. */
  ghost predicate IsPath(path: string, m: Remote, byId: ById, names: map<string, string>, k: nat) {
    && |Split(path)| == k + 1
    && forall i: nat :: i <= k ==>
         && Ancestor(m, byId, i).Some? && Ancestor(m, byId, i).value.name.Some?
         && Shows(Split(path)[k - i], Ancestor(m, byId, i).value.name.value, names)
  }

  lemma {:induction false} SegmentsShow(m: Remote, byId: ById, names: map<string, string>, k: nat, i: nat)
    requires Rooted(m, byId, k) && i <= k
    ensures var segments := SegmentsUp(m, byId, names, k);
            && |segments| == k + 1 && '/' !in segments[k - i]
            && Ancestor(m, byId, i).Some? && Ancestor(m, byId, i).value.name.Some?
            && Shows(segments[k - i], Ancestor(m, byId, i).value.name.value, names)
    decreases k
  {
    if k > 0 {
      SegmentsShow(byId[m.parent.value], byId, names, k - 1, if i == 0 then 0 else i - 1);
    }
  }

  /** The path of a mailbox that resolves is made of the names from its root down. */
  lemma ResolvedPath(m: Remote, byId: ById, names: map<string, string>)
    requires Indexed(byId) && Listed(m, byId)
    ensures Resolve(m, byId, names, {}).Ok? <==> exists k: nat :: Rooted(m, byId, k)
    ensures forall k: nat :: Rooted(m, byId, k) ==>
              Resolve(m, byId, names, {}).Ok? && IsPath(Join(Resolve(m, byId, names, {}).value), m, byId, names, k)
  {
    ResolveOkIff(m, byId, names);
    forall k: nat | Rooted(m, byId, k) ensures IsPath(Join(SegmentsUp(m, byId, names, k)), m, byId, names, k) {
      UpPath(m, byId, names, k);
    }
  }

  lemma UpPath(m: Remote, byId: ById, names: map<string, string>, k: nat)
    requires Rooted(m, byId, k)
    ensures IsPath(Join(SegmentsUp(m, byId, names, k)), m, byId, names, k)
  {
    var segments := SegmentsUp(m, byId, names, k);
    SegmentsShow(m, byId, names, k, 0);
    forall i | 0 <= i < |segments| ensures '/' !in segments[i] { SegmentsShow(m, byId, names, k, k - i); }
    SplitJoin(segments);
    forall i: nat | i <= k
      ensures Ancestor(m, byId, i).Some? && Ancestor(m, byId, i).value.name.Some? &&
              Shows(segments[k - i], Ancestor(m, byId, i).value.name.value, names)
    {
      SegmentsShow(m, byId, names, k, i);
    }
  }

  /** A mailbox without parent has its name for a path, or the one configured for it, with '_' for each slash. */
  lemma RootPath(m: Remote, byId: ById, names: map<string, string>)
    requires Indexed(byId) && Listed(m, byId) && m.id.Some? && m.name.Some? && m.parent.None?
    ensures Resolve(m, byId, names, {}).Ok? && Shows(Join(Resolve(m, byId, names, {}).value), m.name.value, names)
  {
    assert Rooted(m, byId, 0);
    ResolveOkIff(m, byId, names);
    SegmentsShow(m, byId, names, 0, 0);
  }

  /** What the error says is so of a mailbox on the way up. */
  ghost predicate Blames(m: Remote, byId: ById, seen: set<JmapId>, e: TreeError) {
    match e
    case NoId => exists i: nat :: Ancestor(m, byId, i).Some? && Ancestor(m, byId, i).value.id.None?
    case Cycle(x) =>
      || (x in seen && exists i: nat :: Ancestor(m, byId, i).Some? && Ancestor(m, byId, i).value.id == Some(x))
      || (exists i: nat, j: nat :: i < j && Ancestor(m, byId, i).Some? && Ancestor(m, byId, i).value.id == Some(x) &&
                                   Ancestor(m, byId, j).Some? && Ancestor(m, byId, j).value.id == Some(x))
    case NoName(x) =>
      exists i: nat :: Ancestor(m, byId, i).Some? && Ancestor(m, byId, i).value.id == Some(x) && Ancestor(m, byId, i).value.name.None?
    case UnknownParent(c, p) =>
      && p !in byId
      && exists i: nat :: Ancestor(m, byId, i).Some? && Ancestor(m, byId, i).value.id == Some(c) && Ancestor(m, byId, i).value.parent == Some(p)
  }

  lemma {:induction false} ErrorBlames(m: Remote, byId: ById, names: map<string, string>, seen: set<JmapId>)
    requires Indexed(byId) && Listed(m, byId)
    ensures Resolve(m, byId, names, seen).Err? ==> Blames(m, byId, seen, Resolve(m, byId, names, seen).error)
    decreases |byId.Keys - seen|
  {
    assert Ancestor(m, byId, 0) == Some(m);
    if m.id.Some? && m.id.value !in seen && m.name.Some? && m.parent.Some? && m.parent.value in byId {
      var parent, wider := byId[m.parent.value], seen + {m.id.value};
      assert byId.Keys - wider < byId.Keys - seen by { assert m.id.value in byId.Keys - seen; }
      Fewer(byId.Keys - wider, byId.Keys - seen);
      ErrorBlames(parent, byId, names, wider);
      if Resolve(m, byId, names, seen).Err? { BlameUp(m, byId, seen, Resolve(m, byId, names, seen).error); }
    }
  }

  lemma BlameUp(m: Remote, byId: ById, seen: set<JmapId>, e: TreeError)
    requires m.id.Some? && m.parent.Some? && m.parent.value in byId && Blames(byId[m.parent.value], byId, seen + {m.id.value}, e)
    ensures Blames(m, byId, seen, e)
  {
    var parent := byId[m.parent.value];
    assert forall i: nat :: Ancestor(parent, byId, i) == Ancestor(m, byId, i + 1);
    assert Ancestor(m, byId, 0) == Some(m);
    match e {
      case NoId =>
        var i: nat :| Ancestor(parent, byId, i).Some? && Ancestor(parent, byId, i).value.id.None?;
        assert Ancestor(m, byId, i + 1).Some?;
      case Cycle(x) =>
        if i: nat, j: nat :| i < j && Ancestor(parent, byId, i).Some? && Ancestor(parent, byId, i).value.id == Some(x) &&
                             Ancestor(parent, byId, j).Some? && Ancestor(parent, byId, j).value.id == Some(x) {
          assert Ancestor(m, byId, i + 1).Some? && Ancestor(m, byId, j + 1).Some?;
        } else {
          var i: nat :| Ancestor(parent, byId, i).Some? && Ancestor(parent, byId, i).value.id == Some(x);
          assert Ancestor(m, byId, i + 1).Some?;
        }
      case NoName(x) =>
        var i: nat :| Ancestor(parent, byId, i).Some? && Ancestor(parent, byId, i).value.id == Some(x) && Ancestor(parent, byId, i).value.name.None?;
        assert Ancestor(m, byId, i + 1).Some?;
      case UnknownParent(c, p) =>
        var i: nat :| Ancestor(parent, byId, i).Some? && Ancestor(parent, byId, i).value.id == Some(c) && Ancestor(parent, byId, i).value.parent == Some(p);
        assert Ancestor(m, byId, i + 1).Some?;
    }
  }

  // -------------------------------------------------------------------------
  // The target set
  // -------------------------------------------------------------------------

  datatype Target = Target(jmapId: JmapId, name: string, parent: Option<JmapId>, role: Option<string>, sortOrder: Option<int>, path: string)

  type Targets = map<JmapId, Target>

  function TargetOf(m: Remote, id: JmapId, path: string, names: map<string, string>): Target
    requires m.name.Some?
  {
    Target(id, Mapped(m.name.value, names), m.parent, m.role, Some(m.sortOrder), path)
  }

  /** `keep` is the configured filter: globs on the path, else the subscription flag, else everything. */
  predicate Kept(m: Remote, byId: ById, names: map<string, string>, keep: (string, bool) -> bool)
    requires Indexed(byId) && Listed(m, byId)
  {
    Resolve(m, byId, names, {}).Ok? && keep(Join(Resolve(m, byId, names, {}).value), m.subscribed)
  }

  /** The target is the mailbox with the path of its ancestors. */
  ghost predicate IsTarget(t: Target, m: Remote, byId: ById, names: map<string, string>)
    requires Indexed(byId) && Listed(m, byId)
  {
    && m.id == Some(t.jmapId) && m.name.Some? && Resolve(m, byId, names, {}).Ok?
    && t.name == (if m.name.value in names then names[m.name.value] else m.name.value)
    && t.parent == m.parent && t.role == m.role && t.sortOrder == Some(m.sortOrder)
    && t.path == Join(Resolve(m, byId, names, {}).value)
  }

  /** Its path is made of the names from the root down. */
  lemma TargetPath(t: Target, m: Remote, byId: ById, names: map<string, string>)
    requires Indexed(byId) && Listed(m, byId) && IsTarget(t, m, byId, names)
    ensures exists k: nat :: Rooted(m, byId, k) && IsPath(t.path, m, byId, names, k)
  {
    ResolvedPath(m, byId, names);
    var k: nat :| Rooted(m, byId, k);
    assert IsPath(t.path, m, byId, names, k);
  }

  /** Exactly the kept mailboxes, each as its target. */
  ghost predicate IsTargetSet(t: Targets, view: seq<Remote>, byId: ById, names: map<string, string>, keep: (string, bool) -> bool)
    requires Indexed(byId)
  {
    && (forall m :: m in view && m.id.Some? ==> Listed(m, byId) && (m.id.value in t <==> Kept(m, byId, names, keep)))
    && (forall id :: id in t ==> id in byId && byId[id] in view && IsTarget(t[id], byId[id], byId, names))
  }

  ghost predicate DistinctIds(view: seq<Remote>) {
    forall i, j :: 0 <= i < j < |view| && view[i].id.Some? ==> view[i].id != view[j].id
  }

  /** The listed mailboxes by their id. */
  function IndexOf(view: seq<Remote>): (byId: ById)
    requires DistinctIds(view)
    ensures Indexed(byId) && forall m :: m in view ==> Listed(m, byId)
  {
    var byId := map i | 0 <= i < |view| && view[i].id.Some? :: view[i].id.value := view[i];
    assert forall i :: 0 <= i < |view| && view[i].id.Some? ==> view[i].id.value in byId;
    byId
  }

  /** Every mailbox with an id has a path. */
  ghost predicate AllResolve(view: seq<Remote>, byId: ById, names: map<string, string>)
    requires Indexed(byId)
  {
    forall m :: m in view && m.id.Some? ==> Listed(m, byId) && Resolve(m, byId, names, {}).Ok?
  }

  lemma NextListed(view: seq<Remote>, n: nat, byId: ById, names: map<string, string>)
    requires DistinctIds(view) && n < |view| && Indexed(byId) && forall m :: m in view ==> Listed(m, byId)
    ensures Listed(view[n], byId) && view[..n + 1] == view[..n] + [view[n]]
    ensures view[n].id.Some? ==> forall x :: x in view[..n] ==> x.id != view[n].id
    ensures AllResolve(view[..n + 1], byId, names) <==>
            AllResolve(view[..n], byId, names) && (view[n].id.Some? ==> Resolve(view[n], byId, names, {}).Ok?)
    ensures view[n].id.Some? && Resolve(view[n], byId, names, {}).Err? ==> !AllResolve(view, byId, names)
  {
    var m := view[n];
    assert view[..n + 1] == view[..n] + [m] && m in view;
    forall x | x in view[..n] ensures x in view && (m.id.Some? ==> x.id != m.id) {
      var i :| 0 <= i < n && view[i] == x;
    }
    assert forall x :: x in view[..n + 1] <==> x in view[..n] || x == m;
  }

  method BuildTargetSet(view: seq<Remote>, names: map<string, string>, keep: (string, bool) -> bool) returns (r: Result<Targets>)
    requires DistinctIds(view)
    ensures r.Ok? <==> AllResolve(view, IndexOf(view), names)
    ensures r.Ok? ==> IsTargetSet(r.value, view, IndexOf(view), names, keep)
  {
    var index := IndexOf(view);
    var included: Targets := map[];
    for n := 0 to |view|
      invariant AllResolve(view[..n], index, names) && IsTargetSet(included, view[..n], index, names, keep)
    {
      var m := view[n];
      NextListed(view, n, index, names);
      if m.id.None? {
        TargetSkipped(included, view[..n], m, index, names, keep);
        continue;
      }
      var path := ResolvePath(m, index, names);
      if path.Err? { return Err(path.error); }
      var id := m.id.value;
      if !keep(path.value, m.subscribed) {
        TargetSkipped(included, view[..n], m, index, names, keep);
        continue;
      }
      ResolvedNamed(m, index, names);
      TargetAdded(included, view[..n], m, index, names, keep);
      included := included[id := TargetOf(m, id, path.value, names)];
    }
    assert view[..|view|] == view;
    r := Ok(included);
  }

  lemma TargetSkipped(t: Targets, view: seq<Remote>, m: Remote, byId: ById, names: map<string, string>, keep: (string, bool) -> bool)
    requires Indexed(byId) && Listed(m, byId) && IsTargetSet(t, view, byId, names, keep)
    requires m.id.Some? ==> !Kept(m, byId, names, keep) && forall x :: x in view ==> x.id != m.id
    ensures IsTargetSet(t, view + [m], byId, names, keep)
  {}

  lemma TargetAdded(t: Targets, view: seq<Remote>, m: Remote, byId: ById, names: map<string, string>, keep: (string, bool) -> bool)
    requires Indexed(byId) && Listed(m, byId) && IsTargetSet(t, view, byId, names, keep)
    requires m.id.Some? && m.name.Some? && Kept(m, byId, names, keep) && forall x :: x in view ==> x.id != m.id
    ensures var path := Join(Resolve(m, byId, names, {}).value);
            IsTargetSet(t[m.id.value := TargetOf(m, m.id.value, path, names)], view + [m], byId, names, keep)
  {}

  lemma ResolvedNamed(m: Remote, byId: ById, names: map<string, string>)
    requires Indexed(byId) && Listed(m, byId) && Resolve(m, byId, names, {}).Ok?
    ensures m.name.Some?
  {}

  /** No chain of targets bites its tail: some depth grows from parent to child. */
  ghost predicate Ranked(t: Targets, depth: map<JmapId, nat>) {
    forall id :: id in t ==> id in depth && (t[id].parent.Some? && t[id].parent.value in t ==> t[id].parent.value in depth && depth[t[id].parent.value] < depth[id])
  }

  /** Target sets that were built are such. */
  lemma BuiltIsRanked(t: Targets, view: seq<Remote>, byId: ById, names: map<string, string>, keep: (string, bool) -> bool)
    requires Indexed(byId) && IsTargetSet(t, view, byId, names, keep)
    ensures exists depth :: Ranked(t, depth)
  {
    var depth := map id | id in t && id in byId :: Depth(byId[id], byId);
    forall id | id in t ensures id in byId && (t[id].parent.Some? && t[id].parent.value in t ==>
                                               t[id].parent.value in byId && depth[t[id].parent.value] < depth[id])
    {
      TargetDepth(t, view, byId, names, keep, id);
    }
    assert Ranked(t, depth);
  }

  lemma TargetDepth(t: Targets, view: seq<Remote>, byId: ById, names: map<string, string>, keep: (string, bool) -> bool, id: JmapId)
    requires Indexed(byId) && IsTargetSet(t, view, byId, names, keep) && id in t
    ensures id in byId
    ensures t[id].parent.Some? && t[id].parent.value in t ==>
              t[id].parent.value in byId && Depth(byId[t[id].parent.value], byId) < Depth(byId[id], byId)
  {
    assert IsTarget(t[id], byId[id], byId, names);
    ResolveOkIff(byId[id], byId, names);
    if t[id].parent.Some? && t[id].parent.value in t { ParentDepth(byId[id], byId); }
  }

  lemma ParentDepth(m: Remote, byId: ById)
    requires (exists k: nat :: Rooted(m, byId, k)) && m.parent.Some? && m.parent.value in byId
    ensures Depth(byId[m.parent.value], byId) < Depth(m, byId)
  {
    var k: nat :| Rooted(m, byId, k);
    DepthIs(m, byId, k);
    DepthIs(byId[m.parent.value], byId, k - 1);
  }

  ghost function Depth(m: Remote, byId: ById): nat {
    if k: nat :| Rooted(m, byId, k) then k else 0
  }

  lemma DepthIs(m: Remote, byId: ById, k: nat)
    requires Rooted(m, byId, k)
    ensures Depth(m, byId) == k
  {
    RootedOnce(m, byId, k, Depth(m, byId));
  }
}
