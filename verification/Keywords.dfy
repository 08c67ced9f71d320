/** JMAP keywords, Maildir flag letters, and the keyword patch algebra. */
module Keywords {
  import opened Prelude

  type Keyword = string

  // The four standard keywords of section 4.1.1 of RFC 8621 that have a Maildir letter.
  const SEEN: Keyword := "$seen"
  const FLAGGED: Keyword := "$flagged"
  const ANSWERED: Keyword := "$answered"
  const DRAFT: Keyword := "$draft"

  const STANDARD: set<Keyword> := {SEEN, FLAGGED, ANSWERED, DRAFT}

  function FlagOf(k: Keyword): Option<char> {
    if k == SEEN then Some('S')
    else if k == FLAGGED then Some('F')
    else if k == ANSWERED then Some('R')
    else if k == DRAFT then Some('D')
    else None
  }

  // -------------------------------------------------------------------------
  // Keywords to a Maildir flag suffix
  // -------------------------------------------------------------------------

  function FlagChars(keywords: seq<Keyword>): seq<char> {
    if keywords == [] then []
    else (match FlagOf(keywords[0]) case None => [] case Some(c) => [c]) + FlagChars(keywords[1..])
  }

  function InsertChar(c: char, cs: seq<char>): seq<char> {
    if cs == [] || c <= cs[0] then [c] + cs else [cs[0]] + InsertChar(c, cs[1..])
  }

  function SortChars(cs: seq<char>): seq<char> {
    if cs == [] then [] else InsertChar(cs[0], SortChars(cs[1..]))
  }

  function DedupChars(cs: seq<char>): seq<char> {
    if |cs| < 2 then cs
    else if cs[0] == cs[1] then DedupChars(cs[1..])
    else [cs[0]] + DedupChars(cs[1..])
  }

  /** Collect the letters, sort them, drop neighbours that repeat. */
  function KeywordsToFlagString(keywords: seq<Keyword>): string {
    DedupChars(SortChars(FlagChars(keywords)))
  }

  /** What the suffix is meant to be: the letters of the set, in ASCII order. */
  function FlagString(keywords: set<Keyword>): string {
    (if DRAFT in keywords then "D" else "") +
    (if FLAGGED in keywords then "F" else "") +
    (if ANSWERED in keywords then "R" else "") +
    (if SEEN in keywords then "S" else "")
  }

  ghost predicate Ascending(cs: seq<char>) {
    forall i, j :: 0 <= i < j < |cs| ==> cs[i] <= cs[j]
  }

  ghost predicate StrictlyAscending(cs: seq<char>) {
    forall i, j :: 0 <= i < j < |cs| ==> cs[i] < cs[j]
  }

  lemma {:induction false} InsertCharSorts(c: char, cs: seq<char>)
    requires Ascending(cs)
    ensures Ascending(InsertChar(c, cs))
    ensures forall x :: x in InsertChar(c, cs) <==> x == c || x in cs
  {
    if cs == [] || c <= cs[0] {
    } else {
      InsertCharSorts(c, cs[1..]);
      assert cs == [cs[0]] + cs[1..];
      forall x | x in InsertChar(c, cs[1..]) ensures cs[0] <= x {
        if x != c { var i :| 0 <= i < |cs[1..]| && cs[1..][i] == x; }
      }
      var tail := InsertChar(c, cs[1..]);
      forall j | 0 <= j < |tail| ensures cs[0] <= tail[j] { assert tail[j] in tail; }
    }
  }

  lemma {:induction false} SortCharsSorts(cs: seq<char>)
    ensures Ascending(SortChars(cs))
    ensures forall x :: x in SortChars(cs) <==> x in cs
  {
    if cs != [] {
      SortCharsSorts(cs[1..]);
      InsertCharSorts(cs[0], SortChars(cs[1..]));
      assert cs == [cs[0]] + cs[1..];
    }
  }

  lemma {:induction false} DedupCharsDedups(cs: seq<char>)
    requires Ascending(cs)
    ensures StrictlyAscending(DedupChars(cs))
    ensures forall x :: x in DedupChars(cs) <==> x in cs
  {
    if |cs| >= 2 {
      DedupCharsDedups(cs[1..]);
      assert cs == [cs[0]] + cs[1..];
      forall x | x in DedupChars(cs[1..]) ensures cs[1] <= x {
        var i :| 0 <= i < |cs[1..]| && cs[1..][i] == x;
      }
      var tail := DedupChars(cs[1..]);
      forall j | 0 <= j < |tail| ensures cs[1] <= tail[j] { assert tail[j] in tail; }
    }
  }

  /** A strictly ascending sequence is determined by its elements. */
  lemma {:induction false} AscendingUnique(a: seq<char>, b: seq<char>)
    requires StrictlyAscending(a) && StrictlyAscending(b)
    requires forall x :: x in a <==> x in b
    ensures a == b
  {
    assert b != [] ==> b[0] in b;
    if a == [] {
    } else {
      assert a[0] in b;
      assert b[0] in a;
      assert a[0] == b[0];
      assert a == [a[0]] + a[1..] && b == [b[0]] + b[1..];
      forall x ensures x in a[1..] <==> x in b[1..] {
        if x in a[1..] { assert x in b; assert x != a[0]; }
        if x in b[1..] { assert x in a; assert x != b[0]; }
      }
      AscendingUnique(a[1..], b[1..]);
    }
  }

  lemma {:induction false} FlagCharsAre(keywords: seq<Keyword>)
    ensures forall c :: c in FlagChars(keywords) <==> exists k :: k in keywords && FlagOf(k) == Some(c)
  {
    if keywords != [] {
      FlagCharsAre(keywords[1..]);
      assert keywords == [keywords[0]] + keywords[1..];
      forall c ensures c in FlagChars(keywords) <==> exists k :: k in keywords && FlagOf(k) == Some(c) {
        if c in FlagChars(keywords[1..]) {
          var k :| k in keywords[1..] && FlagOf(k) == Some(c);
          assert k in keywords;
        }
        if FlagOf(keywords[0]) == Some(c) { assert keywords[0] in keywords; }
      }
    }
  }

  lemma FlagLetters(keywords: set<Keyword>)
    ensures forall c :: c in FlagString(keywords) ==> c in {'D', 'F', 'R', 'S'}
  {}

  lemma FlagStringIs(keywords: set<Keyword>)
    ensures StrictlyAscending(FlagString(keywords))
    ensures forall c :: c in FlagString(keywords) <==> exists k :: k in keywords && FlagOf(k) == Some(c)
  {
    assert FlagOf(SEEN) == Some('S') && FlagOf(FLAGGED) == Some('F');
    assert FlagOf(ANSWERED) == Some('R') && FlagOf(DRAFT) == Some('D');
    forall c ensures c in FlagString(keywords) <==> exists k :: k in keywords && FlagOf(k) == Some(c) {
      if c in FlagString(keywords) {
        var k := if c == 'S' then SEEN else if c == 'F' then FLAGGED else if c == 'R' then ANSWERED else DRAFT;
        assert k in keywords && FlagOf(k) == Some(c);
      }
    }
  }

  /** Order and repetition in the server's list do not matter: the suffix is that of the set. */
  lemma {:induction false} FlagStringRefined(keywords: seq<Keyword>)
    ensures KeywordsToFlagString(keywords) == FlagString(Elements(keywords))
  {
    var ks := Elements(keywords);
    SortCharsSorts(FlagChars(keywords));
    DedupCharsDedups(SortChars(FlagChars(keywords)));
    FlagCharsAre(keywords);
    FlagStringIs(ks);
    AscendingUnique(KeywordsToFlagString(keywords), FlagString(ks));
  }

  // -------------------------------------------------------------------------
  // Stored keywords (the parsed JSON column) and local drift
  // -------------------------------------------------------------------------

  /** The parsed `keywords` column. What the daemon writes is canonical: every value is true. */
  type Stored = map<Keyword, bool>

  ghost predicate Canonical(m: Stored) {
    forall k :: k in m ==> m[k]
  }

  function SerializeKeywords(keywords: seq<Keyword>): Stored {
    map k | k in keywords :: true
  }

  predicate FlagIn(k: Keyword, flags: string) {
    FlagOf(k).Some? && FlagOf(k).value in flags
  }

  function MergeKeywordsJson(stored: Stored, diskFlags: string): Stored {
    (stored - STANDARD) + (map k | k in STANDARD && FlagIn(k, diskFlags) :: true)
  }

  function StoredFlag(stored: Stored, k: Keyword, c: char): string {
    if k in stored && stored[k] then [c] else ""
  }

  function ExtractStandardFlags(stored: Stored): string {
    SortChars(StoredFlag(stored, SEEN, 'S') + StoredFlag(stored, FLAGGED, 'F') +
              StoredFlag(stored, ANSWERED, 'R') + StoredFlag(stored, DRAFT, 'D'))
  }

  /** The filter that keeps only the four mapped letters of an on-disk suffix. */
  function StandardOnly(flags: string): string {
    if flags == "" then ""
    else (if flags[0] in {'S', 'F', 'R', 'D'} then [flags[0]] else "") + StandardOnly(flags[1..])
  }

  datatype PatchOp = PatchOp(keyword: Keyword, setIt: bool)

  function PatchOpFor(k: Keyword, c: char, storedFlags: string, newFlags: string): seq<PatchOp> {
    if (c in storedFlags) != (c in newFlags) then [PatchOp(k, c in newFlags)] else []
  }

  function KeywordPatchOps(storedFlags: string, newFlags: string): seq<PatchOp> {
    PatchOpFor(SEEN, 'S', storedFlags, newFlags) + PatchOpFor(FLAGGED, 'F', storedFlags, newFlags) +
    PatchOpFor(ANSWERED, 'R', storedFlags, newFlags) + PatchOpFor(DRAFT, 'D', storedFlags, newFlags)
  }

  /** Email/set update with per-keyword patches: true sets, null removes (section 5.3 of RFC 8620). */
  function ApplyPatch(keywords: set<Keyword>, ops: seq<PatchOp>): set<Keyword>
    decreases |ops|
  {
    if ops == [] then keywords
    else ApplyPatch(if ops[0].setIt then keywords + {ops[0].keyword} else keywords - {ops[0].keyword}, ops[1..])
  }

  function TrueKeys(stored: Stored): set<Keyword> {
    set k | k in stored && stored[k]
  }

  lemma ExtractIsFlagString(stored: Stored)
    ensures ExtractStandardFlags(stored) == FlagString(TrueKeys(stored))
  {
    var cs := StoredFlag(stored, SEEN, 'S') + StoredFlag(stored, FLAGGED, 'F') +
              StoredFlag(stored, ANSWERED, 'R') + StoredFlag(stored, DRAFT, 'D');
    SortCharsSorts(cs);
    assert cs == FlagChars4(TrueKeys(stored));
    SortFour(TrueKeys(stored));
  }

  function FlagChars4(ks: set<Keyword>): string {
    (if SEEN in ks then "S" else "") + (if FLAGGED in ks then "F" else "") +
    (if ANSWERED in ks then "R" else "") + (if DRAFT in ks then "D" else "")
  }

  lemma SortFour(ks: set<Keyword>)
    ensures SortChars(FlagChars4(ks)) == FlagString(ks)
  {
    var cs := FlagChars4(ks);
    SortCharsSorts(cs);
    SortStrict(cs);
    FlagStringIs(ks);
    assert forall x :: x in cs <==> x in FlagString(ks);
    AscendingUnique(SortChars(cs), FlagString(ks));
  }

  lemma {:induction false} SortStrict(cs: seq<char>)
    requires NoRepeat(cs)
    ensures StrictlyAscending(SortChars(cs))
  {
    if cs != [] {
      SortStrict(cs[1..]);
      SortCharsSorts(cs[1..]);
      assert cs[0] !in cs[1..];
      InsertStrict(cs[0], SortChars(cs[1..]));
    }
  }

  lemma {:induction false} InsertStrict(c: char, cs: seq<char>)
    requires StrictlyAscending(cs) && c !in cs
    ensures StrictlyAscending(InsertChar(c, cs))
  {
    if cs != [] && !(c <= cs[0]) {
      InsertStrict(c, cs[1..]);
      InsertCharSorts(c, cs[1..]);
      var tail := InsertChar(c, cs[1..]);
      forall x | x in tail ensures cs[0] < x {
        if x != c { var i :| 0 <= i < |cs[1..]| && cs[1..][i] == x; }
      }
      ConsAscending(cs[0], tail);
    } else {
      forall x | x in cs ensures c < x {
        var i :| 0 <= i < |cs| && cs[i] == x;
        assert c != cs[0] && (i > 0 ==> cs[0] < cs[i]);
      }
      ConsAscending(c, cs);
    }
  }

  lemma ConsAscending(c: char, cs: seq<char>)
    requires StrictlyAscending(cs) && forall x :: x in cs ==> c < x
    ensures StrictlyAscending([c] + cs)
  {
    forall i, j | 0 <= i < j < |[c] + cs| ensures ([c] + cs)[i] < ([c] + cs)[j] {
      assert ([c] + cs)[j] == cs[j - 1] && cs[j - 1] in cs;
    }
  }

  /** Serialising the server's list and reading the letters back gives the file suffix. */
  lemma SerializeThenExtract(keywords: seq<Keyword>)
    ensures ExtractStandardFlags(SerializeKeywords(keywords)) == KeywordsToFlagString(keywords)
  {
    ExtractIsFlagString(SerializeKeywords(keywords));
    FlagStringRefined(keywords);
    assert TrueKeys(SerializeKeywords(keywords)) == Elements(keywords);
  }

  /** The patch touches exactly the standard keywords whose direction differs, and sets the disk's direction. */
  lemma PatchPointwise(keywords: set<Keyword>, storedFlags: string, newFlags: string, k: Keyword)
    ensures k in ApplyPatch(keywords, KeywordPatchOps(storedFlags, newFlags)) <==>
            if FlagOf(k).Some? && FlagIn(k, storedFlags) != FlagIn(k, newFlags) then FlagIn(k, newFlags)
            else k in keywords
  {
    var a := PatchOpFor(SEEN, 'S', storedFlags, newFlags);
    var b := PatchOpFor(FLAGGED, 'F', storedFlags, newFlags);
    var c := PatchOpFor(ANSWERED, 'R', storedFlags, newFlags);
    var d := PatchOpFor(DRAFT, 'D', storedFlags, newFlags);
    PatchAppend(keywords, a + b + c, d);
    PatchAppend(keywords, a + b, c);
    PatchAppend(keywords, a, b);
  }

  lemma {:induction false} PatchAppend(keywords: set<Keyword>, a: seq<PatchOp>, b: seq<PatchOp>)
    ensures ApplyPatch(keywords, a + b) == ApplyPatch(ApplyPatch(keywords, a), b)
    decreases |a|
  {
    if a == [] {
      assert a + b == b;
    } else {
      var next := if a[0].setIt then keywords + {a[0].keyword} else keywords - {a[0].keyword};
      PatchAppend(next, a[1..], b);
      assert (a + b)[1..] == a[1..] + b;
    }
  }

  /** On canonical stored keywords the patch sent upstream and the merge kept in the row agree. */
  lemma PatchGivesMerge(stored: Stored, disk: string)
    requires Canonical(stored)
    ensures Canonical(MergeKeywordsJson(stored, disk))
    ensures ApplyPatch(stored.Keys, KeywordPatchOps(ExtractStandardFlags(stored), disk)) ==
            MergeKeywordsJson(stored, disk).Keys
  {
    ExtractIsFlagString(stored);
    assert TrueKeys(stored) == stored.Keys;
    FlagStringIs(stored.Keys);
    var ops := KeywordPatchOps(ExtractStandardFlags(stored), disk);
    forall k ensures k in ApplyPatch(stored.Keys, ops) <==> k in MergeKeywordsJson(stored, disk).Keys {
      PatchPointwise(stored.Keys, ExtractStandardFlags(stored), disk, k);
      StandardHasFlag(k);
      if k in STANDARD { FlagInString(stored.Keys, k); }
    }
  }

  lemma StandardHasFlag(k: Keyword)
    ensures k in STANDARD <==> FlagOf(k).Some?
  {}

  lemma FlagInString(keywords: set<Keyword>, k: Keyword)
    requires FlagOf(k).Some?
    ensures FlagIn(k, FlagString(keywords)) <==> k in keywords
  {
    FlagStringIs(keywords);
  }

  /** No patch is sent exactly when stored and disk flags agree on the four letters. */
  lemma NoPatchIff(storedFlags: string, disk: string)
    ensures KeywordPatchOps(storedFlags, disk) == [] <==>
            forall k :: k in STANDARD ==> FlagIn(k, storedFlags) == FlagIn(k, disk)
  {
    assert FlagOf(SEEN) == Some('S') && FlagOf(FLAGGED) == Some('F');
    assert FlagOf(ANSWERED) == Some('R') && FlagOf(DRAFT) == Some('D');
    assert SEEN in STANDARD && FLAGGED in STANDARD && ANSWERED in STANDARD && DRAFT in STANDARD;
    assert FlagIn(SEEN, storedFlags) == ('S' in storedFlags) && FlagIn(SEEN, disk) == ('S' in disk);
    assert FlagIn(FLAGGED, storedFlags) == ('F' in storedFlags) && FlagIn(FLAGGED, disk) == ('F' in disk);
    assert FlagIn(ANSWERED, storedFlags) == ('R' in storedFlags) && FlagIn(ANSWERED, disk) == ('R' in disk);
    assert FlagIn(DRAFT, storedFlags) == ('D' in storedFlags) && FlagIn(DRAFT, disk) == ('D' in disk);
  }

  /** The merge leaves the row alone exactly when every standard keyword is already as on disk, and none is false. */
  lemma NoMergeIff(stored: Stored, disk: string)
    ensures MergeKeywordsJson(stored, disk) == stored <==>
            forall k :: k in STANDARD ==> (k in stored <==> FlagIn(k, disk)) && (k in stored ==> stored[k])
  {
    var merged := MergeKeywordsJson(stored, disk);
    assert forall k :: k in merged <==> (if k in STANDARD then FlagIn(k, disk) else k in stored);
    assert forall k :: k in merged ==> merged[k] == if k in STANDARD then true else stored[k];
    if forall k :: k in STANDARD ==> (k in stored <==> FlagIn(k, disk)) && (k in stored ==> stored[k]) {
      assert merged.Keys == stored.Keys;
    }
  }

  /** Drift is detected exactly when a patch is sent, unless a standard keyword is stored as false. */
  lemma DriftIffPatch(stored: Stored, disk: string)
    ensures MergeKeywordsJson(stored, disk) != stored <==>
            || KeywordPatchOps(ExtractStandardFlags(stored), disk) != []
            || exists k :: k in STANDARD && k in stored && !stored[k]
  {
    var flags := ExtractStandardFlags(stored);
    ExtractIsFlagString(stored);
    forall k | k in STANDARD ensures FlagIn(k, flags) <==> k in stored && stored[k] {
      StandardHasFlag(k);
      FlagInString(TrueKeys(stored), k);
    }
    NoPatchIff(flags, disk);
    NoMergeIff(stored, disk);
  }

  // -------------------------------------------------------------------------
  // By name
  // -------------------------------------------------------------------------

  /** Which keyword has which letter, and that no other has one. */
  lemma FlagInIff(k: Keyword, flags: string)
    ensures FlagIn(k, flags) <==>
            || (k == "$seen" && 'S' in flags) || (k == "$flagged" && 'F' in flags)
            || (k == "$answered" && 'R' in flags) || (k == "$draft" && 'D' in flags)
    ensures k in STANDARD <==> k in {"$seen", "$flagged", "$answered", "$draft"}
  {
    assert SEEN[1] == 's' && FLAGGED[1] == 'f' && ANSWERED[1] == 'a' && DRAFT[1] == 'd';
  }

  /** Of a suffix on disk exactly the four letters are kept, in order. */
  lemma {:induction false} StandardOnlySnoc(flags: string, c: char)
    ensures StandardOnly(flags + [c]) == StandardOnly(flags) + if c == 'S' || c == 'F' || c == 'R' || c == 'D' then [c] else ""
    ensures StandardOnly("") == ""
  {
    var added := if c == 'S' || c == 'F' || c == 'R' || c == 'D' then [c] else "";
    var all := flags + [c];
    if flags == "" {
      assert all[0] == c && all[1..] == "";
      assert added + "" == added && "" + added == added;
    } else {
      var x, tail := flags[0], flags[1..];
      var kept := if x in {'S', 'F', 'R', 'D'} then [x] else "";
      assert all[0] == x && all[1..] == tail + [c];
      StandardOnlySnoc(tail, c);
      assert kept + (StandardOnly(tail) + added) == (kept + StandardOnly(tail)) + added;
    }
  }

  /** The suffix for the server's list, letter by letter. */
  lemma SuffixIs(keywords: seq<Keyword>)
    ensures KeywordsToFlagString(keywords) ==
            (if "$draft" in keywords then "D" else "") + (if "$flagged" in keywords then "F" else "") +
            (if "$answered" in keywords then "R" else "") + (if "$seen" in keywords then "S" else "")
  {
    FlagStringRefined(keywords);
    var ks := Elements(keywords);
    assert (DRAFT in ks <==> DRAFT in keywords) && (FLAGGED in ks <==> FLAGGED in keywords);
    assert (ANSWERED in ks <==> ANSWERED in keywords) && (SEEN in ks <==> SEEN in keywords);
  }

  /** The row's keywords after a merge with the letters on disk. */
  lemma MergedIs(stored: Stored, disk: string, k: Keyword)
    ensures k in MergeKeywordsJson(stored, disk) <==>
            if k == "$seen" then 'S' in disk
            else if k == "$flagged" then 'F' in disk
            else if k == "$answered" then 'R' in disk
            else if k == "$draft" then 'D' in disk
            else k in stored
    ensures k in MergeKeywordsJson(stored, disk) ==>
              MergeKeywordsJson(stored, disk)[k] == (k in {"$seen", "$flagged", "$answered", "$draft"} || stored[k])
  {
    FlagInIff(k, disk);
    var merged := MergeKeywordsJson(stored, disk);
    assert k in merged <==> if k in STANDARD then FlagIn(k, disk) else k in stored;
  }
}
