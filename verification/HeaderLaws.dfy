/** Where a header ends and where its fields do, byte by byte. */
module HeaderLaws {
  import opened Prelude
  import opened HeaderFields
  import opened Family2
  import opened Family2Laws
  import opened QueueStrip

  ghost predicate CrLfCrLfAt(b: Bytes, i: int) {
    0 <= i && i + 4 <= |b| && b[i] == 13 && b[i + 1] == 10 && b[i + 2] == 13 && b[i + 3] == 10
  }

  ghost predicate LfLfAt(b: Bytes, i: int) {
    0 <= i && i + 2 <= |b| && b[i] == 10 && b[i + 1] == 10
  }

  lemma FirstCrLfCrLf(b: Bytes)
    ensures match FindSubseq(b, CRLFCRLF)
            case Some(i) => CrLfCrLfAt(b, i) && forall j :: j < i ==> !CrLfCrLfAt(b, j)
            case None => forall j :: !CrLfCrLfAt(b, j)
  {
    var r := FindSubseq(b, CRLFCRLF);
    if r.Some? { FourAt(b, r.value); }
    forall j: int | j < 0 || r.None? || j < r.value ensures !CrLfCrLfAt(b, j) {
      if j >= 0 { FourAt(b, j); }
    }
  }

  lemma FirstLfLf(b: Bytes)
    ensures match FindSubseq(b, LFLF)
            case Some(i) => LfLfAt(b, i) && forall j :: j < i ==> !LfLfAt(b, j)
            case None => forall j :: !LfLfAt(b, j)
  {
    var r := FindSubseq(b, LFLF);
    if r.Some? { TwoAt(b, r.value); }
    forall j: int | j < 0 || r.None? || j < r.value ensures !LfLfAt(b, j) {
      if j >= 0 { TwoAt(b, j); }
    }
  }

  lemma FourAt(b: Bytes, i: nat)
    ensures OccursAt(b, CRLFCRLF, i) <==> CrLfCrLfAt(b, i)
  {
    if i + 4 <= |b| {
      var at := b[i..i + 4];
      assert at[0] == b[i] && at[1] == b[i + 1] && at[2] == b[i + 2] && at[3] == b[i + 3];
      assert at == [13, 10, 13, 10] <==> at[0] == 13 && at[1] == 10 && at[2] == 13 && at[3] == 10;
    }
  }

  lemma TwoAt(b: Bytes, i: nat)
    ensures OccursAt(b, LFLF, i) <==> LfLfAt(b, i)
  {
    if i + 2 <= |b| {
      var at := b[i..i + 2];
      assert at[0] == b[i] && at[1] == b[i + 1];
      assert at == [10, 10] <==> at[0] == 10 && at[1] == 10;
    }
  }

  /** The header ends after the first CR LF CR LF; if there is none, after the first LF LF; else it is the whole message. */
  lemma HeaderEndIs(b: Bytes)
    ensures var n := HeaderEnd(b);
            || (CrLfCrLfAt(b, n - 4) && forall i :: i < n - 4 ==> !CrLfCrLfAt(b, i))
            || ((forall i :: !CrLfCrLfAt(b, i)) && LfLfAt(b, n - 2) && forall i :: i < n - 2 ==> !LfLfAt(b, i))
            || ((forall i :: !CrLfCrLfAt(b, i) && !LfLfAt(b, i)) && n == |b|)
  {
    FirstCrLfCrLf(b);
    FirstLfLf(b);
  }

  /** The queueing tool cuts at the same place, but leaves the blank line to the body. */
  lemma QueueHeaderEndIs(b: Bytes)
    ensures var n := QueueHeaderEnd(b);
            || (CrLfCrLfAt(b, n) && forall i :: i < n ==> !CrLfCrLfAt(b, i))
            || ((forall i :: !CrLfCrLfAt(b, i)) && LfLfAt(b, n) && forall i :: i < n ==> !LfLfAt(b, i))
            || ((forall i :: !CrLfCrLfAt(b, i) && !LfLfAt(b, i)) && n == |b|)
  {
    FirstCrLfCrLf(b);
    FirstLfLf(b);
  }

  /** The first line goes up to the first LF. */
  lemma {:induction false} FirstLineIs(b: Bytes)
    ensures var n := FindLineEnd(b);
            && (forall j :: 0 <= j < n - 1 ==> b[j] != 10)
            && (n < |b| ==> n > 0 && b[n - 1] == 10)
            && FirstLine(b) == b[..n]
  {
    if b != [] && b[0] != 10 {
      FirstLineIs(b[1..]);
      var n := FindLineEnd(b[1..]);
      forall j | 0 <= j < n ensures b[j] != 10 {
        if j > 0 { assert b[j] == b[1..][j - 1]; }
      }
    }
  }

  /** Every LF before the last byte is followed by a space or a tab. */
  ghost predicate Unbroken(f: Bytes) {
    forall j :: 0 <= j < |f| - 1 && f[j] == 10 ==> f[j + 1] == 32 || f[j + 1] == 9
  }

  /** Before m comes an LF, unless the text begins or ends there. */
  ghost predicate LineBreakAt(h: Bytes, m: nat) {
    m <= |h| && (0 < m < |h| ==> h[m - 1] == 10)
  }

  lemma NextLine(h: Bytes, n: nat)
    requires n < |h| && Unbroken(h[..n]) && LineBreakAt(h, n) && (n == 0 || h[n] == 32 || h[n] == 9)
    ensures var m := n + FindLineEnd(h[n..]); n < m <= |h| && Unbroken(h[..m]) && LineBreakAt(h, m)
  {
    FirstLineIs(h[n..]);
    var m := n + FindLineEnd(h[n..]);
    forall j | n <= j < m - 1 ensures h[j] != 10 { assert h[n..][j - n] == h[j]; }
    forall j | 0 <= j < n && j < m - 1 && h[j] == 10 ensures h[j + 1] == 32 || h[j + 1] == 9 {
      if j < n - 1 { assert h[..n][j] == 10 && h[..n][j + 1] == h[j + 1]; }
    }
  }

  lemma {:induction false} SkipIsUnbroken(h: Bytes, n: nat)
    requires 0 < n <= |h| && Unbroken(h[..n]) && LineBreakAt(h, n)
    ensures var m := SkipFolded(h, n); Unbroken(h[..m]) && LineBreakAt(h, m) && (m < |h| ==> h[m] != 32 && h[m] != 9)
    decreases |h| - n
  {
    if n < |h| {
      assert h[n..][0] == h[n];
      if h[n] == 32 || h[n] == 9 {
        NextLine(h, n);
        SkipIsUnbroken(h, n + FindLineEnd(h[n..]));
      }
    }
  }

  /** An LF, then neither a space nor a tab. */
  ghost predicate CutBefore(fs: seq<Bytes>, k: nat)
    requires 0 < k < |fs|
  {
    fs[k - 1] != [] && fs[k - 1][|fs[k - 1]| - 1] == 10 && fs[k] != [] && fs[k][0] != 32 && fs[k][0] != 9
  }

  ghost predicate WellCut(fs: seq<Bytes>) {
    && (forall k :: 0 <= k < |fs| ==> fs[k] != [] && Unbroken(fs[k]))
    && (forall k :: 0 < k < |fs| ==> CutBefore(fs, k))
  }

  lemma CutCons(f: Bytes, rest: seq<Bytes>)
    requires WellCut(rest) && f != [] && Unbroken(f) && (rest != [] ==> CutBefore([f] + rest, 1))
    ensures WellCut([f] + rest)
  {
    forall k | 0 < k < |[f] + rest| ensures CutBefore([f] + rest, k) {
      if k > 1 { assert CutBefore(rest, k - 1); }
    }
  }

  lemma FieldStarts(h: Bytes)
    requires h != []
    ensures Fields(h) != [] && Fields(h)[0] != [] && Fields(h)[0][0] == h[0]
  {}

  lemma FieldCut(h: Bytes)
    requires h != []
    ensures var n := FieldEnd(h); Unbroken(h[..n]) && (n < |h| ==> h[n - 1] == 10 && h[n] != 32 && h[n] != 9)
  {
    assert h[0..] == h && h[..0] == [];
    NextLine(h, 0);
    SkipIsUnbroken(h, FindLineEnd(h));
  }

  /**
   The fields are cut exactly where a line ends and the next does not begin with a space or tab: inside a field every LF
   is followed by one of them, and between two fields there is an LF and then neither.
   */
  lemma {:induction false} FieldsAreCut(h: Bytes)
    ensures Flatten(Fields(h)) == h && WellCut(Fields(h))
    decreases |h|
  {
    FlattenFields(h);
    if h != [] {
      var n := FieldEnd(h);
      FieldCut(h);
      FieldsAreCut(h[n..]);
      FieldsNext(h);
      if n < |h| { FieldStarts(h[n..]); }
      CutCons(h[..n], Fields(h[n..]));
    }
  }

  /** A line counts as a header of this name exactly when the text before its first colon is the name, in any case. */
  lemma QueueLineIff(line: Bytes, nameLc: Bytes, name: string)
    requires SpelledAs(nameLc, name) && forall i :: 0 <= i < |name| ==> !('A' <= name[i] <= 'Z')
    ensures LineStartsWithHeader(line, nameLc) <==>
            && Begins(line, name) && |name| < |line| && line[|name|] as int == ':' as int
            && forall i :: 0 <= i < |name| ==> line[i] as int != ':' as int
  {
    var p := FindColon(line);
    forall i | 0 <= i < |name| && i < |line| ensures Lower(line[i]) == nameLc[i] <==> SameLetter(line[i], name[i]) {}
  }
}
