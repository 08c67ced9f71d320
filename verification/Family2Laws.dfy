/** What the injected header lines say, and which lines count as such. */
module Family2Laws {
  import opened Prelude
  import opened Family2

  // -------------------------------------------------------------------------
  // Characters
  // -------------------------------------------------------------------------

  /** The characters Unicode calls white space. */
  lemma WhitespaceIff(c: char)
    ensures IsWhitespace(c) <==>
            c as int in {0x09, 0x0A, 0x0B, 0x0C, 0x0D, 0x20, 0x85, 0xA0, 0x1680, 0x2000, 0x2001, 0x2002, 0x2003, 0x2004, 0x2005,
                         0x2006, 0x2007, 0x2008, 0x2009, 0x200A, 0x2028, 0x2029, 0x202F, 0x205F, 0x3000}
  {}

  /** White space or a control character: what separates the words of a reason. */
  predicate Gap(c: char) {
    var n := c as int;
    || n <= 0x20 || 0x7F <= n <= 0xA0 || n == 0x1680 || 0x2000 <= n <= 0x200A
    || n in {0x2028, 0x2029, 0x202F, 0x205F, 0x3000}
  }

  lemma GapIff(c: char)
    ensures Gap(c) <==> IsControl(c) || IsWhitespace(c)
    ensures IsControl(c) <==> c as int <= 0x1F || 0x7F <= c as int <= 0x9F
  {}

  // -------------------------------------------------------------------------
  // The reason, character by character
  // -------------------------------------------------------------------------

  lemma {:induction false} BlankSnoc(s: string, c: char)
    ensures BlankControls(s + [c]) == BlankControls(s) + [if IsControl(c) then ' ' else c]
  {
    if s == "" {
      assert (s + [c])[1..] == "";
    } else {
      assert (s + [c])[0] == s[0] && (s + [c])[1..] == s[1..] + [c];
      BlankSnoc(s[1..], c);
    }
  }

  lemma {:induction false} WordsAfterGap(s: string, current: string, c: char)
    requires IsWhitespace(c)
    ensures Words(s + [c], current) == Words(s, current)
    decreases |s|
  {
    if s == "" {
      assert (s + [c])[0] == c && (s + [c])[1..] == "";
    } else {
      assert (s + [c])[0] == s[0] && (s + [c])[1..] == s[1..] + [c];
      WordsAfterGap(s[1..], if IsWhitespace(s[0]) then "" else current + [s[0]], c);
    }
  }

  /** Reading s ends inside a word. */
  predicate Open(s: string, current: string) {
    if s == "" then current != "" else !IsWhitespace(s[|s| - 1])
  }

  lemma {:induction false} WordsAfterPrinted(s: string, current: string, c: char)
    requires !IsWhitespace(c)
    ensures var before, after := Words(s, current), Words(s + [c], current);
            if Open(s, current) then
              before != [] && after == before[..|before| - 1] + [before[|before| - 1] + [c]]
            else after == before + [[c]]
    decreases |s|
  {
    if s == "" {
      assert (s + [c])[0] == c && (s + [c])[1..] == "";
      assert Words(s + [c], current) == Words("", current + [c]) == [current + [c]];
      if current == "" { assert current + [c] == [c]; } else { assert [current][..0] + [current + [c]] == [current + [c]]; }
    } else {
      assert (s + [c])[0] == s[0] && (s + [c])[1..] == s[1..] + [c];
      var next := if IsWhitespace(s[0]) then "" else current + [s[0]];
      WordsAfterPrinted(s[1..], next, c);
      assert Open(s[1..], next) == Open(s, current);
    }
  }

  lemma {:induction false} WordsHold(s: string, current: string)
    ensures forall i :: 0 <= i < |Words(s, current)| ==> Words(s, current)[i] != ""
    decreases |s|
  {
    if s != "" {
      WordsHold(s[1..], if IsWhitespace(s[0]) then "" else current + [s[0]]);
    }
  }

  lemma {:induction false} JoinSnoc(words: seq<string>, w: string)
    ensures Join(words + [w]) == if words == [] then w else Join(words) + " " + w
  {
    if |words| > 0 {
      assert (words + [w])[0] == words[0] && (words + [w])[1..] == words[1..] + [w];
      JoinSnoc(words[1..], w);
    }
  }

  lemma JoinLonger(words: seq<string>, c: char)
    requires words != []
    ensures Join(words[..|words| - 1] + [words[|words| - 1] + [c]]) == Join(words) + [c]
  {
    var most, last := words[..|words| - 1], words[|words| - 1];
    JoinEnds(words, most, last, c);
  }

  lemma JoinEnds(words: seq<string>, most: seq<string>, last: string, c: char)
    requires words == most + [last]
    ensures Join(most + [last + [c]]) == Join(words) + [c]
  {
    JoinSnoc(most, last);
    JoinSnoc(most, last + [c]);
    if most != [] {
      var head := Join(most) + " ";
      assert head + (last + [c]) == (head + last) + [c];
    }
  }

  lemma JoinEmptyIff(words: seq<string>)
    requires forall i :: 0 <= i < |words| ==> words[i] != ""
    ensures Join(words) == "" <==> words == []
  {
    if words != [] { assert words[0] != ""; }
  }

  lemma SanitizeEmpty()
    ensures SanitizeReason("") == ""
  {}

  /** A gap at the end is dropped. */
  lemma SanitizeGap(s: string, c: char)
    requires Gap(c)
    ensures SanitizeReason(s + [c]) == SanitizeReason(s)
  {
    GapIff(c);
    BlankSnoc(s, c);
    WordsAfterGap(BlankControls(s), "", if IsControl(c) then ' ' else c);
  }

  /** Any other character is put at the end, after a space if it comes after a gap and is not the first. */
  lemma SanitizePrinted(s: string, c: char)
    requires !Gap(c)
    ensures var t := SanitizeReason(s);
            SanitizeReason(s + [c]) == t + (if s != "" && Gap(s[|s| - 1]) && t != "" then " " else "") + [c]
    ensures s != "" && !Gap(s[|s| - 1]) ==> SanitizeReason(s) != ""
  {
    GapIff(c);
    var blanked := BlankControls(s);
    var words := Words(blanked, "");
    BlankSnoc(s, c);
    WordsAfterPrinted(blanked, "", c);
    WordsHold(blanked, "");
    JoinEmptyIff(words);
    LastBlanked(s);
    if Open(blanked, "") { JoinLonger(words, c); } else { JoinSnoc(words, [c]); }
  }

  lemma LastBlanked(s: string)
    ensures |BlankControls(s)| > 0 <==> s != ""
    ensures s != "" ==> (IsWhitespace(BlankControls(s)[|BlankControls(s)| - 1]) <==> Gap(s[|s| - 1]))
  {
    if s != "" {
      var most, c := s[..|s| - 1], s[|s| - 1];
      assert s == most + [c];
      BlankSnoc(most, c);
      GapIff(c);
    }
  }

  // -------------------------------------------------------------------------
  // The reason as a whole
  // -------------------------------------------------------------------------

  /** The characters that are no gaps, in order. */
  function Printed(s: string): string {
    if s == "" then "" else Printed(s[..|s| - 1]) + if Gap(s[|s| - 1]) then "" else [s[|s| - 1]]
  }

  /** The k-th printed character is directly followed by the next one. */
  ghost predicate Together(s: string, k: nat) {
    exists i :: 0 <= i && i + 1 < |s| && !Gap(s[i]) && !Gap(s[i + 1]) && |Printed(s[..i])| == k
  }

  /** The only gaps are single spaces between printed characters. */
  ghost predicate Tidy(s: string) {
    forall i :: 0 <= i < |s| && Gap(s[i]) ==> s[i] == ' ' && 0 < i < |s| - 1 && !Gap(s[i - 1]) && !Gap(s[i + 1])
  }

  lemma PrintedSnoc(s: string, c: char)
    ensures Printed(s + [c]) == Printed(s) + if Gap(c) then "" else [c]
  {
    assert (s + [c])[..|s|] == s;
  }

  lemma TogetherSnoc(s: string, c: char, k: nat)
    ensures Together(s + [c], k) <==>
            Together(s, k) || (s != "" && !Gap(s[|s| - 1]) && !Gap(c) && |Printed(s[..|s| - 1])| == k)
  {
    var all := s + [c];
    if i :| 0 <= i && i + 1 < |all| && !Gap(all[i]) && !Gap(all[i + 1]) && |Printed(all[..i])| == k {
      assert all[..i] == s[..i];
    }
    if i :| 0 <= i && i + 1 < |s| && !Gap(s[i]) && !Gap(s[i + 1]) && |Printed(s[..i])| == k {
      assert all[..i] == s[..i] && all[i] == s[i] && all[i + 1] == s[i + 1];
    }
    if s != "" { assert all[..|s| - 1] == s[..|s| - 1] && all[|s|] == c && all[|s| - 1] == s[|s| - 1]; }
  }

  /** The same printed characters in the same order, the same of them together. */
  ghost predicate SameWords(s: string, t: string) {
    Printed(s) == Printed(t) && forall k: nat :: Together(s, k) <==> Together(t, k)
  }

  lemma TidyEnds(t: string)
    requires Tidy(t) && t != ""
    ensures !Gap(t[|t| - 1]) && Printed(t) == Printed(t[..|t| - 1]) + [t[|t| - 1]]
  {}

  lemma SameWordsGap(s: string, t: string, c: char)
    requires SameWords(s, t) && Gap(c)
    ensures SameWords(s + [c], t)
  {
    PrintedSnoc(s, c);
    forall k: nat ensures Together(s + [c], k) <==> Together(t, k) { TogetherSnoc(s, c, k); }
  }

  /** A printed character put after both, directly or not. */
  lemma SameWordsPrinted(s: string, t: string, c: char)
    requires SameWords(s, t) && !Gap(c)
    requires (s != "" && !Gap(s[|s| - 1])) <==> (t != "" && !Gap(t[|t| - 1]))
    ensures SameWords(s + [c], t + [c])
  {
    PrintedSnoc(s, c);
    PrintedSnoc(t, c);
    forall k: nat ensures Together(s + [c], k) <==> Together(t + [c], k) {
      TogetherSnoc(s, c, k);
      TogetherSnoc(t, c, k);
    }
  }

  lemma TidySnoc(t: string, c: char)
    requires Tidy(t) && !Gap(c)
    ensures Tidy(t + [c]) && (t != "" ==> Tidy(t + " " + [c]))
  {
    if t != "" { TidyEnds(t); }
  }

  /**
   The value of the failure header holds the reason's printed characters, in order; a single space stands exactly where
   some gap stood between two of them, and none at either end.
   */
  lemma {:induction false} SanitizedSaysReason(reason: string)
    ensures SameWords(reason, SanitizeReason(reason)) && Tidy(SanitizeReason(reason))
    decreases |reason|
  {
    if reason != "" {
      var most, c := reason[..|reason| - 1], reason[|reason| - 1];
      assert reason == most + [c];
      SanitizedSaysReason(most);
      var t := SanitizeReason(most);
      if Gap(c) {
        SanitizeGap(most, c);
        SameWordsGap(most, t, c);
      } else {
        SanitizePrinted(most, c);
        TidySnoc(t, c);
        if t != "" { TidyEnds(t); }
        if most != "" && Gap(most[|most| - 1]) && t != "" {
          SameWordsGapRight(most, t);
          SameWordsPrinted(most, t + " ", c);
        } else {
          assert t + "" + [c] == t + [c];
          SameWordsPrinted(most, t, c);
        }
      }
    }
  }

  lemma SameWordsGapRight(s: string, t: string)
    requires SameWords(s, t)
    ensures SameWords(s, t + " ")
  {
    PrintedSnoc(t, ' ');
    forall k: nat ensures Together(t + " ", k) <==> Together(t, k) { TogetherSnoc(t, ' ', k); }
  }

  // -------------------------------------------------------------------------
  // UTF-8
  // -------------------------------------------------------------------------

  /** The bytes that follow a lead byte, and itself (section 3 of RFC 3629). */
  function Size(lead: Byte): nat {
    if lead < 0x80 then 1 else if lead < 0xE0 then 2 else if lead < 0xF0 then 3 else 4
  }

  function CodePoint(b: Bytes): int {
    if |b| == 1 then b[0] as int
    else if |b| == 2 then (b[0] as int - 0xC0) * 64 + (b[1] as int - 0x80)
    else if |b| == 3 then (b[0] as int - 0xE0) * 4096 + (b[1] as int - 0x80) * 64 + (b[2] as int - 0x80)
    else if |b| == 4 then (b[0] as int - 0xF0) * 262144 + (b[1] as int - 0x80) * 4096 + (b[2] as int - 0x80) * 64 + (b[3] as int - 0x80)
    else -1
  }

  function Codes(b: Bytes): seq<int>
    decreases |b|
  {
    if b == [] || |b| < Size(b[0]) then [] else [CodePoint(b[..Size(b[0])])] + Codes(b[Size(b[0])..])
  }

  /** One character: its size as the lead byte says, its code, and continuation bytes between 0x80 and 0xBF. */
  lemma EncodedChar(c: char)
    ensures var r := EncodeChar(c);
            && |r| == Size(r[0]) && CodePoint(r) == c as int
            && (forall i :: 1 <= i < |r| ==> 0x80 <= r[i] <= 0xBF)
  {
    var n := c as int;
    assert n == n / 64 * 64 + n % 64;
    assert n / 64 == n / 4096 * 64 + n / 64 % 64;
    assert n / 4096 == n / 262144 * 64 + n / 4096 % 64;
  }

  /** Reading the bytes of a text gives its characters. */
  lemma {:induction false} Utf8RoundTrip(s: string)
    ensures |Codes(Utf8(s))| == |s| && forall i :: 0 <= i < |s| ==> Codes(Utf8(s))[i] == s[i] as int
  {
    if s != "" {
      var head, tail := EncodeChar(s[0]), Utf8(s[1..]);
      EncodedChar(s[0]);
      Utf8RoundTrip(s[1..]);
      assert (head + tail)[0] == head[0] && (head + tail)[..|head|] == head && (head + tail)[|head|..] == tail;
      assert Codes(head + tail) == [CodePoint(head)] + Codes(tail);
    }
  }

  lemma {:induction false} Utf8Append(s: string, t: string)
    ensures Utf8(s + t) == Utf8(s) + Utf8(t)
  {
    if s == "" {
      assert s + t == t;
    } else {
      assert (s + t)[0] == s[0] && (s + t)[1..] == s[1..] + t;
      Utf8Append(s[1..], t);
    }
  }

  lemma {:induction false} SpelledIsUtf8(b: Bytes, s: string)
    requires SpelledAs(b, s) && forall i :: 0 <= i < |s| ==> s[i] as int < 0x80
    ensures Utf8(s) == b
  {
    if s != "" {
      SpelledIsUtf8(b[1..], s[1..]);
      assert b == [b[0]] + b[1..];
    }
  }

  lemma HeaderLineText(name: Bytes, text: string, value: string)
    requires SpelledAs(name, text) && forall i :: 0 <= i < |text| ==> text[i] as int < 0x80
    ensures HeaderLine(name, value) == Utf8(text + " " + value + "\r\n")
  {
    SpelledIsUtf8(name, text);
    SpelledIsUtf8([32], " ");
    SpelledIsUtf8([13, 10], "\r\n");
    Utf8Append(text, " ");
    Utf8Append(text + " ", value);
    Utf8Append(text + " " + value, "\r\n");
  }

  /** The failed copy is the message under three lines of text. */
  lemma InjectedText(b: Bytes, reason: string, now: string, ulid: string)
    ensures Inject(b, reason, now, ulid) ==
            Utf8("X-JMAP-Failure:" + " " + SanitizeReason(reason) + "\r\n") +
            Utf8("X-JMAP-Failed-At:" + " " + now + "\r\n") +
            Utf8("X-JMAP-Ulid:" + " " + ulid + "\r\n") + b
  {
    NamesAreAscii();
    HeaderLineText(FAILURE, "X-JMAP-Failure:", SanitizeReason(reason));
    HeaderLineText(FAILED_AT, "X-JMAP-Failed-At:", now);
    HeaderLineText(ULID, "X-JMAP-Ulid:", ulid);
  }

  // -------------------------------------------------------------------------
  // Names
  // -------------------------------------------------------------------------

  /** Equal, or the two cases of one ASCII letter. */
  ghost predicate SameLetter(b: Byte, c: char) {
    || b as int == c as int
    || ('A' <= c <= 'Z' && b as int == c as int + 32)
    || ('a' <= c <= 'z' && b as int == c as int - 32)
  }

  /** The line begins with the name, in any case. */
  ghost predicate Begins(line: Bytes, name: string) {
    |name| <= |line| && forall i :: 0 <= i < |name| ==> SameLetter(line[i], name[i])
  }

  lemma BeginsIff(line: Bytes, name: Bytes, text: string)
    requires SpelledAs(name, text)
    ensures StartsWithHeader(line, name) <==> Begins(line, text)
  {
    forall i | 0 <= i < |name| && i < |line| ensures Lower(line[i]) == Lower(name[i]) <==> SameLetter(line[i], text[i]) {}
  }

  /** A line counts as injected exactly when it begins with one of the three names, in any case. */
  lemma Family2Iff(line: Bytes)
    ensures IsFamily2(line) <==>
            Begins(line, "X-JMAP-Failure:") || Begins(line, "X-JMAP-Failed-At:") || Begins(line, "X-JMAP-Ulid:")
  {
    NamesAreAscii();
    BeginsIff(line, FAILURE, "X-JMAP-Failure:");
    BeginsIff(line, FAILED_AT, "X-JMAP-Failed-At:");
    BeginsIff(line, ULID, "X-JMAP-Ulid:");
  }
}
