/** The three diagnostic headers put on a message that failed for good, and taken off when it is dragged back. */
module Family2 {
  import opened Prelude
  import opened HeaderFields

  // -------------------------------------------------------------------------
  // Text to bytes
  // -------------------------------------------------------------------------

  function EncodeChar(c: char): (r: Bytes)
    ensures c as int < 0x80 ==> r == [c as int as Byte]
    ensures c as int >= 0x80 ==> forall i :: 0 <= i < |r| ==> r[i] >= 0x80
    ensures r != []
  {
    var n := c as int;
    if n < 0x80 then [n as Byte]
    else if n < 0x800 then [(0xC0 + n / 64) as Byte, (0x80 + n % 64) as Byte]
    else if n < 0x10000 then [(0xE0 + n / 4096) as Byte, (0x80 + n / 64 % 64) as Byte, (0x80 + n % 64) as Byte]
    else [(0xF0 + n / 262144) as Byte, (0x80 + n / 4096 % 64) as Byte, (0x80 + n / 64 % 64) as Byte, (0x80 + n % 64) as Byte]
  }

  function Utf8(s: string): Bytes {
    if s == "" then [] else EncodeChar(s[0]) + Utf8(s[1..])
  }

  /** A byte below 0x80 in the encoding is a character of the text. */
  lemma {:induction false} Utf8Low(s: string, x: char)
    requires x as int < 0x80 && x !in s
    ensures (x as int as Byte) !in Utf8(s)
  {
    if s != "" {
      assert s == [s[0]] + s[1..];
      assert s[0] in s && s[0] != x;
      Utf8Low(s[1..], x);
      var b := x as int as Byte;
      var head := EncodeChar(s[0]);
      assert b !in head;
    }
  }

  // -------------------------------------------------------------------------
  // The injected value
  // -------------------------------------------------------------------------

  predicate IsControl(c: char) {
    var n := c as int;
    n < 0x20 || 0x7F <= n < 0xA0
  }

  predicate IsWhitespace(c: char) {
    var n := c as int;
    || 9 <= n <= 13 || n == 0x20 || n == 0x85 || n == 0xA0 || n == 0x1680 || 0x2000 <= n <= 0x200A
    || n == 0x2028 || n == 0x2029 || n == 0x202F || n == 0x205F || n == 0x3000
  }

  function BlankControls(s: string): string {
    if s == "" then "" else [if IsControl(s[0]) then ' ' else s[0]] + BlankControls(s[1..])
  }

  function Words(s: string, current: string): seq<string>
    decreases |s|
  {
    if s == "" then (if current == "" then [] else [current])
    else if IsWhitespace(s[0]) then (if current == "" then [] else [current]) + Words(s[1..], "")
    else Words(s[1..], current + [s[0]])
  }

  function Join(words: seq<string>): string {
    if words == [] then "" else if |words| == 1 then words[0] else words[0] + " " + Join(words[1..])
  }

  function SanitizeReason(reason: string): string {
    Join(Words(BlankControls(reason), ""))
  }

  ghost predicate NoControls(s: string) {
    forall c :: c in s ==> !IsControl(c)
  }

  lemma {:induction false} BlankControlsPlain(s: string)
    ensures NoControls(BlankControls(s))
  {
    if s != "" { BlankControlsPlain(s[1..]); }
  }

  lemma {:induction false} WordsPlain(s: string, current: string)
    requires NoControls(s) && NoControls(current)
    ensures forall w :: w in Words(s, current) ==> NoControls(w)
    decreases |s|
  {
    if s != "" {
      assert s == [s[0]] + s[1..];
      assert s[0] in s;
      forall c | c in s[1..] ensures !IsControl(c) { assert c in s; }
      if IsWhitespace(s[0]) { WordsPlain(s[1..], ""); } else { WordsPlain(s[1..], current + [s[0]]); }
    }
  }

  lemma {:induction false} JoinPlain(words: seq<string>)
    requires forall w :: w in words ==> NoControls(w)
    ensures NoControls(Join(words))
  {
    if words != [] {
      assert words[0] in words;
      forall w | w in words[1..] ensures NoControls(w) { assert w in words; }
      JoinPlain(words[1..]);
    }
  }

  /** Whatever the reason, the value is one line. */
  lemma SanitizedIsOneLine(reason: string)
    ensures NoControls(SanitizeReason(reason))
    ensures '\r' !in SanitizeReason(reason) && '\n' !in SanitizeReason(reason)
  {
    BlankControlsPlain(reason);
    WordsPlain(BlankControls(reason), "");
    JoinPlain(Words(BlankControls(reason), ""));
    assert IsControl('\r') && IsControl('\n');
  }

  // -------------------------------------------------------------------------
  // Strip and inject
  // -------------------------------------------------------------------------

  function Lower(b: Byte): Byte {
    if 65 <= b <= 90 then b + 32 else b
  }

  /** Case-insensitive prefix match; the name includes its colon. */
  predicate StartsWithHeader(line: Bytes, nameWithColon: Bytes) {
    |nameWithColon| <= |line| && forall i :: 0 <= i < |nameWithColon| ==> Lower(line[i]) == Lower(nameWithColon[i])
  }

  // The ASCII of X-JMAP-Failure:, X-JMAP-Failed-At: and X-JMAP-Ulid:
  const FAILURE: Bytes := [88, 45, 74, 77, 65, 80, 45, 70, 97, 105, 108, 117, 114, 101, 58]
  const FAILED_AT: Bytes := [88, 45, 74, 77, 65, 80, 45, 70, 97, 105, 108, 101, 100, 45, 65, 116, 58]
  const ULID: Bytes := [88, 45, 74, 77, 65, 80, 45, 85, 108, 105, 100, 58]

  predicate IsFamily2(line: Bytes) {
    StartsWithHeader(line, FAILURE) || StartsWithHeader(line, FAILED_AT) || StartsWithHeader(line, ULID)
  }

  function Strip(b: Bytes): Bytes {
    StripFields(b, IsFamily2)
  }

  method StripFamily2Headers(b: Bytes) returns (out: Bytes)
    ensures out == Strip(b)
  {
    out := DropFields(Header(b), IsFamily2);
    out := out + Body(b);
  }

  /** Same length, same codes. */
  ghost predicate SpelledAs(b: Bytes, s: string) {
    |b| == |s| && forall i :: 0 <= i < |s| ==> b[i] as int == s[i] as int
  }

  lemma NamesAreAscii()
    ensures SpelledAs(FAILURE, "X-JMAP-Failure:")
    ensures SpelledAs(FAILED_AT, "X-JMAP-Failed-At:")
    ensures SpelledAs(ULID, "X-JMAP-Ulid:")
  {}

  /** Name with its colon, a space, the value in UTF-8, CRLF. */
  function HeaderLine(name: Bytes, value: string): Bytes {
    name + [SP] + Utf8(value) + [CR, LF]
  }

  function Inject(b: Bytes, reason: string, now: string, ulid: string): Bytes {
    HeaderLine(FAILURE, SanitizeReason(reason)) + HeaderLine(FAILED_AT, now) + HeaderLine(ULID, ulid) + b
  }
}
