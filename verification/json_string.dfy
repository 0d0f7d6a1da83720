/**
 JSON string literals as encoding/json (Go 1.22 and later) writes them with json.Marshal (HTML escaping
 on), and a reader for them.

 The writer escapes `"` and `\` with a backslash, uses the short forms `\b \f \n \r \t`,
 writes every other control character, the HTML-sensitive `<`, `>`, `&` and the
 separators U+2028 and U+2029 as `\u` and four lower-case hex digits, and copies every
 other character. The reader accepts every standard JSON escape except surrogate pairs,
 which the writer never emits.
 */
module JsonString {
  import opened Wrappers

  const Backspace: char := '\U{8}'
  const FormFeed: char := '\U{C}'

  /** Characters written as a `\u` escape. */
  predicate NeedsUnicodeEscape(c: char) {
    || (c < ' ' && c != Backspace && c != FormFeed && c != '\n' && c != '\r' && c != '\t')
    || c == '<' || c == '>' || c == '&'
    || c == '\U{2028}' || c == '\U{2029}'
  }

  /** The letter after the backslash for characters with a two-character escape. */
  function ShortEscape(c: char): Option<char> {
    if c == '"' then Some('"')
    else if c == '\\' then Some('\\')
    else if c == Backspace then Some('b')
    else if c == FormFeed then Some('f')
    else if c == '\n' then Some('n')
    else if c == '\r' then Some('r')
    else if c == '\t' then Some('t')
    else None
  }

  /** The character a two-character escape `\x` stands for, for each letter JSON allows. */
  function Unescape(x: char): Option<char> {
    if x == '"' then Some('"')
    else if x == '\\' then Some('\\')
    else if x == '/' then Some('/')
    else if x == 'b' then Some(Backspace)
    else if x == 'f' then Some(FormFeed)
    else if x == 'n' then Some('\n')
    else if x == 'r' then Some('\r')
    else if x == 't' then Some('\t')
    else None
  }

  function HexDigit(d: nat): char
    requires d < 16
  {
    if d < 10 then ('0' as int + d) as char else ('a' as int + d - 10) as char
  }

  function HexValue(c: char): Option<nat> {
    if '0' <= c <= '9' then Some(c as int - '0' as int)
    else if 'a' <= c <= 'f' then Some(c as int - 'a' as int + 10)
    else if 'A' <= c <= 'F' then Some(c as int - 'A' as int + 10)
    else None
  }

  /** Four hex digits, most significant first. */
  function Hex4(n: nat): (s: string)
    requires n < 0x1_0000
    ensures |s| == 4
  {
    [HexDigit(n / 0x1000), HexDigit(n / 0x100 % 16), HexDigit(n / 0x10 % 16), HexDigit(n % 16)]
  }

  function ParseHex4(s: string): Option<nat>
    requires |s| == 4
  {
    match (HexValue(s[0]), HexValue(s[1]), HexValue(s[2]), HexValue(s[3]))
    case (Some(a), Some(b), Some(c), Some(d)) => Some(a * 0x1000 + b * 0x100 + c * 0x10 + d)
    case _ => None
  }

  /** Whether a code point is a Unicode scalar value, i.e. a possible `char`. */
  predicate IsScalar(n: int) {
    0 <= n < 0xD800 || 0xE000 <= n < 0x11_0000
  }

  function EscapeChar(c: char): string {
    match ShortEscape(c)
    case Some(x) => ['\\', x]
    case None =>
      if NeedsUnicodeEscape(c) then ['\\', 'u'] + Hex4(c as int) else [c]
  }

  /** The body of a string literal, without the quotes. */
  function Escape(s: string): string {
    if |s| == 0 then [] else EscapeChar(s[0]) + Escape(s[1..])
  }

  /** The string literal, quotes included. */
  function Quote(s: string): string {
    ['"'] + Escape(s) + ['"']
  }

  /** The result of reading one decoded character `c` and then `r`. */
  function Then(c: char, r: Option<(string, string)>): Option<(string, string)> {
    match r
    case Some((t, rest)) => Some(([c] + t, rest))
    case None => None
  }

  /**
   Reads a string body up to and including its closing quote; returns the decoded text
   and what follows the quote.
   */
  function ParseBody(s: string): (r: Option<(string, string)>)
    ensures r.Some? ==> |r.value.1| < |s|
  {
    if |s| == 0 then None
    else if s[0] == '"' then Some(([], s[1..]))
    else if s[0] == '\\' then
      if |s| < 2 then None
      else if s[1] == 'u' then
        if |s| < 6 then None
        else match ParseHex4(s[2..6])
          case Some(n) => if IsScalar(n) then Then(n as char, ParseBody(s[6..])) else None
          case None => None
      else match Unescape(s[1])
        case Some(c) => Then(c, ParseBody(s[2..]))
        case None => None
    else if s[0] < ' ' then None
    else Then(s[0], ParseBody(s[1..]))
  }

  /** Reads a string literal at the start of `s`. */
  function ParseString(s: string): (r: Option<(string, string)>)
    ensures r.Some? ==> |r.value.1| < |s|
  {
    if |s| > 0 && s[0] == '"' then ParseBody(s[1..]) else None
  }

  /** Every hex digit reads back as its value. */
  lemma HexDigitValue(d: nat)
    requires d < 16
    ensures HexValue(HexDigit(d)) == Some(d)
  {
  }

  lemma Hex4RoundTrip(n: nat)
    requires n < 0x1_0000
    ensures ParseHex4(Hex4(n)) == Some(n)
  {
    var a, b, c, d := n / 0x1000, n / 0x100 % 16, n / 0x10 % 16, n % 16;
    HexDigitValue(a);
    HexDigitValue(b);
    HexDigitValue(c);
    HexDigitValue(d);
    var h := Hex4(n);
    assert h[0] == HexDigit(a) && h[1] == HexDigit(b) && h[2] == HexDigit(c) && h[3] == HexDigit(d);
    assert ParseHex4(h) == Some(a * 0x1000 + b * 0x100 + c * 0x10 + d);
    DivModDigits(n);
  }

  /** Four base-16 digits put back together give the number. */
  lemma DivModDigits(n: nat)
    requires n < 0x1_0000
    ensures n / 0x1000 * 0x1000 + n / 0x100 % 16 * 0x100 + n / 0x10 % 16 * 0x10 + n % 16 == n
  {
    var q1 := n / 16;
    var q2 := q1 / 16;
    var q3 := q2 / 16;
    assert n == q1 * 16 + n % 16;
    assert q1 == q2 * 16 + q1 % 16;
    assert q2 == q3 * 16 + q2 % 16;
    assert q2 == n / 0x100;
    assert q3 == n / 0x1000;
  }

  lemma UnicodeStep(s: string, n: nat, tail: string)
    requires |s| >= 6 && s[0] == '\\' && s[1] == 'u'
    requires ParseHex4(s[2..6]) == Some(n) && IsScalar(n)
    requires s[6..] == tail
    ensures ParseBody(s) == Then(n as char, ParseBody(tail))
  {
  }

  lemma ShortStep(s: string, c: char, tail: string)
    requires |s| >= 2 && s[0] == '\\' && s[1] != 'u'
    requires Unescape(s[1]) == Some(c)
    requires s[2..] == tail
    ensures ParseBody(s) == Then(c, ParseBody(tail))
  {
  }

  lemma PlainStep(s: string, tail: string)
    requires |s| >= 1 && s[0] != '"' && s[0] != '\\' && s[0] >= ' '
    requires s[1..] == tail
    ensures ParseBody(s) == Then(s[0], ParseBody(tail))
  {
  }

  /** One escaped character is read back as itself, whatever follows it. */
  lemma EscapeCharRoundTrip(c: char, tail: string)
    ensures ParseBody(EscapeChar(c) + tail) == Then(c, ParseBody(tail))
  {
    var s := EscapeChar(c) + tail;
    if ShortEscape(c).None? && NeedsUnicodeEscape(c) {
      var h := Hex4(c as int);
      assert s == ['\\', 'u'] + h + tail;
      Hex4RoundTrip(c as int);
      assert s[2..6] == h;
      assert s[6..] == tail;
      UnicodeStep(s, c as int, tail);
    } else if ShortEscape(c).Some? {
      assert s[2..] == tail;
      ShortStep(s, c, tail);
    } else {
      assert s[1..] == tail;
      PlainStep(s, tail);
    }
  }

  /** The body of a quoted string reads back as the string, and reading stops right after the closing quote. */
  lemma {:induction false} EscapeRoundTrip(t: string, rest: string)
    ensures ParseBody(Escape(t) + ['"'] + rest) == Some((t, rest))
  {
    if |t| == 0 {
      assert Escape(t) + ['"'] + rest == ['"'] + rest;
    } else {
      EscapeRoundTrip(t[1..], rest);
      assert Escape(t) + ['"'] + rest == EscapeChar(t[0]) + (Escape(t[1..]) + ['"'] + rest);
      EscapeCharRoundTrip(t[0], Escape(t[1..]) + ['"'] + rest);
      assert [t[0]] + t[1..] == t;
    }
  }

  /** A string literal reads back as its text, leaving what follows untouched. */
  lemma QuoteRoundTrip(t: string, rest: string)
    ensures ParseString(Quote(t) + rest) == Some((t, rest))
  {
    var body := Escape(t) + ['"'] + rest;
    EscapeRoundTrip(t, rest);
    assert Quote(t) + rest == ['"'] + body;
    assert (['"'] + body)[1..] == body;
  }

  /** No control character (so no line break) is ever written raw. */
  lemma {:induction false} EscapeIsPrintable(t: string)
    ensures forall i :: 0 <= i < |Escape(t)| ==> Escape(t)[i] >= ' '
  {
    if |t| > 0 {
      EscapeIsPrintable(t[1..]);
      var e := EscapeChar(t[0]);
      assert forall i :: 0 <= i < |e| ==> e[i] >= ' ';
      assert Escape(t) == e + Escape(t[1..]);
    }
  }

  /** A character the writer copies unchanged. */
  predicate IsPlain(c: char) {
    ShortEscape(c).None? && !NeedsUnicodeEscape(c)
  }

  /** Text made only of plain characters is its own escaped form. */
  lemma {:induction false} PlainEscapesToItself(t: string)
    requires forall i :: 0 <= i < |t| ==> IsPlain(t[i])
    ensures Escape(t) == t
  {
    if |t| > 0 {
      PlainEscapesToItself(t[1..]);
      assert [t[0]] + t[1..] == t;
    }
  }

  /** A string of plain characters is written as itself between quotes. */
  lemma QuotePlain(t: string)
    requires forall i :: 0 <= i < |t| ==> IsPlain(t[i])
    ensures Quote(t) == ['"'] + t + ['"']
  {
    PlainEscapesToItself(t);
  }
}
