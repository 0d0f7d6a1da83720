/**
 JSON integers as encoding/json writes Go integers: optional `-`, then decimal digits
 with no leading zero; and a reader for them.
 */
module JsonNumber {
  import opened Wrappers

  predicate IsDigit(c: char) {
    '0' <= c <= '9'
  }

  function DigitChar(d: nat): char
    requires d < 10
  {
    ('0' as int + d) as char
  }

  /** The decimal digits of `n`, most significant first. */
  function Digits(n: nat): string {
    if n < 10 then [DigitChar(n)] else Digits(n / 10) + [DigitChar(n % 10)]
  }

  function IntText(i: int): string {
    if i < 0 then ['-'] + Digits(-i) else Digits(i)
  }

  /** The value of a run of digits, read left to right. */
  function DigitsValue(ds: string): nat
    requires forall k :: 0 <= k < |ds| ==> IsDigit(ds[k])
  {
    if |ds| == 0 then 0
    else
      assert IsDigit(ds[|ds| - 1]);
      DigitsValue(ds[..|ds| - 1]) * 10 + (ds[|ds| - 1] as int - '0' as int)
  }

  /** The length of the run of digits at the start of `s`. */
  function DigitSpan(s: string): (k: nat)
    ensures k <= |s|
    ensures forall j :: 0 <= j < k ==> IsDigit(s[j])
    ensures k < |s| ==> !IsDigit(s[k])
  {
    if |s| == 0 || !IsDigit(s[0]) then 0 else 1 + DigitSpan(s[1..])
  }

  /** Reads an integer at the start of `s`: an optional `-` and at least one digit. */
  function ParseInt(s: string): (r: Option<(int, string)>)
    ensures r.Some? ==> |r.value.1| < |s|
  {
    var neg := |s| > 0 && s[0] == '-';
    var body := if neg then s[1..] else s;
    var k := DigitSpan(body);
    if k == 0 then None
    else
      var v: int := DigitsValue(body[..k]);
      Some((if neg then -v else v, body[k..]))
  }

  /** Digits yields digits only, never an empty run, and no leading zero. */
  lemma {:induction false} DigitsWellFormed(n: nat)
    ensures |Digits(n)| > 0
    ensures forall k :: 0 <= k < |Digits(n)| ==> IsDigit(Digits(n)[k])
    ensures n > 0 ==> Digits(n)[0] != '0'
  {
    if n >= 10 {
      DigitsWellFormed(n / 10);
      assert Digits(n)[0] == Digits(n / 10)[0];
    }
  }

  /** Reading the digits of `n` gives `n` back. */
  lemma {:induction false} DigitsValueOfDigits(n: nat)
    ensures forall k :: 0 <= k < |Digits(n)| ==> IsDigit(Digits(n)[k])
    ensures DigitsValue(Digits(n)) == n
  {
    DigitsWellFormed(n);
    var ds := Digits(n);
    if n >= 10 {
      DigitsValueOfDigits(n / 10);
      assert ds[..|ds| - 1] == Digits(n / 10);
    }
  }

  /** The digit run of `ds + rest` is exactly `ds` when `rest` does not start with a digit. */
  lemma {:induction false} SpanOfDigits(ds: string, rest: string)
    requires forall k :: 0 <= k < |ds| ==> IsDigit(ds[k])
    requires |rest| == 0 || !IsDigit(rest[0])
    ensures DigitSpan(ds + rest) == |ds|
  {
    if |ds| > 0 {
      SpanOfDigits(ds[1..], rest);
      assert (ds + rest)[1..] == ds[1..] + rest;
    } else {
      assert ds + rest == rest;
    }
  }

  /** `body` starts with a digit run worth `n`, followed by `rest`. */
  predicate ReadsAs(body: string, n: nat, rest: string) {
    var k := DigitSpan(body);
    k > 0 && DigitsValue(body[..k]) == n && body[k..] == rest
  }

  lemma {:induction false} DigitsReadBack(n: nat, rest: string)
    requires |rest| == 0 || !IsDigit(rest[0])
    ensures ReadsAs(Digits(n) + rest, n, rest)
  {
    var ds := Digits(n);
    var body := ds + rest;
    DigitsWellFormed(n);
    DigitsValueOfDigits(n);
    SpanOfDigits(ds, rest);
    assert body[..|ds|] == ds;
    assert body[|ds|..] == rest;
  }

  lemma ParseNegative(s: string, n: nat, rest: string)
    requires |s| > 0 && s[0] == '-' && ReadsAs(s[1..], n, rest)
    ensures ParseInt(s) == Some((-(n as int), rest))
  {
  }

  lemma ParseNonNegative(s: string, n: nat, rest: string)
    requires (|s| == 0 || s[0] != '-') && ReadsAs(s, n, rest)
    ensures ParseInt(s) == Some((n, rest))
  {
  }

  lemma NegativeText(n: nat, rest: string)
    requires n > 0
    ensures IntText(-(n as int)) + rest == ['-'] + (Digits(n) + rest)
  {
  }

  lemma NonNegativeText(n: nat, rest: string)
    ensures IntText(n) + rest == Digits(n) + rest
    ensures (Digits(n) + rest)[0] != '-'
  {
    DigitsWellFormed(n);
  }

  /** An integer's text reads back as the integer, provided no digit follows it. */
  lemma IntRoundTrip(i: int, rest: string)
    requires |rest| == 0 || !IsDigit(rest[0])
    ensures ParseInt(IntText(i) + rest) == Some((i, rest))
  {
    var n: nat := if i < 0 then -i else i;
    var body := Digits(n) + rest;
    DigitsReadBack(n, rest);
    if i < 0 {
      NegativeText(n, rest);
      assert (['-'] + body)[1..] == body;
      ParseNegative(['-'] + body, n, rest);
    } else {
      NonNegativeText(n, rest);
      ParseNonNegative(body, n, rest);
    }
  }

  /** An integer's text is a single token with no line break: a sign, then digits. */
  lemma IntTextShape(i: int)
    ensures |IntText(i)| > 0
    ensures IntText(i)[0] == '-' || IsDigit(IntText(i)[0])
    ensures forall k :: 0 < k < |IntText(i)| ==> IsDigit(IntText(i)[k])
  {
    var n: nat := if i < 0 then -i else i;
    DigitsWellFormed(n);
  }
}
