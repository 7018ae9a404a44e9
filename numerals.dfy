/**
 * Decimal numerals: the digit fields of the timestamp format and the
 * integer cells the loader hands to Python's `int()`.
 */
module Numerals {
  import opened Wrappers

  predicate IsDigit(c: char) {
    '0' <= c <= '9'
  }

  predicate AllDigits(s: string) {
    forall k :: 0 <= k < |s| ==> IsDigit(s[k])
  }

  function DigitValue(c: char): (d: nat)
    requires IsDigit(c)
    ensures d < 10
  {
    c as int - '0' as int
  }

  function DigitChar(d: nat): (c: char)
    requires d < 10
    ensures IsDigit(c) && DigitValue(c) == d
  {
    ('0' as int + d) as char
  }

  function Pow10(n: nat): (p: nat)
    ensures p >= 1
  {
    if n == 0 then 1 else 10 * Pow10(n - 1)
  }

  /** The value of a string of decimal digits, most significant digit first. */
  function DigitsValue(s: string): (v: nat)
    requires AllDigits(s)
    ensures v < Pow10(|s|)
  {
    if s == [] then 0 else DigitsValue(s[..|s| - 1]) * 10 + DigitValue(s[|s| - 1])
  }

  /** `n` written in exactly `width` digits, zero-padded on the left. */
  function PadDigits(n: nat, width: nat): (s: string)
    ensures |s| == width && AllDigits(s)
  {
    if width == 0 then [] else PadDigits(n / 10, width - 1) + [DigitChar(n % 10)]
  }

  /** Reading back a zero-padded numeral gives the number, when it fits. */
  lemma {:induction false} PadDigitsValue(n: nat, width: nat)
    requires n < Pow10(width)
    ensures DigitsValue(PadDigits(n, width)) == n
  {
    if width > 0 {
      var s := PadDigits(n, width);
      assert s[..width - 1] == PadDigits(n / 10, width - 1);
      PadDigitsValue(n / 10, width - 1);
    }
  }

  /** Every digit string is the zero-padded form of its own value. */
  lemma {:induction false} DigitsValuePad(s: string)
    requires AllDigits(s)
    ensures PadDigits(DigitsValue(s), |s|) == s
  {
    if s != [] {
      var init := s[..|s| - 1];
      var v := DigitsValue(s);
      assert v / 10 == DigitsValue(init) && v % 10 == DigitValue(s[|s| - 1]);
      DigitsValuePad(init);
      assert DigitChar(DigitValue(s[|s| - 1])) == s[|s| - 1];
    }
  }

  /** `n` in decimal without leading zeros. */
  function Digits(n: nat): (s: string)
    ensures s != [] && AllDigits(s)
  {
    if n < 10 then [DigitChar(n)] else Digits(n / 10) + [DigitChar(n % 10)]
  }

  lemma {:induction false} DigitsRoundTrip(n: nat)
    ensures DigitsValue(Digits(n)) == n
  {
    if n >= 10 {
      var s := Digits(n);
      assert s[..|s| - 1] == Digits(n / 10);
      DigitsRoundTrip(n / 10);
    }
  }

  /** The ASCII characters `int()` strips as whitespace: space and tab to carriage return. */
  predicate IsSpace(c: char) {
    c == ' ' || 9 <= c as int <= 13
  }

  function TrimStart(s: string): (r: string)
    ensures |r| <= |s| && r == s[|s| - |r|..]
    ensures r != [] ==> !IsSpace(r[0])
  {
    if s != [] && IsSpace(s[0]) then TrimStart(s[1..]) else s
  }

  function TrimEnd(s: string): (r: string)
    ensures |r| <= |s| && r == s[..|r|]
    ensures r != [] ==> !IsSpace(r[|r| - 1])
  {
    if s != [] && IsSpace(s[|s| - 1]) then TrimEnd(s[..|s| - 1]) else s
  }

  function Trim(s: string): string {
    TrimEnd(TrimStart(s))
  }

  /**
   * The most digits `int()` converts from a string, leading zeros included:
   * CPython's default `sys.get_int_max_str_digits()`. Longer numerals raise
   * `ValueError`.
   */
  const MaxStrDigits := 4300

  /** An optional sign followed by at least one and at most `MaxStrDigits` digits. */
  predicate IsIntLiteral(t: string) {
    || (t != [] && AllDigits(t) && |t| <= MaxStrDigits)
    || (|t| > 1 && (t[0] == '+' || t[0] == '-') && AllDigits(t[1..]) && |t| - 1 <= MaxStrDigits)
  }

  /** The value of an optional sign followed by digits, with nothing around it. */
  function ParseLiteral(t: string): (r: Option<int>)
    ensures r.Some? <==> IsIntLiteral(t)
  {
    if t != [] && AllDigits(t) then
      if |t| <= MaxStrDigits then Some(DigitsValue(t)) else None
    else if |t| > 1 && (t[0] == '-' || t[0] == '+') && AllDigits(t[1..]) then
      if |t| - 1 > MaxStrDigits then None
      else if t[0] == '-' then Some(-(DigitsValue(t[1..]) as int))
      else Some(DigitsValue(t[1..]))
    else None
  }

  /**
   * Python's `int(cell)` on a cell of the export: surrounding whitespace is
   * ignored, then an optional sign and at most `MaxStrDigits` decimal
   * digits; anything else fails.
   */
  function ParseInt(s: string): (r: Option<int>)
    ensures r.Some? <==> IsIntLiteral(Trim(s))
  {
    ParseLiteral(Trim(s))
  }

  /**
   * `n` in decimal, as Python's `str(n)` writes it when `n` has at most
   * `MaxStrDigits` digits (`str` raises on a longer one).
   */
  function FormatInt(n: int): (s: string)
    ensures s != [] && !IsSpace(s[0]) && !IsSpace(s[|s| - 1])
  {
    if n < 0 then "-" + Digits(-n) else Digits(n)
  }

  lemma TrimNoSpaces(s: string)
    requires s != [] && !IsSpace(s[0]) && !IsSpace(s[|s| - 1])
    ensures Trim(s) == s
  {
  }

  /** A plain digit string parses to its value. */
  lemma ParseDigits(d: string)
    requires d != [] && AllDigits(d) && |d| <= MaxStrDigits
    ensures ParseInt(d) == Some(DigitsValue(d))
  {
    assert IsDigit(d[0]) && IsDigit(d[|d| - 1]);
    TrimNoSpaces(d);
  }

  /** A minus sign before a digit string parses to the negated value. */
  lemma ParseNegatedDigits(d: string)
    requires d != [] && AllDigits(d) && |d| <= MaxStrDigits
    ensures ParseInt("-" + d) == Some(-(DigitsValue(d) as int))
  {
    var s := "-" + d;
    assert s[|s| - 1] == d[|d| - 1] && IsDigit(d[|d| - 1]);
    TrimNoSpaces(s);
    NegatedLiteral(d);
  }

  lemma NegatedLiteral(d: string)
    requires d != [] && AllDigits(d) && |d| <= MaxStrDigits
    ensures ParseLiteral("-" + d) == Some(-(DigitsValue(d) as int))
  {
    var s := "-" + d;
    assert s[1..] == d;
    assert !IsDigit(s[0]);
  }

  /** `n` has at most `MaxStrDigits` decimal digits. */
  predicate FitsDigitLimit(n: int) {
    |Digits(if n < 0 then -n else n)| <= MaxStrDigits
  }

  /** Every integer within the digit limit survives being written out and parsed back. */
  lemma ParseFormatInt(n: int)
    requires FitsDigitLimit(n)
    ensures ParseInt(FormatInt(n)) == Some(n)
  {
    if n < 0 {
      var d := Digits(-n);
      assert FormatInt(n) == "-" + d && |d| <= MaxStrDigits;
      DigitsRoundTrip(-n);
      ParseNegatedDigits(d);
    } else {
      var d := Digits(n);
      assert FormatInt(n) == d && |d| <= MaxStrDigits;
      DigitsRoundTrip(n);
      ParseDigits(d);
    }
  }

  /** Characters that are all whitespace. */
  predicate AllSpaces(s: string) {
    forall k :: 0 <= k < |s| ==> IsSpace(s[k])
  }

  /** Whitespace before a word that does not start with whitespace is trimmed away. */
  lemma {:induction false} TrimStartSpaces(pre: string, q: string)
    requires AllSpaces(pre) && q != [] && !IsSpace(q[0])
    ensures TrimStart(pre + q) == q
  {
    if pre == [] {
      assert pre + q == q;
    } else {
      assert (pre + q)[0] == pre[0];
      assert (pre + q)[1..] == pre[1..] + q;
      TrimStartSpaces(pre[1..], q);
    }
  }

  /** Whitespace after a word that does not end with whitespace is trimmed away. */
  lemma {:induction false} TrimEndSpaces(q: string, post: string)
    requires AllSpaces(post) && q != [] && !IsSpace(q[|q| - 1])
    ensures TrimEnd(q + post) == q
  {
    if post == [] {
      assert q + post == q;
    } else {
      var init := post[..|post| - 1];
      assert (q + post)[|q + post| - 1] == post[|post| - 1];
      assert (q + post)[..|q + post| - 1] == q + init;
      TrimEndSpaces(q, init);
    }
  }

  /** Leading zeros and any surrounding whitespace do not change the parsed value. */
  lemma ParseIntPadded(n: nat, width: nat, pre: string, post: string)
    requires n < Pow10(width) && 0 < width <= MaxStrDigits
    requires AllSpaces(pre) && AllSpaces(post)
    ensures ParseInt(pre + PadDigits(n, width) + post) == Some(n)
  {
    var p := PadDigits(n, width);
    assert IsDigit(p[0]) && IsDigit(p[|p| - 1]);
    assert pre + p + post == pre + (p + post);
    assert (p + post)[0] == p[0];
    TrimStartSpaces(pre, p + post);
    TrimEndSpaces(p, post);
    PadDigitsValue(n, width);
  }

  /** A numeral of more than `MaxStrDigits` digits fails, whatever surrounds it. */
  lemma ParseIntTooLong(d: string, pre: string, post: string)
    requires AllDigits(d) && |d| > MaxStrDigits
    requires AllSpaces(pre) && AllSpaces(post)
    ensures ParseInt(pre + d + post) == None
  {
    assert IsDigit(d[0]) && IsDigit(d[|d| - 1]);
    assert pre + d + post == pre + (d + post);
    assert (d + post)[0] == d[0];
    TrimStartSpaces(pre, d + post);
    TrimEndSpaces(d, post);
  }
}
