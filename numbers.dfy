/**
 * Decimal text for the numbers the ledger stores: Python's `int(...)` and
 * `str(int)`, `float(...)` and `str(float)` for amounts held in whole cents,
 * the `:.2f` format, zero padding, and rounding to the nearest unit.
 */
module Numbers {
  import opened Wrappers
  import opened Text

  predicate IsDigit(c: char)
  {
    '0' <= c <= '9'
  }

  function DigitValue(c: char): (d: nat)
    requires IsDigit(c)
    ensures d < 10
  {
    c as int - '0' as int
  }

  function DigitChar(d: nat): (c: char)
    requires d < 10
    ensures IsDigit(c) && DigitValue(c) == d
  {
    ('0' as int + d) as char
  }

  predicate AllDigits(s: string)
  {
    forall i :: 0 <= i < |s| ==> IsDigit(s[i])
  }

  /** The value of a string of decimal digits, most significant first. */
  function DigitsValue(s: string): nat
    requires AllDigits(s)
    decreases |s|
  {
    if s == [] then 0 else DigitsValue(s[..|s| - 1]) * 10 + DigitValue(s[|s| - 1])
  }

  function Pow10(k: nat): (r: nat)
    ensures r >= 1
  {
    if k == 0 then 1 else 10 * Pow10(k - 1)
  }

  /** The shortest decimal spelling of `n`, as `str(n)` gives it. */
  function NatDigits(n: nat): (s: string)
    ensures s != [] && AllDigits(s)
    decreases n
  {
    if n < 10 then [DigitChar(n)] else NatDigits(n / 10) + [DigitChar(n % 10)]
  }

  lemma {:induction false} NatDigitsValue(n: nat)
    ensures DigitsValue(NatDigits(n)) == n
    decreases n
  {
    if n >= 10 {
      var s := NatDigits(n);
      assert s[..|s| - 1] == NatDigits(n / 10);
      NatDigitsValue(n / 10);
    }
  }

  /** `n` written with exactly `width` digits, leading zeros included. */
  function ZeroPad(n: nat, width: nat): (s: string)
    requires n < Pow10(width)
    ensures |s| == width && AllDigits(s)
    decreases width
  {
    if width == 0 then "" else ZeroPad(n / 10, width - 1) + [DigitChar(n % 10)]
  }

  lemma {:induction false} ZeroPadValue(n: nat, width: nat)
    requires n < Pow10(width)
    ensures DigitsValue(ZeroPad(n, width)) == n
    decreases width
  {
    if width > 0 {
      var s := ZeroPad(n, width);
      assert s[..|s| - 1] == ZeroPad(n / 10, width - 1);
      ZeroPadValue(n / 10, width - 1);
    }
  }

  /** Python's `str(n)` for an `int`. */
  function IntToString(n: int): (s: string)
  {
    if n < 0 then "-" + NatDigits(-n) else NatDigits(n)
  }

  /** An optional leading sign: whether it was `-`, and the rest. */
  function SplitSign(t: string): (bool, string)
  {
    if t != [] && (t[0] == '-' || t[0] == '+') then (t[0] == '-', t[1..]) else (false, t)
  }

  /**
   * Python's `int(s)`: surrounding C whitespace (`IsCSpace`), an optional
   * sign, then one or more decimal digits; anything else is a `ValueError`,
   * here `None`.
   */
  function ParseInt(s: string): (r: Option<int>)
  {
    var (negative, body) := SplitSign(StripBlanks(s, NumberBlanks));
    if body != [] && AllDigits(body) then
      Some(if negative then -(DigitsValue(body) as int) else DigitsValue(body))
    else None
  }

  /** `int(str(n)) == n`: every integer the ledger writes is read back unchanged. */
  lemma ParseIntToString(n: int)
    ensures ParseInt(IntToString(n)) == Some(n)
  {
    var negative := n < 0;
    var m: nat := if negative then -n else n;
    var digits := NatDigits(m);
    assert IntToString(n) == (if negative then "-" else "") + digits;
    SignedSplits(negative, digits);
    NatDigitsValue(m);
  }

  /**
   * `int()` and `float()` skip only C's whitespace, so an information
   * separator before the digits makes the text unreadable as a number.
   */
  lemma SeparatorSpoilsNumber()
    ensures ParseInt("\U{1C}90") == None
    ensures ParseCents("\U{1F}20") == None
  {
    assert StripBlanks("\U{1C}90", NumberBlanks) == "\U{1C}90";
    assert StripBlanks("\U{1F}20", NumberBlanks) == "\U{1F}20";
    assert IndexOf("\U{1F}20", '.') == None;
  }

  /** `round(n / d)` to the nearest integer, halves rounded up. */
  function RoundDiv(n: int, d: int): (q: int)
    requires d > 0
    ensures -d < 2 * (q * d - n) <= d
  {
    var q := (2 * n + d) / (2 * d);
    assert q * (2 * d) <= 2 * n + d < (q + 1) * (2 * d);
    q
  }

  /** Rounding a whole multiple changes nothing. */
  lemma RoundDivExact(k: int, d: int)
    requires d > 0
    ensures RoundDiv(k * d, d) == k
  {
    var q := RoundDiv(k * d, d);
    assert 2 * (q * d - k * d) == 2 * (q - k) * d;
  }

  /** The index of the first `c` in `s`, if any. */
  function IndexOf(s: string, c: char): (r: Option<nat>)
    ensures r.Some? ==> r.value < |s| && s[r.value] == c && c !in s[..r.value]
    ensures r.None? ==> c !in s
  {
    if s == [] then None
    else if s[0] == c then Some(0)
    else match IndexOf(s[1..], c)
      case None => None
      case Some(k) => assert s[..k + 1] == [s[0]] + s[1..][..k]; Some(k + 1)
  }

  /**
   * The digits before and after the decimal point of `digits[.digits]`,
   * with at least one digit in all, as `float(...)` accepts them.
   */
  function SplitDecimal(body: string): (r: Option<(string, string)>)
    ensures r.Some? ==> AllDigits(r.value.0) && AllDigits(r.value.1)
  {
    match IndexOf(body, '.')
    case None => if body != [] && AllDigits(body) then Some((body, "")) else None
    case Some(k) =>
      var whole, frac := body[..k], body[k + 1..];
      if AllDigits(whole) && AllDigits(frac) && |whole| + |frac| > 0 then Some((whole, frac)) else None
  }

  /**
   * Python's `float(s)` for an amount of money, in cents: surrounding
   * C whitespace, an optional sign and a decimal numeral; digits beyond the
   * cent are rounded to the nearest cent.
   */
  function ParseCents(s: string): (r: Option<int>)
  {
    var (negative, body) := SplitSign(StripBlanks(s, NumberBlanks));
    match SplitDecimal(body)
    case None => None
    case Some((whole, frac)) =>
      var cents := RoundDiv(DigitsValue(whole + frac) * 100, Pow10(|frac|));
      Some(if negative then -cents else cents)
  }

  /** The digits after the point in `str(float)` of an amount: trailing zeros dropped, at least one digit. */
  function CentDigits(f: nat): (s: string)
    requires f < 100
    ensures 1 <= |s| <= 2 && AllDigits(s)
  {
    if f == 0 then "0"
    else if f % 10 == 0 then [DigitChar(f / 10)]
    else [DigitChar(f / 10), DigitChar(f % 10)]
  }

  /** Python's `str(x)` of an amount `x` of whole cents: `30.0`, `12.5`, `33.33`. */
  function FormatCents(c: int): (s: string)
  {
    var a := if c < 0 then -c else c;
    (if c < 0 then "-" else "") + NatDigits(a / 100) + "." + CentDigits(a % 100)
  }

  /** The digits after the point, read back, give the cents again. */
  lemma CentDigitsValue(f: nat)
    requires f < 100
    ensures |CentDigits(f)| == 1 ==> DigitsValue(CentDigits(f)) * 10 == f
    ensures |CentDigits(f)| == 2 ==> DigitsValue(CentDigits(f)) == f
  {
    var s := CentDigits(f);
    if |s| == 2 {
      assert s[..1][..0] == [];
      assert DigitsValue(s[..1]) == f / 10;
      assert DigitsValue(s) == (f / 10) * 10 + f % 10;
    } else {
      assert s[..0] == [];
      assert DigitsValue(s) == f / 10;
    }
  }

  /** The first point in digits-point-rest is the one after the digits. */
  lemma IndexOfPoint(whole: string, rest: string)
    requires AllDigits(whole)
    ensures IndexOf(whole + "." + rest, '.') == Some(|whole|)
  {
    var s := whole + "." + rest;
    assert s[..|whole|] == whole;
    assert s[|whole|] == '.';
  }

  /** The decimal numeral digits-point-digits splits at its point. */
  lemma SplitDecimalOf(whole: string, frac: string)
    requires AllDigits(whole) && AllDigits(frac) && whole != []
    ensures SplitDecimal(whole + "." + frac) == Some((whole, frac))
  {
    var body := whole + "." + frac;
    IndexOfPoint(whole, frac);
    assert body[..|whole|] == whole;
    assert body[|whole| + 1..] == frac;
  }

  /** `str(x)` of an amount reads back as its sign and its digits. */
  lemma FormatCentsSign(c: int)
    ensures var a := if c < 0 then -c else c;
      SplitSign(StripBlanks(FormatCents(c), NumberBlanks)) == (c < 0, NatDigits(a / 100) + "." + CentDigits(a % 100))
  {
    var a := if c < 0 then -c else c;
    SignedDecimalSplits(c < 0, NatDigits(a / 100), CentDigits(a % 100));
  }


  /** A signed text whose body starts and ends with a digit strips to itself and splits into its sign and body. */
  lemma SignedSplits(negative: bool, body: string)
    requires body != [] && IsDigit(body[0]) && IsDigit(body[|body| - 1])
    ensures SplitSign(StripBlanks((if negative then "-" else "") + body, NumberBlanks)) == (negative, body)
  {
    var s := (if negative then "-" else "") + body;
    assert s[|s| - 1] == body[|body| - 1];
    assert s[0] == (if negative then '-' else body[0]);
    StripKeeps(s, NumberBlanks);
    if negative {
      assert s[1..] == body;
    }
  }

  /** One more digit shifts the value by one place and adds the digit. */
  lemma DigitsValueAppendDigit(a: string, c: char)
    requires AllDigits(a) && IsDigit(c)
    ensures AllDigits(a + [c])
    ensures DigitsValue(a + [c]) == DigitsValue(a) * 10 + DigitValue(c)
  {
    assert (a + [c])[..|a|] == a;
  }

  /** One more digit, as a string, shifts the value by one place and adds the digit's value. */
  lemma DigitsValueAppendOne(a: string, b: string)
    requires AllDigits(a) && AllDigits(b) && |b| == 1
    ensures AllDigits(a + b)
    ensures DigitsValue(a + b) == DigitsValue(a) * 10 + DigitsValue(b)
  {
    assert b == [b[0]] && [] + b == b;
    DigitsValueAppendDigit(a, b[0]);
    DigitsValueAppendDigit([], b[0]);
  }

  /** Two more digits shift the value by two places and add the value they spell. */
  lemma DigitsValueAppendTwo(a: string, b: string)
    requires AllDigits(a) && AllDigits(b) && |b| == 2
    ensures AllDigits(a + b)
    ensures DigitsValue(a + b) == DigitsValue(a) * 100 + DigitsValue(b)
  {
    var c0, c1 := b[0], b[1];
    var x, d0, d1 := DigitsValue(a), DigitValue(c0), DigitValue(c1);
    DigitsValueAppendDigit(a, c0);
    DigitsValueAppendDigit(a + [c0], c1);
    assert (a + [c0]) + [c1] == a + b;
    DigitsValueAppendDigit([], c0);
    assert [] + [c0] == [c0];
    DigitsValueAppendDigit([c0], c1);
    assert [c0] + [c1] == b;
    assert (x * 10 + d0) * 10 + d1 == x * 100 + (d0 * 10 + d1);
  }

  /** Reading digits followed by one or two more digits shifts the first by the extra length. */
  lemma DigitsValueAppendShort(a: string, b: string)
    requires AllDigits(a) && AllDigits(b) && 1 <= |b| <= 2
    ensures AllDigits(a + b)
    ensures DigitsValue(a + b) == DigitsValue(a) * Pow10(|b|) + DigitsValue(b)
  {
    if |b| == 1 {
      DigitsValueAppendOne(a, b);
      assert Pow10(1) == 10;
    } else {
      DigitsValueAppendTwo(a, b);
      assert Pow10(2) == 100;
    }
  }

  /** The cents rebuilt from a whole part and one or two cent digits. */
  lemma CentsFromDigits(a: nat, n: nat, f: nat, len: nat)
    requires (len == 1 && f * 10 == a % 100) || (len == 2 && f == a % 100)
    requires n == (a / 100) * Pow10(len) + f
    ensures RoundDiv(n * 100, Pow10(len)) == a
  {
    var k := Pow10(len);
    if len == 1 {
      assert k == 10;
    } else {
      assert k == 100;
    }
    assert n * 100 == a * k;
    RoundDivExact(a, k);
  }

  /** The digits `whole` and `frac` of an amount, read together and scaled to cents, give the amount back. */
  lemma DecimalDigitsValue(a: nat, whole: string, frac: string)
    requires AllDigits(whole) && AllDigits(frac) && 1 <= |frac| <= 2
    requires DigitsValue(whole) == a / 100
    requires (|frac| == 1 && DigitsValue(frac) * 10 == a % 100) || (|frac| == 2 && DigitsValue(frac) == a % 100)
    ensures AllDigits(whole + frac)
    ensures RoundDiv(DigitsValue(whole + frac) * 100, Pow10(|frac|)) == a
  {
    DigitsValueAppendShort(whole, frac);
    CentsFromDigits(a, DigitsValue(whole + frac), DigitsValue(frac), |frac|);
  }

  /** A signed `whole.frac` numeral strips to itself and splits into its sign and `whole.frac`. */
  lemma SignedDecimalSplits(negative: bool, whole: string, frac: string)
    requires AllDigits(whole) && AllDigits(frac) && whole != [] && frac != []
    ensures SplitSign(StripBlanks((if negative then "-" else "") + whole + "." + frac, NumberBlanks)) == (negative, whole + "." + frac)
  {
    var body := whole + "." + frac;
    assert (if negative then "-" else "") + whole + "." + frac == (if negative then "-" else "") + body;
    assert body[0] == whole[0] && body[|body| - 1] == frac[|frac| - 1];
    SignedSplits(negative, body);
  }

  /** A signed `whole.frac` numeral reads back as the amount its digits spell. */
  lemma DecimalReadsBack(negative: bool, a: int, whole: string, frac: string)
    requires AllDigits(whole) && AllDigits(frac) && AllDigits(whole + frac) && whole != [] && frac != []
    requires RoundDiv(DigitsValue(whole + frac) * 100, Pow10(|frac|)) == a
    ensures ParseCents((if negative then "-" else "") + whole + "." + frac) == Some(if negative then -a else a)
  {
    SignedDecimalSplits(negative, whole, frac);
    SplitDecimalOf(whole, frac);
    ParseCentsOf((if negative then "-" else "") + whole + "." + frac, negative, whole, frac);
  }




  /** What `ParseCents` makes of a text whose sign and decimal parts are known. */
  lemma ParseCentsOf(t: string, negative: bool, whole: string, frac: string)
    requires SplitSign(StripBlanks(t, NumberBlanks)) == (negative, whole + "." + frac)
    requires SplitDecimal(whole + "." + frac) == Some((whole, frac))
    ensures var cents := RoundDiv(DigitsValue(whole + frac) * 100, Pow10(|frac|));
      ParseCents(t) == Some(if negative then -cents else cents)
  {
  }

  /** `float(str(x)) == x` for every amount in whole cents. */
  lemma ParseFormatCents(c: int)
    ensures ParseCents(FormatCents(c)) == Some(c)
  {
    var a := if c < 0 then -c else c;
    NatDigitsValue(a / 100);
    CentDigitsValue(a % 100);
    DecimalDigitsValue(a, NatDigits(a / 100), CentDigits(a % 100));
    DecimalReadsBack(c < 0, a, NatDigits(a / 100), CentDigits(a % 100));
  }

  /** Python's `f"{x:.2f}"` of a quantity `x` held in hundredths. */
  function FormatFixed2(h: int): (s: string)
    ensures |s| >= 4 && s[|s| - 3] == '.'
  {
    var a := if h < 0 then -h else h;
    (if h < 0 then "-" else "") + NatDigits(a / 100) + "." + ZeroPad(a % 100, 2)
  }

  /** `f"{x:.2f}"` reads back as its sign and its digits. */
  lemma FormatFixed2Sign(h: int)
    ensures var a := if h < 0 then -h else h;
      SplitSign(StripBlanks(FormatFixed2(h), NumberBlanks)) == (h < 0, NatDigits(a / 100) + "." + ZeroPad(a % 100, 2))
  {
    var a := if h < 0 then -h else h;
    SignedDecimalSplits(h < 0, NatDigits(a / 100), ZeroPad(a % 100, 2));
  }


  /** `float(f"{x:.2f}") == x` for every quantity in hundredths: the two decimals lose nothing. */
  lemma ParseFormatFixed2(h: int)
    ensures ParseCents(FormatFixed2(h)) == Some(h)
  {
    var a := if h < 0 then -h else h;
    NatDigitsValue(a / 100);
    ZeroPadValue(a % 100, 2);
    DecimalDigitsValue(a, NatDigits(a / 100), ZeroPad(a % 100, 2));
    DecimalReadsBack(h < 0, a, NatDigits(a / 100), ZeroPad(a % 100, 2));
  }
}
