/** Decimal text and numbers: Python 2's `str(i)`, `int(s)` and the part of
    `float(s)` that plain decimal tokens use. */
module Numerals {
  import opened Wrappers
  import opened PyText

  predicate IsDigit(c: char) {
    '0' <= c <= '9'
  }

  predicate AllDigits(s: string) {
    forall i :: 0 <= i < |s| ==> IsDigit(s[i])
  }

  function DigitValue(c: char): (d: nat)
    requires IsDigit(c)
    ensures d < 10
  {
    c as int - '0' as int
  }

  function DigitChar(d: nat): (c: char)
    requires d < 10
    ensures IsDigit(c) && DigitValue(c) == d
  {
    ('0' as int + d) as char
  }

  /** The value of a string of decimal digits, most significant first. */
  function DigitsValue(s: string): nat
    requires AllDigits(s)
  {
    if |s| == 0 then 0 else 10 * DigitsValue(s[..|s| - 1]) + DigitValue(s[|s| - 1])
  }

  function Pow10(n: nat): (p: nat)
    ensures p >= 1
  {
    if n == 0 then 1 else 10 * Pow10(n - 1)
  }

  /** `str(n)` for n >= 0: the decimal digits of n with no leading zero. */
  function NatToString(n: nat): (s: string)
    ensures s != "" && AllDigits(s)
    ensures DigitsValue(s) == n
    ensures s[0] == '0' ==> s == "0"
  {
    if n < 10 then [DigitChar(n)]
    else
      var s := NatToString(n / 10) + [DigitChar(n % 10)];
      assert s[..|s| - 1] == NatToString(n / 10);
      s
  }

  /** `str(i)` for any integer: a minus sign in front of the digits of a negative number. */
  function IntToString(i: int): (s: string)
    ensures s != "" && NoSpace(s)
    ensures i >= 0 <==> AllDigits(s)
  {
    if i >= 0 then NatToString(i)
    else
      var s := "-" + NatToString(-i);
      assert !IsDigit(s[0]);
      assert forall k :: 1 <= k < |s| ==> s[k] == NatToString(-i)[k - 1];
      s
  }

  /** `int(s)` of Python 2: white space around the text is ignored, an optional
      sign may be followed by more white space, and at least one decimal digit
      must follow; anything else raises, which is `None` here. */
  function ParseInt(s: string): (r: Option<int>)
    ensures r.Some? && '-' !in s ==> r.value >= 0
  {
    var t := Strip(s);
    if t != "" && (t[0] == '+' || t[0] == '-') then
      var ds := TrimStart(t[1..]);
      if ds != "" && AllDigits(ds) then
        assert t[0] == '-' ==> '-' in s by {
          assert t == s[|s| - |TrimStart(s)|..][..|t|];
        }
        Some(if t[0] == '-' then -(DigitsValue(ds) as int) else DigitsValue(ds))
      else None
    else if t != "" && AllDigits(t) then Some(DigitsValue(t))
    else None
  }

  /** The position of the first '.' in a text that has one. */
  function PointAt(s: string): (k: nat)
    requires '.' in s
    ensures k < |s| && s[k] == '.' && '.' !in s[..k]
  {
    if s[0] == '.' then 0
    else
      assert '.' in s[1..] by {
        var j :| 0 <= j < |s| && s[j] == '.';
        assert s[1..][j - 1] == '.';
      }
      var k := 1 + PointAt(s[1..]);
      assert s[..k] == [s[0]] + s[1..][..k - 1];
      k
  }

  /** An unsigned decimal: digits, or digits, a point and digits, with at
      least one digit in all. */
  function UnsignedDecimal(body: string): Option<real> {
    if '.' in body then
      var k := PointAt(body);
      var whole, fraction := body[..k], body[k + 1..];
      if whole + fraction == "" || !AllDigits(whole) || !AllDigits(fraction) then None
      else Some((DigitsValue(whole) as real) + (DigitsValue(fraction) as real) / (Pow10(|fraction|) as real))
    else if body != "" && AllDigits(body) then Some(DigitsValue(body) as real)
    else None
  }

  /** The part of Python's `float(s)` that decimal tokens use: optional
      surrounding white space, an optional sign, digits with at most one
      decimal point and at least one digit. The value is exact. */
  function ParseDecimal(s: string): Option<real> {
    var t := Strip(s);
    if t != "" && t[0] == '-' then
      match UnsignedDecimal(t[1..])
      case Some(v) => Some(-v)
      case None => None
    else if t != "" && t[0] == '+' then UnsignedDecimal(t[1..])
    else UnsignedDecimal(t)
  }

  /** The text `str` gives for an integer reads back as that integer, also
      with white space around it. */
  lemma ParseIntOfString(pre: string, i: int, post: string)
    requires AllSpace(pre) && AllSpace(post)
    ensures ParseInt(pre + IntToString(i) + post) == Some(i)
  {
    StripAround(pre, IntToString(i), post);
    ParseIntOfStripped(pre + IntToString(i) + post, i);
  }

  lemma ParseIntOfStripped(s: string, i: int)
    requires Strip(s) == IntToString(i)
    ensures ParseInt(s) == Some(i)
  {
    if i < 0 {
      var ds := NatToString(-i);
      assert IntToString(i) == "-" + ds;
      ParseIntOfNegative(s, ds);
    }
  }

  /** A stripped text of a minus sign and digits reads as their negation. */
  lemma ParseIntOfNegative(s: string, ds: string)
    requires ds != "" && AllDigits(ds) && Strip(s) == "-" + ds
    ensures ParseInt(s) == Some(-(DigitsValue(ds) as int))
  {
    assert Strip(s)[1..] == ds;
    TrimStartSkips("", ds);
    assert "" + ds == ds;
  }

  /** Two integers with the same decimal text are equal. */
  lemma IntToStringInjective(i: int, j: int)
    requires IntToString(i) == IntToString(j)
    ensures i == j
  {
    ParseIntOfString("", i, "");
    ParseIntOfString("", j, "");
    assert "" + IntToString(i) + "" == IntToString(i);
    assert "" + IntToString(j) + "" == IntToString(j);
  }

  /** A single character that is not white space reads as a number exactly
      when it is a digit, and then as that digit. */
  lemma ParseIntOfChar(c: char)
    requires !IsSpace(c)
    ensures ParseInt([c]) == if IsDigit(c) then Some(DigitValue(c) as int) else None
  {
    StripTight([c]);
    if c == '+' || c == '-' {
      assert [c][1..] == "";
    }
    if IsDigit(c) {
      assert [c][..0] == "";
      assert DigitsValue([c]) == DigitValue(c);
    }
  }

  /** A text without white space at either end is its own stripped form. */
  lemma StripTight(t: string)
    requires t != "" && !IsSpace(t[0]) && !IsSpace(t[|t| - 1])
    ensures Strip(t) == t
  {
    StripAround("", t, "");
    assert "" + t + "" == t;
  }

  /** Digits alone read as their value, with no point to split at. */
  lemma UnsignedOfDigits(ds: string)
    requires ds != "" && AllDigits(ds)
    ensures UnsignedDecimal(ds) == Some(DigitsValue(ds) as real)
  {
    assert '.' !in ds by {
      assert forall k :: 0 <= k < |ds| ==> ds[k] != '.';
    }
  }

  /** A text that is already stripped and carries no sign is read as an
      unsigned decimal. */
  lemma UnsignedText(t: string, v: real)
    requires t != "" && t[0] != '-' && t[0] != '+'
    requires Strip(t) == t
    requires UnsignedDecimal(t) == Some(v)
    ensures ParseDecimal(t) == Some(v)
  {
  }

  /** A stripped text opening with a minus sign reads as the negation of
      what follows the sign. */
  lemma NegativeText(s: string, body: string, v: real)
    requires Strip(s) == "-" + body
    requires UnsignedDecimal(body) == Some(v)
    ensures ParseDecimal(s) == Some(-v)
  {
    var t := Strip(s);
    assert t[0] == '-' && t[1..] == body;
  }

  lemma DecimalOfDigits(ds: string)
    requires ds != "" && AllDigits(ds)
    ensures ParseDecimal(ds) == Some(DigitsValue(ds) as real)
  {
    assert IsDigit(ds[0]) && IsDigit(ds[|ds| - 1]);
    StripTight(ds);
    UnsignedOfDigits(ds);
    UnsignedText(ds, DigitsValue(ds) as real);
  }

  lemma DecimalOfNegativeDigits(ds: string)
    requires ds != "" && AllDigits(ds)
    ensures ParseDecimal("-" + ds) == Some(-(DigitsValue(ds) as real))
  {
    var ms := "-" + ds;
    assert ms[|ms| - 1] == ds[|ds| - 1] && IsDigit(ds[|ds| - 1]);
    StripTight(ms);
    UnsignedOfDigits(ds);
    NegativeText(ms, ds, DigitsValue(ds) as real);
  }

  /** Integer text also reads as the same number when a decimal is expected. */
  lemma ParseDecimalOfString(i: int)
    ensures ParseDecimal(IntToString(i)) == Some(i as real)
  {
    if i < 0 {
      DecimalOfNegativeDigits(NatToString(-i));
    } else {
      DecimalOfDigits(NatToString(i));
    }
  }
}
