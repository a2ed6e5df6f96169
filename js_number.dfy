/**
  JavaScript's conversion of a string to a number, as `value * 1` performs
  it, for the decimal notations an alert holds. Numbers are exact reals.
*/
module JsNumber {
  import opened JsText
  import opened Wrappers

  /** A JavaScript number: a finite value, or NaN. */
  datatype Num = Finite(value: real) | NaN

  predicate IsDigit(c: char)
  {
    '0' <= c <= '9'
  }

  predicate IsDigits(s: string)
  {
    forall i :: 0 <= i < |s| ==> IsDigit(s[i])
  }

  /** The value of a string of decimal digits, most significant first. */
  function DigitsValue(s: string): (n: nat)
    requires IsDigits(s)
  {
    if s == [] then 0 else 10 * DigitsValue(s[..|s| - 1]) + (s[|s| - 1] as int - '0' as int)
  }

  function Pow10(k: nat): (p: nat)
    ensures p >= 1
  {
    if k == 0 then 1 else 10 * Pow10(k - 1)
  }

  /**
    An unsigned decimal literal: digits, optionally with a point and more
    digits, and at least one digit overall ("5", "5.", ".5", "5.25").
  */
  function UnsignedDecimal(s: string): (r: Option<real>)
    ensures r.Some? ==> r.value >= 0.0
  {
    var dot := IndexOf(s, ".");
    if dot < 0 then
      if s != [] && IsDigits(s) then Some(DigitsValue(s) as real) else None
    else
      var whole, fraction := s[..dot], s[dot + 1..];
      if (whole != [] || fraction != []) && IsDigits(whole) && IsDigits(fraction) then
        Some(DigitsValue(whole) as real + DigitsValue(fraction) as real / Pow10(|fraction|) as real)
      else None
  }

  /**
    `Number(value)` on a string: surrounding whitespace is ignored, the empty
    string is 0, an optionally signed decimal literal is its value, and
    anything else is NaN. `Number(undefined)` is NaN.
  */
  function ToNumber(value: Option<string>): (n: Num)
    ensures value.None? ==> n == NaN
  {
    match value
    case None => NaN
    case Some(text) => TrimmedToNumber(Trim(text))
  }

  /** `Number` on text without surrounding whitespace. */
  function TrimmedToNumber(s: string): (n: Num)
    ensures s == [] ==> n == Finite(0.0)
  {
    if s == [] then Finite(0.0)
    else if s[0] == '-' then Signed(UnsignedDecimal(s[1..]), true)
    else if s[0] == '+' then Signed(UnsignedDecimal(s[1..]), false)
    else Signed(UnsignedDecimal(s), false)
  }

  function Signed(magnitude: Option<real>, negative: bool): (n: Num)
    ensures magnitude.None? <==> n == NaN
  {
    match magnitude
    case None => NaN
    case Some(v) => Finite(if negative then -v else v)
  }

  function DigitChar(d: nat): (c: char)
    requires d < 10
    ensures IsDigit(c) && c as int - '0' as int == d
  {
    ('0' as int + d) as char
  }

  /** The decimal notation of a natural number, without leading zeros. */
  function Decimal(n: nat): (s: string)
    ensures s != [] && IsDigits(s)
  {
    if n < 10 then [DigitChar(n)] else Decimal(n / 10) + [DigitChar(n % 10)]
  }

  /** Reading back the decimal notation of a number gives the number. */
  lemma {:induction false} DigitsValueOfDecimal(n: nat)
    ensures DigitsValue(Decimal(n)) == n
  {
    if n >= 10 {
      var s := Decimal(n);
      assert s[..|s| - 1] == Decimal(n / 10);
      DigitsValueOfDecimal(n / 10);
    }
  }

  /** Digits contain no decimal point. */
  lemma NoPointInDigits(s: string)
    requires IsDigits(s)
    ensures IndexOf(s, ".") == -1
  {
    forall j ensures !OccursAt(s, ".", j) {
      if 0 <= j < |s| {
        assert s[j..j + 1] == [s[j]];
        assert IsDigit(s[j]);
      }
    }
  }

  /** A visible ASCII character, such as a digit or a sign, is not whitespace. */
  lemma VisibleIsNotWhitespace(c: char)
    requires '!' <= c <= '~'
    ensures c !in Whitespace
  {
  }

  /** A string of digits is an unsigned decimal literal with the digits' value. */
  lemma UnsignedDecimalOfDigits(s: string)
    requires s != [] && IsDigits(s)
    ensures UnsignedDecimal(s) == Some(DigitsValue(s) as real)
  {
    NoPointInDigits(s);
  }

  /** `Number` reads a string of digits, with or without a minus sign, as their value. */
  lemma ToNumberOfDigits(s: string)
    requires s != [] && IsDigits(s)
    ensures ToNumber(Some(s)) == Finite(DigitsValue(s) as real)
    ensures ToNumber(Some("-" + s)) == Finite(-(DigitsValue(s) as real))
  {
    UnsignedDecimalOfDigits(s);
    VisibleIsNotWhitespace(s[0]);
    VisibleIsNotWhitespace(s[|s| - 1]);
    TrimUnchanged(s);
    assert s[0] != '-' && s[0] != '+';
    var t := "-" + s;
    assert t[1..] == s && t[|t| - 1] == s[|s| - 1];
    assert t[0] == '-';
    VisibleIsNotWhitespace(t[0]);
    TrimUnchanged(t);
    assert TrimmedToNumber(t) == Signed(UnsignedDecimal(s), true);
  }

  /** `Number` reads the decimal notation of a natural number, with or without a minus sign, as that number. */
  lemma ToNumberOfDecimal(n: nat)
    ensures ToNumber(Some(Decimal(n))) == Finite(n as real)
    ensures ToNumber(Some("-" + Decimal(n))) == Finite(-(n as real))
  {
    DigitsValueOfDecimal(n);
    ToNumberOfDigits(Decimal(n));
  }
}
