/**
 * Decimal text as JavaScript produces and reads it: `String(bigint)`,
 * `String.prototype.substr` and `Number(string)`.  These are the primitives
 * the scaled-decimal decoder goes through for negative exponents.
 */
module Decimal {

  /** A JavaScript Number, as far as this model needs one: a finite value or NaN. */
  datatype JsNumber = Num(val: real) | NaN

  function Pow10(n: nat): (r: nat)
    ensures r >= 1
  {
    if n == 0 then 1 else 10 * Pow10(n - 1)
  }

  predicate IsDigit(c: char) {
    '0' <= c <= '9'
  }

  predicate AllDigits(s: string) {
    forall i :: 0 <= i < |s| ==> IsDigit(s[i])
  }

  /** The characters that `String(bigint)` and a decimal point can produce. */
  predicate NumericText(s: string) {
    forall i :: 0 <= i < |s| ==> IsDigit(s[i]) || s[i] == '-' || s[i] == '.'
  }

  function DigitChar(d: nat): (c: char)
    requires d < 10
    ensures IsDigit(c) && c as int - '0' as int == d
  {
    ('0' as int + d) as char
  }

  /** The value of a string of decimal digits, most significant first. */
  function DigitsValue(s: string): nat
    requires AllDigits(s)
  {
    if s == [] then 0 else DigitsValue(s[..|s| - 1]) * 10 + (s[|s| - 1] as int - '0' as int)
  }

  /** The shortest decimal digit string of `n`. */
  function Digits(n: nat): (s: string)
    ensures |s| >= 1 && AllDigits(s)
    ensures DigitsValue(s) == n
    decreases n
  {
    if n < 10 then [DigitChar(n)]
    else
      var s := Digits(n / 10) + [DigitChar(n % 10)];
      assert s[..|s| - 1] == Digits(n / 10);
      s
  }

  /** `String(n)` for a BigInt `n`. */
  function DecimalString(n: int): (s: string)
    ensures NumericText(s) && |s| >= 1
    ensures n >= 0 ==> s == Digits(n)
    ensures n < 0 ==> s == "-" + Digits(-n)
  {
    if n < 0 then "-" + Digits(-n) else Digits(n)
  }

  function Clamp(x: int, lo: int, hi: int): (r: int)
    requires lo <= hi
    ensures lo <= r <= hi
  {
    if x < lo then lo else if x > hi then hi else x
  }

  /** The start index `String.prototype.substr` derives from its first argument. */
  function SubstrStart(s: string, start: int): (from: nat)
    ensures from <= |s|
  {
    if start < 0 then Clamp(|s| + start, 0, |s|) else Clamp(start, 0, |s|)
  }

  /** `s.substr(start, length)`. */
  function Substr(s: string, start: int, length: int): (r: string)
    ensures |r| <= |s|
  {
    var from := SubstrStart(s, start);
    s[from..from + Clamp(length, 0, |s| - from)]
  }

  /** `s.substr(start)`: from `start` to the end. */
  function SubstrFrom(s: string, start: int): (r: string)
    ensures |r| <= |s|
  {
    s[SubstrStart(s, start)..]
  }

  /** The index of the first '.' in `s`, or `|s|` when there is none. */
  function IndexOfDot(s: string): (k: nat)
    ensures k <= |s|
    ensures k < |s| ==> s[k] == '.'
    ensures forall i :: 0 <= i < k ==> s[i] != '.'
  {
    if s == [] then 0 else if s[0] == '.' then 0 else 1 + IndexOfDot(s[1..])
  }

  /** JavaScript's unsigned decimal literal: digits, optionally a '.', and digits, with at least one digit. */
  function ParseUnsigned(s: string): JsNumber {
    var k := IndexOfDot(s);
    if k == |s| then
      if s != [] && AllDigits(s) then Num(DigitsValue(s) as real) else NaN
    else
      var whole, fraction := s[..k], s[k + 1..];
      if AllDigits(whole) && AllDigits(fraction) && |whole| + |fraction| > 0 then
        Num(DigitsValue(whole) as real + DigitsValue(fraction) as real / Pow10(|fraction|) as real)
      else NaN
  }

  function Negate(x: JsNumber): JsNumber {
    match x
    case Num(v) => Num(-v)
    case NaN => NaN
  }

  /**
   * `Number(s)` for a string made of digits, '-' and '.': the empty string is 0,
   * a leading '-' negates, anything that is not a decimal literal is NaN.
   */
  function ParseNumber(s: string): JsNumber
    requires NumericText(s)
  {
    if s == [] then Num(0.0)
    else if s[0] == '-' then Negate(ParseUnsigned(s[1..]))
    else ParseUnsigned(s)
  }

  /** Cutting a digit string at `k` splits its value into a high and a low part. */
  lemma {:induction false} DigitsValueSplit(s: string, k: nat)
    requires AllDigits(s) && k <= |s|
    ensures AllDigits(s[..k]) && AllDigits(s[k..])
    ensures DigitsValue(s) == DigitsValue(s[..k]) * Pow10(|s| - k) + DigitsValue(s[k..])
    decreases |s|
  {
    if k == |s| {
      assert s[..k] == s;
      assert s[k..] == [];
    } else {
      var n := |s|;
      var init := s[..n - 1];
      var d := s[n - 1] as int - '0' as int;
      DigitsValueSplit(init, k);
      assert init[..k] == s[..k];
      assert init[k..] == s[k..n - 1];
      assert s[k..][..|s[k..]| - 1] == s[k..n - 1];
      ShiftDigit(DigitsValue(s[..k]), Pow10(n - 1 - k), DigitsValue(s[k..n - 1]), d);
    }
  }

  lemma ShiftDigit(hi: nat, p: nat, lo: nat, d: int)
    ensures (hi * p + lo) * 10 + d == hi * (10 * p) + (lo * 10 + d)
  {
  }

  /** The first '.' of a string is where `IndexOfDot` finds it. */
  lemma {:induction false} IndexOfDotAt(t: string, k: nat)
    requires k < |t| && t[k] == '.'
    requires forall i :: 0 <= i < k ==> t[i] != '.'
    ensures IndexOfDot(t) == k
    decreases k
  {
    if k > 0 {
      IndexOfDotAt(t[1..], k - 1);
    }
  }

  lemma FractionValue(hi: real, lo: real, p: real)
    requires p > 0.0
    ensures hi + lo / p == (hi * p + lo) / p
  {
  }

  /** A string with its first '.' at `k` and digits on both sides reads as whole part plus fraction. */
  lemma ParseDotted(t: string, k: nat)
    requires k < |t| && IndexOfDot(t) == k && |t| > 1
    requires AllDigits(t[..k]) && AllDigits(t[k + 1..])
    ensures ParseUnsigned(t)
         == Num(DigitsValue(t[..k]) as real + DigitsValue(t[k + 1..]) as real / Pow10(|t| - k - 1) as real)
  {
  }

  /** The text `s[..dot] + "." + s[dot..]` and where its parts are. */
  lemma DottedText(s: string, dot: nat)
    requires AllDigits(s) && dot < |s|
    ensures var t := s[..dot] + "." + s[dot..];
      && NumericText(t) && t[0] != '-' && IndexOfDot(t) == dot
      && t[..dot] == s[..dot] && t[dot + 1..] == s[dot..]
  {
    var whole, fraction := s[..dot], s[dot..];
    var t := whole + "." + fraction;
    assert t[dot] == '.';
    assert forall i :: 0 <= i < dot ==> t[i] == whole[i] && IsDigit(t[i]);
    IndexOfDotAt(t, dot);
    assert t[..dot] == whole;
    assert t[dot + 1..] == fraction;
    assert NumericText(t) by {
      forall i | 0 <= i < |t|
        ensures IsDigit(t[i]) || t[i] == '-' || t[i] == '.'
      {
        if i > dot { assert t[i] == fraction[i - dot - 1]; }
      }
    }
    assert t[0] != '-' by {
      if dot > 0 { assert t[0] == whole[0]; }
    }
  }

  lemma Combine(v: nat, hi: nat, lo: nat, p: nat)
    requires v == hi * p + lo && p >= 1
    ensures hi as real + lo as real / p as real == v as real / p as real
  {
    CastValue(v, hi, p, lo);
    FractionValue(hi as real, lo as real, p as real);
  }

  /**
   * Inserting a '.' `dot` characters from the left of a digit string and reading
   * the result back divides its value by ten to the number of digits after the dot.
   */
  lemma DotInsertion(s: string, dot: nat)
    requires AllDigits(s) && dot < |s|
    ensures NumericText(s[..dot] + "." + s[dot..])
    ensures ParseNumber(s[..dot] + "." + s[dot..])
         == Num(DigitsValue(s) as real / Pow10(|s| - dot) as real)
  {
    var t := s[..dot] + "." + s[dot..];
    DigitsValueSplit(s, dot);
    DottedText(s, dot);
    ParseDotted(t, dot);
    Combine(DigitsValue(s), DigitsValue(s[..dot]), DigitsValue(s[dot..]), Pow10(|s| - dot));
  }

  /** The same read without a sign, as it is after a leading '-'. */
  lemma UnsignedDotInsertion(s: string, dot: nat)
    requires AllDigits(s) && dot < |s|
    ensures ParseUnsigned(s[..dot] + "." + s[dot..])
         == Num(DigitsValue(s) as real / Pow10(|s| - dot) as real)
  {
    var t := s[..dot] + "." + s[dot..];
    DotInsertion(s, dot);
    assert t[0] != '-' by {
      assert t[0] == if dot == 0 then '.' else s[0];
    }
  }

  lemma CastValue(v: nat, hi: nat, p: nat, lo: nat)
    requires v == hi * p + lo
    ensures v as real == hi as real * p as real + lo as real
  {
  }
}
