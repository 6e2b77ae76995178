/**
 The decimal subject sequence of the C library's `strtod` (ISO C11 section
 7.22.1.3): an optional sign, a non-empty run of decimal digits optionally
 containing one decimal point, and an optional exponent `e`/`E` that is taken
 only when at least one digit follows it (after its own optional sign).
 Values are exact reals; the conversion to a binary double is not modelled.
 */
module Strtod {

  predicate IsDigit(c: char) { '0' <= c <= '9' }

  predicate IsSign(c: char) { c == '+' || c == '-' }

  function DigitValue(c: char): (d: int)
    ensures IsDigit(c) ==> 0 <= d < 10
  {
    c as int - '0' as int
  }

  /** All of `s[a..b]` are decimal digits. */
  predicate DigitsBetween(s: seq<char>, a: nat, b: nat)
    requires a <= b <= |s|
  {
    forall i :: a <= i < b ==> IsDigit(s[i])
  }

  /** The number of consecutive decimal digits of `s` starting at `p`. */
  function DigitRun(s: seq<char>, p: nat): (n: nat)
    requires p <= |s|
    ensures p + n <= |s|
    ensures p + n == |s| || !IsDigit(s[p + n])
    decreases |s| - p
  {
    if p < |s| && IsDigit(s[p]) then 1 + DigitRun(s, p + 1) else 0
  }

  /** The value of the digits `s[a..b]`, most significant first. */
  function DigitsValue(s: seq<char>, a: nat, b: nat): int
    requires a <= b <= |s|
    decreases b - a
  {
    if a == b then 0 else 10 * DigitsValue(s, a, b - 1) + DigitValue(s[b - 1])
  }

  /** Ten to the power `n`. */
  function Pow10(n: nat): (r: real)
    ensures r >= 1.0
  {
    if n == 0 then 1.0 else 10.0 * Pow10(n - 1)
  }

  /** `x` scaled by ten to the power `e`, for an exponent of either sign, one factor
      of ten at a time. */
  function Scale(x: real, e: int): real
    decreases if e >= 0 then e else -e
  {
    if e == 0 then x else if e > 0 then 10.0 * Scale(x, e - 1) else Scale(x, e + 1) / 10.0
  }

  /** Scaling by a non-negative exponent multiplies by that power of ten. */
  lemma {:induction false} ScaleUp(x: real, e: nat)
    ensures Scale(x, e) == x * Pow10(e)
  {
    if e > 0 {
      ScaleUp(x, e - 1);
      var y := Pow10(e - 1);
      assert Scale(x, e) == 10.0 * (x * y);
      assert 10.0 * (x * y) == x * (10.0 * y);
    }
  }

  /** Scaling by a negative exponent divides by the matching power of ten. */
  lemma {:induction false} ScaleDown(x: real, e: nat)
    ensures Scale(x, -(e as int)) * Pow10(e) == x
  {
    if e > 0 {
      ScaleDown(x, e - 1);
      var z := Scale(x, 1 - e as int);
      var y := Pow10(e - 1);
      assert Scale(x, -(e as int)) == z / 10.0;
      assert (z / 10.0) * (10.0 * y) == z * y;
    }
  }

  /** An exponent part found at some position: how many characters it spans and its value. */
  datatype Exponent = Exponent(length: nat, power: int)

  /** The exponent part starting at `p`, or a zero-length one when the text there
      is not `e`/`E`, an optional sign and at least one digit. */
  function ExponentAt(s: seq<char>, p: nat): (x: Exponent)
    requires p <= |s|
    ensures p + x.length <= |s|
    ensures x.length == 0 ==> x.power == 0
    ensures x.length > 0 ==> x.length >= 2 && (s[p] == 'e' || s[p] == 'E')
    ensures x.length > 0 ==> p + x.length == |s| || !IsDigit(s[p + x.length])
  {
    if p < |s| && (s[p] == 'e' || s[p] == 'E') then
      var signed := p + 1 < |s| && IsSign(s[p + 1]);
      var q := if signed then p + 2 else p + 1;
      var k := DigitRun(s, q);
      if k == 0 then Exponent(0, 0)
      else
        var magnitude: int := DigitsValue(s, q, q + k);
        Exponent(q + k - p, if signed && s[p + 1] == '-' then -magnitude else magnitude)
    else Exponent(0, 0)
  }

  /** What `strtod` reports: the converted value and where the conversion stopped. */
  datatype Conversion = Conversion(value: real, end: nat)

  /** True when a decimal subject sequence starts at `p`: after an optional sign,
      a digit, or a decimal point followed by a digit. */
  predicate HasSubject(s: seq<char>, p: nat)
    requires p <= |s|
  {
    var m := if p < |s| && IsSign(s[p]) then p + 1 else p;
    (m < |s| && IsDigit(s[m])) || (m + 1 < |s| && s[m] == '.' && IsDigit(s[m + 1]))
  }

  /** A mantissa found at some position: where it ends, how many digits it has
      (the decimal point not counted), and its value. */
  datatype Mantissa = Mantissa(end: nat, digits: nat, value: real)

  /** The mantissa starting at `m`: digits, then optionally a point and more digits. */
  function MantissaAt(s: seq<char>, m: nat): (r: Mantissa)
    requires m <= |s|
    ensures m <= r.end <= |s|
    ensures r.digits == 0 ==> r.end == m
    ensures r.digits > 0 ==> r.end > m
    ensures r.end < |s| ==> !IsDigit(s[r.end])
  {
    var i := DigitRun(s, m);
    var whole := DigitsValue(s, m, m + i) as real;
    if m + i < |s| && s[m + i] == '.' then
      var f := DigitRun(s, m + i + 1);
      if i + f == 0 then Mantissa(m, 0, 0.0)
      else Mantissa(m + i + 1 + f, i + f, whole + Scale(DigitsValue(s, m + i + 1, m + i + 1 + f) as real, -(f as int)))
    else Mantissa(m + i, i, whole)
  }

  /** `strtod(s + p, &end)` restricted to decimal input. When no conversion can be
      performed the end is `p` itself and the value is zero. */
  function Convert(s: seq<char>, p: nat): (r: Conversion)
    requires p <= |s|
    ensures p <= r.end <= |s|
    ensures r.end == p ==> r.value == 0.0
    ensures r.end < |s| ==> !IsDigit(s[r.end])
  {
    var signed := p < |s| && IsSign(s[p]);
    var m := if signed then p + 1 else p;
    var mantissa := MantissaAt(s, m);
    if mantissa.digits == 0 then Conversion(0.0, p)
    else
      var x := ExponentAt(s, mantissa.end);
      var magnitude := Scale(mantissa.value, x.power);
      Conversion(if signed && s[p] == '-' then -magnitude else magnitude, mantissa.end + x.length)
  }

  /** A conversion happens exactly when a subject sequence is present. */
  lemma ConvertsIffSubject(s: seq<char>, p: nat)
    requires p <= |s|
    ensures Convert(s, p).end > p <==> HasSubject(s, p)
  {
    var m := if p < |s| && IsSign(s[p]) then p + 1 else p;
    var i := DigitRun(s, m);
    if i == 0 && m + 1 < |s| && s[m] == '.' && IsDigit(s[m + 1]) {
      assert DigitRun(s, m + 1) > 0;
    }
  }

  /** A leading sign applies to the unsigned conversion right after it: `-` negates
      it, `+` keeps it, and without a conversion there the sign is not consumed. */
  lemma ConvertSigned(s: seq<char>, p: nat)
    requires p < |s| && IsSign(s[p]) && (p + 1 == |s| || !IsSign(s[p + 1]))
    ensures var c := Convert(s, p + 1);
      Convert(s, p) == if c.end == p + 1 then Conversion(0.0, p)
                       else Conversion(if s[p] == '-' then -c.value else c.value, c.end)
  {
    var c := Convert(s, p + 1);
    if MantissaAt(s, p + 1).digits == 0 {
      assert c.end == p + 1;
    }
  }

  /** Only one sign is accepted: a second sign right after the first converts nothing. */
  lemma ConvertTwoSigns(s: seq<char>, p: nat)
    requires p + 1 < |s| && IsSign(s[p]) && IsSign(s[p + 1])
    ensures Convert(s, p) == Conversion(0.0, p)
  {
    assert DigitRun(s, p + 1) == 0;
  }

  /** The decimal text of a natural number, without sign or leading zeros. */
  function Decimal(n: nat): (d: seq<char>)
    ensures |d| > 0 && forall i :: 0 <= i < |d| ==> IsDigit(d[i])
  {
    var last := ['0' + (n % 10) as char];
    if n < 10 then last else Decimal(n / 10) + last
  }

  /** Wherever the decimal text of `n` occurs, its digits are worth `n`. */
  lemma {:induction false} DecimalValue(s: seq<char>, p: nat, n: nat)
    requires p + |Decimal(n)| <= |s| && s[p..p + |Decimal(n)|] == Decimal(n)
    ensures DigitsBetween(s, p, p + |Decimal(n)|)
    ensures DigitsValue(s, p, p + |Decimal(n)|) == n
  {
    var d := Decimal(n);
    var k := |d|;
    assert s[p + k - 1] == s[p..p + k][k - 1] == '0' + (n % 10) as char;
    assert DigitValue(s[p + k - 1]) == n % 10;
    if n >= 10 {
      var e := Decimal(n / 10);
      assert d == e + ['0' + (n % 10) as char];
      assert s[p..p + |e|] == s[p..p + k][..|e|] == e;
      DecimalValue(s, p, n / 10);
      assert 10 * (n / 10) + n % 10 == n;
    }
  }

  /** End of a literal: the text stops, or the next character extends neither the
      digits, nor the fraction, nor an exponent. */
  predicate LiteralEnd(s: seq<char>, q: nat)
  {
    q >= |s| || (!IsDigit(s[q]) && s[q] != '.' && s[q] != 'e' && s[q] != 'E')
  }

  /** Round trip: converting the decimal text of `n`, wherever it occurs and whatever
      that does not extend it follows, gives back `n` and ends right after the text. */
  lemma ConvertDecimal(s: seq<char>, p: nat, n: nat)
    requires p + |Decimal(n)| <= |s| && s[p..p + |Decimal(n)|] == Decimal(n)
    requires LiteralEnd(s, p + |Decimal(n)|)
    ensures Convert(s, p) == Conversion(n as real, p + |Decimal(n)|)
  {
    var k := |Decimal(n)|;
    assert IsDigit(s[p]) by { assert s[p] == Decimal(n)[0]; }
    assert MantissaAt(s, p) == Mantissa(p + k, k, n as real) by {
      DecimalValue(s, p, n);
      DigitRunOver(s, p, k);
    }
    assert ExponentAt(s, p + k) == Exponent(0, 0);
    assert Scale(n as real, 0) == n as real;
  }

  /** A run of `k` digits followed by a non-digit has length `k`. */
  lemma {:induction false} DigitRunOver(s: seq<char>, p: nat, k: nat)
    requires p + k <= |s| && DigitsBetween(s, p, p + k)
    requires p + k == |s| || !IsDigit(s[p + k])
    ensures DigitRun(s, p) == k
    decreases k
  {
    if k > 0 {
      DigitRunOver(s, p + 1, k - 1);
    }
  }
}
