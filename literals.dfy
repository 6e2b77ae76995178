/**
 What `strtod` means on decimal input, stated independently of how `Strtod.Convert`
 scans it: a decimal literal is an optional sign, digits with an optional point and
 fraction, and an optional exponent, each with its own text and its own value. The
 scanner reads exactly the longest such literal and gives its value, and
 `parse_number` therefore advances exactly past it.
 */
module Literals {
  import opened Strtod
  import opened Grammar

  datatype Sign = NoSign | PlusSign | MinusSign

  /** An exponent part: its marker `e` or `E`, its sign and its digits. */
  datatype Power = NoPower | Power(marker: char, sign: Sign, digits: seq<char>)

  /** A decimal literal: sign, digits before the point, whether the point is written,
      digits after it, and the exponent part. */
  datatype Literal = Literal(sign: Sign, whole: seq<char>, point: bool, fraction: seq<char>, power: Power)

  predicate AllDigits(d: seq<char>)
  {
    forall i :: 0 <= i < |d| ==> IsDigit(d[i])
  }

  /** At least one digit in the mantissa, a fraction only after a point, and at least
      one digit in a written exponent. */
  predicate WellFormed(x: Literal)
  {
    AllDigits(x.whole) && AllDigits(x.fraction) && |x.whole| + |x.fraction| > 0
    && (!x.point ==> x.fraction == [])
    && (x.power.Power? ==>
          (x.power.marker == 'e' || x.power.marker == 'E') && |x.power.digits| > 0 && AllDigits(x.power.digits))
  }

  function SignText(g: Sign): string
  {
    match g
    case NoSign => ""
    case PlusSign => "+"
    case MinusSign => "-"
  }

  function PointText(point: bool): string
  {
    if point then "." else ""
  }

  function PowerText(e: Power): string
  {
    match e
    case NoPower => ""
    case Power(c, g, d) => [c] + SignText(g) + d
  }

  /** How a literal is written. */
  function Text(x: Literal): string
  {
    SignText(x.sign) + x.whole + PointText(x.point) + x.fraction + PowerText(x.power)
  }

  /** The value of a string of digits, most significant first. */
  function SeqValue(d: seq<char>): int
    decreases |d|
  {
    if d == [] then 0 else 10 * SeqValue(d[..|d| - 1]) + DigitValue(d[|d| - 1])
  }

  function PowerValue(e: Power): int
  {
    match e
    case NoPower => 0
    case Power(_, g, d) => if g == MinusSign then -SeqValue(d) else SeqValue(d)
  }

  /** The digits before the point plus the digits after it divided by ten to their number. */
  function Magnitude(x: Literal): real
  {
    SeqValue(x.whole) as real + SeqValue(x.fraction) as real / Pow10(|x.fraction|)
  }

  /** What a literal is worth: its magnitude times ten to its exponent, negated after a `-`. */
  function Value(x: Literal): real
  {
    var k := PowerValue(x.power);
    var v := if k >= 0 then Magnitude(x) * Pow10(k) else Magnitude(x) / Pow10(-k);
    if x.sign == MinusSign then -v else v
  }

  /** An exponent part could start at `q`: `e` or `E`, then a digit, possibly after a sign. */
  predicate ExponentFollows(s: seq<char>, q: nat)
  {
    q < |s| && (s[q] == 'e' || s[q] == 'E')
    && ((q + 1 < |s| && IsDigit(s[q + 1])) || (q + 2 < |s| && IsSign(s[q + 1]) && IsDigit(s[q + 2])))
  }

  /** The literal `x` ending at `q` cannot be continued into a longer literal: no digit
      follows, no point follows a literal without point or exponent, and no exponent
      part follows a literal without one. */
  predicate Ends(x: Literal, s: seq<char>, q: nat)
  {
    (q >= |s| || !IsDigit(s[q]))
    && (!x.point && x.power.NoPower? ==> q >= |s| || s[q] != '.')
    && (x.power.NoPower? ==> !ExponentFollows(s, q))
  }

  /** Digits written at `a` have the value of the same digits as a string. */
  lemma {:induction false} DigitsOfPrefix(s: seq<char>, a: nat, d: seq<char>)
    requires HasPrefix(s, a, d) && AllDigits(d)
    ensures DigitsBetween(s, a, a + |d|) && DigitsValue(s, a, a + |d|) == SeqValue(d)
    decreases |d|
  {
    if d != [] {
      var n := |d| - 1;
      assert d == d[..n] + [d[n]];
      PrefixSplit(s, a, d[..n], [d[n]]);
      DigitsOfPrefix(s, a, d[..n]);
      assert s[a + n] == s[a + n..a + n + 1][0] == d[n];
    }
  }

  /** Scaling by a possibly negative exponent is multiplying or dividing by a power of ten. */
  lemma ScaleValue(v: real, k: int)
    ensures Scale(v, k) == if k >= 0 then v * Pow10(k) else v / Pow10(-k)
  {
    if k >= 0 {
      ScaleUp(v, k);
    } else {
      ScaleDown(v, -k);
    }
  }

  /** Scaling down by `k` places is dividing by ten to the `k`. */
  lemma FractionScaled(u: real, k: nat)
    ensures Scale(u, -(k as int)) == u / Pow10(k)
  {
    ScaleDown(u, k);
  }

  /** The first character of a non-empty text written at `p`. */
  lemma FirstChar(s: seq<char>, p: nat, w: seq<char>)
    requires HasPrefix(s, p, w) && w != []
    ensures p < |s| && s[p] == w[0]
  {
    assert s[p] == s[p..p + |w|][0];
  }

  /** The mantissa of `x` written at `m` with a point: digits ending at `w`, the point
      ending at `f`, and the fraction ending at `r`. */
  lemma MantissaWithPoint(s: seq<char>, m: nat, w: nat, f: nat, r: nat, x: Literal)
    requires WellFormed(x) && x.point
    requires HasPrefix(s, m, x.whole) && w == m + |x.whole|
    requires w < |s| && s[w] == '.' && f == w + 1
    requires HasPrefix(s, f, x.fraction) && r == f + |x.fraction|
    requires r >= |s| || !IsDigit(s[r])
    ensures MantissaAt(s, m) == Mantissa(r, |x.whole| + |x.fraction|, Magnitude(x))
  {
    DigitsOfPrefix(s, m, x.whole);
    DigitsOfPrefix(s, f, x.fraction);
    DigitRunOver(s, m, |x.whole|);
    DigitRunOver(s, f, |x.fraction|);
    FractionScaled(SeqValue(x.fraction) as real, |x.fraction|);
    MantissaPointed(s, m, w, f, r, SeqValue(x.whole), SeqValue(x.fraction));
  }

  /** `MantissaAt` on digits ending at `w`, a point, and digits from `f` to `r`. */
  lemma MantissaPointed(s: seq<char>, m: nat, w: nat, f: nat, r: nat, v: int, u: int)
    requires m <= w < |s| && s[w] == '.' && f == w + 1 && f <= r <= |s|
    requires DigitRun(s, m) == w - m && DigitRun(s, f) == r - f && r - f + w - m > 0
    requires DigitsValue(s, m, w) == v && DigitsValue(s, f, r) == u
    ensures MantissaAt(s, m) == Mantissa(r, w - m + r - f, v as real + Scale(u as real, -((r - f) as int)))
  {
  }

  /** The mantissa of `x` written at `m` without a point: digits ending at `r`. */
  lemma MantissaWithoutPoint(s: seq<char>, m: nat, r: nat, x: Literal)
    requires WellFormed(x) && !x.point
    requires HasPrefix(s, m, x.whole) && r == m + |x.whole|
    requires r >= |s| || (!IsDigit(s[r]) && s[r] != '.')
    ensures MantissaAt(s, m) == Mantissa(r, |x.whole|, Magnitude(x))
  {
    DigitsOfPrefix(s, m, x.whole);
    DigitRunOver(s, m, |x.whole|);
  }

  /** No exponent part is scanned at `r` where none could start. */
  lemma ExponentAbsent(s: seq<char>, r: nat)
    requires r <= |s| && !ExponentFollows(s, r)
    ensures ExponentAt(s, r) == Exponent(0, 0)
  {
    if r < |s| && (s[r] == 'e' || s[r] == 'E') {
      var signed := r + 1 < |s| && IsSign(s[r + 1]);
      var i := if signed then r + 2 else r + 1;
      assert DigitRun(s, i) == 0;
    }
  }

  /** A written exponent part at `r`: its marker, its sign ending at `i`, and its digits
      ending at `q`. */
  lemma ExponentWritten(s: seq<char>, r: nat, i: nat, q: nat, e: Power)
    requires e.Power? && (e.marker == 'e' || e.marker == 'E') && |e.digits| > 0 && AllDigits(e.digits)
    requires r < |s| && s[r] == e.marker
    requires e.sign != NoSign ==> r + 1 < |s| && s[r + 1] == SignText(e.sign)[0]
    requires i == r + 1 + |SignText(e.sign)|
    requires HasPrefix(s, i, e.digits) && q == i + |e.digits|
    requires q >= |s| || !IsDigit(s[q])
    ensures ExponentAt(s, r) == Exponent(q - r, PowerValue(e))
  {
    FirstChar(s, i, e.digits);
    DigitsOfPrefix(s, i, e.digits);
    DigitRunOver(s, i, |e.digits|);
  }

  /** The exponent part of `x` written at `r` and ending at `q` is scanned with its value. */
  lemma ExponentOfPower(s: seq<char>, r: nat, q: nat, x: Literal)
    requires WellFormed(x)
    requires HasPrefix(s, r, PowerText(x.power)) && q == r + |PowerText(x.power)|
    requires q >= |s| || !IsDigit(s[q])
    requires x.power.NoPower? ==> !ExponentFollows(s, q)
    ensures ExponentAt(s, r) == Exponent(q - r, PowerValue(x.power))
  {
    match x.power
    case NoPower =>
      ExponentAbsent(s, r);
    case Power(c, g, d) =>
      var i := r + 1 + |SignText(g)|;
      PrefixSplit(s, r, [c] + SignText(g), d);
      PrefixSplit(s, r, [c], SignText(g));
      FirstChar(s, r, [c]);
      if g != NoSign {
        FirstChar(s, r + 1, SignText(g));
      }
      ExponentWritten(s, r, i, q, x.power);
  }

  /** `strtod` from `p` once its sign (ending at `m`), its mantissa and its exponent part
      are known. */
  lemma ConvertOf(s: seq<char>, p: nat, m: nat, g: Sign, mantissa: Mantissa, x: Exponent, q: nat)
    requires p <= m <= |s| && m == p + |SignText(g)|
    requires g == NoSign ==> m < |s| && (IsDigit(s[m]) || s[m] == '.')
    requires g != NoSign ==> p < |s| && s[p] == SignText(g)[0]
    requires MantissaAt(s, m) == mantissa && mantissa.digits > 0
    requires ExponentAt(s, mantissa.end) == x && q == mantissa.end + x.length
    ensures Convert(s, p) == Conversion(if g == MinusSign then -Scale(mantissa.value, x.power) else Scale(mantissa.value, x.power), q)
  {
  }

  /** The pieces of a literal's text at `p`, with the positions where each ends. */
  lemma TextParts(s: seq<char>, p: nat, m: nat, w: nat, f: nat, r: nat, q: nat, x: Literal)
    requires HasPrefix(s, p, Text(x))
    requires m == p + |SignText(x.sign)| && w == m + |x.whole| && f == w + |PointText(x.point)|
    requires r == f + |x.fraction| && q == r + |PowerText(x.power)|
    ensures HasPrefix(s, p, SignText(x.sign)) && HasPrefix(s, m, x.whole) && HasPrefix(s, w, PointText(x.point))
    ensures HasPrefix(s, f, x.fraction) && HasPrefix(s, r, PowerText(x.power)) && q == p + |Text(x)|
  {
    var a, b, c, d, e := SignText(x.sign), x.whole, PointText(x.point), x.fraction, PowerText(x.power);
    PrefixSplit(s, p, a + b + c + d, e);
    PrefixSplit(s, p, a + b + c, d);
    PrefixSplit(s, p, a + b, c);
    PrefixSplit(s, p, a, b);
  }

  /** The mantissa of a literal written from `m` to `r`, and what its first character is. */
  lemma MantissaOfLiteral(s: seq<char>, m: nat, w: nat, f: nat, r: nat, x: Literal)
    requires WellFormed(x)
    requires HasPrefix(s, m, x.whole) && w == m + |x.whole|
    requires HasPrefix(s, w, PointText(x.point)) && f == w + |PointText(x.point)|
    requires HasPrefix(s, f, x.fraction) && r == f + |x.fraction|
    requires r >= |s| || !IsDigit(s[r])
    requires !x.point ==> r >= |s| || s[r] != '.'
    ensures m < |s| && (IsDigit(s[m]) || s[m] == '.')
    ensures MantissaAt(s, m) == Mantissa(r, |x.whole| + |x.fraction|, Magnitude(x))
  {
    if x.whole != [] {
      FirstChar(s, m, x.whole);
    }
    if x.point {
      FirstChar(s, w, ".");
      MantissaWithPoint(s, m, w, f, r, x);
    } else {
      MantissaWithoutPoint(s, m, r, x);
    }
  }

  /** Round trip: `strtod` on the text of any literal, followed by anything that does
      not continue it, gives the literal's value and ends right after its text. */
  lemma ConvertLiteral(s: seq<char>, p: nat, x: Literal)
    requires WellFormed(x) && HasPrefix(s, p, Text(x)) && Ends(x, s, p + |Text(x)|)
    ensures Convert(s, p) == Conversion(Value(x), p + |Text(x)|)
  {
    var m := p + |SignText(x.sign)|;
    var w := m + |x.whole|;
    var f := w + |PointText(x.point)|;
    var r := f + |x.fraction|;
    var q := r + |PowerText(x.power)|;
    TextParts(s, p, m, w, f, r, q, x);
    ConvertPieces(s, p, m, w, f, r, q, x);
  }

  /** `strtod` on a literal whose pieces are written at the given positions. */
  lemma ConvertPieces(s: seq<char>, p: nat, m: nat, w: nat, f: nat, r: nat, q: nat, x: Literal)
    requires WellFormed(x)
    requires HasPrefix(s, p, SignText(x.sign)) && m == p + |SignText(x.sign)|
    requires HasPrefix(s, m, x.whole) && w == m + |x.whole|
    requires HasPrefix(s, w, PointText(x.point)) && f == w + |PointText(x.point)|
    requires HasPrefix(s, f, x.fraction) && r == f + |x.fraction|
    requires HasPrefix(s, r, PowerText(x.power)) && q == r + |PowerText(x.power)|
    requires Ends(x, s, q)
    ensures Convert(s, p) == Conversion(Value(x), q)
  {
    if x.power.Power? {
      FirstChar(s, r, PowerText(x.power));
    }
    MantissaOfLiteral(s, m, w, f, r, x);
    ExponentOfPower(s, r, q, x);
    if x.sign != NoSign {
      FirstChar(s, p, SignText(x.sign));
    }
    ConvertOf(s, p, m, x.sign, Mantissa(r, |x.whole| + |x.fraction|, Magnitude(x)), Exponent(q - r, PowerValue(x.power)), q);
    ValueScaled(x);
  }

  /** A literal's value is its magnitude scaled as `strtod` scales it, then signed. */
  lemma ValueScaled(x: Literal)
    ensures Value(x) == var v := Scale(Magnitude(x), PowerValue(x.power)); if x.sign == MinusSign then -v else v
  {
    ScaleValue(Magnitude(x), PowerValue(x.power));
  }

  /*
   Conversely, every text `strtod` converts is the text of a literal that ends
   there: the scanner's own pieces, read back as a literal.
   */

  /** The sign written at `p`, if any. */
  function SignAt(s: seq<char>, p: nat): Sign
  {
    if p < |s| && s[p] == '+' then PlusSign else if p < |s| && s[p] == '-' then MinusSign else NoSign
  }

  /** The exponent part written at `r`, if a complete one is. */
  function PowerAt(s: seq<char>, r: nat): Power
    requires r <= |s|
  {
    if r < |s| && (s[r] == 'e' || s[r] == 'E') then
      var g := if r + 1 < |s| then SignAt(s, r + 1) else NoSign;
      var j := r + 1 + |SignText(g)|;
      if j > |s| || DigitRun(s, j) == 0 then NoPower else Power(s[r], g, s[j..j + DigitRun(s, j)])
    else NoPower
  }

  /** Where the whole digits of the subject at `p` begin: after its sign. */
  function WholeStart(s: seq<char>, p: nat): (m: nat)
    requires p <= |s|
    ensures p <= m <= |s|
  {
    p + |SignText(SignAt(s, p))|
  }

  /** Where the whole digits of the subject at `p` end. */
  function WholeEnd(s: seq<char>, p: nat): (w: nat)
    requires p <= |s|
    ensures WholeStart(s, p) <= w <= |s|
  {
    WholeStart(s, p) + DigitRun(s, WholeStart(s, p))
  }

  /** Whether a decimal point follows the whole digits. */
  predicate HasPoint(s: seq<char>, p: nat)
    requires p <= |s|
  {
    WholeEnd(s, p) < |s| && s[WholeEnd(s, p)] == '.'
  }

  /** Where the fraction digits begin: after the point, if any. */
  function FractionStart(s: seq<char>, p: nat): (f: nat)
    requires p <= |s|
    ensures WholeEnd(s, p) <= f <= |s|
  {
    WholeEnd(s, p) + |PointText(HasPoint(s, p))|
  }

  /** Where the fraction digits end, and the exponent part begins. */
  function FractionEnd(s: seq<char>, p: nat): (r: nat)
    requires p <= |s|
    ensures FractionStart(s, p) <= r <= |s|
  {
    if HasPoint(s, p) then FractionStart(s, p) + DigitRun(s, FractionStart(s, p)) else FractionStart(s, p)
  }

  /** The literal `strtod` takes at `p`. */
  function Scanned(s: seq<char>, p: nat): Literal
    requires p <= |s|
  {
    Literal(SignAt(s, p), s[WholeStart(s, p)..WholeEnd(s, p)], HasPoint(s, p),
            s[FractionStart(s, p)..FractionEnd(s, p)], PowerAt(s, FractionEnd(s, p)))
  }

  /** Texts written one after the other. */
  lemma PrefixJoin(s: seq<char>, p: nat, a: seq<char>, b: seq<char>)
    requires HasPrefix(s, p, a) && HasPrefix(s, p + |a|, b)
    ensures HasPrefix(s, p, a + b)
  {
    assert s[p..p + |a + b|] == s[p..p + |a|] + s[p + |a|..p + |a| + |b|];
  }

  /** A digit run, from `p` to `q`, consists of digits. */
  lemma {:induction false} RunDigits(s: seq<char>, p: nat, q: nat)
    requires p <= |s| && q == p + DigitRun(s, p)
    ensures AllDigits(s[p..q])
    decreases |s| - p
  {
    if p < q {
      RunDigits(s, p + 1, q);
      assert s[p..q] == [s[p]] + s[p + 1..q];
    }
  }

  /** The sign at `p` is written there, and is the one `strtod` sees. */
  lemma SignAtWritten(s: seq<char>, p: nat)
    requires p <= |s|
    ensures HasPrefix(s, p, SignText(SignAt(s, p)))
    ensures SignAt(s, p) != NoSign <==> p < |s| && IsSign(s[p])
    ensures SignAt(s, p) == MinusSign <==> p < |s| && s[p] == '-'
  {
    if SignAt(s, p) != NoSign {
      assert s[p..p + 1] == [s[p]];
    }
  }

  /** A written exponent part: its marker at `r`, its sign, and its digits from `j` to `q`. */
  lemma PowerWritten(s: seq<char>, r: nat, j: nat, q: nat, g: Sign)
    requires r < |s| && HasPrefix(s, r + 1, SignText(g)) && j == r + 1 + |SignText(g)| && j <= q <= |s|
    ensures HasPrefix(s, r, PowerText(Power(s[r], g, s[j..q])))
  {
    assert HasPrefix(s, r, [s[r]]) by {
      assert s[r..r + 1] == [s[r]];
    }
    PrefixJoin(s, r, [s[r]], SignText(g));
    PrefixJoin(s, r, [s[r]] + SignText(g), s[j..q]);
  }

  /** The exponent part `e` is written at `r`, is well formed, and cannot be
      continued; when there is none, none could start at `r`. */
  predicate PowerTaken(s: seq<char>, r: nat, e: Power)
  {
    HasPrefix(s, r, PowerText(e)) && PowerFormed(e) && PowerStops(s, r, e)
  }

  /** An exponent part, if any, has a marker and digits. */
  predicate PowerFormed(e: Power)
  {
    e.Power? ==> (e.marker == 'e' || e.marker == 'E') && |e.digits| > 0 && AllDigits(e.digits)
  }

  /** An exponent part at `r` is not followed by a digit; without one, none starts at `r`. */
  predicate PowerStops(s: seq<char>, r: nat, e: Power)
  {
    (e.Power? && r + |PowerText(e)| < |s| ==> !IsDigit(s[r + |PowerText(e)|]))
    && (e.NoPower? ==> !ExponentFollows(s, r))
  }

  /** A marker, a sign ending at `j`, and digits from `j` to `q`. */
  lemma PowerPresent(s: seq<char>, r: nat, g: Sign, j: nat, q: nat)
    requires r < |s| && (s[r] == 'e' || s[r] == 'E')
    requires HasPrefix(s, r + 1, SignText(g)) && j == r + 1 + |SignText(g)|
    requires j <= |s| && DigitRun(s, j) > 0 && q == j + DigitRun(s, j)
    ensures PowerTaken(s, r, Power(s[r], g, s[j..q]))
  {
    RunDigits(s, j, q);
    PowerWritten(s, r, j, q, g);
  }

  /** A marker not followed, after its optional sign, by a digit starts no exponent part. */
  lemma PowerMissing(s: seq<char>, r: nat, g: Sign, j: nat)
    requires r < |s|
    requires g == (if r + 1 < |s| then SignAt(s, r + 1) else NoSign) && j == r + 1 + |SignText(g)|
    requires j > |s| || DigitRun(s, j) == 0
    ensures !ExponentFollows(s, r)
  {
  }

  /** `PowerAt` is the exponent part made of the marker, sign and digits at the given positions. */
  lemma PowerAtIs(s: seq<char>, r: nat, g: Sign, j: nat, q: nat)
    requires r < |s| && (s[r] == 'e' || s[r] == 'E')
    requires g == (if r + 1 < |s| then SignAt(s, r + 1) else NoSign) && j == r + 1 + |SignText(g)|
    requires j <= |s| && DigitRun(s, j) > 0 && q == j + DigitRun(s, j)
    ensures PowerAt(s, r) == Power(s[r], g, s[j..q])
  {
  }

  /** After a marker, the exponent part at `r` is as `PowerTaken` says. */
  lemma MarkerWritten(s: seq<char>, r: nat, g: Sign, j: nat)
    requires r < |s| && (s[r] == 'e' || s[r] == 'E')
    requires g == (if r + 1 < |s| then SignAt(s, r + 1) else NoSign) && j == r + 1 + |SignText(g)|
    ensures PowerTaken(s, r, PowerAt(s, r))
  {
    if r + 1 < |s| {
      SignAtWritten(s, r + 1);
    }
    if j > |s| || DigitRun(s, j) == 0 {
      PowerMissing(s, r, g, j);
      assert PowerAt(s, r) == NoPower;
    } else {
      var q := j + DigitRun(s, j);
      PowerPresent(s, r, g, j, q);
      PowerAtIs(s, r, g, j, q);
    }
  }

  /** The exponent part at `r` is as `PowerTaken` says. */
  lemma PowerAtWritten(s: seq<char>, r: nat)
    requires r <= |s|
    ensures PowerTaken(s, r, PowerAt(s, r))
  {
    if r < |s| && (s[r] == 'e' || s[r] == 'E') {
      var g := if r + 1 < |s| then SignAt(s, r + 1) else NoSign;
      MarkerWritten(s, r, g, r + 1 + |SignText(g)|);
    }
  }

  /** The pieces of a literal written one after the other make its text. */
  lemma LiteralWritten(s: seq<char>, p: nat, m: nat, w: nat, f: nat, r: nat, q: nat, x: Literal)
    requires HasPrefix(s, p, SignText(x.sign)) && m == p + |SignText(x.sign)|
    requires HasPrefix(s, m, x.whole) && w == m + |x.whole|
    requires HasPrefix(s, w, PointText(x.point)) && f == w + |PointText(x.point)|
    requires HasPrefix(s, f, x.fraction) && r == f + |x.fraction|
    requires HasPrefix(s, r, PowerText(x.power)) && q == r + |PowerText(x.power)|
    ensures HasPrefix(s, p, Text(x)) && q == p + |Text(x)|
  {
    PrefixJoin(s, p, SignText(x.sign), x.whole);
    PrefixJoin(s, p, SignText(x.sign) + x.whole, PointText(x.point));
    PrefixJoin(s, p, SignText(x.sign) + x.whole + PointText(x.point), x.fraction);
    PrefixJoin(s, p, SignText(x.sign) + x.whole + PointText(x.point) + x.fraction, PowerText(x.power));
  }

  /** The digits from `a` to `b` are written at `a`. */
  lemma SliceWritten(s: seq<char>, a: nat, b: nat)
    requires a <= b <= |s|
    ensures HasPrefix(s, a, s[a..b])
  {
  }

  /** The scanner's pieces at the given positions are written one after the other. */
  lemma ScannedWritten(s: seq<char>, p: nat, m: nat, w: nat, f: nat, r: nat, q: nat, g: Sign, point: bool, e: Power)
    requires p <= m <= w <= f <= r <= |s|
    requires g == SignAt(s, p) && m == p + |SignText(g)|
    requires point <==> w < |s| && s[w] == '.'
    requires f == w + |PointText(point)|
    requires HasPrefix(s, r, PowerText(e)) && q == r + |PowerText(e)|
    ensures HasPrefix(s, p, Text(Literal(g, s[m..w], point, s[f..r], e)))
    ensures q == p + |Text(Literal(g, s[m..w], point, s[f..r], e))|
  {
    var x := Literal(g, s[m..w], point, s[f..r], e);
    SignAtWritten(s, p);
    SliceWritten(s, m, w);
    SliceWritten(s, f, r);
    if point {
      assert HasPrefix(s, w, ".") by {
        assert s[w..w + 1] == [s[w]];
      }
    }
    LiteralWritten(s, p, m, w, f, r, q, x);
  }

  /** The scanner's pieces make a well-formed literal. */
  lemma ScannedWellFormed(s: seq<char>, p: nat, m: nat, w: nat, point: bool, f: nat, r: nat, e: Power)
    requires p <= |s| && HasSubject(s, p) && m == p + |SignText(SignAt(s, p))| && m <= |s|
    requires w == m + DigitRun(s, m) && (point <==> w < |s| && s[w] == '.')
    requires f == w + |PointText(point)| && f <= |s|
    requires r == f + (if point then DigitRun(s, f) else 0) && r <= |s|
    requires PowerFormed(e)
    ensures WellFormed(Literal(SignAt(s, p), s[m..w], point, s[f..r], e))
  {
    SubjectDigits(s, p, m, w, point, f, r);
    RunDigits(s, m, w);
    if point {
      RunDigits(s, f, r);
    }
  }

  /** A digit run ending at `q` is not followed by a digit. */
  lemma DigitRunEnds(s: seq<char>, p: nat, q: nat)
    requires p <= |s| && q == p + DigitRun(s, p)
    ensures q == |s| || !IsDigit(s[q])
  {
  }

  /** A subject without whole digits has a point and fraction digits. */
  lemma SubjectFraction(s: seq<char>, p: nat, m: nat)
    requires p <= |s| && HasSubject(s, p) && m == p + |SignText(SignAt(s, p))| && m <= |s|
    requires DigitRun(s, m) == 0
    ensures m < |s| && s[m] == '.' && DigitRun(s, m + 1) > 0
  {
  }

  /** A subject has whole digits or fraction digits. */
  lemma SubjectDigits(s: seq<char>, p: nat, m: nat, w: nat, point: bool, f: nat, r: nat)
    requires p <= |s| && HasSubject(s, p) && m == p + |SignText(SignAt(s, p))| && m <= |s|
    requires w == m + DigitRun(s, m) && (point <==> w < |s| && s[w] == '.')
    requires f == w + |PointText(point)| && f <= |s|
    requires r == f + (if point then DigitRun(s, f) else 0) && r <= |s|
    ensures (w - m) + (r - f) > 0
  {
    if w == m {
      SubjectFraction(s, p, m);
    }
  }

  /** `x` is a well-formed literal written at `p` that cannot be continued. */
  predicate Taken(s: seq<char>, p: nat, x: Literal)
  {
    WellFormed(x) && HasPrefix(s, p, Text(x)) && Ends(x, s, p + |Text(x)|)
  }

  /** The positions `strtod` passes while reading the subject at `p`: the whole digits
      from `m` to `w`, the point if `point`, the fraction digits from `f` to `r`, and the
      exponent part from `r`. */
  predicate ScanPoints(s: seq<char>, p: nat, m: nat, w: nat, point: bool, f: nat, r: nat)
  {
    p <= |s| && m == p + |SignText(SignAt(s, p))| && m <= |s|
    && w == m + DigitRun(s, m) && (point <==> w < |s| && s[w] == '.')
    && f == w + |PointText(point)| && f <= |s|
    && r == f + (if point then DigitRun(s, f) else 0) && r <= |s|
  }

  /** The positions `ScanPoints` describes, and the literal made of the pieces between them. */
  lemma ScanPositions(s: seq<char>, p: nat) returns (m: nat, w: nat, point: bool, f: nat, r: nat)
    requires p <= |s|
    ensures ScanPoints(s, p, m, w, point, f, r)
    ensures Scanned(s, p) == Literal(SignAt(s, p), s[m..w], point, s[f..r], PowerAt(s, r))
  {
    m, w, point, f, r := WholeStart(s, p), WholeEnd(s, p), HasPoint(s, p), FractionStart(s, p), FractionEnd(s, p);
  }

  /** The exponent part at `r`, if any, has a marker and digits. */
  lemma PowerAtFormed(s: seq<char>, r: nat)
    requires r <= |s|
    ensures PowerFormed(PowerAt(s, r))
  {
    PowerAtWritten(s, r);
  }

  /** The exponent part at `r` cannot be continued. */
  lemma PowerAtStops(s: seq<char>, r: nat)
    requires r <= |s|
    ensures PowerStops(s, r, PowerAt(s, r))
  {
    PowerAtWritten(s, r);
  }

  /** What `strtod` takes at `p` is a well-formed literal. */
  lemma ScannedFormed(s: seq<char>, p: nat)
    requires p <= |s| && HasSubject(s, p)
    ensures WellFormed(Scanned(s, p))
  {
    var m, w, point, f, r := ScanPositions(s, p);
    PowerAtFormed(s, r);
    ScannedWellFormed(s, p, m, w, point, f, r, PowerAt(s, r));
  }

  /** What `strtod` takes at `p` is written there. */
  lemma ScannedText(s: seq<char>, p: nat)
    requires p <= |s|
    ensures HasPrefix(s, p, Text(Scanned(s, p)))
  {
    var m, w, point, f, r := ScanPositions(s, p);
    PowerAtWritten(s, r);
    ScannedWritten(s, p, m, w, f, r, r + |PowerText(PowerAt(s, r))|, SignAt(s, p), point, PowerAt(s, r));
  }

  /** Where the subject at `p` ends: after the exponent part read at its fraction's end. */
  function LiteralEnd(s: seq<char>, p: nat): (q: nat)
    requires p <= |s|
    ensures FractionEnd(s, p) <= q
  {
    FractionEnd(s, p) + |PowerText(PowerAt(s, FractionEnd(s, p)))|
  }

  /** The text `strtod` takes at `p` ends at `LiteralEnd(s, p)`. */
  lemma ScannedLength(s: seq<char>, p: nat)
    requires p <= |s|
    ensures p + |Text(Scanned(s, p))| == LiteralEnd(s, p)
  {
    var x := Scanned(s, p);
    assert |Text(x)| == |SignText(x.sign)| + |x.whole| + |PointText(x.point)| + |x.fraction| + |PowerText(x.power)|;
  }

  /** Without an exponent part, the digits before `FractionEnd(s, p)` are not followed by
      a digit, nor by a point when there is none. */
  lemma FractionStops(s: seq<char>, p: nat)
    requires p <= |s|
    ensures FractionEnd(s, p) == |s| || !IsDigit(s[FractionEnd(s, p)])
    ensures !HasPoint(s, p) ==> FractionEnd(s, p) == |s| || s[FractionEnd(s, p)] != '.'
  {
    if HasPoint(s, p) {
      DigitRunEnds(s, FractionStart(s, p), FractionEnd(s, p));
    } else {
      DigitRunEnds(s, WholeStart(s, p), FractionEnd(s, p));
    }
  }

  /** What `strtod` takes at `p` cannot be continued. */
  lemma ScannedEnd(s: seq<char>, p: nat)
    requires p <= |s|
    ensures Ends(Scanned(s, p), s, p + |Text(Scanned(s, p))|)
  {
    ScannedLength(s, p);
    var r := FractionEnd(s, p);
    PowerAtStops(s, r);
    if PowerAt(s, r).NoPower? {
      FractionStops(s, p);
    }
  }

  /** What `strtod` takes at `p` is the text of a literal that ends there. */
  lemma ScannedLiteral(s: seq<char>, p: nat)
    requires p <= |s| && HasSubject(s, p)
    ensures Taken(s, p, Scanned(s, p))
  {
    ScannedFormed(s, p);
    ScannedText(s, p);
    ScannedEnd(s, p);
  }

  /** Together: wherever `strtod` converts, it gives the value of the literal it takes
      and ends right after that literal's text. */
  lemma ConvertScanned(s: seq<char>, p: nat)
    requires p <= |s| && HasSubject(s, p)
    ensures Convert(s, p) == Conversion(Value(Scanned(s, p)), p + |Text(Scanned(s, p))|)
  {
    ScannedLiteral(s, p);
    ConvertLiteral(s, p, Scanned(s, p));
  }

  /** The literal taken at a position is determined by the text: two literals taken
      there have the same value and the same length. */
  lemma TakenUnique(s: seq<char>, p: nat, x: Literal, y: Literal)
    requires p <= |s| && Taken(s, p, x) && Taken(s, p, y)
    ensures Value(x) == Value(y) && |Text(x)| == |Text(y)|
  {
    ConvertLiteral(s, p, x);
    ConvertLiteral(s, p, y);
  }

  /** `parse_number` after spaces on a subject returns the value of the literal `strtod`
      takes there and leaves the cursor right after its text. */
  lemma NumberOfScanned(s: seq<char>, p: nat, q: nat, e: bool)
    requires p <= |s| && q == SkipSpaces(s, p) && HasSubject(s, q)
    ensures Number(s, p, e) == Outcome(Value(Scanned(s, q)), q + |Text(Scanned(s, q))|, e)
  {
    ScannedLiteral(s, q);
    NumberOfLiteral(s, p, q, e, Scanned(s, q));
  }

  /** `parse_number` on a literal after spaces returns its value and leaves the cursor
      right after it, with the flag as it was. */
  lemma NumberOfLiteral(s: seq<char>, p: nat, q: nat, e: bool, x: Literal)
    requires p <= |s| && q == SkipSpaces(s, p)
    requires WellFormed(x) && HasPrefix(s, q, Text(x)) && Ends(x, s, q + |Text(x)|)
    ensures Number(s, p, e) == Outcome(Value(x), q + |Text(x)|, e)
  {
    ConvertLiteral(s, q, x);
    assert |Text(x)| > 0 by {
      assert |Text(x)| >= |x.whole| + |x.fraction|;
    }
  }
}
