/**
 What the MiniLab evaluator computes, as functions of the input text, a cursor
 position and the error flag on entry. Each function mirrors one C routine (or
 one of its loops): it returns the value the routine returns, where the shared
 cursor ends up, and the shared error flag afterwards.
 */
module Grammar {
  import opened Strtod

  /** The three foreign `libm` functions the evaluator calls. */
  datatype Trig = Sin | Cos | Tan

  /** `sin`, `cos` and `tan` themselves are not modelled; the evaluator is given
      them as a parameter, taking radians like their C counterparts. */
  type Libm = (Trig, real) -> real

  /** The value of `M_PI`, which initialises the never-written global `PI`. */
  const PI: real := 3.14159265358979323846

  /** A routine's result together with the cursor and the error flag after it. */
  datatype Outcome = Outcome(value: real, pos: nat, error: bool)

  /** `isspace` in the C locale: space, tab, newline, vertical tab, form feed, carriage return. */
  predicate IsSpace(c: char)
  {
    c == ' ' || '\t' <= c <= '\r'
  }

  /** The characters `IsSpace` accepts are exactly the six of the C locale. */
  lemma SpacesOfCLocale(c: char)
    ensures IsSpace(c) <==> c in [' ', '\t', '\n', '\U{000B}', '\U{000C}', '\r']
  {
  }

  /** The character under the cursor; past the end it is the C string's terminator. */
  function Peek(s: seq<char>, p: nat): char
  {
    if p < |s| then s[p] else '\0'
  }

  /** Up to the end, `Peek` reads the C string: the text followed by its terminator. */
  lemma PeekTerminated(s: seq<char>, p: nat)
    requires p <= |s|
    ensures Peek(s, p) == (s + ['\0'])[p]
  {
  }

  /** The cursor after `skip_whitespace`: the first position at or after `p` that is not a space. */
  function SkipSpaces(s: seq<char>, p: nat): (q: nat)
    requires p <= |s|
    ensures p <= q <= |s|
    ensures q == |s| || !IsSpace(s[q])
    decreases |s| - p
  {
    if p < |s| && IsSpace(s[p]) then SkipSpaces(s, p + 1) else p
  }

  /** The result of one arithmetic operator and whether it set the error flag. */
  datatype Arith = Arith(value: real, failed: bool)

  /** `evaluate_operation`: `+`, `-`, `*` and `/` on the two operands; division by
      zero and any other operator set the flag and give zero. */
  function Operation(a: real, b: real, op: char): (r: Arith)
    ensures r.failed <==> (op == '/' && b == 0.0) || (op != '+' && op != '-' && op != '*' && op != '/')
    ensures r.failed ==> r.value == 0.0
  {
    match op
    case '+' => Arith(a + b, false)
    case '-' => Arith(a - b, false)
    case '*' => Arith(a * b, false)
    case '/' => if b == 0.0 then Arith(0.0, true) else Arith(a / b, false)
    case _ => Arith(0.0, true)
  }

  /** `parse_number`: skip spaces, then convert the longest decimal literal there.
      Without one, the flag is set, zero returned, and the cursor left on the first
      non-space character. */
  function Number(s: seq<char>, p: nat, e: bool): (r: Outcome)
    requires p <= |s|
    ensures p <= r.pos <= |s|
    ensures r.error <==> e || !HasSubject(s, SkipSpaces(s, p))
    ensures !HasSubject(s, SkipSpaces(s, p)) ==> r.value == 0.0 && r.pos == SkipSpaces(s, p)
    ensures HasSubject(s, SkipSpaces(s, p)) ==> r.pos > SkipSpaces(s, p)
    ensures HasSubject(s, SkipSpaces(s, p)) ==>
      r.value == Convert(s, SkipSpaces(s, p)).value && r.pos == Convert(s, SkipSpaces(s, p)).end
  {
    var q := SkipSpaces(s, p);
    var c := Convert(s, q);
    ConvertsIffSubject(s, q);
    if c.end == q then Outcome(0.0, q, true) else Outcome(c.value, c.end, e)
  }

  /** True when the four characters at `q` are `a`, `b`, `c` and `(`, compared one by
      one as `strncmp(s + q, "abc(", 4) == 0` does; the end of the text mismatches. */
  predicate CallSyntax(s: seq<char>, q: nat, a: char, b: char, c: char)
  {
    Peek(s, q) == a && Peek(s, q + 1) == b && Peek(s, q + 2) == c && Peek(s, q + 3) == '('
  }

  /** For a name without NUL characters, the character-by-character test is the same as
      the name and `(` being written at `q`. */
  lemma CallSyntaxPrefix(s: seq<char>, q: nat, a: char, b: char, c: char)
    requires a != '\0' && b != '\0' && c != '\0'
    ensures CallSyntax(s, q, a, b, c) <==> HasPrefix(s, q, [a, b, c, '('])
  {
    if CallSyntax(s, q, a, b, c) {
      assert s[q..q + 4] == [a, b, c, '('];
    }
    if HasPrefix(s, q, [a, b, c, '(']) {
      assert s[q] == s[q..q + 4][0];
      assert s[q + 1] == s[q..q + 4][1];
      assert s[q + 2] == s[q..q + 4][2];
      assert s[q + 3] == s[q..q + 4][3];
    }
  }

  /** The function whose call syntax starts at `q`, if any: `sin(`, `cos(` or `tan(`,
      exactly in lower case and with no space before the parenthesis. */
  function TrigCall(s: seq<char>, q: nat): (f: Option<Trig>)
    ensures f.Some? ==> q + 4 <= |s|
  {
    if CallSyntax(s, q, 's', 'i', 'n') then Some(Sin)
    else if CallSyntax(s, q, 'c', 'o', 's') then Some(Cos)
    else if CallSyntax(s, q, 't', 'a', 'n') then Some(Tan)
    else None
  }

  /** A call is recognised exactly when the text at `q` is a function's name
      followed by `(`; any other spelling, as `Sin(` or `sin (`, is not a call. */
  lemma TrigCallExact(s: seq<char>, q: nat)
    ensures TrigCall(s, q).Some? ==> HasPrefix(s, q, Name(TrigCall(s, q).value) + "(")
    ensures forall g: Trig :: HasPrefix(s, q, Name(g) + "(") ==> TrigCall(s, q) == Some(g)
  {
    forall g: Trig | HasPrefix(s, q, Name(g) + "(") ensures TrigCall(s, q) == Some(g) {
      var w := Name(g) + "(";
      assert s[q] == w[0] && s[q + 1] == w[1] && s[q + 2] == w[2] && s[q + 3] == w[3];
    }
    if TrigCall(s, q).Some? {
      assert s[q..q + 4] == Name(TrigCall(s, q).value) + "(";
    }
  }

  /** A function's name and `(` written at `q` are a call of that function. */
  lemma TrigCallNamed(s: seq<char>, q: nat, f: Trig)
    requires HasPrefix(s, q, Name(f) + "(")
    ensures Peek(s, q) != '(' && TrigCall(s, q) == Some(f)
  {
    TrigCallExact(s, q);
    assert s[q] == (Name(f) + "(")[0];
  }

  /** True when the text at `p` begins with `w`. */
  predicate HasPrefix(s: seq<char>, p: nat, w: seq<char>)
  {
    p + |w| <= |s| && s[p..p + |w|] == w
  }

  /** Text of the form `a + b` at `p` is `a` at `p`, then `b` right after it. */
  lemma PrefixSplit(s: seq<char>, p: nat, a: seq<char>, b: seq<char>)
    requires HasPrefix(s, p, a + b)
    ensures HasPrefix(s, p, a) && HasPrefix(s, p + |a|, b)
  {
    assert s[p..p + |a|] == s[p..p + |a + b|][..|a|] == (a + b)[..|a|] == a;
    assert s[p + |a|..p + |a| + |b|] == s[p..p + |a + b|][|a|..] == (a + b)[|a|..] == b;
  }

  datatype Option<T> = None | Some(value: T)

  function Name(f: Trig): string
  {
    match f
    case Sin => "sin"
    case Cos => "cos"
    case Tan => "tan"
  }

  /** A value in degrees converted to radians (`value * PI / 180.0`). */
  function Radians(degrees: real): (r: real)
    ensures r * 180.0 == degrees * PI
  {
    degrees * PI / 180.0
  }

  /*
   The mutually recursive productions. Each takes the flag as it is on entry and
   returns it as it is on exit, as the C routines share `*error`. Each is measured
   by the text left to read, then by its grammar level: a production calls a lower
   level at the same cursor, and calls back into `Expression` only after consuming
   at least one character.
   */

  /** `evaluate_expression`: a term, spaces once, then the additive loop. */
  function Expression(libm: Libm, s: seq<char>, p: nat, e: bool): (r: Outcome)
    requires p <= |s|
    ensures p <= r.pos <= |s|
    ensures e ==> r.error
    ensures !r.error ==> r.pos > p
    decreases |s| - p, 4
  {
    var t := Term(libm, s, p, e);
    ExpressionLoop(libm, s, SkipSpaces(s, t.pos), t.value, t.error)
  }

  /** The additive loop of `evaluate_expression`: while the cursor is on `+` or `-`,
      take one more turn. No spaces are skipped between turns. */
  function ExpressionLoop(libm: Libm, s: seq<char>, p: nat, acc: real, e: bool): (r: Outcome)
    requires p <= |s|
    ensures p <= r.pos <= |s|
    ensures e ==> r.error
    decreases |s| - p, 3
  {
    if Peek(s, p) == '+' || Peek(s, p) == '-' then ExpressionStep(libm, s, p, acc, e)
    else Outcome(acc, p, e)
  }

  /** One turn of the additive loop, on its operator at `p`: consume the operator,
      parse a term, fold it into `acc`, and go on looping. */
  function ExpressionStep(libm: Libm, s: seq<char>, p: nat, acc: real, e: bool): (r: Outcome)
    requires p < |s|
    ensures p < r.pos <= |s|
    ensures e ==> r.error
    decreases |s| - p, 2
  {
    var t := Term(libm, s, p + 1, e);
    var a := Operation(acc, t.value, s[p]);
    ExpressionLoop(libm, s, t.pos, a.value, t.error || a.failed)
  }

  /** `parse_term`: a factor, spaces once, then the multiplicative loop. */
  function Term(libm: Libm, s: seq<char>, p: nat, e: bool): (r: Outcome)
    requires p <= |s|
    ensures p <= r.pos <= |s|
    ensures e ==> r.error
    ensures !r.error ==> r.pos > p
    decreases |s| - p, 2
  {
    var f := Factor(libm, s, p, e);
    TermLoop(libm, s, SkipSpaces(s, f.pos), f.value, f.error)
  }

  /** The multiplicative loop of `parse_term`, like `ExpressionLoop` for `*` and `/`. */
  function TermLoop(libm: Libm, s: seq<char>, p: nat, acc: real, e: bool): (r: Outcome)
    requires p <= |s|
    ensures p <= r.pos <= |s|
    ensures e ==> r.error
    decreases |s| - p, 1
  {
    if Peek(s, p) == '*' || Peek(s, p) == '/' then TermStep(libm, s, p, acc, e)
    else Outcome(acc, p, e)
  }

  /** One turn of the multiplicative loop, like `ExpressionStep` with a factor. */
  function TermStep(libm: Libm, s: seq<char>, p: nat, acc: real, e: bool): (r: Outcome)
    requires p < |s|
    ensures p < r.pos <= |s|
    ensures e ==> r.error
    decreases |s| - p, 0
  {
    var f := Factor(libm, s, p + 1, e);
    var a := Operation(acc, f.value, s[p]);
    TermLoop(libm, s, f.pos, a.value, f.error || a.failed)
  }

  /** `parse_factor`: spaces, then a parenthesised expression, a trigonometric call,
      or a number, tried in that order. */
  function Factor(libm: Libm, s: seq<char>, p: nat, e: bool): (r: Outcome)
    requires p <= |s|
    ensures p <= r.pos <= |s|
    ensures e ==> r.error
    ensures !r.error ==> r.pos > p
    decreases |s| - p, 0
  {
    var q := SkipSpaces(s, p);
    if Peek(s, q) == '(' then Group(libm, s, q + 1, e)
    else
      match TrigCall(s, q)
      case Some(f) => Call(libm, f, s, q + 4, e)
      case None => Number(s, q, e)
  }

  /** The parenthesised branch of `parse_factor`, after the `(`: a missing `)` sets
      the flag, and the inner value is returned either way. */
  function Group(libm: Libm, s: seq<char>, p: nat, e: bool): (r: Outcome)
    requires p <= |s|
    ensures p <= r.pos <= |s|
    ensures e ==> r.error
    ensures !r.error ==> r.pos > p
    decreases |s| - p, 5
  {
    var inner := Expression(libm, s, p, e);
    if Peek(s, inner.pos) == ')' then Outcome(inner.value, inner.pos + 1, inner.error)
    else Outcome(inner.value, inner.pos, true)
  }

  /** The trigonometric branch of `parse_factor`, after `sin(`, `cos(` or `tan(`: with
      a `)` after the argument, the function of the argument in radians; without
      one, no error of its own but a number read where the argument ended. */
  function Call(libm: Libm, f: Trig, s: seq<char>, p: nat, e: bool): (r: Outcome)
    requires p <= |s|
    ensures p <= r.pos <= |s|
    ensures e ==> r.error
    ensures !r.error ==> r.pos > p
    decreases |s| - p, 5
  {
    var arg := Expression(libm, s, p, e);
    if Peek(s, arg.pos) == ')' then Outcome(libm(f, Radians(arg.value)), arg.pos + 1, arg.error)
    else Number(s, arg.pos, arg.error)
  }

  /** `calculate`: the expression read from the start of the text with the flag cleared. */
  function Calculation(libm: Libm, s: seq<char>): (r: Outcome)
    ensures r.pos <= |s|
    ensures !r.error ==> r.pos > 0
  {
    Expression(libm, s, 0, false)
  }
}
