/**
 Precedence and associativity of the evaluator. An arithmetic tree is written
 out with the fewest parentheses the usual conventions allow (`*` and `/` bind
 tighter than `+` and `-`; both levels group to the left), and the evaluator
 reading that text computes exactly the tree's value, flags exactly its
 divisions by zero, and stops right after it.
 */
module Precedence {
  import opened Strtod
  import opened Grammar

  datatype Op = Plus | Minus | Times | Over

  /** Arithmetic over natural-number literals. */
  datatype Tree = Num(n: nat) | Bin(op: Op, l: Tree, r: Tree)

  function Symbol(op: Op): char
  {
    match op
    case Plus => '+'
    case Minus => '-'
    case Times => '*'
    case Over => '/'
  }

  /** The operator applied to two values, and whether it divides by zero: a
      division by zero is worth zero. */
  function Apply(op: Op, a: real, b: real): Arith
  {
    match op
    case Plus => Arith(a + b, false)
    case Minus => Arith(a - b, false)
    case Times => Arith(a * b, false)
    case Over => if b == 0.0 then Arith(0.0, true) else Arith(a / b, false)
  }

  /** The value of a tree, and whether it divides by zero anywhere. This is the
      reference meaning the parser is checked against. */
  function Eval(x: Tree): Arith
    decreases x, 1
  {
    match x
    case Num(n) => Arith(n as real, false)
    case Bin(op, l, r) => Node(op, l, r)
  }

  /** The value of one operator node: the operator on its operands' values, with
      the flags of both operands and its own joined. */
  function Node(op: Op, l: Tree, r: Tree): Arith
    decreases Bin(op, l, r), 0
  {
    var a, b := Eval(l), Eval(r);
    var o := Apply(op, a.value, b.value);
    Arith(o.value, a.failed || b.failed || o.failed)
  }

  /** How tightly the root of a tree binds: sums 0, products 1, literals 2. */
  function Binding(x: Tree): nat
  {
    match x
    case Num(_) => 2
    case Bin(op, _, _) => if op == Plus || op == Minus then 0 else 1
  }

  /** The text of `x` where an operand of binding at least `level` is expected:
      parenthesised when it binds more loosely. Both operators are left-associative,
      so a right operand is shown one level up. */
  function Show(x: Tree, level: nat): string
    decreases x, level
  {
    if Binding(x) < level then "(" + Show(x, 0) + ")"
    else
      match x
      case Num(n) => Decimal(n)
      case Bin(op, l, r) => Show(l, Binding(x)) + [Symbol(op)] + Show(r, Binding(x) + 1)
  }

  /** `evaluate_operation` on an operator's symbol is the operator itself. */
  lemma OperationApplies(op: Op, a: real, b: real)
    ensures Operation(a, b, Symbol(op)) == Apply(op, a, b)
  {
  }

  /** Where a shown subexpression ends: the text stops, or the next character is
      neither a space nor a continuation of a number. */
  predicate Boundary(s: seq<char>, q: nat)
  {
    q >= |s| || (!IsSpace(s[q]) && LiteralEnd(s, q))
  }

  /** Text of the form `a`, one character `c`, then `b`. */
  lemma Around(s: seq<char>, p: nat, a: seq<char>, c: char, b: seq<char>, m: nat)
    requires HasPrefix(s, p, a + [c] + b) && m == p + |a|
    ensures HasPrefix(s, p, a) && m < |s| && s[m] == c && HasPrefix(s, m + 1, b)
  {
    PrefixSplit(s, p, a + [c], b);
    PrefixSplit(s, p, a, [c]);
    assert s[p + |a|] == s[p + |a|..p + |a| + 1][0];
  }

  /** Text of the form `a`, then `w`, then `b`. */
  lemma Enclosed(s: seq<char>, p: nat, a: char, w: seq<char>, b: char)
    requires HasPrefix(s, p, [a] + w + [b])
    ensures p < |s| && s[p] == a && HasPrefix(s, p + 1, w)
    ensures p + 1 + |w| < |s| && s[p + 1 + |w|] == b
  {
    assert [a] + w + [b] == [] + [a] + (w + [b]);
    Around(s, p, [], a, w + [b], p);
    assert [a] + w + [b] == ([a] + w) + [b] + [];
    Around(s, p, [a] + w, b, [], p + 1 + |w|);
  }

  /*
   One step of each production, stated on outcomes already known.
   */

  /** The multiplicative loop, on the operator of node `x` with the left operand's
      value, reads the right operand as a factor and goes on with the node's value. */
  lemma TermLoopOver(libm: Libm, x: Tree, s: seq<char>, m: nat, e: bool, q: nat)
    requires x.Bin? && Binding(x) == 1 && m < |s| && s[m] == Symbol(x.op)
    requires Factor(libm, s, m + 1, e || Eval(x.l).failed) == Outcome(Eval(x.r).value, q, (e || Eval(x.l).failed) || Eval(x.r).failed)
    ensures TermLoop(libm, s, m, Eval(x.l).value, e || Eval(x.l).failed) == TermLoop(libm, s, q, Eval(x).value, e || Eval(x).failed)
  {
    OperationApplies(x.op, Eval(x.l).value, Eval(x.r).value);
    assert TermLoop(libm, s, m, Eval(x.l).value, e || Eval(x.l).failed) == TermStep(libm, s, m, Eval(x.l).value, e || Eval(x.l).failed);
  }

  /** The additive loop likewise, reading the right operand as a term. */
  lemma ExpressionLoopOver(libm: Libm, x: Tree, s: seq<char>, m: nat, e: bool, q: nat)
    requires x.Bin? && Binding(x) == 0 && m < |s| && s[m] == Symbol(x.op)
    requires q <= |s| && Term(libm, s, m + 1, e || Eval(x.l).failed) == TermLoop(libm, s, q, Eval(x.r).value, (e || Eval(x.l).failed) || Eval(x.r).failed)
    requires Peek(s, q) != '*' && Peek(s, q) != '/'
    ensures ExpressionLoop(libm, s, m, Eval(x.l).value, e || Eval(x.l).failed) == ExpressionLoop(libm, s, q, Eval(x).value, e || Eval(x).failed)
  {
    OperationApplies(x.op, Eval(x.l).value, Eval(x.r).value);
    assert ExpressionLoop(libm, s, m, Eval(x.l).value, e || Eval(x.l).failed) == ExpressionStep(libm, s, m, Eval(x.l).value, e || Eval(x.l).failed);
  }

  lemma TermOfFactor(libm: Libm, s: seq<char>, p: nat, e: bool, v: real, q: nat, f: bool)
    requires p <= |s| && Factor(libm, s, p, e) == Outcome(v, q, e || f)
    requires q <= |s| && Boundary(s, q)
    ensures Term(libm, s, p, e) == TermLoop(libm, s, q, v, e || f)
  {
    assert SkipSpaces(s, q) == q;
  }

  lemma ExpressionOfTerm(libm: Libm, s: seq<char>, p: nat, e: bool, v: real, q: nat, f: bool)
    requires p <= |s| && q <= |s| && Term(libm, s, p, e) == TermLoop(libm, s, q, v, e || f)
    requires Boundary(s, q) && Peek(s, q) != '*' && Peek(s, q) != '/'
    ensures Expression(libm, s, p, e) == ExpressionLoop(libm, s, q, v, e || f)
  {
    assert SkipSpaces(s, q) == q;
  }

  lemma FactorOfGroup(libm: Libm, s: seq<char>, p: nat, i: nat, r: nat, q: nat, e: bool, v: real, f: bool)
    requires p < |s| && s[p] == '(' && i == p + 1
    requires r < |s| && s[r] == ')' && q == r + 1
    requires Expression(libm, s, i, e) == ExpressionLoop(libm, s, r, v, e || f)
    ensures Factor(libm, s, p, e) == Outcome(v, q, e || f)
  {
    assert SkipSpaces(s, p) == p;
  }

  /*
   The layout of a shown tree in a text, one node at a time, so that the proofs
   about the parser below look at one node's characters and never at whole
   strings.
   */

  /** The length of the text of `x` at `level`, computed like `Show`. */
  function Width(x: Tree, level: nat): nat
    decreases x, level
  {
    if Binding(x) < level then Width(x, 0) + 2
    else
      match x
      case Num(n) => |Decimal(n)|
      case Bin(_, l, r) => Width(l, Binding(x)) + 1 + Width(r, Binding(x) + 1)
  }

  /** True when the text of `x` at `level` occurs at `p`, described node by node:
      a parenthesised tree between its `(` and `)`, a literal's digits, or an
      operator between its operands. */
  predicate Laid(s: seq<char>, p: nat, x: Tree, level: nat): (b: bool)
    ensures b ==> p + Width(x, level) <= |s|
    decreases x, level
  {
    if Binding(x) < level then
      var r := p + 1 + Width(x, 0);
      p < |s| && s[p] == '(' && Laid(s, p + 1, x, 0) && r < |s| && s[r] == ')'
    else
      match x
      case Num(n) => HasPrefix(s, p, Decimal(n))
      case Bin(op, l, r) =>
        var m := p + Width(l, Binding(x));
        Laid(s, p, l, Binding(x)) && m < |s| && s[m] == Symbol(op) && Laid(s, m + 1, r, Binding(x) + 1)
  }

  /** `Width` is the length of the text. */
  lemma {:induction false} WidthShown(x: Tree, level: nat)
    ensures Width(x, level) == |Show(x, level)|
    decreases x, level
  {
    if Binding(x) < level {
      WidthShown(x, 0);
    } else if x.Bin? {
      WidthShown(x.l, Binding(x));
      WidthShown(x.r, Binding(x) + 1);
    }
  }

  /** Wherever the text of a tree occurs, it is laid out as `Laid` describes. */
  lemma {:induction false} LaidShown(s: seq<char>, p: nat, x: Tree, level: nat)
    requires HasPrefix(s, p, Show(x, level))
    ensures Laid(s, p, x, level)
    decreases x, level, 2
  {
    if Binding(x) < level {
      LaidShownParenthesised(s, p, x, level);
    } else if x.Bin? {
      LaidShownNode(s, p, x, level);
    } else {
      LaidShownLiteral(s, p, x, level);
    }
  }

  lemma {:induction false} LaidShownParenthesised(s: seq<char>, p: nat, x: Tree, level: nat)
    requires Binding(x) < level && HasPrefix(s, p, Show(x, level))
    ensures Laid(s, p, x, level)
    decreases x, level, 0
  {
    ParenthesisedText(s, p, x, level);
    WidthShown(x, 0);
    LaidShown(s, p + 1, x, 0);
    LaidParenthesised(s, p, x, level);
  }

  lemma {:induction false} LaidShownNode(s: seq<char>, p: nat, x: Tree, level: nat)
    requires x.Bin? && level <= Binding(x) && HasPrefix(s, p, Show(x, level))
    ensures Laid(s, p, x, level)
    decreases x, level, 1
  {
    var m := p + Width(x.l, Binding(x));
    NodeText(s, p, m, x, level);
    LaidOperands(s, p, m, x, level);
  }

  /** A node whose operands' texts are written around its operator at `m`. */
  lemma {:induction false} LaidOperands(s: seq<char>, p: nat, m: nat, x: Tree, level: nat)
    requires x.Bin? && level <= Binding(x) && m == p + Width(x.l, Binding(x))
    requires HasPrefix(s, p, Show(x.l, Binding(x))) && m < |s| && s[m] == Symbol(x.op)
    requires HasPrefix(s, m + 1, Show(x.r, Binding(x) + 1))
    ensures Laid(s, p, x, level)
    decreases x, level, 0
  {
    var b := Binding(x);
    LaidShown(s, p, x.l, b);
    LaidShown(s, m + 1, x.r, b + 1);
    LaidNode(s, p, m, x, level);
  }

  lemma LaidShownLiteral(s: seq<char>, p: nat, x: Tree, level: nat)
    requires x.Num? && level <= Binding(x) && HasPrefix(s, p, Show(x, level))
    ensures Laid(s, p, x, level)
  {
  }

  lemma LaidParenthesised(s: seq<char>, p: nat, x: Tree, level: nat)
    requires Binding(x) < level && p < |s| && s[p] == '(' && Laid(s, p + 1, x, 0)
    requires p + 1 + Width(x, 0) < |s| && s[p + 1 + Width(x, 0)] == ')'
    ensures Laid(s, p, x, level)
  {
  }

  lemma LaidNode(s: seq<char>, p: nat, m: nat, x: Tree, level: nat)
    requires x.Bin? && level <= Binding(x) && m == p + Width(x.l, Binding(x))
    requires Laid(s, p, x.l, Binding(x)) && m < |s| && s[m] == Symbol(x.op)
    requires Laid(s, m + 1, x.r, Binding(x) + 1)
    ensures Laid(s, p, x, level)
  {
  }

  /** The text of a tree shown above its binding: the text at level 0 in parentheses. */
  lemma ParenthesisedText(s: seq<char>, p: nat, x: Tree, level: nat)
    requires Binding(x) < level && HasPrefix(s, p, Show(x, level))
    ensures p < |s| && s[p] == '(' && HasPrefix(s, p + 1, Show(x, 0))
    ensures p + 1 + |Show(x, 0)| < |s| && s[p + 1 + |Show(x, 0)|] == ')'
  {
    Enclosed(s, p, '(', Show(x, 0), ')');
  }

  /** The text of a node at its own level: its operands' texts around its operator. */
  lemma NodeText(s: seq<char>, p: nat, m: nat, x: Tree, level: nat)
    requires x.Bin? && level <= Binding(x) && HasPrefix(s, p, Show(x, level)) && m == p + Width(x.l, Binding(x))
    ensures var b := Binding(x);
      HasPrefix(s, p, Show(x.l, b)) && m < |s| && s[m] == Symbol(x.op) && HasPrefix(s, m + 1, Show(x.r, b + 1))
  {
    var b := Binding(x);
    WidthShown(x.l, b);
    Around(s, p, Show(x.l, b), Symbol(x.op), Show(x.r, b + 1), m);
  }

  /** A node laid out at its own level `b` from `p` to `q`, with its operator at
      `m`: the left operand before it at level `b`, the right one after it at level
      `c`, and the operator ending the left operand. */
  lemma NodeAround(s: seq<char>, p: nat, m: nat, q: nat, x: Tree, b: nat, c: nat)
    requires x.Bin? && Binding(x) == b && c == b + 1
    requires Laid(s, p, x, b) && q == p + Width(x, b) && m == p + Width(x.l, b)
    ensures Laid(s, p, x.l, b) && m < |s| && s[m] == Symbol(x.op)
    ensures Laid(s, m + 1, x.r, c) && q == m + 1 + Width(x.r, c)
    ensures Boundary(s, m) && (b == 0 ==> Peek(s, m) != '*' && Peek(s, m) != '/')
  {
  }

  /** An operator node laid out as a factor from `p` to `q`: its text at level 0
      from `i` to `r`, between a `(` at `p` and a `)` at `r`. */
  lemma ParenthesesAround(s: seq<char>, p: nat, i: nat, r: nat, q: nat, x: Tree)
    requires x.Bin? && Laid(s, p, x, 2) && q == p + Width(x, 2)
    requires i == p + 1 && r + 1 == q
    ensures p < |s| && s[p] == '(' && Laid(s, i, x, 0) && r == i + Width(x, 0)
    ensures r < |s| && s[r] == ')' && Boundary(s, r) && Peek(s, r) != '*' && Peek(s, r) != '/'
  {
  }

  /** A literal or a parenthesised node is laid out alike where a term or a factor
      is expected. */
  lemma FactorLevel(s: seq<char>, p: nat, x: Tree)
    requires Binding(x) != 1
    ensures Width(x, 1) == Width(x, 2) && (Laid(s, p, x, 1) <==> Laid(s, p, x, 2))
  {
  }

  /** Anything but a sum is laid out alike where an expression or a term is expected. */
  lemma TermLevel(s: seq<char>, p: nat, x: Tree)
    requires Binding(x) != 0
    ensures Width(x, 0) == Width(x, 1) && (Laid(s, p, x, 0) <==> Laid(s, p, x, 1))
  {
  }

  /** A boundary ends a literal. */
  lemma BoundaryEndsLiteral(s: seq<char>, q: nat)
    requires Boundary(s, q)
    ensures LiteralEnd(s, q)
  {
  }

  /*
   The three levels, each for a tree laid out at that level. A level calls the
   next on the same tree when the tree's root does not belong to it, so the
   measure is the tree, then the distance of the level from the tree's own.
   */

  function Rank(x: Tree, level: nat): nat
  {
    2 * (if level <= Binding(x) then Binding(x) - level else if level <= Binding(x) + 3 then Binding(x) + 3 - level else 0) + 1
  }

  /** A laid-out factor is parsed by `parse_factor` in one piece, up to its end `q`. */
  lemma {:induction false} FactorShown(libm: Libm, x: Tree, s: seq<char>, p: nat, q: nat, e: bool)
    requires Laid(s, p, x, 2) && q == p + Width(x, 2)
    requires LiteralEnd(s, q)
    ensures Factor(libm, s, p, e) == Outcome(Eval(x).value, q, e || Eval(x).failed)
    decreases x, Rank(x, 2)
  {
    if x.Num? {
      FactorLiteral(libm, x, s, p, q, e);
    } else {
      FactorParenthesised(libm, x, s, p, q, e);
    }
  }

  lemma FactorLiteral(libm: Libm, x: Tree, s: seq<char>, p: nat, q: nat, e: bool)
    requires x.Num?
    requires Laid(s, p, x, 2) && q == p + Width(x, 2)
    requires LiteralEnd(s, q)
    ensures Factor(libm, s, p, e) == Outcome(Eval(x).value, q, e || Eval(x).failed)
  {
    var d := Decimal(x.n);
    assert s[p] == s[p..p + |d|][0] == d[0];
    assert TrigCall(s, p) == None;
    ConvertDecimal(s, p, x.n);
  }

  lemma {:induction false} FactorParenthesised(libm: Libm, x: Tree, s: seq<char>, p: nat, q: nat, e: bool)
    requires x.Bin?
    requires Laid(s, p, x, 2) && q == p + Width(x, 2)
    requires LiteralEnd(s, q)
    ensures Factor(libm, s, p, e) == Outcome(Eval(x).value, q, e || Eval(x).failed)
    decreases x, Rank(x, 2) - 1
  {
    var i, r := p + 1, q - 1;
    ParenthesesAround(s, p, i, r, q, x);
    ExpressionShown(libm, x, s, i, r, e);
    FactorOfGroup(libm, s, p, i, r, q, e, Eval(x).value, Eval(x).failed);
  }

  /** A laid-out term is parsed by `parse_term` up to its end `q`, where the
      multiplicative loop takes over with the term's value. */
  lemma {:induction false} TermShown(libm: Libm, x: Tree, s: seq<char>, p: nat, q: nat, e: bool)
    requires Laid(s, p, x, 1) && q == p + Width(x, 1)
    requires Boundary(s, q)
    ensures Term(libm, s, p, e) == TermLoop(libm, s, q, Eval(x).value, e || Eval(x).failed)
    decreases x, Rank(x, 1)
  {
    if Binding(x) == 1 {
      TermProduct(libm, x, s, p, q, e);
    } else {
      TermFactor(libm, x, s, p, q, e);
    }
  }

  lemma {:induction false} TermProduct(libm: Libm, x: Tree, s: seq<char>, p: nat, q: nat, e: bool)
    requires x.Bin? && Binding(x) == 1
    requires Laid(s, p, x, 1) && q == p + Width(x, 1)
    requires Boundary(s, q)
    ensures Term(libm, s, p, e) == TermLoop(libm, s, q, Eval(x).value, e || Eval(x).failed)
    decreases x, Rank(x, 1) - 1
  {
    var m := p + Width(x.l, 1);
    NodeAround(s, p, m, q, x, 1, 2);
    TermShown(libm, x.l, s, p, m, e);
    BoundaryEndsLiteral(s, q);
    FactorShown(libm, x.r, s, m + 1, q, e || Eval(x.l).failed);
    TermLoopOver(libm, x, s, m, e, q);
  }

  lemma {:induction false} TermFactor(libm: Libm, x: Tree, s: seq<char>, p: nat, q: nat, e: bool)
    requires Binding(x) != 1
    requires Laid(s, p, x, 1) && q == p + Width(x, 1)
    requires Boundary(s, q)
    ensures Term(libm, s, p, e) == TermLoop(libm, s, q, Eval(x).value, e || Eval(x).failed)
    decreases x, Rank(x, 1) - 1
  {
    FactorLevel(s, p, x);
    BoundaryEndsLiteral(s, q);
    FactorShown(libm, x, s, p, q, e);
    TermOfFactor(libm, s, p, e, Eval(x).value, q, Eval(x).failed);
  }

  /** A laid-out expression is parsed by `evaluate_expression` up to its end `q`,
      where the additive loop takes over with the expression's value. */
  lemma {:induction false} ExpressionShown(libm: Libm, x: Tree, s: seq<char>, p: nat, q: nat, e: bool)
    requires Laid(s, p, x, 0) && q == p + Width(x, 0)
    requires Boundary(s, q) && Peek(s, q) != '*' && Peek(s, q) != '/'
    ensures Expression(libm, s, p, e) == ExpressionLoop(libm, s, q, Eval(x).value, e || Eval(x).failed)
    decreases x, Rank(x, 0)
  {
    if Binding(x) == 0 {
      ExpressionSum(libm, x, s, p, q, e);
    } else {
      ExpressionTerm(libm, x, s, p, q, e);
    }
  }

  lemma {:induction false} ExpressionSum(libm: Libm, x: Tree, s: seq<char>, p: nat, q: nat, e: bool)
    requires x.Bin? && Binding(x) == 0
    requires Laid(s, p, x, 0) && q == p + Width(x, 0)
    requires Boundary(s, q) && Peek(s, q) != '*' && Peek(s, q) != '/'
    ensures Expression(libm, s, p, e) == ExpressionLoop(libm, s, q, Eval(x).value, e || Eval(x).failed)
    decreases x, Rank(x, 0) - 1
  {
    var m := p + Width(x.l, 0);
    NodeAround(s, p, m, q, x, 0, 1);
    ExpressionShown(libm, x.l, s, p, m, e);
    TermShown(libm, x.r, s, m + 1, q, e || Eval(x.l).failed);
    ExpressionLoopOver(libm, x, s, m, e, q);
  }

  lemma {:induction false} ExpressionTerm(libm: Libm, x: Tree, s: seq<char>, p: nat, q: nat, e: bool)
    requires Binding(x) != 0
    requires Laid(s, p, x, 0) && q == p + Width(x, 0)
    requires Boundary(s, q) && Peek(s, q) != '*' && Peek(s, q) != '/'
    ensures Expression(libm, s, p, e) == ExpressionLoop(libm, s, q, Eval(x).value, e || Eval(x).failed)
    decreases x, Rank(x, 0) - 1
  {
    TermLevel(s, p, x);
    TermShown(libm, x, s, p, q, e);
    ExpressionOfTerm(libm, s, p, e, Eval(x).value, q, Eval(x).failed);
  }

  /** What may follow a whole expression without being read as part of it. */
  predicate Trailer(t: seq<char>)
  {
    t == [] || (!IsSpace(t[0]) && LiteralEnd(t, 0) && t[0] !in "+-*/")
  }

  /** Precedence and left associativity: `calculate` on the text of any tree, followed
      by anything that does not continue it, returns the tree's value, reports an error
      exactly when the tree divides by zero, and reads exactly the tree's text. */
  lemma CalculationOfShown(libm: Libm, x: Tree, t: seq<char>)
    requires Trailer(t)
    ensures Calculation(libm, Show(x, 0) + t) == Outcome(Eval(x).value, |Show(x, 0)|, Eval(x).failed)
  {
    var w := Show(x, 0);
    var s := w + t;
    assert s[0..|w|] == w;
    LaidShown(s, 0, x, 0);
    WidthShown(x, 0);
    if t != [] {
      assert s[|w|] == t[0];
    }
    ExpressionShown(libm, x, s, 0, |w|, false);
  }
}
