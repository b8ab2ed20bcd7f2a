/** What the round trip and the rules imply for whole inputs: left
    associativity, precedence, parentheses, unary signs, the division guard,
    the error each malformed input draws, and the calculator's own test
    cases (tests.cpp). */
module Properties {
  import opened Errors
  import opened Lexical
  import opened Grammar
  import opened Syntax
  import opened RoundTrip

  /** A written tree, with no whitespace around it, reads as its value. */
  lemma Reads(e: Expr)
    requires WfExpr(e)
    ensures Evaluate(ShowExpr(e)) == EvalExpr(e)
  {
    Printed(e, "", "");
    assert "" + ShowExpr(e) + "" == ShowExpr(e);
  }

  /** Regrouping a concatenation of text. */
  lemma Regroup(a: string, b: string, c: string)
    ensures a + (b + c) == a + b + c
  {
  }

  /* One lemma per tree shape the properties below write out: how the shape
     is checked, written and evaluated, one constructor at a time. */

  lemma Atom(x: Factor)
    ensures WfTerm(Unit(x)) == WfFactor(x) && WfExpr(Single(Unit(x))) == WfFactor(x)
    ensures ShowTerm(Unit(x)) == ShowFactor(x) && ShowExpr(Single(Unit(x))) == ShowFactor(x)
    ensures EvalTerm(Unit(x)) == EvalFactor(x) && EvalExpr(Single(Unit(x))) == EvalFactor(x)
  {
  }

  lemma Lone(t: Term)
    ensures WfExpr(Single(t)) == WfTerm(t)
    ensures ShowExpr(Single(t)) == ShowTerm(t)
    ensures EvalExpr(Single(t)) == EvalTerm(t)
  {
  }

  lemma Sum(l: Expr, r: Term)
    ensures WfExpr(Add(l, r)) == (WfExpr(l) && WfTerm(r))
    ensures ShowExpr(Add(l, r)) == ShowExpr(l) + " + " + ShowTerm(r)
    ensures EvalExpr(Add(l, r)) ==
      var a :- EvalExpr(l);
      var b :- EvalTerm(r);
      Success(a + b)
  {
  }

  lemma Difference(l: Expr, r: Term)
    ensures WfExpr(Sub(l, r)) == (WfExpr(l) && WfTerm(r))
    ensures ShowExpr(Sub(l, r)) == ShowExpr(l) + " - " + ShowTerm(r)
    ensures EvalExpr(Sub(l, r)) ==
      var a :- EvalExpr(l);
      var b :- EvalTerm(r);
      Success(a - b)
  {
  }

  lemma Product(l: Term, r: Factor)
    ensures WfTerm(Mul(l, r)) == (WfTerm(l) && WfFactor(r))
    ensures ShowTerm(Mul(l, r)) == ShowTerm(l) + " * " + ShowFactor(r)
    ensures EvalTerm(Mul(l, r)) ==
      var a :- EvalTerm(l);
      var b :- EvalFactor(r);
      MulDiv('*', a, b)
  {
  }

  lemma Quotient(l: Term, r: Factor)
    ensures WfTerm(Div(l, r)) == (WfTerm(l) && WfFactor(r))
    ensures ShowTerm(Div(l, r)) == ShowTerm(l) + " / " + ShowFactor(r)
    ensures EvalTerm(Div(l, r)) ==
      var a :- EvalTerm(l);
      var b :- EvalFactor(r);
      MulDiv('/', a, b)
  {
  }

  lemma Group(e: Expr)
    ensures WfFactor(Paren(e)) == WfExpr(e)
    ensures ShowFactor(Paren(e)) == "(" + ShowExpr(e) + ")"
    ensures EvalFactor(Paren(e)) == EvalExpr(e)
  {
  }

  lemma Negated(x: Factor)
    ensures WfFactor(Neg(x)) == WfFactor(x)
    ensures ShowFactor(Neg(x)) == "-" + ShowFactor(x)
    ensures EvalFactor(Neg(x)) == (var a :- EvalFactor(x); Success(-a))
  {
  }

  lemma Plus(x: Factor)
    ensures WfFactor(Pos(x)) == WfFactor(x)
    ensures ShowFactor(Pos(x)) == "+" + ShowFactor(x)
    ensures EvalFactor(Pos(x)) == EvalFactor(x)
  {
  }

  lemma Times(a: real, b: real)
    ensures MulDiv('*', a, b) == Success(a * b)
  {
  }

  /* The properties below take operands that evaluate; an operand that fails
     makes the whole input fail with its error, which `Evaluates` states for
     every tree. */

  /** `x - y - z` is `(x - y) - z`: the expression loop folds left to right. */
  lemma SubtractionLeftAssociative(x: Factor, y: Factor, z: Factor, a: real, b: real, c: real)
    requires WfFactor(x) && WfFactor(y) && WfFactor(z)
    requires EvalFactor(x) == Success(a) && EvalFactor(y) == Success(b) && EvalFactor(z) == Success(c)
    ensures Evaluate(ShowFactor(x) + " - " + ShowFactor(y) + " - " + ShowFactor(z)) == Success((a - b) - c)
  {
    var l := Sub(Single(Unit(x)), Unit(y));
    Atom(x);
    Atom(y);
    Atom(z);
    Difference(Single(Unit(x)), Unit(y));
    Difference(l, Unit(z));
    Reads(Sub(l, Unit(z)));
  }

  /** `x / y / z` is `(x / y) / z`: the term loop folds left to right, and
      guards each divisor in turn. */
  lemma DivisionLeftAssociative(x: Factor, y: Factor, z: Factor, a: real, b: real, c: real)
    requires WfFactor(x) && WfFactor(y) && WfFactor(z)
    requires EvalFactor(x) == Success(a) && EvalFactor(y) == Success(b) && EvalFactor(z) == Success(c)
    ensures Evaluate(ShowFactor(x) + " / " + ShowFactor(y) + " / " + ShowFactor(z)) ==
      if Abs(b) < EPS || Abs(c) < EPS then Failure(DivisionByZero) else Success((a / b) / c)
  {
    var l := Div(Unit(x), y);
    var t := Div(l, z);
    Atom(x);
    Quotient(Unit(x), y);
    assert EvalTerm(l) == MulDiv('/', a, b);
    Quotient(l, z);
    Lone(t);
    Reads(Single(t));
  }

  /** `x + y * z` is `x + (y * z)`: `*` binds tighter than `+`. */
  lemma ProductBeforeSum(x: Factor, y: Factor, z: Factor, a: real, b: real, c: real)
    requires WfFactor(x) && WfFactor(y) && WfFactor(z)
    requires EvalFactor(x) == Success(a) && EvalFactor(y) == Success(b) && EvalFactor(z) == Success(c)
    ensures Evaluate(ShowFactor(x) + " + " + ShowFactor(y) + " * " + ShowFactor(z)) == Success(a + b * c)
  {
    var r := Mul(Unit(y), z);
    var e := Add(Single(Unit(x)), r);
    Atom(x);
    Atom(y);
    Product(Unit(y), z);
    assert EvalTerm(r) == MulDiv('*', b, c);
    Times(b, c);
    Sum(Single(Unit(x)), r);
    Regroup(ShowFactor(x) + " + ", ShowFactor(y) + " * ", ShowFactor(z));
    Regroup(ShowFactor(x) + " + ", ShowFactor(y), " * ");
    Reads(e);
  }

  /** `(x + y) * z` multiplies the sum: parentheses override precedence. */
  lemma ParenthesesFirst(x: Factor, y: Factor, z: Factor, a: real, b: real, c: real)
    requires WfFactor(x) && WfFactor(y) && WfFactor(z)
    requires EvalFactor(x) == Success(a) && EvalFactor(y) == Success(b) && EvalFactor(z) == Success(c)
    ensures Evaluate("(" + ShowFactor(x) + " + " + ShowFactor(y) + ") * " + ShowFactor(z)) == Success((a + b) * c)
  {
    var sum := Add(Single(Unit(x)), Unit(y));
    var t := Mul(Unit(Paren(sum)), z);
    Atom(x);
    Atom(y);
    Sum(Single(Unit(x)), Unit(y));
    Group(sum);
    Atom(Paren(sum));
    Product(Unit(Paren(sum)), z);
    assert EvalTerm(t) == MulDiv('*', a + b, c);
    Times(a + b, c);
    Lone(t);
    var inner := "(" + ShowFactor(x) + " + " + ShowFactor(y);
    Regroup("(", ShowFactor(x) + " + ", ShowFactor(y));
    Regroup("(", ShowFactor(x), " + ");
    assert ShowFactor(Paren(sum)) == inner + ")";
    assert ")" + " * " == ") * ";
    Regroup(inner, ")", " * ");
    assert ShowTerm(t) == inner + ") * " + ShowFactor(z);
    Reads(Single(t));
  }

  /** `-x + y` is `(-x) + y`: a sign binds tighter than a binary operator. */
  lemma SignBeforeSum(x: Factor, y: Factor, a: real, b: real)
    requires WfFactor(x) && WfFactor(y)
    requires EvalFactor(x) == Success(a) && EvalFactor(y) == Success(b)
    ensures Evaluate("-" + ShowFactor(x) + " + " + ShowFactor(y)) == Success(-a + b)
  {
    Negated(x);
    Atom(Neg(x));
    Atom(y);
    Sum(Single(Unit(Neg(x))), Unit(y));
    Reads(Add(Single(Unit(Neg(x))), Unit(y)));
  }

  /** `x / y` fails with DivisionByZero exactly when the divisor is within
      machine epsilon of zero, and is the quotient otherwise. */
  lemma DivisionGuard(x: Factor, y: Factor, a: real, b: real)
    requires WfFactor(x) && WfFactor(y)
    requires EvalFactor(x) == Success(a) && EvalFactor(y) == Success(b)
    ensures Evaluate(ShowFactor(x) + " / " + ShowFactor(y)) == Failure(DivisionByZero) <==> Abs(b) < EPS
    ensures Abs(b) >= EPS ==> Evaluate(ShowFactor(x) + " / " + ShowFactor(y)) == Success(a / b)
  {
    var t := Div(Unit(x), y);
    Atom(x);
    Quotient(Unit(x), y);
    assert EvalTerm(t) == MulDiv('/', a, b);
    Lone(t);
    Reads(Single(t));
  }

  /** A run of unary signs. */
  predicate IsSigns(signs: string) {
    forall i :: 0 <= i < |signs| ==> signs[i] == '+' || signs[i] == '-'
  }

  function MinusCount(signs: string): nat {
    if signs == [] then 0 else (if signs[0] == '-' then 1 else 0) + MinusCount(signs[1..])
  }

  /** The factor `f` under the signs `signs`, outermost first. */
  function Signed(signs: string, f: Factor): Factor
    requires IsSigns(signs)
  {
    if signs == [] then f
    else if signs[0] == '-' then Neg(Signed(signs[1..], f))
    else Pos(Signed(signs[1..], f))
  }

  /** One more sign flips the parity. */
  lemma Flip(m: nat)
    ensures ((1 + m) % 2 == 0) == (m % 2 != 0)
  {
  }

  /** The signed factor is written as the signs followed by the factor. */
  lemma {:induction false} SignedShape(signs: string, f: Factor)
    requires IsSigns(signs)
    ensures WfFactor(Signed(signs, f)) == WfFactor(f)
    ensures ShowFactor(Signed(signs, f)) == signs + ShowFactor(f)
  {
    if signs != [] {
      var g := Signed(signs[1..], f);
      SignedShape(signs[1..], f);
      assert signs == [signs[0]] + signs[1..];
      Regroup([signs[0]], signs[1..], ShowFactor(f));
      if signs[0] == '-' {
        assert Signed(signs, f) == Neg(g);
        Negated(g);
      } else {
        assert Signed(signs, f) == Pos(g);
        Plus(g);
      }
    }
  }

  /** Each `-` negates once and each `+` leaves the value alone. */
  lemma {:induction false} SignedFactor(signs: string, f: Factor, a: real)
    requires IsSigns(signs) && EvalFactor(f) == Success(a)
    ensures EvalFactor(Signed(signs, f)) == Success(if MinusCount(signs) % 2 == 0 then a else -a)
  {
    if signs != [] {
      var g := Signed(signs[1..], f);
      SignedFactor(signs[1..], f, a);
      var m := MinusCount(signs[1..]);
      var b := if m % 2 == 0 then a else -a;
      assert EvalFactor(g) == Success(b);
      if signs[0] == '-' {
        assert Signed(signs, f) == Neg(g);
        assert MinusCount(signs) == 1 + m;
        Flip(m);
        Negated(g);
        assert EvalFactor(Neg(g)) == Success(-b);
      } else {
        assert Signed(signs, f) == Pos(g);
        assert MinusCount(signs) == m;
        Plus(g);
      }
    }
  }

  /** A factor after any run of signs reads as itself, negated when the run
      holds an odd number of `-`. */
  lemma SignParity(signs: string, f: Factor, a: real)
    requires IsSigns(signs) && WfFactor(f) && EvalFactor(f) == Success(a)
    ensures Evaluate(signs + ShowFactor(f)) == Success(if MinusCount(signs) % 2 == 0 then a else -a)
  {
    var g := Signed(signs, f);
    SignedShape(signs, f);
    SignedFactor(signs, f, a);
    Atom(g);
    Reads(Single(Unit(g)));
  }

  /** `s` is the written tree `e` followed by the text `rest`. */
  lemma ShownPrefix(e: Expr, rest: string, s: string)
    requires s == ShowExpr(e) + rest
    ensures ShownAt(s, 0, ShowExpr(e)) && Blank(s, 0, 0)
  {
    forall j | 0 <= j < |ShowExpr(e)|
      ensures s[0 + j] == ShowExpr(e)[j]
    {
    }
  }

  /** An expression followed by a `+` or `-` with nothing after it: the
      operand the loop then looks for is missing. */
  lemma OperandMissing(e: Expr, op: char)
    requires WfExpr(e) && (op == '+' || op == '-')
    ensures Evaluate(ShowExpr(e) + " " + [op]) ==
      if EvalExpr(e).Failure? then EvalExpr(e) else Failure(UnexpectedEnd)
  {
    var w := ShowExpr(e);
    var s := w + " " + [op];
    var end := |w|;
    ShownPrefix(e, " " + [op], s);
    assert s[end] == ' ' && s[end + 1] == op;
    SpacesEndAt(s, end, end + 1);
    ExprShown(e, s, 0, 0);
    ExprRoundTrip(e, s, 0);
    if EvalExpr(e).Success? {
      ExpressionTailTurn(s, end, end + 1, EvalExpr(e).value);
      SpacesEndAt(s, end + 2, end + 2);
    }
  }

  /** An opening parenthesis whose expression is followed by the end of
      the input, or by a character that is not `)` and can neither extend
      the expression nor be skipped. */
  lemma ParenUnclosed(e: Expr, rest: string)
    requires WfExpr(e) && |rest| <= 1
    requires rest != [] ==> rest[0] != ')' && !IsSpace(rest[0]) && !IsLiteralChar(rest[0])
    requires rest != [] ==> rest[0] != '+' && rest[0] != '-' && rest[0] != '*' && rest[0] != '/'
    ensures Evaluate("(" + ShowExpr(e) + rest) ==
      if EvalExpr(e).Failure? then EvalExpr(e) else Failure(UnmatchedParen)
  {
    var w := ShowExpr(e);
    var s := "(" + w + rest;
    var end := 1 + |w|;
    assert ShownAt(s, 1, w) by {
      forall j | 0 <= j < |w|
        ensures s[1 + j] == w[j]
      {
      }
    }
    if rest != [] {
      assert s[end] == rest[0];
    }
    SpacesEndAt(s, end, end);
    ExprShown(e, s, 1, 1);
    ExprRoundTrip(e, s, 1);
    UnclosedAt(s, EvalExpr(e), end);
  }

  lemma UnclosedAt(s: string, r: Result, end: nat)
    requires 0 < end <= |s| && s[0] == '('
    requires SpacesEnd(s, end) == end
    requires end < |s| ==> s[end] != ')' && s[end] != '+' && s[end] != '-'
    requires ExpressionAt(s, 1) == ThenExpressionTail(r, s, end)
    ensures ParseAt(s, 0) == if r.Failure? then r else Failure(UnmatchedParen)
  {
    SpacesEndAt(s, 0, 0);
    FactorParen(s, 0, 0);
    if r.Success? {
      ExpressionTailStops(s, end, r.value);
      assert ExpressionAt(s, 1) == Parsed(r.value, end);
      assert FactorAt(s, 0) == Failed(UnmatchedParen);
    } else {
      assert FactorAt(s, 0) == Failed(r.error);
    }
    assert TermAt(s, 0) == FactorAt(s, 0);
    assert ExpressionAt(s, 0) == FactorAt(s, 0);
  }

  /** A complete expression followed by a character that can neither extend
      it nor be skipped. */
  lemma TrailingCharacter(e: Expr, c: char)
    requires WfExpr(e) && !IsSpace(c) && !IsLiteralChar(c)
    requires c != '+' && c != '-' && c != '*' && c != '/'
    ensures Evaluate(ShowExpr(e) + [c]) ==
      if EvalExpr(e).Failure? then EvalExpr(e) else Failure(TrailingInput)
  {
    var w := ShowExpr(e);
    var s := w + [c];
    ShownPrefix(e, [c], s);
    assert s[|w|] == c;
    SpacesEndAt(s, |w|, |w|);
    ExprShown(e, s, 0, 0);
    ExprRoundTrip(e, s, 0);
    if EvalExpr(e).Success? {
      ExpressionTailStops(s, |w|, EvalExpr(e).value);
    }
  }

  /** The literals the test cases use. */
  lemma Digit(t: string)
    requires |t| == 1 && IsDigit(t[0])
    ensures IsLiteral(t) && LiteralValue(t) == DigitValue(t[0]) as real
  {
    assert t[..0] == [] && t[1..] == [];
    assert Mantissa(t) == DigitValue(t[0]);
    assert FractionDigits(t) == 0;
  }

  lemma Ten()
    ensures IsLiteral("10") && LiteralValue("10") == 10.0
  {
    assert "10"[..1] == "1" && "1"[..0] == "";
    assert IsDigit("10"[0]);
  }

  lemma Halves()
    ensures IsLiteral("3.5") && LiteralValue("3.5") == 3.5
    ensures IsLiteral("0.5") && LiteralValue("0.5") == 0.5
  {
    assert "3.5"[..2] == "3." && "3."[..1] == "3" && "3"[..0] == "";
    assert "0.5"[..2] == "0." && "0."[..1] == "0" && "0"[..0] == "";
    assert ".5"[1..] == "5" && "5"[1..] == "";
    assert IsDigit("3.5"[0]) && IsDigit("0.5"[0]);
  }
}
