/** The calculator's own test cases (tests.cpp), each one proved from the
    round trip or from the properties it illustrates. */
module CalculatorTests {
  import opened Errors
  import opened Grammar
  import opened Syntax
  import opened RoundTrip
  import opened Properties

  lemma Addition(s: string)
    requires s == "3 + 4"
    ensures Evaluate(s) == Success(7.0)
  {
    Digit("3");
    Digit("4");
    var e := Add(Single(Unit(Num("3"))), Unit(Num("4")));
    Printed(e, "", "");
    assert "" + ShowExpr(e) + "" == s;
  }

  lemma SubtractionWithWhitespace(s: string)
    requires s == " 5 - 3 "
    ensures Evaluate(s) == Success(2.0)
  {
    Digit("5");
    Digit("3");
    var e := Sub(Single(Unit(Num("5"))), Unit(Num("3")));
    Printed(e, " ", " ");
    assert " " + ShowExpr(e) + " " == s;
  }

  lemma MultiplicationPrecedence(s: string)
    requires s == "2 + 3 * 4"
    ensures Evaluate(s) == Success(14.0)
  {
    Digit("2");
    Digit("3");
    Digit("4");
    var r := Mul(Unit(Num("3")), Num("4"));
    var e := Add(Single(Unit(Num("2"))), r);
    assert EvalTerm(r) == Success(12.0);
    assert ShowTerm(r) == "3 * 4";
    Printed(e, "", "");
    assert "" + ShowExpr(e) + "" == s;
  }

  lemma ParenthesesGroup(s: string)
    requires s == "(2 + 3) * 4"
    ensures Evaluate(s) == Success(20.0)
  {
    Digit("2");
    Digit("3");
    Digit("4");
    ParenthesesFirst(Num("2"), Num("3"), Num("4"), 2.0, 3.0, 4.0);
    assert "(" + "2" + " + " + "3" + ") * " + "4" == s;
  }

  lemma NegatedGroup(s: string)
    requires s == "-(2 + 3)"
    ensures Evaluate(s) == Success(-5.0)
  {
    Digit("2");
    Digit("3");
    var sum := Add(Single(Unit(Num("2"))), Unit(Num("3")));
    assert ShowExpr(sum) == "2 + 3" && EvalExpr(sum) == Success(5.0);
    Group(sum);
    SignParity("-", Paren(sum), 5.0);
    assert "-" + ShowFactor(Paren(sum)) == s;
  }

  lemma PositiveGroup(s: string)
    requires s == "+(2 * 3)"
    ensures Evaluate(s) == Success(6.0)
  {
    Digit("2");
    Digit("3");
    var product := Single(Mul(Unit(Num("2")), Num("3")));
    assert ShowExpr(product) == "2 * 3" && EvalExpr(product) == Success(6.0);
    Group(product);
    SignParity("+", Paren(product), 6.0);
    assert "+" + ShowFactor(Paren(product)) == s;
  }

  lemma NestedNegations(s: string)
    requires s == "-(-(-1))"
    ensures Evaluate(s) == Success(-1.0)
  {
    Digit("1");
    var inner := Single(Unit(Neg(Num("1"))));
    assert ShowExpr(inner) == "-1" && EvalExpr(inner) == Success(-1.0);
    var middle := Single(Unit(Neg(Paren(inner))));
    Group(inner);
    assert ShowExpr(middle) == "-(-1)" && EvalExpr(middle) == Success(1.0);
    Group(middle);
    SignParity("-", Paren(middle), 1.0);
    assert "-" + ShowFactor(Paren(middle)) == s;
  }

  lemma DecimalNumbers(s: string)
    requires s == "3.5 + 0.5"
    ensures Evaluate(s) == Success(4.0)
  {
    Halves();
    var e := Add(Single(Unit(Num("3.5"))), Unit(Num("0.5")));
    Printed(e, "", "");
    assert "" + ShowExpr(e) + "" == s;
  }

  lemma TrailingCharacters(s: string)
    requires s == "2 + 3a"
    ensures Evaluate(s) == Failure(TrailingInput)
  {
    Digit("2");
    Digit("3");
    var e := Add(Single(Unit(Num("2"))), Unit(Num("3")));
    assert WfExpr(e) && EvalExpr(e) == Success(5.0);
    TrailingCharacter(e, 'a');
    assert ShowExpr(e) + ['a'] == s;
  }

  lemma MissingClosingParenthesis(s: string)
    requires s == "(2 + 3"
    ensures Evaluate(s) == Failure(UnmatchedParen)
  {
    Digit("2");
    Digit("3");
    var e := Add(Single(Unit(Num("2"))), Unit(Num("3")));
    assert WfExpr(e) && EvalExpr(e) == Success(5.0);
    ParenUnclosed(e, "");
    assert "(" + ShowExpr(e) + "" == s;
  }

  lemma DivisionByZeroRejected(s: string)
    requires s == "10 / 0"
    ensures Evaluate(s) == Failure(DivisionByZero)
  {
    Ten();
    Digit("0");
    DivisionGuard(Num("10"), Num("0"), 10.0, 0.0);
    assert "10" + " / " + "0" == s;
  }

  lemma UnexpectedEndRejected(s: string)
    requires s == "5 +"
    ensures Evaluate(s) == Failure(UnexpectedEnd)
  {
    Digit("5");
    var e := Single(Unit(Num("5")));
    assert WfExpr(e) && EvalExpr(e) == Success(5.0);
    OperandMissing(e, '+');
    assert ShowExpr(e) + " " + ['+'] == s;
  }

  lemma InvalidNumberFormat(s: string)
    requires s == "2..3"
    ensures Evaluate(s) == Failure(MalformedNumber)
  {
    SpacesEndAt(s, 0, 0);
    assert LiteralScan(s, 0, 2, true, true) == Failed(MalformedNumber);
    assert LiteralScan(s, 0, 1, true, false) == Failed(MalformedNumber);
    assert NumberAt(s, 0) == Failed(MalformedNumber);
    assert FactorAt(s, 0) == Failed(MalformedNumber);
    assert TermAt(s, 0) == Failed(MalformedNumber);
    assert ExpressionAt(s, 0) == Failed(MalformedNumber);
  }

  lemma MissingNumber(s: string)
    requires s == "2 + * 3"
    ensures Evaluate(s) == Failure(ExpectedNumber)
  {
    Digit("2");
    assert ShownAt(s, 0, ShowFactor(Num("2"))) && Blank(s, 0, 0) && LiteralStops(s, 1);
    FactorShown(Num("2"), s, 0, 0);
    NumRoundTrip(Num("2"), s, 0);
    SpacesEndAt(s, 1, 2);
    TermTailStops(s, 1, 2.0);
    assert TermAt(s, 0) == Parsed(2.0, 2);
    SpacesEndAt(s, 2, 2);
    SpacesEndAt(s, 3, 4);
    SpacesEndAt(s, 4, 4);
    assert NumberAt(s, 4) == Failed(ExpectedNumber);
    assert FactorAt(s, 3) == Failed(ExpectedNumber);
    assert TermAt(s, 3) == Failed(ExpectedNumber);
    ExpressionTailTurn(s, 2, 2, 2.0);
    assert ExpressionAt(s, 0) == Failed(ExpectedNumber);
  }

  lemma WhitespaceOnlyUnary(s: string)
    requires s == " - 3"
    ensures Evaluate(s) == Success(-3.0)
  {
    Digit("3");
    SpacesEndAt(s, 0, 1);
    assert ShownAt(s, 3, ShowFactor(Num("3"))) && Blank(s, 2, 3) && LiteralStops(s, 4);
    FactorShown(Num("3"), s, 2, 3);
    NumRoundTrip(Num("3"), s, 2);
    FactorMinus(s, 0, 1);
    assert FactorAt(s, 0) == Parsed(-3.0, 4);
    SpacesEndAt(s, 4, 4);
    TermTailStops(s, 4, -3.0);
    ExpressionTailStops(s, 4, -3.0);
    assert ExpressionAt(s, 0) == Parsed(-3.0, 4);
  }
}
