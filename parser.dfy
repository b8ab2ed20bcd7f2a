/** The `Parser` class: one immutable input and one cursor that every rule
    moves forward. Each method is proved to compute what the matching rule of
    module Grammar computes, and to leave the cursor where that rule stops. */
module Calculator {
  import opened Errors
  import opened Lexical
  import opened Grammar

  /** A method's result `r` and final cursor `pos` agree with the rule outcome
      `o`: the same error, or the same value with the cursor where the rule
      stops. This is `o == Placed(r, pos)` (lemma AgreesPlaced), stated by
      cases on `o`, the form the method proofs use. */
  ghost predicate Agrees(r: Result, pos: nat, o: Outcome) {
    match o
    case Failed(e) => r == Failure(e)
    case Parsed(v, next) => r == Success(v) && pos == next
  }

  lemma AgreesPlaced(r: Result, pos: nat, o: Outcome)
    ensures Agrees(r, pos, o) <==> o == Placed(r, pos)
  {
  }

  class Parser {
    const expr: string
    var pos: nat

    ghost predicate Valid()
      reads this
    {
      pos <= |expr|
    }

    constructor (expression: string)
      ensures Valid() && expr == expression && pos == 0
    {
      expr := expression;
      pos := 0;
    }

    /** Evaluates the whole input; anything but whitespace after the
        expression is an error. */
    method Parse() returns (r: Result)
      requires Valid()
      modifies this
      ensures Valid() && old(pos) <= pos
      ensures r == ParseAt(expr, old(pos))
      ensures r.Success? ==> pos == |expr|
    {
      var value :- ParseExpression();
      SkipSpaces();
      if pos != |expr| {
        return Failure(TrailingInput);
      }
      r := Success(value);
    }

    method SkipSpaces()
      requires Valid()
      modifies this
      ensures Valid() && pos == SpacesEnd(expr, old(pos))
      ensures pos == |expr| || !IsSpace(expr[pos])
    {
      SpacesEndStops(expr, pos);
      while pos < |expr| && IsSpace(expr[pos])
        invariant old(pos) <= pos <= |expr|
        invariant SpacesEnd(expr, pos) == SpacesEnd(expr, old(pos))
        decreases |expr| - pos
      {
        pos := pos + 1;
      }
    }

    method ParseExpression() returns (r: Result)
      requires Valid()
      modifies this
      ensures Valid() && old(pos) <= pos
      ensures Agrees(r, pos, ExpressionAt(expr, old(pos)))
      decreases |expr| - pos, 3
    {
      var value :- ParseTerm();
      while true
        invariant Valid() && old(pos) <= pos
        invariant ExpressionTail(expr, pos, value) == ExpressionAt(expr, old(pos))
        decreases |expr| - pos
      {
        SkipSpaces();
        if pos >= |expr| {
          break;
        }
        var op := expr[pos];
        if op == '+' || op == '-' {
          pos := pos + 1;
          var rhs :- ParseTerm();
          value := AddSub(op, value, rhs);
        } else {
          break;
        }
      }
      r := Success(value);
    }

    method ParseTerm() returns (r: Result)
      requires Valid()
      modifies this
      ensures Valid() && old(pos) <= pos
      ensures Agrees(r, pos, TermAt(expr, old(pos)))
      decreases |expr| - pos, 2
    {
      var value :- ParseFactor();
      while true
        invariant Valid() && old(pos) <= pos
        invariant TermTail(expr, pos, value) == TermAt(expr, old(pos))
        decreases |expr| - pos
      {
        SkipSpaces();
        if pos >= |expr| {
          break;
        }
        var op := expr[pos];
        if op == '*' || op == '/' {
          pos := pos + 1;
          var rhs :- ParseFactor();
          value :- MulDiv(op, value, rhs);
        } else {
          break;
        }
      }
      r := Success(value);
    }

    method ParseFactor() returns (r: Result)
      requires Valid()
      modifies this
      ensures Valid() && old(pos) <= pos
      ensures Agrees(r, pos, FactorAt(expr, old(pos)))
      decreases |expr| - pos, 1
    {
      SkipSpaces();
      if pos >= |expr| {
        return Failure(UnexpectedEnd);
      }
      var current := expr[pos];
      if current == '+' {
        pos := pos + 1;
        r := ParseFactor();
        return;
      }
      if current == '-' {
        pos := pos + 1;
        var value :- ParseFactor();
        return Success(-value);
      }
      if current == '(' {
        pos := pos + 1;
        var value :- ParseExpression();
        SkipSpaces();
        if pos >= |expr| || expr[pos] != ')' {
          return Failure(UnmatchedParen);
        }
        pos := pos + 1;
        return Success(value);
      }
      r := ParseNumber();
    }

    method ParseNumber() returns (r: Result)
      requires Valid()
      modifies this
      ensures Valid() && old(pos) <= pos
      ensures Agrees(r, pos, NumberAt(expr, old(pos)))
      decreases |expr| - pos, 0
    {
      SkipSpaces();
      var start := pos;
      var hasDigit := false;
      var hasDot := false;
      while pos < |expr|
        invariant start <= pos <= |expr| && (hasDigit ==> start < pos)
        invariant LiteralScan(expr, start, pos, hasDigit, hasDot) == NumberAt(expr, old(pos))
        decreases |expr| - pos
      {
        var c := expr[pos];
        if IsDigit(c) {
          hasDigit := true;
          pos := pos + 1;
        } else if c == '.' {
          if hasDot {
            return Failure(MalformedNumber);
          }
          hasDot := true;
          pos := pos + 1;
        } else {
          break;
        }
      }
      if !hasDigit {
        return Failure(ExpectedNumber);
      }
      r := Success(LiteralValue(expr[start..pos]));
    }
  }

  /** What a caller of the class does: build a parser over the text, then
      call `parse` once. */
  method Calculate(text: string) returns (r: Result)
    ensures r == Evaluate(text)
  {
    var parser := new Parser(text);
    r := parser.Parse();
  }
}
