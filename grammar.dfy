/** The parser as pure functions that thread the cursor: each rule takes the
    input and a start position and returns the value it computes together with
    the position where it stops, or the error it throws. These functions are
    the specification the `Parser` class is proved against. */
module Grammar {
  import opened Errors
  import opened Lexical

  /** `std::numeric_limits<double>::epsilon()`, which is 2^-52. */
  const EPS: real := 1.0 / 4503599627370496.0

  /** `std::abs` on a value. */
  function Abs(x: real): real {
    if x < 0.0 then -x else x
  }

  /** What a rule produces: the value it read and the cursor position it
      leaves behind, or the error it throws. */
  datatype Outcome = Parsed(value: real, next: nat) | Failed(error: Err)

  /** A value placed at cursor `n`, or the error unchanged: the outcome a
      rule has when it returns `r` and leaves the cursor at `n`. */
  function Placed(r: Result, n: nat): Outcome {
    match r
    case Failure(err) => Failed(err)
    case Success(v) => Parsed(v, n)
  }

  /** `skipSpaces`: the first position at or after `p` that does not hold
      whitespace, or the end of the input. */
  function SpacesEnd(s: string, p: nat): (q: nat)
    requires p <= |s|
    ensures p <= q <= |s|
    decreases |s| - p
  {
    if p < |s| && IsSpace(s[p]) then SpacesEnd(s, p + 1) else p
  }

  /** `skipSpaces` passes over whitespace only, and stops at the first
      non-space character or at the end of the input. */
  lemma {:induction false} SpacesEndStops(s: string, p: nat)
    requires p <= |s|
    ensures forall i :: p <= i < SpacesEnd(s, p) ==> IsSpace(s[i])
    ensures SpacesEnd(s, p) == |s| || !IsSpace(s[SpacesEnd(s, p)])
    decreases |s| - p
  {
    if p < |s| && IsSpace(s[p]) {
      SpacesEndStops(s, p + 1);
    }
  }

  /** The end of the run of digits and dots that starts at `p`. */
  function LiteralEnd(s: string, p: nat): (q: nat)
    requires p <= |s|
    ensures p <= q <= |s|
    decreases |s| - p
  {
    if p < |s| && IsLiteralChar(s[p]) then LiteralEnd(s, p + 1) else p
  }

  /** The run of digits and dots from `p` is maximal. */
  lemma {:induction false} LiteralEndStops(s: string, p: nat)
    requires p <= |s|
    ensures forall i :: p <= i < LiteralEnd(s, p) ==> IsLiteralChar(s[i])
    ensures LiteralEnd(s, p) == |s| || !IsLiteralChar(s[LiteralEnd(s, p)])
    decreases |s| - p
  {
    if p < |s| && IsLiteralChar(s[p]) {
      LiteralEndStops(s, p + 1);
    }
  }

  /** The digit loop of `parseNumber` from index `i`, for the literal that
      starts at `start`, having seen a digit (`digit`) and a dot (`dot`)
      before `i`. A second dot ends the scan at once. */
  function LiteralScan(s: string, start: nat, i: nat, digit: bool, dot: bool): (r: Outcome)
    requires start <= i <= |s| && (digit ==> start < i)
    ensures r.Parsed? ==> start < r.next <= |s|
    decreases |s| - i
  {
    if i < |s| && IsDigit(s[i]) then LiteralScan(s, start, i + 1, true, dot)
    else if i < |s| && s[i] == '.' then
      if dot then Failed(MalformedNumber) else LiteralScan(s, start, i + 1, digit, true)
    else if !digit then Failed(ExpectedNumber)
    else Parsed(LiteralValue(s[start..i]), i)
  }

  /** `parseNumber`: whitespace, then the digit loop from a clean state. */
  function NumberAt(s: string, p: nat): (r: Outcome)
    requires p <= |s|
    ensures r.Parsed? ==> p <= SpacesEnd(s, p) < r.next <= |s|
  {
    var q := SpacesEnd(s, p);
    LiteralScan(s, q, q, false, false)
  }

  /** The number rule stated on the whole run of digits and dots at `q`
      rather than character by character: two dots or more are a malformed
      number, no digit is a missing number, anything else is a literal. */
  function LiteralRule(s: string, q: nat): Outcome
    requires q <= |s|
  {
    var e := LiteralEnd(s, q);
    var t := s[q..e];
    if DotCount(t) >= 2 then Failed(MalformedNumber)
    else if !HasDigit(t) then Failed(ExpectedNumber)
    else Parsed(LiteralValue(t), e)
  }

  /** The digit loop, part way through the run, agrees with the rule on the
      whole run. */
  lemma {:induction false} LiteralScanRun(s: string, start: nat, i: nat, digit: bool, dot: bool)
    requires start <= |s| && start <= i <= LiteralEnd(s, start)
    requires digit == HasDigit(s[start..i])
    requires DotCount(s[start..i]) <= 1 && dot == (DotCount(s[start..i]) == 1)
    ensures digit ==> start < i
    ensures LiteralScan(s, start, i, digit, dot) == LiteralRule(s, start)
    decreases |s| - i
  {
    LiteralEndStops(s, start);
    var e := LiteralEnd(s, start);
    if digit {
      var j :| 0 <= j < i - start && IsDigit(s[start..i][j]);
    }
    if i < e {
      var c := s[i];
      assert s[start..i + 1] == s[start..i] + [c];
      DotCountAppend(s[start..i], [c]);
      HasDigitAppend(s[start..i], c);
      if IsDigit(c) {
        LiteralScanRun(s, start, i + 1, true, dot);
      } else if dot {
        assert s[start..e] == s[start..i + 1] + s[i + 1..e];
        DotCountAppend(s[start..i + 1], s[i + 1..e]);
        assert LiteralScan(s, start, i, digit, dot) == Failed(MalformedNumber);
      } else {
        LiteralScanRun(s, start, i + 1, digit, true);
      }
    } else {
      assert i == e && s[start..i] == s[start..e];
      assert i == |s| || (!IsDigit(s[i]) && s[i] != '.');
    }
  }

  /** `parseNumber` follows the number rule, and what it accepts is a
      literal: digits and dots, at least one digit, at most one dot. */
  lemma NumberAtRule(s: string, p: nat)
    requires p <= |s|
    ensures NumberAt(s, p) == LiteralRule(s, SpacesEnd(s, p))
    ensures NumberAt(s, p).Parsed? ==> IsLiteral(s[SpacesEnd(s, p)..NumberAt(s, p).next])
  {
    var q := SpacesEnd(s, p);
    assert s[q..q] == [];
    LiteralScanRun(s, q, q, false, false);
    LiteralEndStops(s, q);
  }

  /** `parseFactor`: a signed factor, a parenthesised expression or a number. */
  function FactorAt(s: string, p: nat): (r: Outcome)
    requires p <= |s|
    ensures r.Parsed? ==> p < r.next <= |s|
    decreases |s| - p, 1
  {
    var q := SpacesEnd(s, p);
    if q == |s| then Failed(UnexpectedEnd)
    else if s[q] == '+' then FactorAt(s, q + 1)
    else if s[q] == '-' then
      var f := FactorAt(s, q + 1);
      if f.Failed? then f else Parsed(-f.value, f.next)
    else if s[q] == '(' then
      var inner := ExpressionAt(s, q + 1);
      if inner.Failed? then inner
      else
        var c := SpacesEnd(s, inner.next);
        if c == |s| || s[c] != ')' then Failed(UnmatchedParen)
        else Parsed(inner.value, c + 1)
    else NumberAt(s, q)
  }

  /** One step of the `parseTerm` loop: `value *= rhs`, or `value /= rhs`
      unless the divisor is within machine epsilon of zero. */
  function MulDiv(op: char, acc: real, rhs: real): Result {
    if op == '*' then Success(acc * rhs)
    else if Abs(rhs) < EPS then Failure(DivisionByZero)
    else Success(acc / rhs)
  }

  /** What one step of the term loop gives: the product, or the quotient
      characterised by multiplying back, or DivisionByZero exactly when the
      divisor is within machine epsilon of zero. */
  lemma MulDivResult(op: char, acc: real, rhs: real)
    ensures MulDiv(op, acc, rhs).Failure? <==> op != '*' && Abs(rhs) < EPS
    ensures MulDiv(op, acc, rhs).Failure? ==> MulDiv(op, acc, rhs).error == DivisionByZero
    ensures MulDiv(op, acc, rhs).Success? && op == '*' ==> MulDiv(op, acc, rhs).value == acc * rhs
    ensures MulDiv(op, acc, rhs).Success? && op != '*' ==> MulDiv(op, acc, rhs).value * rhs == acc
  {
  }

  /** One step of the `parseExpression` loop: `value += rhs` or `value -= rhs`. */
  function AddSub(op: char, acc: real, rhs: real): (r: real)
    ensures op == '+' ==> r - rhs == acc
    ensures op != '+' ==> r + rhs == acc
  {
    if op == '+' then acc + rhs else acc - rhs
  }

  /** `parseTerm`: a factor, then the `*`/`/` loop. */
  function TermAt(s: string, p: nat): (r: Outcome)
    requires p <= |s|
    ensures r.Parsed? ==> p < r.next <= |s|
    decreases |s| - p, 3
  {
    var first := FactorAt(s, p);
    if first.Failed? then first else TermTail(s, first.next, first.value)
  }

  /** The `while (true)` loop of `parseTerm` from cursor `p` with running value
      `acc`: it folds each further factor into `acc`, left to right. */
  function TermTail(s: string, p: nat, acc: real): (r: Outcome)
    requires p <= |s|
    ensures r.Parsed? ==> p <= r.next <= |s|
    decreases |s| - p, 2
  {
    var q := SpacesEnd(s, p);
    if q < |s| && (s[q] == '*' || s[q] == '/') then
      var rhs := FactorAt(s, q + 1);
      if rhs.Failed? then rhs
      else
        var v := MulDiv(s[q], acc, rhs.value);
        if v.Failure? then Failed(v.error) else TermTail(s, rhs.next, v.value)
    else Parsed(acc, q)
  }

  /** `parseExpression`: a term, then the `+`/`-` loop. */
  function ExpressionAt(s: string, p: nat): (r: Outcome)
    requires p <= |s|
    ensures r.Parsed? ==> p < r.next <= |s|
    decreases |s| - p, 5
  {
    var first := TermAt(s, p);
    if first.Failed? then first else ExpressionTail(s, first.next, first.value)
  }

  /** The `while (true)` loop of `parseExpression` from cursor `p` with running
      value `acc`. */
  function ExpressionTail(s: string, p: nat, acc: real): (r: Outcome)
    requires p <= |s|
    ensures r.Parsed? ==> p <= r.next <= |s|
    decreases |s| - p, 4
  {
    var q := SpacesEnd(s, p);
    if q < |s| && (s[q] == '+' || s[q] == '-') then
      var rhs := TermAt(s, q + 1);
      if rhs.Failed? then rhs
      else ExpressionTail(s, rhs.next, AddSub(s[q], acc, rhs.value))
    else Parsed(acc, q)
  }

  /** The factor rule at a `+` sign: the factor after it, unchanged. */
  lemma FactorPlus(s: string, p: nat, k: nat)
    requires p <= k < |s| && SpacesEnd(s, p) == k && s[k] == '+'
    ensures FactorAt(s, p) == FactorAt(s, k + 1)
  {
  }

  /** The factor rule at a `-` sign: the factor after it, negated. */
  lemma FactorMinus(s: string, p: nat, k: nat)
    requires p <= k < |s| && SpacesEnd(s, p) == k && s[k] == '-'
    ensures FactorAt(s, k + 1).Failed? ==> FactorAt(s, p) == FactorAt(s, k + 1)
    ensures FactorAt(s, k + 1).Parsed? ==>
      var g := FactorAt(s, k + 1);
      FactorAt(s, p) == Parsed(-g.value, g.next)
  {
  }

  /** The factor rule at `(`: the expression after it, which must be followed
      by `)`. */
  lemma FactorParen(s: string, p: nat, k: nat)
    requires p <= k < |s| && SpacesEnd(s, p) == k && s[k] == '('
    ensures ExpressionAt(s, k + 1).Failed? ==> FactorAt(s, p) == ExpressionAt(s, k + 1)
    ensures ExpressionAt(s, k + 1).Parsed? ==>
      var inner := ExpressionAt(s, k + 1);
      var c := SpacesEnd(s, inner.next);
      FactorAt(s, p) == if c == |s| || s[c] != ')' then Failed(UnmatchedParen) else Parsed(inner.value, c + 1)
  {
  }

  /** One turn of the term loop: the operator at `q` and the factor after it. */
  lemma TermTailTurn(s: string, p: nat, q: nat, acc: real)
    requires p <= q < |s| && SpacesEnd(s, p) == q && (s[q] == '*' || s[q] == '/')
    ensures FactorAt(s, q + 1).Failed? ==> TermTail(s, p, acc) == FactorAt(s, q + 1)
    ensures FactorAt(s, q + 1).Parsed? ==>
      var rhs := FactorAt(s, q + 1);
      var v := MulDiv(s[q], acc, rhs.value);
      TermTail(s, p, acc) == if v.Failure? then Failed(v.error) else TermTail(s, rhs.next, v.value)
  {
  }

  /** The term loop ends at the first non-space that is not `*` or `/`. */
  lemma TermTailStops(s: string, p: nat, acc: real)
    requires p <= |s|
    requires SpacesEnd(s, p) == |s| || (s[SpacesEnd(s, p)] != '*' && s[SpacesEnd(s, p)] != '/')
    ensures TermTail(s, p, acc) == Parsed(acc, SpacesEnd(s, p))
  {
  }

  /** One turn of the expression loop: the operator at `q` and the term after it. */
  lemma ExpressionTailTurn(s: string, p: nat, q: nat, acc: real)
    requires p <= q < |s| && SpacesEnd(s, p) == q && (s[q] == '+' || s[q] == '-')
    ensures TermAt(s, q + 1).Failed? ==> ExpressionTail(s, p, acc) == TermAt(s, q + 1)
    ensures TermAt(s, q + 1).Parsed? ==>
      var rhs := TermAt(s, q + 1);
      ExpressionTail(s, p, acc) ==
        ExpressionTail(s, rhs.next, AddSub(s[q], acc, rhs.value))
  {
  }

  /** The expression loop ends at the first non-space that is not `+` or `-`. */
  lemma ExpressionTailStops(s: string, p: nat, acc: real)
    requires p <= |s|
    requires SpacesEnd(s, p) == |s| || (s[SpacesEnd(s, p)] != '+' && s[SpacesEnd(s, p)] != '-')
    ensures ExpressionTail(s, p, acc) == Parsed(acc, SpacesEnd(s, p))
  {
  }

  /** `parse` with the cursor at `p`: an expression that must be followed by
      nothing but whitespace. */
  function ParseAt(s: string, p: nat): (r: Result)
    requires p <= |s|
    ensures ExpressionAt(s, p).Failed? ==> r == Failure(ExpressionAt(s, p).error)
    ensures ExpressionAt(s, p).Parsed? ==>
      var st := ExpressionAt(s, p);
      r == if forall i :: st.next <= i < |s| ==> IsSpace(s[i])
           then Success(st.value) else Failure(TrailingInput)
  {
    var st := ExpressionAt(s, p);
    if st.Failed? then Failure(st.error)
    else
      SpacesEndStops(s, st.next);
      if SpacesEnd(s, st.next) != |s| then Failure(TrailingInput) else Success(st.value)
  }

  /** The calculator on one input: a fresh parser, then `parse`. */
  function Evaluate(s: string): Result {
    ParseAt(s, 0)
  }
}
