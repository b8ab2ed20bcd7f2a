/** The parser against the reference semantics. A syntax tree written with
    any whitespace between its tokens is read back by the parser as exactly
    the value (or the first error) the tree evaluates to; and every input the
    parser accepts is such a writing of a well-formed tree with that value.
    Precedence, left associativity, parentheses and unary signs are all
    consequences. */
module RoundTrip {
  import opened Errors
  import opened Lexical
  import opened Grammar
  import opened Syntax

  /** Positions `i` up to `j` of `s` hold whitespace only. */
  predicate Blank(s: string, i: nat, j: nat)
    requires i <= j <= |s|
  {
    forall x :: i <= x < j ==> IsSpace(s[x])
  }

  /** The text `w` occurs in `s` at position `k`. */
  predicate ShownAt(s: string, k: nat, w: string) {
    k + |w| <= |s| && forall j :: 0 <= j < |w| ==> s[k + j] == w[j]
  }

  /** Position `e` does not continue a numeric literal. */
  predicate LiteralStops(s: string, e: nat)
    requires e <= |s|
  {
    e == |s| || !IsLiteralChar(s[e])
  }

  /** The first non-space character at or after `e`, if any, is not a
      multiplicative operator, so the term loop stops there. */
  predicate TermStops(s: string, e: nat)
    requires e <= |s|
  {
    var q := SpacesEnd(s, e);
    q == |s| || (s[q] != '*' && s[q] != '/')
  }

  lemma ShownSplit(s: string, k: nat, a: string, b: string)
    requires ShownAt(s, k, a + b)
    ensures ShownAt(s, k, a) && ShownAt(s, k + |a|, b)
  {
    forall j | 0 <= j < |a|
      ensures s[k + j] == a[j]
    {
      assert s[k + j] == (a + b)[j];
    }
    forall j | 0 <= j < |b|
      ensures s[k + |a| + j] == b[j]
    {
      assert s[k + (|a| + j)] == (a + b)[|a| + j];
    }
  }

  lemma ShownChar(s: string, k: nat, w: string, j: nat)
    requires ShownAt(s, k, w) && j < |w|
    ensures s[k + j] == w[j]
  {
  }

  /** `skipSpaces` over a blank stretch stops at the non-space after it. */
  lemma {:induction false} SpacesEndAt(s: string, p: nat, k: nat)
    requires p <= k <= |s| && Blank(s, p, k)
    requires k == |s| || !IsSpace(s[k])
    ensures SpacesEnd(s, p) == k
    decreases k - p
  {
    if p < k {
      SpacesEndAt(s, p + 1, k);
    }
  }

  /** The literal run over the characters of a literal stops where the
      literal does. */
  lemma {:induction false} LiteralEndAt(s: string, p: nat, e: nat)
    requires p <= e <= |s| && LiteralStops(s, e)
    requires forall x :: p <= x < e ==> IsLiteralChar(s[x])
    ensures LiteralEnd(s, p) == e
    decreases e - p
  {
    if p < e {
      LiteralEndAt(s, p + 1, e);
    }
  }

  /** Skipping whitespace twice stops where skipping once does. */
  lemma SpacesEndTwice(s: string, p: nat)
    requires p <= |s|
    ensures SpacesEnd(s, SpacesEnd(s, p)) == SpacesEnd(s, p)
  {
    SpacesEndStops(s, p);
    SpacesEndAt(s, SpacesEnd(s, p), SpacesEnd(s, p));
  }

  /** A written operand whose next token (after whitespace) is not part of
      a literal: the literal before it has ended. */
  lemma Followed(s: string, m: nat)
    requires m <= |s| && SpacesEnd(s, m) < |s| && !IsLiteralChar(s[SpacesEnd(s, m)])
    ensures LiteralStops(s, m)
  {
    SpacesEndStops(s, m);
  }

  /** Whitespace already skipped is skipped again for free, so the
      expression loop may start before or after it. */
  lemma ExpressionTailSkip(s: string, p: nat, acc: real)
    requires p <= |s|
    ensures ExpressionTail(s, SpacesEnd(s, p), acc) == ExpressionTail(s, p, acc)
  {
    SpacesEndStops(s, p);
    SpacesEndAt(s, SpacesEnd(s, p), SpacesEnd(s, p));
  }

  /** Every written factor, term and expression is non-empty and begins with
      a character that is not whitespace. */
  lemma {:induction false} FactorHead(f: Factor)
    requires WfFactor(f)
    ensures |ShowFactor(f)| > 0 && !IsSpace(ShowFactor(f)[0])
  {
    match f
    case Num(text) =>
      var i :| 0 <= i < |text| && IsDigit(text[i]);
      assert IsLiteralChar(text[0]);
    case Neg(g) =>
    case Pos(g) =>
    case Paren(e) =>
  }

  lemma {:induction false} TermHead(t: Term)
    requires WfTerm(t)
    ensures |ShowTerm(t)| > 0 && !IsSpace(ShowTerm(t)[0])
  {
    match t
    case Unit(f) => FactorHead(f);
    case Mul(l, r) => TermHead(l);
    case Div(l, r) => TermHead(l);
  }

  lemma {:induction false} ExprHead(e: Expr)
    requires WfExpr(e)
    ensures |ShowExpr(e)| > 0 && !IsSpace(ShowExpr(e)[0])
  {
    match e
    case Single(t) => TermHead(t);
    case Add(l, r) => ExprHead(l);
    case Sub(l, r) => ExprHead(l);
  }

  /** A written binary operation `wl op wr`: the left operand, the operator
      between two single spaces, the right operand. */
  lemma OperatorAt(s: string, k: nat, wl: string, op: char, wr: string)
    requires ShownAt(s, k, wl + [' ', op, ' '] + wr) && !IsSpace(op)
    ensures ShownAt(s, k, wl) && ShownAt(s, k + |wl| + 3, wr)
    ensures s[k + |wl|] == ' ' && s[k + |wl| + 1] == op
    ensures Blank(s, k + |wl| + 2, k + |wl| + 3)
    ensures SpacesEnd(s, k + |wl|) == k + |wl| + 1
  {
    var m := k + |wl|;
    ShownSplit(s, k, wl + [' ', op, ' '], wr);
    ShownSplit(s, k, wl, [' ', op, ' ']);
    ShownChar(s, m, [' ', op, ' '], 0);
    ShownChar(s, m, [' ', op, ' '], 1);
    ShownChar(s, m, [' ', op, ' '], 2);
    SpacesEndAt(s, m, m + 1);
  }

  /** The term loop resumed at `n` with running value `r`, or the error. */
  function ThenTermTail(r: Result, s: string, n: nat): Outcome
    requires n <= |s|
  {
    match r
    case Failure(err) => Failed(err)
    case Success(v) => TermTail(s, n, v)
  }

  /** The expression loop resumed at `n` with running value `r`, or the error. */
  function ThenExpressionTail(r: Result, s: string, n: nat): Outcome
    requires n <= |s|
  {
    match r
    case Failure(err) => Failed(err)
    case Success(v) => ExpressionTail(s, n, v)
  }

  /** A written factor is read as one factor whose value is the tree's, with
      the cursor just past it, provided no digit or dot follows it. */
  lemma {:induction false} FactorRoundTrip(f: Factor, s: string, p: nat)
    requires p <= |s| && WfFactor(f) && SpellFactor(s, p, f).Some?
    requires LiteralStops(s, SpellFactor(s, p, f).value)
    ensures FactorAt(s, p) == Placed(EvalFactor(f), SpellFactor(s, p, f).value)
    decreases f, 1
  {
    match f
    case Num(_) => NumRoundTrip(f, s, p);
    case Neg(_) => NegRoundTrip(f, s, p);
    case Pos(_) => PosRoundTrip(f, s, p);
    case Paren(_) => ParenRoundTrip(f, s, p);
  }

  lemma NumRoundTrip(f: Factor, s: string, p: nat)
    requires f.Num? && p <= |s| && WfFactor(f) && SpellFactor(s, p, f).Some?
    requires LiteralStops(s, SpellFactor(s, p, f).value)
    ensures FactorAt(s, p) == Placed(EvalFactor(f), SpellFactor(s, p, f).value)
  {
    var text := f.text;
    var k := SpacesEnd(s, p);
    var e := k + |text|;
    assert s[k..e] == text;
    forall x | k <= x < e
      ensures IsLiteralChar(s[x])
    {
      assert s[x] == text[x - k];
    }
    SpacesEndAt(s, k, k);
    LiteralEndAt(s, k, e);
    NumberAtRule(s, k);
  }

  lemma {:induction false} NegRoundTrip(f: Factor, s: string, p: nat)
    requires f.Neg? && p <= |s| && WfFactor(f) && SpellFactor(s, p, f).Some?
    requires LiteralStops(s, SpellFactor(s, p, f).value)
    ensures FactorAt(s, p) == Placed(EvalFactor(f), SpellFactor(s, p, f).value)
    decreases f, 0
  {
    var g := f.f;
    var k := SpacesEnd(s, p);
    FactorRoundTrip(g, s, k + 1);
    FactorMinus(s, p, k);
    NegPlaced(FactorAt(s, k + 1), FactorAt(s, p), EvalFactor(g), SpellFactor(s, p, f).value);
  }

  /** Negating the value read, and negating the tree's value, agree. */
  lemma NegPlaced(x: Outcome, y: Outcome, v: Result, end: nat)
    requires x == Placed(v, end)
    requires x.Failed? ==> y == x
    requires x.Parsed? ==> y == Parsed(-x.value, x.next)
    ensures y == Placed(var a :- v; Success(-a), end)
  {
  }

  lemma {:induction false} PosRoundTrip(f: Factor, s: string, p: nat)
    requires f.Pos? && p <= |s| && WfFactor(f) && SpellFactor(s, p, f).Some?
    requires LiteralStops(s, SpellFactor(s, p, f).value)
    ensures FactorAt(s, p) == Placed(EvalFactor(f), SpellFactor(s, p, f).value)
    decreases f, 0
  {
    var k := SpacesEnd(s, p);
    FactorRoundTrip(f.f, s, k + 1);
    FactorPlus(s, p, k);
  }

  lemma {:induction false} ParenRoundTrip(f: Factor, s: string, p: nat)
    requires f.Paren? && p <= |s| && WfFactor(f) && SpellFactor(s, p, f).Some?
    requires LiteralStops(s, SpellFactor(s, p, f).value)
    ensures FactorAt(s, p) == Placed(EvalFactor(f), SpellFactor(s, p, f).value)
    decreases f, 0
  {
    var k := SpacesEnd(s, p);
    var m := SpellExpr(s, k + 1, f.e).value;
    var c := SpacesEnd(s, m);
    Followed(s, m);
    ExprRoundTrip(f.e, s, k + 1);
    SpacesEndAt(s, c, c);
    ParenStep(f.e, s, p, k, m, c);
  }

  /** A parenthesised expression read as the tree `e` up to `m`, closed at
      `c` after whitespace. */
  lemma ParenStep(e: Expr, s: string, p: nat, k: nat, m: nat, c: nat)
    requires p <= k < m <= c < |s| && SpacesEnd(s, p) == k && s[k] == '('
    requires SpacesEnd(s, m) == c && SpacesEnd(s, c) == c && s[c] == ')'
    requires ExpressionAt(s, k + 1) == ThenExpressionTail(EvalExpr(e), s, m)
    ensures FactorAt(s, p) == Placed(EvalFactor(Paren(e)), c + 1)
  {
    FactorParen(s, p, k);
    if EvalExpr(e).Success? {
      ExpressionTailStops(s, m, EvalExpr(e).value);
    }
  }

  /** A written term is read factor by factor; the term loop then carries on
      from just past it with the tree's value as its running value. */
  lemma {:induction false} TermRoundTrip(t: Term, s: string, p: nat)
    requires p <= |s| && WfTerm(t) && SpellTerm(s, p, t).Some?
    requires LiteralStops(s, SpellTerm(s, p, t).value)
    ensures TermAt(s, p) == ThenTermTail(EvalTerm(t), s, SpellTerm(s, p, t).value)
    decreases t, 1
  {
    if t.Unit? {
      FactorRoundTrip(t.f, s, p);
    } else {
      ProductRoundTrip(t, s, p);
    }
  }

  lemma {:induction false} ProductRoundTrip(t: Term, s: string, p: nat)
    requires (t.Mul? || t.Div?) && p <= |s| && WfTerm(t) && SpellTerm(s, p, t).Some?
    requires LiteralStops(s, SpellTerm(s, p, t).value)
    ensures TermAt(s, p) == ThenTermTail(EvalTerm(t), s, SpellTerm(s, p, t).value)
    decreases t, 0
  {
    var op := if t.Mul? then '*' else '/';
    var m := SpellTerm(s, p, t.l).value;
    var k := SpacesEnd(s, m);
    var end := SpellFactor(s, k + 1, t.r).value;
    assert SpellTerm(s, p, t).value == end;
    Followed(s, m);
    TermRoundTrip(t.l, s, p);
    FactorRoundTrip(t.r, s, k + 1);
    ProductStep(t.l, t.r, op, s, p, m, k, end);
  }

  /** `l op r` read as a term, with `l` read up to `m`, the operator at `k`
      and `r` read up to `end`. */
  lemma ProductStep(l: Term, r: Factor, op: char, s: string, p: nat, m: nat, k: nat, end: nat)
    requires op == '*' || op == '/'
    requires p <= m <= k < end <= |s| && SpacesEnd(s, m) == k && s[k] == op
    requires TermAt(s, p) == ThenTermTail(EvalTerm(l), s, m)
    requires FactorAt(s, k + 1) == Placed(EvalFactor(r), end)
    ensures TermAt(s, p) == ThenTermTail(EvalTerm(if op == '*' then Mul(l, r) else Div(l, r)), s, end)
  {
    if EvalTerm(l).Success? {
      TermTailTurn(s, m, k, EvalTerm(l).value);
    }
  }

  /** A written expression is read term by term; the expression loop then
      carries on from just past it with the tree's value, provided what
      follows does not extend the last term. */
  lemma {:induction false} ExprRoundTrip(e: Expr, s: string, p: nat)
    requires p <= |s| && WfExpr(e) && SpellExpr(s, p, e).Some?
    requires LiteralStops(s, SpellExpr(s, p, e).value) && TermStops(s, SpellExpr(s, p, e).value)
    ensures ExpressionAt(s, p) == ThenExpressionTail(EvalExpr(e), s, SpellExpr(s, p, e).value)
    decreases e, 1
  {
    if e.Single? {
      TermRoundTrip(e.t, s, p);
      SingleStep(e.t, s, p, SpellExpr(s, p, e).value);
    } else {
      SumRoundTrip(e, s, p);
    }
  }

  /** A lone term read as an expression: the term loop stops, and the
      expression loop resumes after the same whitespace. */
  lemma SingleStep(t: Term, s: string, p: nat, end: nat)
    requires p <= end <= |s| && TermStops(s, end)
    requires TermAt(s, p) == ThenTermTail(EvalTerm(t), s, end)
    ensures ExpressionAt(s, p) == ThenExpressionTail(EvalExpr(Single(t)), s, end)
  {
    if EvalTerm(t).Success? {
      var v := EvalTerm(t).value;
      TermTailStops(s, end, v);
      ExpressionTailSkip(s, end, v);
    }
  }

  lemma {:induction false} SumRoundTrip(e: Expr, s: string, p: nat)
    requires (e.Add? || e.Sub?) && p <= |s| && WfExpr(e) && SpellExpr(s, p, e).Some?
    requires LiteralStops(s, SpellExpr(s, p, e).value) && TermStops(s, SpellExpr(s, p, e).value)
    ensures ExpressionAt(s, p) == ThenExpressionTail(EvalExpr(e), s, SpellExpr(s, p, e).value)
    decreases e, 0
  {
    var op := if e.Add? then '+' else '-';
    var m := SpellExpr(s, p, e.l).value;
    var k := SpacesEnd(s, m);
    var end := SpellTerm(s, k + 1, e.r).value;
    assert SpellExpr(s, p, e).value == end;
    Followed(s, m);
    ExprRoundTrip(e.l, s, p);
    TermRoundTrip(e.r, s, k + 1);
    SumStep(e.l, e.r, op, s, p, m, k, end);
  }

  /** `l op r` read as an expression, with `l` read up to `m`, the operator
      at `k` and `r` read up to `end`, where the term loop stops. */
  lemma SumStep(l: Expr, r: Term, op: char, s: string, p: nat, m: nat, k: nat, end: nat)
    requires op == '+' || op == '-'
    requires p <= m <= k < end <= |s| && SpacesEnd(s, m) == k && s[k] == op
    requires TermStops(s, end)
    requires ExpressionAt(s, p) == ThenExpressionTail(EvalExpr(l), s, m)
    requires TermAt(s, k + 1) == ThenTermTail(EvalTerm(r), s, end)
    ensures ExpressionAt(s, p) == ThenExpressionTail(EvalExpr(if op == '+' then Add(l, r) else Sub(l, r)), s, end)
  {
    var e := if op == '+' then Add(l, r) else Sub(l, r);
    var a := EvalExpr(l);
    var b := EvalTerm(r);
    if a.Failure? {
      assert EvalExpr(e) == Failure(a.error);
    } else if b.Failure? {
      ExpressionTailTurn(s, m, k, a.value);
      assert EvalExpr(e) == Failure(b.error);
    } else {
      var v := AddSub(op, a.value, b.value);
      assert EvalExpr(e) == Success(v);
      TermTailStops(s, end, b.value);
      ExpressionTailTurn(s, m, k, a.value);
      assert ExpressionAt(s, p) == ExpressionTail(s, SpacesEnd(s, end), v);
      ExpressionTailSkip(s, end, v);
    }
  }

  /** `s` is the tree `e` written with any whitespace before, between and
      after its tokens. */
  predicate Spells(s: string, e: Expr) {
    SpellExpr(s, 0, e).Some? && Blank(s, SpellExpr(s, 0, e).value, |s|)
  }

  /** The round trip: on any writing of a well-formed tree, the parser's
      answer is the tree's value, or the first error the tree meets when
      evaluated left to right. */
  lemma Evaluates(s: string, e: Expr)
    requires WfExpr(e) && Spells(s, e)
    ensures Evaluate(s) == EvalExpr(e)
  {
    var m := SpellExpr(s, 0, e).value;
    SpacesEndAt(s, m, |s|);
    SpacesEndAt(s, |s|, |s|);
    ExprRoundTrip(e, s, 0);
    if EvalExpr(e).Success? {
      ExpressionTailStops(s, m, EvalExpr(e).value);
    }
  }

  /* The printer writes one of those layouts. */

  lemma {:induction false} FactorShown(f: Factor, s: string, p: nat, k: nat)
    requires WfFactor(f) && ShownAt(s, k, ShowFactor(f)) && p <= k && Blank(s, p, k)
    ensures SpellFactor(s, p, f) == Some(k + |ShowFactor(f)|)
    decreases f, 1
  {
    FactorHead(f);
    ShownChar(s, k, ShowFactor(f), 0);
    SpacesEndAt(s, p, k);
    if f.Num? {
      var text := f.text;
      assert s[k..k + |text|] == text by {
        forall j | 0 <= j < |text|
          ensures s[k..k + |text|][j] == text[j]
        {
          ShownChar(s, k, text, j);
        }
      }
    } else if f.Paren? {
      ParenShown(f, s, p, k);
    } else {
      SignShown(f, s, p, k);
    }
  }

  lemma {:induction false} SignShown(f: Factor, s: string, p: nat, k: nat)
    requires (f.Neg? || f.Pos?) && WfFactor(f) && ShownAt(s, k, ShowFactor(f))
    requires p <= k && SpacesEnd(s, p) == k
    ensures SpellFactor(s, p, f) == Some(k + |ShowFactor(f)|)
    decreases f, 0
  {
    var sign := if f.Neg? then "-" else "+";
    assert ShowFactor(f) == sign + ShowFactor(f.f);
    ShownSplit(s, k, sign, ShowFactor(f.f));
    ShownChar(s, k, sign, 0);
    FactorShown(f.f, s, k + 1, k + 1);
  }

  lemma {:induction false} ParenShown(f: Factor, s: string, p: nat, k: nat)
    requires f.Paren? && WfFactor(f) && ShownAt(s, k, ShowFactor(f))
    requires p <= k && SpacesEnd(s, p) == k
    ensures SpellFactor(s, p, f) == Some(k + |ShowFactor(f)|)
    decreases f, 0
  {
    var w := ShowExpr(f.e);
    var c := k + 1 + |w|;
    assert ShowFactor(f) == "(" + (w + ")");
    ShownSplit(s, k, "(", w + ")");
    ShownSplit(s, k + 1, w, ")");
    ShownChar(s, k, "(", 0);
    ShownChar(s, c, ")", 0);
    ExprShown(f.e, s, k + 1, k + 1);
    SpacesEndAt(s, c, c);
  }

  lemma {:induction false} TermShown(t: Term, s: string, p: nat, k: nat)
    requires WfTerm(t) && ShownAt(s, k, ShowTerm(t)) && p <= k && Blank(s, p, k)
    ensures SpellTerm(s, p, t) == Some(k + |ShowTerm(t)|)
    decreases t, 1
  {
    if t.Unit? {
      FactorShown(t.f, s, p, k);
    } else {
      ProductShown(t, s, p, k);
    }
  }

  lemma {:induction false} ProductShown(t: Term, s: string, p: nat, k: nat)
    requires (t.Mul? || t.Div?) && WfTerm(t) && ShownAt(s, k, ShowTerm(t)) && p <= k && Blank(s, p, k)
    ensures SpellTerm(s, p, t) == Some(k + |ShowTerm(t)|)
    decreases t, 0
  {
    var op := if t.Mul? then '*' else '/';
    var wl := ShowTerm(t.l);
    var wr := ShowFactor(t.r);
    var m := k + |wl|;
    assert ShowTerm(t) == wl + [' ', op, ' '] + wr;
    OperatorAt(s, k, wl, op, wr);
    TermShown(t.l, s, p, k);
    FactorShown(t.r, s, m + 2, m + 3);
  }

  lemma {:induction false} ExprShown(e: Expr, s: string, p: nat, k: nat)
    requires WfExpr(e) && ShownAt(s, k, ShowExpr(e)) && p <= k && Blank(s, p, k)
    ensures SpellExpr(s, p, e) == Some(k + |ShowExpr(e)|)
    decreases e, 1
  {
    if e.Single? {
      TermShown(e.t, s, p, k);
    } else {
      SumShown(e, s, p, k);
    }
  }

  lemma {:induction false} SumShown(e: Expr, s: string, p: nat, k: nat)
    requires (e.Add? || e.Sub?) && WfExpr(e) && ShownAt(s, k, ShowExpr(e)) && p <= k && Blank(s, p, k)
    ensures SpellExpr(s, p, e) == Some(k + |ShowExpr(e)|)
    decreases e, 0
  {
    var op := if e.Add? then '+' else '-';
    var wl := ShowExpr(e.l);
    var wr := ShowTerm(e.r);
    var m := k + |wl|;
    assert ShowExpr(e) == wl + [' ', op, ' '] + wr;
    OperatorAt(s, k, wl, op, wr);
    ExprShown(e.l, s, p, k);
    TermShown(e.r, s, m + 2, m + 3);
  }

  /** The round trip on the printer's layout, with whitespace around it. */
  lemma Printed(e: Expr, lead: string, trail: string)
    requires WfExpr(e)
    requires forall i :: 0 <= i < |lead| ==> IsSpace(lead[i])
    requires forall i :: 0 <= i < |trail| ==> IsSpace(trail[i])
    ensures Evaluate(lead + ShowExpr(e) + trail) == EvalExpr(e)
  {
    var w := ShowExpr(e);
    var s := lead + w + trail;
    var k := |lead|;
    var end := k + |w|;
    assert ShownAt(s, k, w) by {
      forall j | 0 <= j < |w|
        ensures s[k + j] == w[j]
      {
      }
    }
    assert Blank(s, 0, k) by {
      forall x | 0 <= x < k ensures IsSpace(s[x]) {
        assert s[x] == lead[x];
      }
    }
    assert Blank(s, end, |s|) by {
      forall x | end <= x < |s| ensures IsSpace(s[x]) {
        assert s[x] == trail[x - end];
      }
    }
    ExprShown(e, s, 0, k);
    Evaluates(s, e);
  }

  /* The converse: what the parser reads is a written tree. Each lemma
     builds the tree that the rule read, from the rule's own steps. */

  lemma {:induction false} FactorTree(s: string, p: nat) returns (f: Factor)
    requires p <= |s| && FactorAt(s, p).Parsed?
    ensures WfFactor(f) && SpellFactor(s, p, f) == Some(FactorAt(s, p).next)
    ensures EvalFactor(f) == Success(FactorAt(s, p).value)
    decreases |s| - p, 1
  {
    var q := SpacesEnd(s, p);
    if s[q] == '+' || s[q] == '-' {
      f := SignTree(s, p, q);
    } else if s[q] == '(' {
      f := ParenTree(s, p, q);
    } else {
      f := NumTree(s, p, q);
    }
  }

  lemma {:induction false} SignTree(s: string, p: nat, q: nat) returns (f: Factor)
    requires p <= q < |s| && SpacesEnd(s, p) == q && (s[q] == '+' || s[q] == '-')
    requires FactorAt(s, p).Parsed?
    ensures WfFactor(f) && SpellFactor(s, p, f) == Some(FactorAt(s, p).next)
    ensures EvalFactor(f) == Success(FactorAt(s, p).value)
    decreases |s| - p, 0
  {
    if s[q] == '+' {
      FactorPlus(s, p, q);
      var g := FactorTree(s, q + 1);
      f := Pos(g);
    } else {
      FactorMinus(s, p, q);
      var g := FactorTree(s, q + 1);
      f := Neg(g);
    }
  }

  lemma {:induction false} ParenTree(s: string, p: nat, q: nat) returns (f: Factor)
    requires p <= q < |s| && SpacesEnd(s, p) == q && s[q] == '('
    requires FactorAt(s, p).Parsed?
    ensures WfFactor(f) && SpellFactor(s, p, f) == Some(FactorAt(s, p).next)
    ensures EvalFactor(f) == Success(FactorAt(s, p).value)
    decreases |s| - p, 0
  {
    FactorParen(s, p, q);
    var e := ExprTree(s, q + 1);
    SpacesEndTwice(s, SpellExpr(s, q + 1, e).value);
    f := Paren(e);
  }

  lemma NumTree(s: string, p: nat, q: nat) returns (f: Factor)
    requires p <= q <= |s| && SpacesEnd(s, p) == q
    requires q < |s| ==> s[q] != '+' && s[q] != '-' && s[q] != '('
    requires FactorAt(s, p).Parsed?
    ensures WfFactor(f) && SpellFactor(s, p, f) == Some(FactorAt(s, p).next)
    ensures EvalFactor(f) == Success(FactorAt(s, p).value)
  {
    var n := FactorAt(s, p).next;
    assert FactorAt(s, p) == NumberAt(s, q);
    SpacesEndStops(s, p);
    SpacesEndAt(s, q, q);
    NumberAtRule(s, q);
    f := Num(s[q..n]);
  }

  lemma {:induction false} TermTree(s: string, p: nat) returns (t: Term)
    requires p <= |s| && TermAt(s, p).Parsed?
    ensures WfTerm(t) && SpellTerm(s, p, t).Some?
    ensures SpacesEnd(s, SpellTerm(s, p, t).value) == TermAt(s, p).next
    ensures EvalTerm(t) == Success(TermAt(s, p).value)
    decreases |s| - p, 3
  {
    var first := FactorAt(s, p);
    var f := FactorTree(s, p);
    t := TermTailTree(s, p, first.next, Unit(f), first.value);
  }

  /** The term loop at `n`, having read the term `l` from `p`. */
  lemma {:induction false} TermTailTree(s: string, p: nat, n: nat, l: Term, acc: real) returns (t: Term)
    requires p <= n <= |s| && WfTerm(l) && SpellTerm(s, p, l).Some?
    requires SpacesEnd(s, n) == SpacesEnd(s, SpellTerm(s, p, l).value)
    requires EvalTerm(l) == Success(acc) && TermTail(s, n, acc).Parsed?
    ensures WfTerm(t) && SpellTerm(s, p, t).Some?
    ensures SpacesEnd(s, SpellTerm(s, p, t).value) == TermTail(s, n, acc).next
    ensures EvalTerm(t) == Success(TermTail(s, n, acc).value)
    decreases |s| - n, 2
  {
    var q := SpacesEnd(s, n);
    if q < |s| && (s[q] == '*' || s[q] == '/') {
      TermTailTurn(s, n, q, acc);
      var rhs := FactorAt(s, q + 1);
      var r := FactorTree(s, q + 1);
      assert SpellOperand(s, SpellTerm(s, p, l), s[q], r) == Some(rhs.next);
      var l' := if s[q] == '*' then Mul(l, r) else Div(l, r);
      assert EvalTerm(l') == MulDiv(s[q], acc, rhs.value);
      t := TermTailTree(s, p, rhs.next, l', MulDiv(s[q], acc, rhs.value).value);
    } else {
      TermTailStops(s, n, acc);
      t := l;
    }
  }

  lemma {:induction false} ExprTree(s: string, p: nat) returns (e: Expr)
    requires p <= |s| && ExpressionAt(s, p).Parsed?
    ensures WfExpr(e) && SpellExpr(s, p, e).Some?
    ensures SpacesEnd(s, SpellExpr(s, p, e).value) == ExpressionAt(s, p).next
    ensures EvalExpr(e) == Success(ExpressionAt(s, p).value)
    decreases |s| - p, 5
  {
    var first := TermAt(s, p);
    var t := TermTree(s, p);
    SpacesEndTwice(s, SpellTerm(s, p, t).value);
    e := ExprTailTree(s, p, first.next, Single(t), first.value);
  }

  /** The expression loop at `n`, having read the expression `l` from `p`. */
  lemma {:induction false} ExprTailTree(s: string, p: nat, n: nat, l: Expr, acc: real) returns (e: Expr)
    requires p <= n <= |s| && WfExpr(l) && SpellExpr(s, p, l).Some?
    requires SpacesEnd(s, n) == SpacesEnd(s, SpellExpr(s, p, l).value)
    requires EvalExpr(l) == Success(acc) && ExpressionTail(s, n, acc).Parsed?
    ensures WfExpr(e) && SpellExpr(s, p, e).Some?
    ensures SpacesEnd(s, SpellExpr(s, p, e).value) == ExpressionTail(s, n, acc).next
    ensures EvalExpr(e) == Success(ExpressionTail(s, n, acc).value)
    decreases |s| - n, 4
  {
    var q := SpacesEnd(s, n);
    if q < |s| && (s[q] == '+' || s[q] == '-') {
      ExpressionTailTurn(s, n, q, acc);
      var rhs := TermAt(s, q + 1);
      var r := TermTree(s, q + 1);
      var l' := SummandTree(s, p, l, q, r, acc, rhs.value);
      var v := AddSub(s[q], acc, rhs.value);
      SpacesEndTwice(s, SpellTerm(s, q + 1, r).value);
      e := ExprTailTree(s, p, rhs.next, l', v);
    } else {
      ExpressionTailStops(s, n, acc);
      e := l;
    }
  }

  /** Joins the expression `l` read from `p` and the term `r` read after
      the operator at `q` into one expression spelled over both. */
  lemma SummandTree(s: string, p: nat, l: Expr, q: nat, r: Term, acc: real, rv: real) returns (e: Expr)
    requires p <= |s| && WfExpr(l) && WfTerm(r) && SpellExpr(s, p, l).Some?
    requires SpacesEnd(s, SpellExpr(s, p, l).value) == q
    requires q < |s| && (s[q] == '+' || s[q] == '-')
    requires SpellTerm(s, q + 1, r).Some?
    requires EvalExpr(l) == Success(acc) && EvalTerm(r) == Success(rv)
    ensures WfExpr(e) && SpellExpr(s, p, e) == SpellTerm(s, q + 1, r)
    ensures EvalExpr(e) == Success(AddSub(s[q], acc, rv))
  {
    if s[q] == '+' {
      e := Add(l, r);
    } else {
      e := Sub(l, r);
    }
  }

  /** Whatever the calculator accepts is a writing of a well-formed tree
      with the same value, and every writing of a tree with a value is
      accepted with that value. */
  lemma Accepts(s: string, v: real)
    ensures Evaluate(s) == Success(v) <==>
      exists e :: WfExpr(e) && Spells(s, e) && EvalExpr(e) == Success(v)
  {
    if Evaluate(s) == Success(v) {
      var e := ExprTree(s, 0);
      var m := SpellExpr(s, 0, e).value;
      SpacesEndStops(s, m);
      assert Blank(s, m, |s|);
      assert Spells(s, e);
    }
    if e :| WfExpr(e) && Spells(s, e) && EvalExpr(e) == Success(v) {
      Evaluates(s, e);
    }
  }
}
