/** A reference semantics for the calculator's language, independent of the
    cursor: one datatype per level of the grammar

      expression := term (('+' | '-') term)*
      term       := factor (('*' | '/') factor)*
      factor     := ('+' | '-') factor | '(' expression ')' | number

    with the repetitions nested to the left, an evaluator that follows the
    tree, and a printer that writes a tree the way the tests write input. */
module Syntax {
  import opened Errors
  import opened Lexical
  import opened Grammar

  datatype Expr =
    | Single(t: Term)
    | Add(l: Expr, r: Term)
    | Sub(l: Expr, r: Term)

  datatype Term =
    | Unit(f: Factor)
    | Mul(l: Term, r: Factor)
    | Div(l: Term, r: Factor)

  datatype Factor =
    | Num(text: string)
    | Neg(f: Factor)
    | Pos(f: Factor)
    | Paren(e: Expr)

  /** Every literal in the tree is one the number rule accepts. */
  predicate WfExpr(e: Expr) {
    match e
    case Single(t) => WfTerm(t)
    case Add(l, r) => WfExpr(l) && WfTerm(r)
    case Sub(l, r) => WfExpr(l) && WfTerm(r)
  }

  predicate WfTerm(t: Term) {
    match t
    case Unit(f) => WfFactor(f)
    case Mul(l, r) => WfTerm(l) && WfFactor(r)
    case Div(l, r) => WfTerm(l) && WfFactor(r)
  }

  predicate WfFactor(f: Factor) {
    match f
    case Num(text) => IsLiteral(text)
    case Neg(g) => WfFactor(g)
    case Pos(g) => WfFactor(g)
    case Paren(e) => WfExpr(e)
  }

  /** Left operand first, then right operand, then the operator; the first
      error met is the result. */
  function EvalExpr(e: Expr): Result {
    match e
    case Single(t) => EvalTerm(t)
    case Add(l, r) =>
      var a :- EvalExpr(l);
      var b :- EvalTerm(r);
      Success(a + b)
    case Sub(l, r) =>
      var a :- EvalExpr(l);
      var b :- EvalTerm(r);
      Success(a - b)
  }

  function EvalTerm(t: Term): Result {
    match t
    case Unit(f) => EvalFactor(f)
    case Mul(l, r) =>
      var a :- EvalTerm(l);
      var b :- EvalFactor(r);
      MulDiv('*', a, b)
    case Div(l, r) =>
      var a :- EvalTerm(l);
      var b :- EvalFactor(r);
      MulDiv('/', a, b)
  }

  function EvalFactor(f: Factor): Result {
    match f
    case Num(text) => Success(LiteralValue(text))
    case Neg(g) =>
      var a :- EvalFactor(g);
      Success(-a)
    case Pos(g) => EvalFactor(g)
    case Paren(e) => EvalExpr(e)
  }

  /** The tree as text: one space on each side of a binary operator, none
      after a sign or inside parentheses ("2 + 3 * 4", "-(2 + 3)"). */
  function ShowExpr(e: Expr): string {
    match e
    case Single(t) => ShowTerm(t)
    case Add(l, r) => ShowExpr(l) + " + " + ShowTerm(r)
    case Sub(l, r) => ShowExpr(l) + " - " + ShowTerm(r)
  }

  function ShowTerm(t: Term): string {
    match t
    case Unit(f) => ShowFactor(f)
    case Mul(l, r) => ShowTerm(l) + " * " + ShowFactor(r)
    case Div(l, r) => ShowTerm(l) + " / " + ShowFactor(r)
  }

  function ShowFactor(f: Factor): string {
    match f
    case Num(text) => text
    case Neg(g) => "-" + ShowFactor(g)
    case Pos(g) => "+" + ShowFactor(g)
    case Paren(e) => "(" + ShowExpr(e) + ")"
  }

  datatype Option<T> = None | Some(value: T)

  /* The tree written with any whitespace before each token: reading from
     `p`, whitespace is skipped and the next token must be the tree's next
     one. The result is the position just past the tree's last token, or
     None when `s` does not spell the tree there. Every whitespace layout of
     the tree is accepted, since a token never starts with whitespace. */

  function SpellFactor(s: string, p: nat, f: Factor): (r: Option<nat>)
    requires p <= |s|
    ensures r.Some? ==> p < r.value <= |s|
    decreases f, 1
  {
    var k := SpacesEnd(s, p);
    match f
    case Num(text) =>
      if text != [] && k + |text| <= |s| && s[k..k + |text|] == text then Some(k + |text|) else None
    case Neg(g) =>
      if k < |s| && s[k] == '-' then SpellFactor(s, k + 1, g) else None
    case Pos(g) =>
      if k < |s| && s[k] == '+' then SpellFactor(s, k + 1, g) else None
    case Paren(e) =>
      if k < |s| && s[k] == '(' then
        match SpellExpr(s, k + 1, e)
        case None => None
        case Some(m) =>
          var c := SpacesEnd(s, m);
          if c < |s| && s[c] == ')' then Some(c + 1) else None
      else None
  }

  function SpellTerm(s: string, p: nat, t: Term): (r: Option<nat>)
    requires p <= |s|
    ensures r.Some? ==> p < r.value <= |s|
    decreases t, 1
  {
    match t
    case Unit(f) => SpellFactor(s, p, f)
    case Mul(l, r) => SpellOperand(s, SpellTerm(s, p, l), '*', r)
    case Div(l, r) => SpellOperand(s, SpellTerm(s, p, l), '/', r)
  }

  /** After a left operand ending at `left`: the operator `op`, then the
      factor `r`. */
  function SpellOperand(s: string, left: Option<nat>, op: char, r: Factor): (o: Option<nat>)
    requires left.Some? ==> left.value <= |s|
    ensures o.Some? ==> left.Some? && left.value < o.value <= |s|
    decreases r, 2
  {
    match left
    case None => None
    case Some(m) =>
      var k := SpacesEnd(s, m);
      if k < |s| && s[k] == op then SpellFactor(s, k + 1, r) else None
  }

  function SpellExpr(s: string, p: nat, e: Expr): (r: Option<nat>)
    requires p <= |s|
    ensures r.Some? ==> p < r.value <= |s|
    decreases e, 1
  {
    match e
    case Single(t) => SpellTerm(s, p, t)
    case Add(l, r) => SpellSummand(s, SpellExpr(s, p, l), '+', r)
    case Sub(l, r) => SpellSummand(s, SpellExpr(s, p, l), '-', r)
  }

  /** After a left operand ending at `left`: the operator `op`, then the
      term `r`. */
  function SpellSummand(s: string, left: Option<nat>, op: char, r: Term): (o: Option<nat>)
    requires left.Some? ==> left.value <= |s|
    ensures o.Some? ==> left.Some? && left.value < o.value <= |s|
    decreases r, 2
  {
    match left
    case None => None
    case Some(m) =>
      var k := SpacesEnd(s, m);
      if k < |s| && s[k] == op then SpellTerm(s, k + 1, r) else None
  }
}
