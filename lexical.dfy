/** Character classes and numeric literals, as the parser reads them.
    `std::isspace` and `std::isdigit` are taken in the "C" locale. */
module Lexical {

  /** `std::isspace`: space, tab, newline, vertical tab, form feed, carriage return. */
  predicate IsSpace(c: char) {
    c == ' ' || '\t' <= c <= '\r'
  }

  /** `std::isdigit`. */
  predicate IsDigit(c: char) {
    '0' <= c <= '9'
  }

  /** The whitespace class, character by character. */
  lemma SpaceClass(c: char)
    ensures IsSpace(c) <==> c in " \t\n\U{0B}\U{0C}\r"
  {
  }

  /** The digit class, character by character. */
  lemma DigitClass(c: char)
    ensures IsDigit(c) <==> c in "0123456789"
  {
  }

  /** A character the number rule keeps consuming. */
  predicate IsLiteralChar(c: char) {
    IsDigit(c) || c == '.'
  }

  function DotCount(t: string): nat {
    if t == [] then 0 else (if t[0] == '.' then 1 else 0) + DotCount(t[1..])
  }

  predicate HasDigit(t: string) {
    exists i :: 0 <= i < |t| && IsDigit(t[i])
  }

  /** What the number rule accepts: digits and dots only, at least one digit,
      at most one dot, in any order (so ".5" and "5." are literals). */
  predicate IsLiteral(t: string) {
    && (forall i :: 0 <= i < |t| ==> IsLiteralChar(t[i]))
    && HasDigit(t)
    && DotCount(t) <= 1
  }

  function DigitValue(c: char): nat
    requires IsDigit(c)
  {
    c as int - '0' as int
  }

  /** The digits of `t`, dot skipped, read as one decimal integer. */
  function Mantissa(t: string): nat {
    if t == [] then 0
    else if IsDigit(t[|t| - 1]) then 10 * Mantissa(t[..|t| - 1]) + DigitValue(t[|t| - 1])
    else Mantissa(t[..|t| - 1])
  }

  /** The number of characters after the first dot (none without a dot). */
  function FractionDigits(t: string): nat {
    if t == [] then 0
    else if t[0] == '.' then |t| - 1
    else FractionDigits(t[1..])
  }

  function Pow10(n: nat): (r: nat)
    ensures r >= 1
  {
    if n == 0 then 1 else 10 * Pow10(n - 1)
  }

  /** `std::stod` on a literal, in exact arithmetic: the digits before the dot
      plus those after it, over a power of ten. */
  function LiteralValue(t: string): real {
    Mantissa(t) as real / Pow10(FractionDigits(t)) as real
  }

  lemma {:induction false} DotCountAppend(a: string, b: string)
    ensures DotCount(a + b) == DotCount(a) + DotCount(b)
  {
    if a == [] {
      assert a + b == b;
    } else {
      assert (a + b)[1..] == a[1..] + b;
      DotCountAppend(a[1..], b);
    }
  }

  lemma HasDigitAppend(t: string, c: char)
    ensures HasDigit(t + [c]) == (HasDigit(t) || IsDigit(c))
  {
    var u := t + [c];
    if HasDigit(u) && !IsDigit(c) {
      var i :| 0 <= i < |u| && IsDigit(u[i]);
      assert i < |t| && t[i] == u[i];
    }
    if HasDigit(t) {
      var i :| 0 <= i < |t| && IsDigit(t[i]);
      assert u[i] == t[i];
    }
    if IsDigit(c) {
      assert u[|t|] == c;
    }
  }

  /** Only digits. */
  predicate IsDigits(t: string) {
    forall i :: 0 <= i < |t| ==> IsDigit(t[i])
  }

  /** Appending digits shifts the digits read so far left by as many places. */
  lemma {:induction false} MantissaAppend(a: string, b: string)
    requires IsDigits(b)
    ensures Mantissa(a + b) == Mantissa(a) * Pow10(|b|) + Mantissa(b)
    decreases |b|
  {
    if b == [] {
      assert a + b == a;
    } else {
      var c := b[|b| - 1];
      var b' := b[..|b| - 1];
      assert (a + b)[..|a + b| - 1] == a + b';
      assert (a + b)[|a + b| - 1] == c;
      MantissaAppend(a, b');
      assert Mantissa(a + b) == 10 * Mantissa(a + b') + DigitValue(c);
      assert Pow10(|b|) == 10 * Pow10(|b'|);
      assert Mantissa(b) == 10 * Mantissa(b') + DigitValue(c);
      Shift(Mantissa(a), Pow10(|b'|), Mantissa(b'), DigitValue(c));
    }
  }

  lemma Shift(x: nat, p: nat, y: nat, d: nat)
    ensures 10 * (x * p + y) + d == x * (10 * p) + (10 * y + d)
  {
  }

  /** A dot adds nothing to the digits read. */
  lemma DotSkipped(a: string)
    ensures Mantissa(a + ".") == Mantissa(a)
  {
    assert (a + ".")[..|a + "."| - 1] == a;
  }

  /** Before the dot, a dot-free prefix is passed over. */
  lemma {:induction false} FractionAfter(a: string, b: string)
    requires IsDigits(a)
    ensures FractionDigits(a + "." + b) == |b|
    decreases |a|
  {
    if a == [] {
      assert a + "." + b == "." + b;
    } else {
      assert (a + "." + b)[1..] == a[1..] + "." + b;
      FractionAfter(a[1..], b);
    }
  }

  /** A dot-free literal has no fraction digits. */
  lemma {:induction false} NoFraction(a: string)
    requires IsDigits(a)
    ensures FractionDigits(a) == 0
    decreases |a|
  {
    if a != [] {
      NoFraction(a[1..]);
    }
  }

  /** How `std::stod` reads a literal, in exact arithmetic: digits `a`
      alone are the integer they spell, and `a.b` is that integer plus the
      digits `b` read as a decimal fraction. Either side may be empty
      (".5", "5."). */
  lemma LiteralReading(a: string, b: string)
    requires IsDigits(a) && IsDigits(b)
    ensures LiteralValue(a) == Mantissa(a) as real
    ensures LiteralValue(a + "." + b) == Mantissa(a) as real + Mantissa(b) as real / Pow10(|b|) as real
  {
    IntegerReading(a);
    DecimalReading(a, b);
  }

  lemma IntegerReading(a: string)
    requires IsDigits(a)
    ensures LiteralValue(a) == Mantissa(a) as real
  {
    NoFraction(a);
    var m: int := Mantissa(a);
    assert Pow10(FractionDigits(a)) == 1;
    assert LiteralValue(a) == m as real / 1 as real;
  }

  lemma DecimalReading(a: string, b: string)
    requires IsDigits(a) && IsDigits(b)
    ensures LiteralValue(a + "." + b) == Mantissa(a) as real + Mantissa(b) as real / Pow10(|b|) as real
  {
    var t := a + "." + b;
    FractionAfter(a, b);
    DotSkipped(a);
    MantissaAppend(a + ".", b);
    var m: int := Mantissa(a);
    var n: int := Mantissa(b);
    var d: int := Pow10(|b|);
    assert Mantissa(t) == m * d + n;
    assert LiteralValue(t) == (m * d + n) as real / d as real;
    Fraction(m, n, d);
  }

  lemma Fraction(m: int, n: int, d: int)
    requires d > 0
    ensures (m * d + n) as real / d as real == m as real + n as real / d as real
  {
    assert (m * d) as real == m as real * d as real;
  }
}
