# Calculator parser, modelled in Dafny

The calculator reads one line holding an arithmetic expression and prints its
value. All of its logic sits in the `Parser` class of `parser.hpp`. The class
is a single-pass recursive-descent evaluator over one immutable input string
`expr` and one cursor `pos`:

- `parseExpression` folds `+`/`-` over terms;
- `parseTerm` folds `*`/`/` over factors and refuses a divisor below machine
  epsilon;
- `parseFactor` handles unary `+`/`-`, parenthesised expressions and numbers;
- `parseNumber` scans a run of digits and dots;
- `parse` requires that only whitespace is left after the expression.

Every error the parser itself detects is a thrown `std::runtime_error` with
one of six messages. `std::stod` can also throw `std::out_of_range`, when a
literal lies outside the range of a double; main.cpp reports it like the
others. The model covers the six parser errors only (see "Left out").

The model has these modules:

- `Errors` (errors.dfy): the six failures as an enum `Err`, one constructor
  per `throw`. `Result` is a value or an `Err`, and it works with `:-`, which
  plays the part of the exception unwinding the parse.
- `Lexical` (lexical.dfy): the character classes (`isspace` and `isdigit` in
  the "C" locale) and the value of a numeric literal, which stands in for
  `std::stod`. A lemma states that value as integer part plus decimal
  fraction.
- `Grammar` (grammar.dfy): each parsing rule as a pure function of the input
  and a cursor. Each one returns the value and the cursor where the rule
  stops, or the error. Lemmas state how these rules step and stop.
- `Calculator` (parser.dfy): the class itself, `Parser`, with `const expr`
  and `var pos`. Its methods have the same loops and branches as the C++
  methods. Each method is proved to return what the matching `Grammar` rule
  returns, and to leave `pos` where that rule stops.
- `Syntax` (syntax.dfy): a reference semantics that does not use a cursor.
  It has syntax trees for expression, term and factor, an evaluator, and a
  printer that writes a tree the way the tests write their input. It also
  has a relation `Spell*` that says when a stretch of text is a writing of a
  tree: its tokens in order, with any whitespace before each one.
- `RoundTrip` (roundtrip.dfy): the parser, run on any writing of a tree,
  returns the tree's value, or the first error met when the tree is evaluated
  left to right. Conversely, every text the parser accepts is a writing of a
  tree with the value the parser returns.
- `Properties` (properties.dfy): precedence, left associativity, parentheses,
  unary signs, the division guard and the error cases, stated on the parser.
- `CalculatorTests` (tests.dfy): each case of `tests.cpp`, proved as a lemma
  about the parser.

Values are exact reals. Machine epsilon is the constant `EPS` = 2^-52, the
value of `std::numeric_limits<double>::epsilon()` for IEEE-754 doubles.

## Model

| member | source | states |
|---|---|---|
| Lexical.SpaceClass | parser.hpp:28 | a character is whitespace exactly when it is one of space, tab, newline, vertical tab, form feed and carriage return |
| Lexical.DigitClass | parser.hpp:118 | a character is a digit exactly when it is one of `0` to `9` |
| Lexical.LiteralReading | parser.hpp:136 | a run of digits `a` reads as the integer it spells, and `a.b` reads as that integer plus the digits `b` as a decimal fraction of `\|b\|` places; either side of the dot may be empty |
| Grammar.SpacesEnd | parser.hpp:27-31 | skipping whitespace never moves the cursor backwards and never past the end of the input |
| Grammar.SpacesEndStops | parser.hpp:27-31 | every character skipped is whitespace, and the skip stops at the end of the input or at a non-space character |
| Grammar.LiteralEnd | parser.hpp:116-130 | the run of digits and dots ends between its start and the end of the input |
| Grammar.LiteralEndStops | parser.hpp:116-130 | every character in the run is a digit or a dot, and the run is maximal |
| Grammar.LiteralScan | parser.hpp:116-136 | when the digit loop succeeds, the cursor has moved past at least one character and is within the input |
| Grammar.NumberAt | parser.hpp:110-137 | a number that parses is read after the whitespace, is non-empty, and lies within the input |
| Grammar.LiteralScanRun | parser.hpp:116-134 | the character-by-character loop, taken from any point in the run with its flags matching what it has seen, gives the same answer as the rule on the whole run: two or more dots give MalformedNumber (this check comes first), no digit gives ExpectedNumber, anything else gives the literal's value |
| Grammar.NumberAtRule | parser.hpp:110-137 | `parseNumber` follows the rule on the whole run, and what it accepts is a literal: at least one digit and at most one dot |
| Grammar.FactorAt | parser.hpp:82-108 | a factor that parses consumes at least one character and stays within the input |
| Grammar.MulDivResult | parser.hpp:67-73 | `*` gives the product; `/` fails with DivisionByZero if and only if the divisor's magnitude is below epsilon, and otherwise gives the value that, multiplied by the divisor, is the running value |
| Grammar.AddSub | parser.hpp:44-48 | `+` gives the value from which subtracting the term gives the running value back, and `-` the value to which adding it does |
| Grammar.TermAt | parser.hpp:56-57 | a term that parses consumes at least one character and stays within the input |
| Grammar.TermTail | parser.hpp:58-80 | the term loop never moves the cursor backwards and stays within the input |
| Grammar.ExpressionAt | parser.hpp:33-34 | an expression that parses consumes at least one character and stays within the input |
| Grammar.ExpressionTail | parser.hpp:35-54 | the expression loop never moves the cursor backwards and stays within the input |
| Grammar.ParseAt | parser.hpp:14-21 | an error in the expression is passed on; otherwise the result is the value when only whitespace follows, and TrailingInput when anything else follows |
| Calculator.Parser.constructor | parser.hpp:12 | the parser holds the given input with the cursor at 0 |
| Calculator.Parser.Parse | parser.hpp:14-21 | returns what `Grammar.ParseAt` gives from the starting cursor, never moves the cursor back, and on success leaves the cursor at the end of the input |
| Calculator.Parser.SkipSpaces | parser.hpp:27-31 | moves the cursor to where `Grammar.SpacesEnd` says, which is the end of the input or a non-space character |
| Calculator.Parser.ParseExpression | parser.hpp:33-54 | returns the value or error of `Grammar.ExpressionAt` and, on success, leaves the cursor where that rule stops; the cursor never moves back |
| Calculator.Parser.ParseTerm | parser.hpp:56-80 | returns the value or error of `Grammar.TermAt` and, on success, leaves the cursor where that rule stops; the cursor never moves back |
| Calculator.Parser.ParseFactor | parser.hpp:82-108 | returns the value or error of `Grammar.FactorAt` and, on success, leaves the cursor where that rule stops; the cursor never moves back |
| Calculator.Parser.ParseNumber | parser.hpp:110-137 | returns the value or error of `Grammar.NumberAt` and, on success, leaves the cursor where that rule stops; the cursor never moves back |
| Calculator.Calculate | parser.hpp:12-21 | a fresh parser on the text, then `parse`, gives `Grammar.Evaluate` of the text |
| RoundTrip.FactorRoundTrip | parser.hpp:82-108 | the factor rule, on any writing of a factor that is not followed by a digit or a dot, returns the factor's value and stops right after the writing, or returns the factor's first error |
| RoundTrip.TermRoundTrip | parser.hpp:56-80 | on any writing of a term that is not followed by a digit or a dot, the term rule computes the tree's left-nested product and quotient, and its loop then resumes at the end of the writing; errors are those of left-to-right evaluation |
| RoundTrip.ExprRoundTrip | parser.hpp:33-54 | on any writing of an expression that is not followed by a digit or a dot, nor, after whitespace, by `*` or `/`, the expression rule computes the tree's left-nested sum and difference, and its loop then resumes at the end of the writing; errors are those of left-to-right evaluation |
| RoundTrip.Evaluates | parser.hpp:14-137 | the calculator, on any writing of a well-formed tree (any whitespace before each token and after the last), gives the tree's value or its first error |
| RoundTrip.Printed | parser.hpp:14-137 | the calculator, on the printed tree with any whitespace before and after it, gives the tree's value or its first error |
| RoundTrip.FactorTree | parser.hpp:82-108 | whatever the factor rule accepts is a writing of a well-formed factor that has the value the rule returns and ends where the rule stops |
| RoundTrip.TermTree | parser.hpp:56-80 | whatever the term rule accepts is a writing of a well-formed term that has the value the rule returns and is followed only by whitespace up to where the rule stops |
| RoundTrip.ExprTree | parser.hpp:33-54 | whatever the expression rule accepts is a writing of a well-formed expression that has the value the rule returns and is followed only by whitespace up to where the rule stops |
| RoundTrip.Accepts | parser.hpp:14-137 | the calculator gives the value v if and only if the text is a writing of some well-formed tree whose value is v |
| Properties.Reads | parser.hpp:14-21 | the calculator on a printed tree gives the tree's value or its first error |
| Properties.SubtractionLeftAssociative | parser.hpp:33-54 | `a - b - c` is `(a - b) - c` |
| Properties.DivisionLeftAssociative | parser.hpp:56-80 | `a / b / c` is `(a / b) / c`, and it is DivisionByZero exactly when b or c is below epsilon in magnitude |
| Properties.ProductBeforeSum | parser.hpp:33-80 | `a + b * c` is `a + (b * c)` |
| Properties.ParenthesesFirst | parser.hpp:97-106 | `(a + b) * c` is `(a + b) * c`: the parentheses override precedence |
| Properties.SignBeforeSum | parser.hpp:93-96 | `-a + b` is `(-a) + b`: a unary sign binds tighter than a binary operator |
| Properties.DivisionGuard | parser.hpp:69-73 | `a / b` is DivisionByZero if and only if the magnitude of b is below epsilon, and otherwise a divided by b |
| Properties.SignedShape | parser.hpp:89-96 | a run of unary signs in front of a factor is the factor wrapped once per sign, and is printed as the signs followed by the factor |
| Properties.SignedFactor | parser.hpp:89-96 | a run of unary signs in front of a factor gives the factor's value, negated once for each `-` |
| Properties.SignParity | parser.hpp:89-96 | the calculator on signs followed by a factor gives the factor's value, negated when the number of `-` signs is odd |
| Properties.OperandMissing | parser.hpp:83-86 | an expression followed by a space and a `+` or `-` with nothing after it gives UnexpectedEnd, unless the expression fails first |
| Properties.ParenUnclosed | parser.hpp:97-103 | `(` followed by a printed expression and then either nothing or one character that is not whitespace and can neither continue the expression nor close it gives UnmatchedParen, unless the expression fails first |
| Properties.TrailingCharacter | parser.hpp:16-19 | a printed expression followed by one character that is not whitespace and cannot continue it gives TrailingInput, unless the expression fails first |
| CalculatorTests.Addition | tests.cpp:26-28 | `"3 + 4"` gives 7 |
| CalculatorTests.SubtractionWithWhitespace | tests.cpp:30-32 | `" 5 - 3 "` gives 2 |
| CalculatorTests.MultiplicationPrecedence | tests.cpp:34-36 | `"2 + 3 * 4"` gives 14 |
| CalculatorTests.ParenthesesGroup | tests.cpp:38-40 | `"(2 + 3) * 4"` gives 20 |
| CalculatorTests.NegatedGroup | tests.cpp:43 | `"-(2 + 3)"` gives -5 |
| CalculatorTests.PositiveGroup | tests.cpp:44 | `"+(2 * 3)"` gives 6 |
| CalculatorTests.NestedNegations | tests.cpp:45 | `"-(-(-1))"` gives -1 |
| CalculatorTests.DecimalNumbers | tests.cpp:48-50 | `"3.5 + 0.5"` gives 4 |
| CalculatorTests.TrailingCharacters | tests.cpp:52-54 | `"2 + 3a"` gives TrailingInput |
| CalculatorTests.MissingClosingParenthesis | tests.cpp:56-58 | `"(2 + 3"` gives UnmatchedParen |
| CalculatorTests.InvalidNumberFormat | tests.cpp:60-62 | `"2..3"` gives MalformedNumber |
| CalculatorTests.MissingNumber | tests.cpp:64-66 | `"2 + * 3"` gives ExpectedNumber |
| CalculatorTests.DivisionByZeroRejected | tests.cpp:68-70 | `"10 / 0"` gives DivisionByZero |
| CalculatorTests.UnexpectedEndRejected | tests.cpp:72-74 | `"5 +"` gives UnexpectedEnd |
| CalculatorTests.WhitespaceOnlyUnary | tests.cpp:76-78 | `" - 3"` gives -3 |

## Left out

- Floating point: values are exact reals. Rounding in `+ - * /` and in `std::stod` is not modelled. A literal's value is its digits read as a decimal fraction.
- `EPS` is the exact value 2^-52 of double-precision machine epsilon. The comparison `|rhs| < EPS` is made on the exact divisor, not on a rounded one.
- `std::stod` beyond decimal literals: the parser passes it only runs of digits and at most one dot, so exponents, hex and infinities cannot reach it. Literals such as `.5` and `5.` are accepted, because the digit loop of parser.hpp:116-130 accepts them. A grammar that asks for digits on both sides of the dot would reject them; the model follows the code.
- `std::out_of_range` from `std::stod` (parser.hpp:136): a literal too large for a double, such as `1` followed by 309 zeros, or too small to be represented, such as `0.` followed by 400 zeros and a `1`, makes `std::stod` throw, and main.cpp:21 reports it like the parser's own errors. With exact reals the model has no range limit and gives such a literal its exact value.
- `std::isspace` and `std::isdigit` are fixed to the "C" locale: space, `\t`, `\n`, `\v`, `\f` and `\r` count as whitespace, and only `0`-`9` count as digits.
- The Polish message text of each exception: only which of the six errors is thrown is kept.
- Calculator.Parser.ParseExpression: the cursor position after a failure is not stated (only that it did not move back), because no caller reads it once an exception is thrown. The same holds for ParseTerm, ParseFactor, ParseNumber and Parse.
- main.cpp: reading the line, printing the result or the error, and the exit codes are console I/O and are not part of this model. `Calculator.Calculate` stands for what main.cpp does between reading and printing.
- tests.cpp as a harness: its `assert` calls, its 1e-9 tolerance and its `main`. Its cases are stated as exact lemmas instead.
- Stack exhaustion on deeply nested parentheses or long runs of signs: the model has unbounded recursion.
- Properties.SubtractionLeftAssociative: stated only for operands that evaluate, and likewise for DivisionLeftAssociative, ProductBeforeSum, ParenthesesFirst, SignBeforeSum, DivisionGuard and SignedFactor. The error behaviour of any operand is covered by RoundTrip.Evaluates.
- `std::size_t` wrap-around of `pos`: the cursor is a `nat`, and it never exceeds the input length.
