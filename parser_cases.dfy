/**
 * What the expression parser makes of the forms of input it is built for: operator precedence
 * and associativity, prefix operators, casts, calls, array indexing, literal kinds and the
 * syntax errors. Each lemma holds for every choice of the names and numerals in its form.
 */
module ParserCases {
  import opened Wrappers
  import opened Ast
  import opened Lexer
  import opened Grammar
  import opened ParserProps
  import Strs

  // ---------------------------------------------------------------- reading text

  /** A name that reads as a variable: not a keyword literal and not `new`. */
  predicate IsVar(a: string) {
    IsName(a) && KeywordLiteral(a).None? && a != "new"
  }

  /** One blank before a character that is not blank is skipped; a character that is not blank is not. */
  lemma SkipOne(s: string, k: nat)
    requires k < |s| && IsWhitespace(s[k])
    requires k + 1 == |s| || !IsWhitespace(s[k + 1])
    ensures SkipWs(s, k) == k + 1
  {
  }

  lemma SkipNone(s: string, k: nat)
    requires k <= |s| && (k == |s| || !IsWhitespace(s[k]))
    ensures SkipWs(s, k) == k
  {
  }

  // ---------------------------------------------------------------- the precedence ladder, one rung at a time

  /** Matching skips whitespace first, so starting before or after it is the same. */
  lemma MatchFromBlank(s: string, p: nat, op: string)
    requires p <= |s|
    ensures Match(s, p, op) == Match(s, SkipWs(s, p), op)
  {
    SkipWsIdempotent(s, p);
  }

  /** A unary expression may be entered before or after the blanks that precede it. */
  lemma UnaryFromBlank(s: string, p: nat)
    requires p <= |s|
    ensures Grammar.Unary(s, p) == Grammar.Unary(s, SkipWs(s, p))
  {
    hide Postfix, TypeName, Expect, LooksLikeCast, Match;
    SkipWsIdempotent(s, p);
    MatchFromBlank(s, p, "!");
  }

  lemma MultiplicativeOf(s: string, p: nat, x: Expr, q: nat)
    requires p <= |s| && Grammar.Unary(s, p) == Ok(Step(x, q))
    ensures Multiplicative(s, p) == MultiplicativeRest(s, x, q)
  {
    hide Grammar.Unary, MultiplicativeRest;
  }

  lemma AdditiveOf(s: string, p: nat, x: Expr, q: nat)
    requires p <= |s| && Multiplicative(s, p) == Ok(Step(x, q))
    ensures Additive(s, p) == AdditiveRest(s, x, q)
  {
    hide Multiplicative, AdditiveRest;
  }

  lemma ComparisonOf(s: string, p: nat, x: Expr, q: nat)
    requires p <= |s| && Additive(s, p) == Ok(Step(x, q))
    ensures Comparison(s, p) == ComparisonRest(s, x, q)
  {
    hide Additive, ComparisonRest;
  }

  lemma EqualityOf(s: string, p: nat, x: Expr, q: nat)
    requires p <= |s| && Comparison(s, p) == Ok(Step(x, q))
    ensures Equality(s, p) == EqualityRest(s, x, q)
  {
    hide Comparison, EqualityRest;
  }

  lemma AndOf(s: string, p: nat, x: Expr, q: nat)
    requires p <= |s| && Equality(s, p) == Ok(Step(x, q))
    ensures And(s, p) == AndRest(s, x, q)
  {
    hide Equality, AndRest;
  }

  lemma OrOf(s: string, p: nat, x: Expr, q: nat)
    requires p <= |s| && And(s, p) == Ok(Step(x, q))
    ensures Or(s, p) == OrRest(s, x, q)
  {
    hide And, OrRest;
  }

  /** A sum that reaches the end of the text is the whole parse. */
  lemma ParseOfAdditive(s: string, e: Expr)
    requires SkipWs(s, 0) == 0 && Additive(s, 0) == Ok(Step(e, |s|))
    ensures Parse(s) == Ok(e)
  {
    hide Additive, ComparisonRest, Comparison, Equality, EqualityRest, And, AndRest, Or, OrRest;
    RestAtEnd(s, e, |s|);
    ComparisonOf(s, 0, e, |s|);
    EqualityOf(s, 0, e, |s|);
    AndOf(s, 0, e, |s|);
    OrOf(s, 0, e, |s|);
  }

  /** A conjunction that reaches the end of the text is the whole parse. */
  lemma ParseOfAnd(s: string, e: Expr)
    requires SkipWs(s, 0) == 0 && And(s, 0) == Ok(Step(e, |s|))
    ensures Parse(s) == Ok(e)
  {
    hide And, Or, OrRest;
    RestAtEnd(s, e, |s|);
    OrOf(s, 0, e, |s|);
  }

  // Each loop of the chain, before its operator, takes the operand that follows and goes on
  // with the tree that joins them.

  lemma MultiplicativeRestMul(s: string, left: Expr, p: nat, y: Expr, r: nat)
    requires p <= |s| && SkipWs(s, p) < |s| && s[SkipWs(s, p)] == '*'
    requires Grammar.Unary(s, SkipWs(s, p) + 1) == Ok(Step(y, r))
    ensures MultiplicativeRest(s, left, p) == MultiplicativeRest(s, Binary(left, Mul, y), r)
  {
    hide Grammar.Unary, Match, SkipWs;
    var k := SkipWs(s, p);
    SkipWsIdempotent(s, p);
    assert s[k..k + 1] == "*";
  }

  lemma AdditiveRestAdd(s: string, left: Expr, p: nat, y: Expr, r: nat)
    requires p <= |s| && SkipWs(s, p) < |s| && s[SkipWs(s, p)] == '+'
    requires Multiplicative(s, SkipWs(s, p) + 1) == Ok(Step(y, r))
    ensures AdditiveRest(s, left, p) == AdditiveRest(s, Binary(left, Add, y), r)
  {
    hide Multiplicative, Match, SkipWs;
    var k := SkipWs(s, p);
    SkipWsIdempotent(s, p);
    assert s[k..k + 1] == "+";
  }

  lemma AdditiveRestSub(s: string, left: Expr, p: nat, y: Expr, r: nat)
    requires p <= |s| && SkipWs(s, p) < |s| && s[SkipWs(s, p)] == '-'
    requires Multiplicative(s, SkipWs(s, p) + 1) == Ok(Step(y, r))
    ensures AdditiveRest(s, left, p) == AdditiveRest(s, Binary(left, Sub, y), r)
  {
    hide Multiplicative, Match, SkipWs;
    var k := SkipWs(s, p);
    SkipWsIdempotent(s, p);
    assert s[k..k + 1] == "-";
  }

  /** Before `<` or `>` that does not start `<=` or `>=`, the comparison loop's matchers in turn. */
  lemma ComparisonMatches(s: string, p: nat)
    requires p <= |s| && SkipWs(s, p) + 1 < |s| && s[SkipWs(s, p)] in {'<', '>'} && s[SkipWs(s, p) + 1] != '='
    ensures var k := SkipWs(s, p);
      Match(s, p, "<=") == Scan(false, k) && Match(s, k, ">=") == Scan(false, k) &&
      Match(s, k, "<") == Scan(s[k] == '<', if s[k] == '<' then k + 1 else k) &&
      (s[k] == '>' ==> Match(s, k, ">") == Scan(true, k + 1))
  {
    var k := SkipWs(s, p);
    SkipWsIdempotent(s, p);
    assert s[k..k + 2][1] == s[k + 1];
    assert s[k..k + 1] == [s[k]];
  }

  /** A single `<` or `>` comparison, after which no comparison operator follows. */
  lemma ComparisonRestOne(s: string, left: Expr, p: nat, y: Expr, r: nat)
    requires p <= |s| && SkipWs(s, p) + 1 < |s| && s[SkipWs(s, p)] in {'<', '>'} && s[SkipWs(s, p) + 1] != '='
    requires Additive(s, SkipWs(s, p) + 1) == Ok(Step(y, r))
    requires r <= |s| && Peek(s, SkipWs(s, r)) !in {'<', '>', 'i'}
    ensures ComparisonRest(s, left, p) ==
      Ok(Step(Binary(left, if s[SkipWs(s, p)] == '<' then Lt else Gt, y), SkipWs(s, r)))
  {
    ComparisonMatches(s, p);
    ComparisonRestStops(s, Binary(left, if s[SkipWs(s, p)] == '<' then Lt else Gt, y), r);
    hide Additive, TypeName, Match, SkipWs, MatchKeyword;
  }

  lemma AndRestAnd(s: string, left: Expr, p: nat, y: Expr, r: nat)
    requires p <= |s| && SkipWs(s, p) + 1 < |s| && s[SkipWs(s, p)] == '&' && s[SkipWs(s, p) + 1] == '&'
    requires Equality(s, SkipWs(s, p) + 2) == Ok(Step(y, r))
    ensures AndRest(s, left, p) == AndRest(s, Binary(left, CondAnd, y), r)
  {
    hide Equality, Match, SkipWs;
    var k := SkipWs(s, p);
    SkipWsIdempotent(s, p);
    assert s[k..k + 2] == "&&";
  }

  // ---------------------------------------------------------------- operands

  lemma PostfixOfPrimary(s: string, p: nat, x: Expr, q: nat)
    requires p <= |s| && Primary(s, p) == Ok(Step(x, q))
    ensures Postfix(s, p) == PostfixRest(s, x, q)
  {
    hide Primary, PostfixRest;
  }

  /** What may follow a name that is neither called nor suffixed: the end, or a character that ends it and, after blanks, no `.` or `[`. */
  predicate Delimits(s: string, e: nat)
    requires e <= |s|
  {
    e == |s| || (!IsIdentPart(s[e]) && s[e] != '(' && Peek(s, SkipWs(s, e)) !in {'.', '['})
  }

  /** Punctuation is neither blank nor part of a name. */
  lemma Punct(c: char)
    requires c in {'+', '-', '*', '/', '%', '<', '>', '=', '!', '&', '|', '(', ')', '[', ']', ',', '.', '@', '"', '\''}
    ensures !IsWhitespace(c) && !IsIdentPart(c) && !IsIdentStart(c) && !IsDigit(c)
  {
  }

  lemma Blank()
    ensures IsWhitespace(' ') && !IsIdentPart(' ')
  {
  }

  /** A variable name starts with a letter, `_` or `$`. */
  lemma VarStart(a: string)
    requires IsVar(a)
    ensures IsName(a) && KeywordLiteral(a).None? && a != "new"
    ensures |a| > 0 && IsIdentStart(a[0]) && !IsWhitespace(a[0]) && !IsDigit(a[0])
    ensures a[0] !in {'!', '-', '+', '(', '"', '\'', '.', '['}
  {
  }

  lemma PeekAt(s: string, k: nat)
    ensures Peek(s, k) == if k < |s| then s[k] else '\0'
  {
  }

  lemma DelimitsAtEnd(s: string)
    ensures Delimits(s, |s|) && SkipWs(s, |s|) == |s|
  {
  }

  /** One blank, then a character that is not blank and starts no suffix. */
  lemma DelimitsBlank(s: string, e: nat)
    requires e + 1 < |s| && s[e] == ' ' && !IsWhitespace(s[e + 1]) && s[e + 1] !in {'.', '['}
    ensures Delimits(s, e) && SkipWs(s, e) == e + 1
  {
  }

  /** A closing parenthesis or bracket, or a comma, right after the name. */
  lemma DelimitsCloser(s: string, e: nat)
    requires e < |s| && s[e] in {')', ']', ','}
    ensures Delimits(s, e) && SkipWs(s, e) == e
  {
  }

  /**
   * A variable name at `k` that is not called and takes no suffix: the operand is the variable,
   * and the next operator is looked for after the blanks that follow it.
   */
  lemma VarOperand(s: string, k: nat, a: string, e: nat)
    requires IsVar(a) && e == k + |a| && e <= |s| && s[k..e] == a && Delimits(s, e)
    ensures Grammar.Unary(s, k) == Ok(Step(Variable(a), SkipWs(s, e)))
  {
    hide Primary, PostfixRest, Grammar.Unary, Postfix;
    NameAt(s, k, a);
    assert s[k] == a[0];
    UnaryOfPostfix(s, k);
    PrimaryOfName(s, k, k + |a|);
    PostfixRestStops(s, Variable(a), k + |a|);
    PostfixOfPrimary(s, k, Variable(a), k + |a|);
  }

  /** The same after one blank. */
  lemma VarAfterBlank(s: string, p: nat, k: nat, a: string, e: nat)
    requires IsVar(a) && k == p + 1 && e == k + |a| && e <= |s| && s[p] == ' ' && s[k..e] == a && Delimits(s, e)
    ensures Grammar.Unary(s, p) == Ok(Step(Variable(a), SkipWs(s, e)))
  {
    assert s[k] == a[0];
    SkipOne(s, p);
    hide Grammar.Unary, SkipWs, Delimits;
    VarOperand(s, k, a, e);
    UnaryFromBlank(s, p);
  }

  /** A unary operand before a character that starts no multiplicative or additive operator is the whole sum. */
  lemma AdditiveOfUnary(s: string, p: nat, x: Expr, q: nat)
    requires p <= q <= |s| && Grammar.Unary(s, p) == Ok(Step(x, q)) && SkipWs(s, q) == q
    requires Peek(s, q) !in {'*', '/', '%', '+', '-'}
    ensures Multiplicative(s, p) == Ok(Step(x, q)) && Additive(s, p) == Ok(Step(x, q))
  {
    MultiplicativeRestStops(s, x, q);
    AdditiveRestStops(s, x, q);
    hide *;
    MultiplicativeOf(s, p, x, q);
    AdditiveOf(s, p, x, q);
  }

  /** A unary operand before a character that starts no multiplicative operator is the whole product. */
  lemma MultiplicativeOfUnary(s: string, p: nat, x: Expr, q: nat)
    requires p <= q <= |s| && Grammar.Unary(s, p) == Ok(Step(x, q)) && SkipWs(s, q) == q
    requires Peek(s, q) !in {'*', '/', '%'}
    ensures Multiplicative(s, p) == Ok(Step(x, q))
  {
    MultiplicativeRestStops(s, x, q);
    hide *;
    MultiplicativeOf(s, p, x, q);
  }

  /** A sum before a character that starts no comparison, equality or logical operator is the whole expression. */
  lemma OrOfAdditive(s: string, p: nat, x: Expr, q: nat)
    requires p <= q <= |s| && Additive(s, p) == Ok(Step(x, q)) && SkipWs(s, q) == q
    requires Peek(s, q) !in {'<', '>', 'i', '=', '!', '&', '|'}
    ensures Or(s, p) == Ok(Step(x, q))
  {
    ComparisonRestStops(s, x, q);
    EqualityRestStops(s, x, q);
    AndRestStops(s, x, q);
    OrRestStops(s, x, q);
    hide *;
    ComparisonOf(s, p, x, q);
    EqualityOf(s, p, x, q);
    AndOf(s, p, x, q);
    OrOf(s, p, x, q);
  }

  /** An expression at the start of the text that reaches its end is what `parse` answers. */
  lemma ParseOfOr(s: string, x: Expr)
    requires SkipWs(s, 0) == 0 && Or(s, 0) == Ok(Step(x, |s|))
    ensures Parse(s) == Ok(x)
  {
    SkipNone(s, |s|);
    hide Or;
  }

  /** An expression that fails fails the parse. */
  lemma ParseOfOrErr(s: string, err: ParseError)
    requires Or(s, SkipWs(s, 0)) == Err(err)
    ensures Parse(s) == Err(err)
  {
    hide Or;
  }

  /** A failing operand fails every level above it. */
  lemma OrOfErr(s: string, p: nat, err: ParseError)
    requires p <= |s|
    ensures Grammar.Unary(s, p) == Err(err) ==> Or(s, p) == Err(err)
    ensures Multiplicative(s, p) == Err(err) ==> Or(s, p) == Err(err)
    ensures Additive(s, p) == Err(err) ==> Or(s, p) == Err(err)
  {
    hide Grammar.Unary, MultiplicativeRest, AdditiveRest, ComparisonRest, EqualityRest, AndRest, OrRest;
    if Grammar.Unary(s, p) == Err(err) {
      assert Multiplicative(s, p) == Err(err);
    }
    if Multiplicative(s, p) == Err(err) {
      assert Additive(s, p) == Err(err);
    }
    if Additive(s, p) == Err(err) {
      assert Comparison(s, p) == Err(err);
      assert Equality(s, p) == Err(err);
      assert And(s, p) == Err(err);
    }
  }

  /** A parenthesis that does not enclose a lone type name is not a cast: the unary expression is a postfix one. */
  lemma UnaryOfParen(s: string, p: nat)
    requires p < |s| && SkipWs(s, p) == p && s[p] == '(' && !LooksLikeCast(s, p)
    ensures Grammar.Unary(s, p) == Postfix(s, p)
  {
    hide Postfix, TypeName, LooksLikeCast;
    MatchFails(s, p, "!");
    MatchFails(s, p, "-");
    MatchFails(s, p, "+");
  }

  /** A parenthesized expression is a primary: the expression inside, up to its closing parenthesis. */
  lemma PrimaryOfParen(s: string, p: nat, x: Expr, q: nat)
    requires p < |s| && SkipWs(s, p) == p && s[p] == '('
    requires Or(s, p + 1) == Ok(Step(x, q)) && q < |s| && SkipWs(s, q) == q && s[q] == ')'
    ensures Primary(s, p) == Ok(Step(x, q + 1))
  {
    hide Or, StringLiteral, CharLiteral, Number, NewExpression, Arguments, Match, Expect, Peek;
    assert s[p..p + 1] == "(";
    hide SkipWs;
  }

  /** A parenthesized expression whose closing parenthesis is missing: `expect(')')` fails at the end. */
  lemma PrimaryOfParenUnclosed(s: string, p: nat, x: Expr)
    requires p < |s| && SkipWs(s, p) == p && s[p] == '('
    requires Or(s, p + 1) == Ok(Step(x, |s|))
    ensures Primary(s, p) == Err(ParseException(ExpectedChar(')'), |s|))
  {
    hide Or, StringLiteral, CharLiteral, Number, NewExpression, Arguments, Match, Expect, Peek;
    assert s[p..p + 1] == "(";
    SkipNone(s, |s|);
    hide SkipWs;
  }

  /** `(a` followed by a blank and then anything but `)`: the cast lookahead declines. */
  lemma NotACast(s: string, a: string, i: nat)
    requires IsVar(a) && i == 1 + |a| && i + 1 < |s| && s[0] == '(' && s[1..i] == a
    requires s[i] == ' ' && !IsWhitespace(s[i + 1]) && s[i + 1] != ')'
    ensures !LooksLikeCast(s, 0)
  {
    assert s[1] == a[0];
    SkipNone(s, 1);
    forall k | 1 <= k < i ensures IsIdentPart(s[k]) {
      assert s[k] == s[1..i][k - 1];
    }
    CastScanOfName(s, 1, i);
    SkipOne(s, i);
  }

  // ---------------------------------------------------------------- precedence and associativity

  /** `a + b * c`: multiplication binds tighter than addition. */
  lemma MulBindsTighterThanAdd(a: string, b: string, c: string)
    requires IsVar(a) && IsVar(b) && IsVar(c)
    ensures Parse(a + " + " + b + " * " + c) ==
      Ok(Binary(Variable(a), Add, Binary(Variable(b), Mul, Variable(c))))
  {
    hide *;
    var s := a + " + " + b + " * " + c;
    var i := |a|;
    var j := i + 3 + |b|;
    assert s[0..i] == a && s[i + 3..j] == b && s[j + 3..] == c;
    assert s[i] == ' ' && s[i + 1] == '+' && s[i + 2] == ' ';
    assert s[j] == ' ' && s[j + 1] == '*' && s[j + 2] == ' ';
    SumOfProductAt(s, a, b, c, i, j);
  }

  lemma SumOfProductAt(s: string, a: string, b: string, c: string, i: nat, j: nat)
    requires IsVar(a) && IsVar(b) && IsVar(c)
    requires i == |a| && j == i + 3 + |b| && |s| == j + 3 + |c|
    requires s[0..i] == a && s[i + 3..j] == b && s[j + 3..] == c
    requires s[i] == ' ' && s[i + 1] == '+' && s[i + 2] == ' ' && s[j] == ' ' && s[j + 1] == '*' && s[j + 2] == ' '
    ensures Parse(s) == Ok(Binary(Variable(a), Add, Binary(Variable(b), Mul, Variable(c))))
  {
    hide *;
    var va := Variable(a);
    var bc := Binary(Variable(b), Mul, Variable(c));
    var e := Binary(va, Add, bc);
    Punct('+');
    VarStart(a);
    PeekAt(s, i + 1);
    PeekAt(s, |s|);
    DelimitsBlank(s, i);
    SkipNone(s, i + 1);
    SkipNone(s, 0);
    DelimitsAtEnd(s);
    VarOperand(s, 0, a, i);
    MultiplicativeOf(s, 0, va, i + 1);
    MultiplicativeRestStops(s, va, i + 1);
    ProductToEnd(s, i + 2, b, c, j);
    AdditiveOf(s, 0, va, i + 1);
    AdditiveRestAdd(s, va, i + 1, bc, |s|);
    RestAtEnd(s, e, |s|);
    ParseOfAdditive(s, e);
  }

  /** After a blank, `b * c` up to the end of the text is one product. */
  lemma ProductToEnd(s: string, p: nat, b: string, c: string, j: nat)
    requires IsVar(b) && IsVar(c)
    requires j == p + 1 + |b| && |s| == j + 3 + |c|
    requires s[p] == ' ' && s[p + 1..j] == b && s[j + 3..] == c
    requires s[j] == ' ' && s[j + 1] == '*' && s[j + 2] == ' '
    ensures Multiplicative(s, p) == Ok(Step(Binary(Variable(b), Mul, Variable(c)), |s|))
  {
    hide *;
    var vb, vc := Variable(b), Variable(c);
    assert s[j + 3..j + 3 + |c|] == c;
    Punct('*');
    PeekAt(s, j + 1);
    PeekAt(s, |s|);
    DelimitsBlank(s, j);
    DelimitsAtEnd(s);
    SkipNone(s, j + 1);
    VarAfterBlank(s, p, p + 1, b, j);
    VarAfterBlank(s, j + 2, j + 3, c, |s|);
    MultiplicativeOf(s, p, vb, j + 1);
    MultiplicativeRestMul(s, vb, j + 1, vc, |s|);
    RestAtEnd(s, Binary(vb, Mul, vc), |s|);
  }

  /** `(a + b) * c`: parentheses group a sum that is then multiplied. */
  lemma ParenthesesGroupFirst(a: string, b: string, c: string)
    requires IsVar(a) && IsVar(b) && IsVar(c)
    ensures Parse("(" + a + " + " + b + ") * " + c) ==
      Ok(Binary(Binary(Variable(a), Add, Variable(b)), Mul, Variable(c)))
  {
    hide *;
    var s := "(" + a + " + " + b + ") * " + c;
    var i := 1 + |a|;
    var j := i + 3 + |b|;
    assert s[1..i] == a && s[i + 3..j] == b && s[j + 4..] == c;
    assert s[0] == '(' && s[i] == ' ' && s[i + 1] == '+' && s[i + 2] == ' ';
    assert s[j] == ')' && s[j + 1] == ' ' && s[j + 2] == '*' && s[j + 3] == ' ';
    GroupThenProductAt(s, a, b, c, i, j);
  }

  /** `(a + b)` from the start of the text, closed at `j`. */
  lemma ParenthesizedSumAt(s: string, a: string, b: string, i: nat, j: nat)
    requires IsVar(a) && IsVar(b)
    requires i == 1 + |a| && j == i + 3 + |b| && j + 2 < |s|
    requires s[1..i] == a && s[i + 3..j] == b
    requires s[0] == '(' && s[i] == ' ' && s[i + 1] == '+' && s[i + 2] == ' ' && s[j] == ')' && s[j + 1] == ' '
    requires !IsWhitespace(s[j + 2]) && s[j + 2] !in {'.', '['}
    ensures Grammar.Unary(s, 0) == Ok(Step(Binary(Variable(a), Add, Variable(b)), j + 2))
  {
    hide *;
    var va, vb := Variable(a), Variable(b);
    var ab := Binary(va, Add, vb);
    Punct('+');
    Punct(')');
    Punct('(');
    Blank();
    VarStart(a);
    PeekAt(s, i + 1);
    PeekAt(s, j);
    PeekAt(s, j + 2);
    DelimitsBlank(s, i);
    SkipNone(s, i + 1);
    DelimitsCloser(s, j);
    SkipNone(s, 0);
    SkipOne(s, j + 1);
    NotACast(s, a, i);
    VarOperand(s, 1, a, i);
    MultiplicativeOfUnary(s, 1, va, i + 1);
    VarAfterBlank(s, i + 2, i + 3, b, j);
    AdditiveOfUnary(s, i + 2, vb, j);
    MultiplicativeOf(s, 1, va, i + 1);
    AdditiveOf(s, 1, va, i + 1);
    AdditiveRestAdd(s, va, i + 1, vb, j);
    AdditiveRestStops(s, ab, j);
    OrOfAdditive(s, 1, ab, j);
    PrimaryOfParen(s, 0, ab, j);
    PostfixRestStops(s, ab, j + 1);
    PostfixOfPrimary(s, 0, ab, j + 1);
    UnaryOfParen(s, 0);
  }

  lemma GroupThenProductAt(s: string, a: string, b: string, c: string, i: nat, j: nat)
    requires IsVar(a) && IsVar(b) && IsVar(c)
    requires i == 1 + |a| && j == i + 3 + |b| && |s| == j + 4 + |c|
    requires s[1..i] == a && s[i + 3..j] == b && s[j + 4..] == c
    requires s[0] == '(' && s[i] == ' ' && s[i + 1] == '+' && s[i + 2] == ' '
    requires s[j] == ')' && s[j + 1] == ' ' && s[j + 2] == '*' && s[j + 3] == ' '
    ensures Parse(s) == Ok(Binary(Binary(Variable(a), Add, Variable(b)), Mul, Variable(c)))
  {
    hide *;
    var ab := Binary(Variable(a), Add, Variable(b));
    var vc := Variable(c);
    var e := Binary(ab, Mul, vc);
    assert s[j + 4..|s|] == c;
    Punct('*');
    Punct('(');
    PeekAt(s, |s|);
    SkipNone(s, j + 2);
    SkipNone(s, 0);
    DelimitsAtEnd(s);
    ParenthesizedSumAt(s, a, b, i, j);
    VarAfterBlank(s, j + 3, j + 4, c, |s|);
    MultiplicativeOf(s, 0, ab, j + 2);
    MultiplicativeRestMul(s, ab, j + 2, vc, |s|);
    RestAtEnd(s, e, |s|);
    AdditiveOf(s, 0, e, |s|);
    ParseOfAdditive(s, e);
  }

  /** `a < b && c > d`: comparisons bind tighter than the conditional and. */
  lemma ComparisonsBindTighterThanAnd(a: string, b: string, c: string, d: string)
    requires IsVar(a) && IsVar(b) && IsVar(c) && IsVar(d)
    ensures Parse(a + " < " + b + " && " + c + " > " + d) ==
      Ok(Binary(Binary(Variable(a), Lt, Variable(b)), CondAnd, Binary(Variable(c), Gt, Variable(d))))
  {
    hide *;
    var s := a + " < " + b + " && " + c + " > " + d;
    var i := |a|;
    var j := i + 3 + |b|;
    var k := j + 4 + |c|;
    assert s[0..i] == a && s[i + 3..j] == b && s[j + 4..k] == c && s[k + 3..] == d;
    assert s[i] == ' ' && s[i + 1] == '<' && s[i + 2] == ' ';
    assert s[j] == ' ' && s[j + 1] == '&' && s[j + 2] == '&' && s[j + 3] == ' ';
    assert s[k] == ' ' && s[k + 1] == '>' && s[k + 2] == ' ';
    ComparisonsAt(s, a, b, c, d, i, j, k);
  }

  lemma ComparisonsAt(s: string, a: string, b: string, c: string, d: string, i: nat, j: nat, k: nat)
    requires IsVar(a) && IsVar(b) && IsVar(c) && IsVar(d)
    requires i == |a| && j == i + 3 + |b| && k == j + 4 + |c| && |s| == k + 3 + |d|
    requires s[0..i] == a && s[i + 3..j] == b && s[j + 4..k] == c && s[k + 3..] == d
    requires s[i] == ' ' && s[i + 1] == '<' && s[i + 2] == ' '
    requires s[j] == ' ' && s[j + 1] == '&' && s[j + 2] == '&' && s[j + 3] == ' '
    requires s[k] == ' ' && s[k + 1] == '>' && s[k + 2] == ' '
    ensures Parse(s) ==
      Ok(Binary(Binary(Variable(a), Lt, Variable(b)), CondAnd, Binary(Variable(c), Gt, Variable(d))))
  {
    hide *;
    assert s[k + 3..|s|] == d;
    Punct('<');
    Punct('>');
    Punct('&');
    VarStart(a);
    PeekAt(s, j + 1);
    PeekAt(s, |s|);
    DelimitsBlank(s, i);
    DelimitsBlank(s, j);
    DelimitsBlank(s, k);
    DelimitsAtEnd(s);
    SkipNone(s, 0);
    SkipNone(s, j + 1);
    VarOperand(s, 0, a, i);
    VarAfterBlank(s, j + 3, j + 4, c, k);
    ComparisonPairAt(s, 0, a, b, i, j, j + 1);
    ComparisonPairAt(s, j + 3, c, d, k, |s|, |s|);
    ConjunctionAt(s, Binary(Variable(a), Lt, Variable(b)), Binary(Variable(c), Gt, Variable(d)), j);
  }

  /**
   * `x op y` (`op` being `<` or `>`, with one blank either side), where the unary operand `x` has been read
   * from `p` up to the blank at `i`, and `y` ends at `e`, which is followed by `q` = the next non-blank.
   */
  lemma ComparisonPairAt(s: string, p: nat, x: string, y: string, i: nat, e: nat, q: nat)
    requires IsVar(y) && p <= i && e == i + 3 + |y| && e <= |s| && q <= |s|
    requires Grammar.Unary(s, p) == Ok(Step(Variable(x), i + 1))
    requires s[i + 3..e] == y && s[i] == ' ' && s[i + 1] in {'<', '>'} && s[i + 2] == ' '
    requires Delimits(s, e) && SkipWs(s, e) == q && SkipWs(s, q) == q
    requires Peek(s, q) !in {'*', '/', '%', '+', '-', '<', '>', 'i'}
    ensures Comparison(s, p) ==
      Ok(Step(Binary(Variable(x), if s[i + 1] == '<' then Lt else Gt, Variable(y)), q))
  {
    hide *;
    var vx, vy := Variable(x), Variable(y);
    Punct('<');
    Punct('>');
    SkipNone(s, i + 1);
    PeekAt(s, i + 1);
    AdditiveOfUnary(s, p, vx, i + 1);
    VarAfterBlank(s, i + 2, i + 3, y, e);
    AdditiveOfUnary(s, i + 2, vy, q);
    ComparisonRestOne(s, vx, i + 1, vy, q);
    ComparisonOf(s, p, vx, i + 1);
  }

  /** Two comparisons joined by `&&` at `j`, the second reaching the end: the conjunction is the parse. */
  lemma ConjunctionAt(s: string, l: Expr, r: Expr, j: nat)
    requires j + 3 < |s| && s[j] == ' ' && s[j + 1] == '&' && s[j + 2] == '&'
    requires SkipWs(s, 0) == 0 && Comparison(s, 0) == Ok(Step(l, j + 1)) && Comparison(s, j + 3) == Ok(Step(r, |s|))
    ensures Parse(s) == Ok(Binary(l, CondAnd, r))
  {
    hide *;
    Punct('&');
    PeekAt(s, j + 1);
    PeekAt(s, |s|);
    SkipNone(s, j + 1);
    SkipNone(s, |s|);
    EqualityRestStops(s, l, j + 1);
    RestAtEnd(s, r, |s|);
    RestAtEnd(s, Binary(l, CondAnd, r), |s|);
    EqualityOf(s, 0, l, j + 1);
    EqualityOf(s, j + 3, r, |s|);
    AndOf(s, 0, l, j + 1);
    AndRestAnd(s, l, j + 1, r, |s|);
    ParseOfAnd(s, Binary(l, CondAnd, r));
  }

  /** `a - b - c`: subtraction associates to the left. */
  lemma SubtractionIsLeftAssociative(a: string, b: string, c: string)
    requires IsVar(a) && IsVar(b) && IsVar(c)
    ensures Parse(a + " - " + b + " - " + c) ==
      Ok(Binary(Binary(Variable(a), Sub, Variable(b)), Sub, Variable(c)))
  {
    hide *;
    var s := a + " - " + b + " - " + c;
    var i := |a|;
    var j := i + 3 + |b|;
    assert s[0..i] == a && s[i + 3..j] == b && s[j + 3..] == c;
    assert s[i] == ' ' && s[i + 1] == '-' && s[i + 2] == ' ';
    assert s[j] == ' ' && s[j + 1] == '-' && s[j + 2] == ' ';
    DifferenceChainAt(s, a, b, c, i, j);
  }

  lemma DifferenceChainAt(s: string, a: string, b: string, c: string, i: nat, j: nat)
    requires IsVar(a) && IsVar(b) && IsVar(c)
    requires i == |a| && j == i + 3 + |b| && |s| == j + 3 + |c|
    requires s[0..i] == a && s[i + 3..j] == b && s[j + 3..] == c
    requires s[i] == ' ' && s[i + 1] == '-' && s[i + 2] == ' ' && s[j] == ' ' && s[j + 1] == '-' && s[j + 2] == ' '
    ensures Parse(s) == Ok(Binary(Binary(Variable(a), Sub, Variable(b)), Sub, Variable(c)))
  {
    hide *;
    var va, vb, vc := Variable(a), Variable(b), Variable(c);
    var ab := Binary(va, Sub, vb);
    var e := Binary(ab, Sub, vc);
    assert s[j + 3..|s|] == c;
    Punct('-');
    VarStart(a);
    PeekAt(s, i + 1);
    PeekAt(s, j + 1);
    PeekAt(s, |s|);
    DelimitsBlank(s, i);
    DelimitsBlank(s, j);
    DelimitsAtEnd(s);
    SkipNone(s, 0);
    SkipNone(s, i + 1);
    SkipNone(s, j + 1);
    VarOperand(s, 0, a, i);
    MultiplicativeOfUnary(s, 0, va, i + 1);
    VarAfterBlank(s, i + 2, i + 3, b, j);
    MultiplicativeOfUnary(s, i + 2, vb, j + 1);
    VarAfterBlank(s, j + 2, j + 3, c, |s|);
    MultiplicativeOfUnary(s, j + 2, vc, |s|);
    AdditiveOf(s, 0, va, i + 1);
    AdditiveRestSub(s, va, i + 1, vb, j + 1);
    AdditiveRestSub(s, ab, j + 1, vc, |s|);
    RestAtEnd(s, e, |s|);
    ParseOfAdditive(s, e);
  }

}
