/**
 * The prefix level of the expression grammar: `!`, `-`, the unary `+` that builds no node,
 * negated numerals, and casts, which bind tighter than every binary operator.
 */
module ParserPrefix {
  import opened Wrappers
  import opened Ast
  import opened Lexer
  import opened Grammar
  import opened ParserProps
  import opened ParserCases
  import Strs

  // ---------------------------------------------------------------- one prefix operator at a time

  /** A `!` that does not start `!=` negates the unary expression after it. */
  lemma UnaryOfNot(s: string, p: nat, x: Expr, q: nat)
    requires p < |s| && SkipWs(s, p) == p && s[p] == '!' && (p + 1 == |s| || s[p + 1] != '=')
    requires Grammar.Unary(s, p + 1) == Ok(Step(x, q))
    ensures Grammar.Unary(s, p) == Ok(Step(Ast.Unary(Not, x), q))
  {
    hide Postfix, TypeName, LooksLikeCast, Expect, Match, SkipWs;
    assert s[p..p + 1] == "!";
  }

  /** A unary `+` is skipped: the expression after it is the result, with no node of its own. */
  lemma UnaryOfPlus(s: string, p: nat)
    requires p < |s| && SkipWs(s, p) == p && s[p] == '+'
    ensures Grammar.Unary(s, p) == Grammar.Unary(s, p + 1)
  {
    hide Postfix, TypeName, LooksLikeCast, Expect, Match, SkipWs;
    MatchFails(s, p, "!");
    MatchFails(s, p, "-");
    assert s[p..p + 1] == "+";
  }

  /** A variable name at `k` that runs to the end of the text. */
  lemma VarToEnd(s: string, k: nat, a: string)
    requires IsVar(a) && k + |a| == |s| && s[k..] == a
    ensures Grammar.Unary(s, k) == Ok(Step(Variable(a), |s|))
  {
    hide *;
    assert s[k..|s|] == a;
    DelimitsAtEnd(s);
    VarOperand(s, k, a, |s|);
  }

  /** A unary expression at the start that reaches the end of the text is what `parse` answers. */
  lemma ParseOfUnaryAt(s: string, x: Expr)
    requires SkipWs(s, 0) == 0 && Grammar.Unary(s, 0) == Ok(Step(x, |s|))
    ensures Parse(s) == Ok(x)
  {
    DelimitsAtEnd(s);
    hide *;
    ParseOfUnary(s);
  }

  // ---------------------------------------------------------------- prefix forms

  /** `+a`: the unary plus builds no node, the result is the variable itself. */
  lemma UnaryPlusBuildsNoNode(a: string)
    requires IsVar(a)
    ensures Parse("+" + a) == Ok(Variable(a))
  {
    hide *;
    var s := "+" + a;
    assert |s| == 1 + |a| && s[0] == '+' && s[1..] == a;
    Punct('+');
    SkipNone(s, 0);
    VarToEnd(s, 1, a);
    UnaryOfPlus(s, 0);
    ParseOfUnaryAt(s, Variable(a));
  }

  /** `-a`: the negation of the variable. */
  lemma MinusNegates(a: string)
    requires IsVar(a)
    ensures Parse("-" + a) == Ok(Ast.Unary(Neg, Variable(a)))
  {
    hide *;
    var s := "-" + a;
    assert |s| == 1 + |a| && s[0] == '-' && s[1..] == a;
    Punct('-');
    SkipNone(s, 0);
    VarToEnd(s, 1, a);
    UnaryOfMinus(s, 0);
    ParseOfUnaryAt(s, Ast.Unary(Neg, Variable(a)));
  }

  /** `!!a`: prefix operators nest, the outer one applied last. */
  lemma DoubleNotNests(a: string)
    requires IsVar(a)
    ensures Parse("!!" + a) == Ok(Ast.Unary(Not, Ast.Unary(Not, Variable(a))))
  {
    hide *;
    var s := "!!" + a;
    VarStart(a);
    assert |s| == 2 + |a| && s[0] == '!' && s[1] == '!' && s[2..] == a && s[2] == a[0];
    Punct('!');
    Punct('=');
    SkipNone(s, 0);
    SkipNone(s, 1);
    VarToEnd(s, 2, a);
    UnaryOfNot(s, 1, Variable(a), |s|);
    UnaryOfNot(s, 0, Ast.Unary(Not, Variable(a)), |s|);
    ParseOfUnaryAt(s, Ast.Unary(Not, Ast.Unary(Not, Variable(a))));
  }

  /**
   * `-42`: a numeral within the int range after a minus is the negation of the int literal
   * (the numeral itself is read as a positive int first).
   */
  lemma NegatedLiteralInRange(n: nat)
    requires n <= IntMax
    ensures Parse("-" + Strs.NatToString(n)) == Ok(Ast.Unary(Neg, Literal(LInt(n))))
  {
    hide Parse, Primary, Number, Or, PostfixRest, Grammar.Unary, Postfix;
    var d := Strs.NatToString(n);
    var s := "-" + d;
    var lit := Literal(LInt(n));
    assert s[1..] == d + "";
    assert s[1] == d[0] && s[0] == '-';
    NumberOfDecimal(s, 1, n, false);
    PrimaryOfDigit(s, 1);
    Punct('-');
    SkipNone(s, 0);
    UnaryOfPostfix(s, 1);
    PostfixOfPrimary(s, 1, lit, |s|);
    DelimitsAtEnd(s);
    PostfixAtEnd(s, lit, |s|);
    UnaryOfMinus(s, 0);
    ParseOfUnaryAt(s, Ast.Unary(Neg, lit));
  }

  // ---------------------------------------------------------------- casts

  /** `(T)` at the start of the text passes the lookahead and reads as the type name `T`. */
  lemma CastOpen(s: string, t: string, k: nat)
    requires IsName(t) && k == 1 + |t| && k < |s| && s[0] == '(' && s[1..k] == t && s[k] == ')'
    ensures SkipWs(s, 0) == 0 && LooksLikeCast(s, 0)
    ensures TypeName(s, 1) == Ok(Step(t, k)) && SkipWs(s, k) == k
  {
    assert s[1] == t[0];
    NameAt(s, 1, t);
    CastScanOfName(s, 1, k);
    SkipWsIdempotent(s, 1);
    assert QualifiedRest(s, t, k) == Step(t, k);
    assert DimsRest(s, t, k) == Ok(Step(t, k));
  }

  /** `(T) a + b`: the cast applies to `a` alone, and the sum is taken after it. */
  lemma CastBindsTighterThanAdd(t: string, a: string, b: string)
    requires IsName(t) && IsVar(a) && IsVar(b)
    ensures Parse("(" + t + ") " + a + " + " + b) ==
      Ok(Binary(Cast(t, Variable(a)), Add, Variable(b)))
  {
    hide *;
    var s := "(" + t + ") " + a + " + " + b;
    var k := 1 + |t|;
    var i := k + 2 + |a|;
    assert |s| == i + 3 + |b|;
    assert s[0] == '(' && s[1..k] == t && s[k] == ')' && s[k + 1] == ' ';
    assert s[k + 2..i] == a && s[i + 3..] == b;
    assert s[i] == ' ' && s[i + 1] == '+' && s[i + 2] == ' ';
    CastSumAt(s, t, a, b, k, i);
  }

  lemma CastSumAt(s: string, t: string, a: string, b: string, k: nat, i: nat)
    requires IsName(t) && IsVar(a) && IsVar(b)
    requires k == 1 + |t| && i == k + 2 + |a| && |s| == i + 3 + |b|
    requires s[0] == '(' && s[1..k] == t && s[k] == ')' && s[k + 1] == ' '
    requires s[k + 2..i] == a && s[i + 3..] == b
    requires s[i] == ' ' && s[i + 1] == '+' && s[i + 2] == ' '
    ensures Parse(s) == Ok(Binary(Cast(t, Variable(a)), Add, Variable(b)))
  {
    hide *;
    var va, vb := Variable(a), Variable(b);
    var c := Cast(t, va);
    var e := Binary(c, Add, vb);
    assert s[i + 3..|s|] == b;
    Punct('+');
    PeekAt(s, i + 1);
    PeekAt(s, |s|);
    DelimitsBlank(s, i);
    DelimitsAtEnd(s);
    SkipNone(s, i + 1);
    CastOpen(s, t, k);
    VarAfterBlank(s, k + 1, k + 2, a, i);
    UnaryOfCast(s, 0, t, k);
    assert Grammar.Unary(s, 0) == Ok(Step(c, i + 1));
    MultiplicativeOfUnary(s, 0, c, i + 1);
    VarAfterBlank(s, i + 2, i + 3, b, |s|);
    MultiplicativeOfUnary(s, i + 2, vb, |s|);
    AdditiveOf(s, 0, c, i + 1);
    AdditiveRestAdd(s, c, i + 1, vb, |s|);
    RestAtEnd(s, e, |s|);
    ParseOfAdditive(s, e);
  }
}
