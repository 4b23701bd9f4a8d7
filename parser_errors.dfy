/**
 * The syntax errors of the expression parser: where the text stops making sense, which
 * exception is raised, and at which position.
 */
module ParserErrors {
  import opened Wrappers
  import opened Ast
  import opened Lexer
  import opened Grammar
  import opened ParserProps
  import opened ParserCases
  import opened ParserPrefix
  import Strs

  // ---------------------------------------------------------------- missing operands

  /** Whether a character can start an operand or a prefix operator. */
  predicate StartsOperand(s: string, k: nat) {
    Peek(s, k) in {'!', '-', '+', '(', '"', '\''} || StartsNumber(s, k) || IsIdentStart(Peek(s, k))
  }

  /** Where no operand starts, `parsePrimary` raises "expected expression" at the first non-blank position. */
  lemma OperandMissing(s: string, p: nat)
    requires p <= |s| && !StartsOperand(s, SkipWs(s, p))
    ensures Grammar.Unary(s, p) == Err(ParseException(ExpectedExpression, SkipWs(s, p)))
  {
    var k := SkipWs(s, p);
    SkipWsIdempotent(s, p);
    UnaryOfPostfix(s, p);
    MatchFails(s, k, "(");
    hide *;
  }

  /**
   * Text whose first non-blank character starts no expression, the empty text and blanks
   * included, fails with "expected expression" at that character.
   */
  lemma NoOperandIsExpectedExpression(s: string)
    requires !StartsOperand(s, SkipWs(s, 0))
    ensures Parse(s) == Err(ParseException(ExpectedExpression, SkipWs(s, 0)))
  {
    hide *;
    OperandMissing(s, 0);
    UnaryFromBlank(s, 0);
    ParseOfUnary(s);
  }

  lemma EndStartsNoOperand(s: string)
    ensures !StartsOperand(s, |s|)
  {
  }

  lemma PostfixOfPrimaryErr(s: string, p: nat, err: ParseError)
    requires p <= |s| && Primary(s, p) == Err(err)
    ensures Postfix(s, p) == Err(err)
  {
    hide Primary, PostfixRest;
  }

  lemma MultiplicativeOfErr(s: string, p: nat, err: ParseError)
    requires p <= |s| && Grammar.Unary(s, p) == Err(err)
    ensures Multiplicative(s, p) == Err(err)
  {
    hide Grammar.Unary, MultiplicativeRest;
  }

  /** A `+` whose right operand fails fails the sum. */
  lemma AdditiveRestAddErr(s: string, left: Expr, p: nat, err: ParseError)
    requires p <= |s| && SkipWs(s, p) < |s| && s[SkipWs(s, p)] == '+'
    requires Multiplicative(s, SkipWs(s, p) + 1) == Err(err)
    ensures AdditiveRest(s, left, p) == Err(err)
  {
    hide Multiplicative, Match, SkipWs;
    var k := SkipWs(s, p);
    SkipWsIdempotent(s, p);
    assert s[k..k + 1] == "+";
  }

  /** `a +`: the operand after a trailing operator is missing at the end of the text. */
  lemma TrailingOperatorExpectsExpression(a: string)
    requires IsVar(a)
    ensures Parse(a + " +") == Err(ParseException(ExpectedExpression, |a| + 2))
  {
    hide *;
    var s := a + " +";
    var i := |a|;
    assert |s| == i + 2 && s[0..i] == a && s[i] == ' ' && s[i + 1] == '+';
    var err := ParseException(ExpectedExpression, |s|);
    var va := Variable(a);
    VarStart(a);
    assert s[0] == a[0];
    Punct('+');
    PeekAt(s, i + 1);
    PeekAt(s, |s|);
    DelimitsBlank(s, i);
    DelimitsAtEnd(s);
    SkipNone(s, 0);
    SkipNone(s, i + 1);
    VarOperand(s, 0, a, i);
    MultiplicativeOfUnary(s, 0, va, i + 1);
    AdditiveOf(s, 0, va, i + 1);
    EndStartsNoOperand(s);
    OperandMissing(s, |s|);
    MultiplicativeOfErr(s, |s|, err);
    AdditiveRestAddErr(s, va, i + 1, err);
    OrOfErr(s, 0, err);
    ParseOfOrErr(s, err);
  }

  // ---------------------------------------------------------------- missing closers

  /** `(a + b`: the parenthesized sum is read, then `expect(')')` fails at the end. */
  lemma UnclosedParenthesis(a: string, b: string)
    requires IsVar(a) && IsVar(b)
    ensures Parse("(" + a + " + " + b) == Err(ParseException(ExpectedChar(')'), |a| + |b| + 4))
  {
    hide *;
    var s := "(" + a + " + " + b;
    var i := 1 + |a|;
    assert |s| == i + 3 + |b| && s[0] == '(' && s[1..i] == a && s[i + 3..] == b;
    assert s[i] == ' ' && s[i + 1] == '+' && s[i + 2] == ' ';
    UnclosedSumAt(s, a, b, i);
  }

  lemma UnclosedSumAt(s: string, a: string, b: string, i: nat)
    requires IsVar(a) && IsVar(b)
    requires i == 1 + |a| && |s| == i + 3 + |b| && s[0] == '(' && s[1..i] == a && s[i + 3..] == b
    requires s[i] == ' ' && s[i + 1] == '+' && s[i + 2] == ' '
    ensures Parse(s) == Err(ParseException(ExpectedChar(')'), |s|))
  {
    hide *;
    var va, vb := Variable(a), Variable(b);
    var ab := Binary(va, Add, vb);
    var err := ParseException(ExpectedChar(')'), |s|);
    assert s[i + 3..|s|] == b;
    Punct('(');
    Punct('+');
    PeekAt(s, i + 1);
    PeekAt(s, |s|);
    DelimitsBlank(s, i);
    DelimitsAtEnd(s);
    SkipNone(s, 0);
    SkipNone(s, i + 1);
    NotACast(s, a, i);
    UnaryOfParen(s, 0);
    VarOperand(s, 1, a, i);
    MultiplicativeOfUnary(s, 1, va, i + 1);
    AdditiveOf(s, 1, va, i + 1);
    VarAfterBlank(s, i + 2, i + 3, b, |s|);
    MultiplicativeOfUnary(s, i + 2, vb, |s|);
    AdditiveRestAdd(s, va, i + 1, vb, |s|);
    RestAtEnd(s, ab, |s|);
    OrOfAdditive(s, 1, ab, |s|);
    PrimaryOfParenUnclosed(s, 0, ab);
    PostfixOfPrimaryErr(s, 0, err);
    ParseOfUnary(s);
  }

  /** An index that runs to the end of the text: `expect(']')` fails there. */
  lemma IndexUnclosed(s: string, e: Expr, p: nat, x: Expr)
    requires p < |s| && SkipWs(s, p) == p && s[p] == '['
    requires Or(s, p + 1) == Ok(Step(x, |s|))
    ensures PostfixRest(s, e, p) == Err(ParseException(ExpectedChar(']'), |s|))
  {
    hide Identifier, Arguments, Or, Expect, Match, SkipWs;
    MatchFails(s, p, ".");
    assert s[p..p + 1] == "[";
    SkipNone(s, |s|);
  }

  /** `a[0`: the index is read, then `expect(']')` fails at the end. */
  lemma UnclosedIndex(a: string, n: nat)
    requires IsVar(a) && n <= IntMax
    ensures Parse(a + "[" + Strs.NatToString(n)) ==
      Err(ParseException(ExpectedChar(']'), |a| + 1 + |Strs.NatToString(n)|))
  {
    hide *;
    var d := Strs.NatToString(n);
    var s := a + "[" + d;
    var k := |a|;
    VarStart(a);
    assert |s| == k + 1 + |d| && s[0..k] == a && s[k] == '[' && s[k + 1..] == d + "" && s[k + 1] == d[0];
    assert s[0] == a[0];
    UnclosedIndexAt(s, a, n, k);
  }

  lemma UnclosedIndexAt(s: string, a: string, n: nat, k: nat)
    requires IsVar(a) && n <= IntMax && k == |a| && |s| == k + 1 + |Strs.NatToString(n)|
    requires s[0..k] == a && s[k] == '[' && s[k + 1..] == Strs.NatToString(n) + "" && s[0] == a[0]
    requires s[k + 1] == Strs.NatToString(n)[0]
    ensures Parse(s) == Err(ParseException(ExpectedChar(']'), |s|))
  {
    hide Parse, Primary, Number, Or, PostfixRest, Grammar.Unary, Postfix, Additive, Multiplicative, IsVar;
    var lit := Literal(LInt(n));
    var va := Variable(a);
    var err := ParseException(ExpectedChar(']'), |s|);
    VarStart(a);
    Punct('[');
    NumberOfDecimal(s, k + 1, n, false);
    PrimaryOfDigit(s, k + 1);
    UnaryOfPostfix(s, k + 1);
    PostfixOfPrimary(s, k + 1, lit, |s|);
    DelimitsAtEnd(s);
    PostfixAtEnd(s, lit, |s|);
    AdditiveOfUnary(s, k + 1, lit, |s|);
    OrOfAdditive(s, k + 1, lit, |s|);
    NameAt(s, 0, a);
    SkipNone(s, k);
    PrimaryOfName(s, 0, k);
    IndexUnclosed(s, va, k, lit);
    PostfixOfPrimary(s, 0, va, k);
    UnaryOfPostfix(s, 0);
    ParseOfUnary(s);
  }

  // ---------------------------------------------------------------- text left over

  /** An expression at the start of the text, followed by a character that is not blank, leaves that character unexpected. */
  lemma ParseOfOrLeftover(s: string, x: Expr, q: nat)
    requires SkipWs(s, 0) == 0 && Or(s, 0) == Ok(Step(x, q)) && q < |s| && SkipWs(s, q) == q
    ensures Parse(s) == Err(ParseException(UnexpectedChar(s[q]), q))
  {
    hide Or;
  }

  /**
   * `a @ b`: after a name, a blank and a character that starts no operator, the expression
   * ends and that character is unexpected.
   */
  lemma UnexpectedAfterName(a: string, c: char, u: string)
    requires IsVar(a) && !IsWhitespace(c)
    requires c !in {'|', '&', '!', '<', '>', '=', '+', '-', '*', '/', '%', '.', '[', 'i'}
    ensures Parse(a + " " + [c] + u) == Err(ParseException(UnexpectedChar(c), |a| + 1))
  {
    hide *;
    var s := a + " " + [c] + u;
    var i := |a|;
    VarStart(a);
    assert |s| == i + 2 + |u| && s[0..i] == a && s[0] == a[0] && s[i] == ' ' && s[i + 1] == c;
    var va := Variable(a);
    PeekAt(s, i + 1);
    DelimitsBlank(s, i);
    SkipNone(s, 0);
    SkipNone(s, i + 1);
    VarOperand(s, 0, a, i);
    AdditiveOfUnary(s, 0, va, i + 1);
    OrOfAdditive(s, 0, va, i + 1);
    ParseOfOrLeftover(s, va, i + 1);
  }

  // ---------------------------------------------------------------- array creation

  /** `new` in primary position hands the rest of the text to the creation parser. */
  lemma PrimaryOfNew(s: string)
    requires 3 < |s| && s[0..3] == "new" && !IsIdentPart(s[3])
    ensures Primary(s, 0) == NewExpression(s, 3)
  {
    hide Or, Arguments, StringLiteral, CharLiteral, Number, NewExpression, Expect, Identifier;
    assert s[0] == 'n';
    SkipNone(s, 0);
    MatchFails(s, 0, "(");
    assert IdentEnd(s, 0) == 3 by {
      assert IsIdentPart(s[0]) && IsIdentPart(s[1]) && IsIdentPart(s[2]) by {
        assert s[1] == s[0..3][1] && s[2] == s[0..3][2];
      }
    }
  }

  /** A simple type name: the identifier, then its `[]` pairs. */
  lemma TypeNameOfName(s: string, p: nat, t: string, k: nat)
    requires p <= |s| && Identifier(s, SkipWs(s, p)) == Ok(Step(t, k)) && QualifiedRest(s, t, k) == Step(t, k)
    ensures TypeName(s, p) == DimsRest(s, t, k)
  {
    hide Identifier, QualifiedRest, DimsRest;
  }

  lemma NewExpressionOfErr(s: string, p: nat, err: ParseError)
    requires p <= |s| && TypeName(s, SkipWs(s, p)) == Err(err)
    ensures NewExpression(s, p) == Err(err)
  {
    hide TypeName, Or, Arguments, Expect;
  }

  /**
   * `new T[size]` fails for every type name and size: the type name reader takes `[` as the
   * start of an array type and expects `]` right after it.
   */
  lemma NewArrayIsRefused(t: string, u: string)
    requires IsName(t) && (u == [] || (u[0] != ']' && !IsWhitespace(u[0])))
    ensures Parse("new " + t + "[" + u) == Err(ParseException(ExpectedChar(']'), |t| + 5))
  {
    hide Parse, Primary, NewExpression, Or, Arguments, Identifier, QualifiedRest, DimsRest, TypeName;
    var s := "new " + t + "[" + u;
    var k := 4 + |t|;
    var err := ParseException(ExpectedChar(']'), k + 1);
    assert |s| == k + 1 + |u| && s[0..3] == "new" && s[3] == ' ' && s[4..k] == t && s[k] == '[';
    assert u != [] ==> s[k + 1] == u[0];
    SkipNone(s, 0);
    SkipOne(s, 3);
    NameAt(s, 4, t);
    SkipNone(s, k + 1);
    PrimaryOfNew(s);
    QualifiedRestStop(s, t, k);
    DimsRestStep(s, t, k);
    TypeNameOfName(s, 4, t, k);
    NewExpressionOfErr(s, 3, err);
    ParseOfPrimaryErr(s, err);
  }

  // ---------------------------------------------------------------- unterminated literals

  /** The string loop over text with no quote and no backslash runs off the end, where `expect('"')` fails. */
  lemma {:induction false} StringBodyRunsOut(s: string, acc: string, p: nat)
    requires p <= |s|
    requires forall k | p <= k < |s| :: s[k] != '"' && s[k] != '\\'
    ensures StringBody(s, acc, p) == Err(ParseException(ExpectedChar('"'), |s|))
    decreases |s| - p
  {
    if p < |s| {
      StringBodyRunsOut(s, acc + [s[p]], p + 1);
    } else {
      SkipNone(s, |s|);
    }
  }

  /** A string literal with no closing quote fails with "expected '\"'" at the end of the text. */
  lemma UnterminatedString(t: string)
    requires forall k | 0 <= k < |t| :: t[k] != '"' && t[k] != '\\'
    ensures Parse("\"" + t) == Err(ParseException(ExpectedChar('"'), |t| + 1))
  {
    hide Parse, Or, Arguments, CharLiteral, Number, NewExpression, StringBody;
    var s := "\"" + t;
    var err := ParseException(ExpectedChar('"'), |s|);
    assert s[0] == '"';
    assert forall k | 1 <= k < |s| :: s[k] != '"' && s[k] != '\\' by {
      forall k | 1 <= k < |s| ensures s[k] != '"' && s[k] != '\\' { assert s[k] == t[k - 1]; }
    }
    SkipNone(s, 0);
    MatchFails(s, 0, "(");
    StringBodyRunsOut(s, "", 1);
    assert StringLiteral(s, 0) == Err(err);
    assert Primary(s, 0) == StringLiteral(s, 0);
    ParseOfPrimaryErr(s, err);
  }

  /**
   * A character literal whose character is not followed by a closing quote fails with
   * "expected '''" at the position after the character.
   */
  lemma UnterminatedChar(c: char, u: string)
    requires c != '\\' && (u == [] || (!IsWhitespace(u[0]) && u[0] != '\''))
    ensures Parse(['\'', c] + u) == Err(ParseException(ExpectedChar('\''), 2))
  {
    hide Parse, Or, Arguments, StringLiteral, Number, NewExpression;
    var s := ['\'', c] + u;
    var err := ParseException(ExpectedChar('\''), 2);
    assert s[0] == '\'' && s[1] == c;
    assert u != [] ==> s[2] == u[0];
    SkipNone(s, 0);
    SkipNone(s, 2);
    MatchFails(s, 0, "(");
    assert CharLiteral(s, 0) == Err(err);
    assert Primary(s, 0) == CharLiteral(s, 0);
    ParseOfPrimaryErr(s, err);
  }
}
