/**
 * Corrected counterparts of two parser behaviours: a type name that leaves a `[` not followed
 * by `]` to its caller, so that `new T[size]` creates an array, and a character literal that
 * runs off the end of the text reported as a parse error. Each stands beside the as-written
 * definition it corrects, and agrees with it wherever that one succeeds.
 */
module ParserFixes {
  import opened Wrappers
  import opened Ast
  import opened Lexer
  import opened Grammar
  import opened ParserProps
  import opened ParserCases

  // ---------------------------------------------------------------- array creation

  /**
   * The corrected `[]` loop of a type name: a `[` is taken only together with its `]`; any
   * other `[` is left where it is, as the qualified-name loop leaves a `.` it cannot use.
   */
  function DimsRestFixed(s: string, acc: string, p: nat): (r: Step<string>)
    requires p <= |s|
    ensures p <= r.pos <= |s|
    decreases |s| - p
  {
    if Peek(s, p) == '[' && Peek(s, SkipWs(s, p + 1)) == ']' then DimsRestFixed(s, acc + "[]", SkipWs(s, p + 1) + 1)
    else Step(acc, p)
  }

  /** The corrected type name: a dotted name, then its `[]` pairs. */
  function TypeNameFixed(s: string, p: nat): (r: PResult<string>)
    requires p <= |s|
    ensures Fits(s, p, r)
  {
    var id :- Identifier(s, SkipWs(s, p));
    var q := QualifiedRest(s, id.value, id.pos);
    Ok(DimsRestFixed(s, q.value, q.pos))
  }

  /** The corrected creation expression, reading its type with the corrected type name. */
  function NewExpressionFixed(s: string, p: nat): (r: PResult<Expr>)
    requires p <= |s|
  {
    var t :- TypeNameFixed(s, SkipWs(s, p));
    if Peek(s, t.pos) == '[' then
      var a :- Expect(s, t.pos, '[');
      var size :- Or(s, a);
      var c :- Expect(s, size.pos, ']');
      Ok(Step(NewArray(t.value, size.value), c))
    else
      var args :- Arguments(s, t.pos);
      Ok(Step(NewObject(t.value, args.value), args.pos))
  }

  /** Wherever the as-written loop succeeds, the corrected one reads the same pairs and stops at the same place. */
  lemma {:induction false} DimsRestFixedAgrees(s: string, acc: string, p: nat)
    requires p <= |s| && DimsRest(s, acc, p).Ok?
    ensures DimsRest(s, acc, p) == Ok(DimsRestFixed(s, acc, p))
    decreases |s| - p
  {
    if Peek(s, p) == '[' {
      DimsRestFixedAgrees(s, acc + "[]", SkipWs(s, p + 1) + 1);
    }
  }

  /** Every creation the as-written parser accepts, an object creation, reads the same with the correction. */
  lemma NewExpressionFixedAgrees(s: string, p: nat)
    requires p <= |s| && NewExpression(s, p).Ok?
    ensures NewExpressionFixed(s, p) == NewExpression(s, p)
  {
    var id := Identifier(s, SkipWs(s, SkipWs(s, p)));
    var q := QualifiedRest(s, id.value.value, id.value.pos);
    DimsRestFixedAgrees(s, q.value, q.pos);
  }

  /** `new T[n]`: with the corrected type name the array branch is reached, and creates the array. */
  lemma NewArrayCreatesArray(t: string, a: string)
    requires IsName(t) && IsVar(a)
    ensures NewExpressionFixed("new " + t + "[" + a + "]", 3) == Ok(Step(NewArray(t, Variable(a)), |t| + |a| + 6))
  {
    hide *;
    var s := "new " + t + "[" + a + "]";
    var k := 4 + |t|;
    var j := k + 1 + |a|;
    VarStart(a);
    NameStart(t);
    assert |s| == j + 1 && s[3] == ' ' && s[4..k] == t && s[k] == '[' && s[k + 1..j] == a && s[j] == ']';
    assert s[k + 1] == a[0] && s[4] == t[0];
    NewArrayAt(s, t, a, k, j);
  }

  lemma NewArrayAt(s: string, t: string, a: string, k: nat, j: nat)
    requires IsName(t) && IsVar(a)
    requires k == 4 + |t| && j == k + 1 + |a| && |s| == j + 1
    requires s[3] == ' ' && s[4..k] == t && s[k] == '[' && s[k + 1..j] == a && s[j] == ']' && s[k + 1] == a[0]
    requires s[4] == t[0]
    ensures NewExpressionFixed(s, 3) == Ok(Step(NewArray(t, Variable(a)), j + 1))
  {
    hide *;
    var va := Variable(a);
    Blank();
    Punct('[');
    Punct(']');
    VarStart(a);
    NameStart(t);
    PeekAt(s, k);
    PeekAt(s, k + 1);
    PeekAt(s, j);
    SkipOne(s, 3);
    SkipNone(s, k);
    SkipNone(s, k + 1);
    SkipNone(s, j);
    NameAt(s, 4, t);
    QualifiedRestStop(s, t, k);
    TypeNameFixedOfName(s, 4, t, k);
    DelimitsCloser(s, j);
    VarOperand(s, k + 1, a, j);
    AdditiveOfUnary(s, k + 1, va, j);
    OrOfAdditive(s, k + 1, va, j);
    NewArrayBranch(s, 3, t, k, va, j);
  }

  /** A name starts with a character that is not blank. */
  lemma NameStart(t: string)
    requires IsName(t)
    ensures |t| > 0 && !IsWhitespace(t[0])
  {
  }

  /** A simple type name followed by a `[` that no `]` follows: the name alone. */
  lemma TypeNameFixedOfName(s: string, p: nat, t: string, k: nat)
    requires p <= |s| && SkipWs(s, p) == p && Identifier(s, p) == Ok(Step(t, k)) && QualifiedRest(s, t, k) == Step(t, k)
    requires k + 1 < |s| && s[k] == '[' && SkipWs(s, k + 1) == k + 1 && s[k + 1] != ']'
    ensures TypeNameFixed(s, p) == Ok(Step(t, k))
  {
    hide Identifier, QualifiedRest, SkipWs;
  }

  /** The array branch of the corrected creation expression, once its parts are known. */
  lemma NewArrayBranch(s: string, p: nat, t: string, k: nat, size: Expr, j: nat)
    requires p <= k < j < |s|
    requires TypeNameFixed(s, SkipWs(s, p)) == Ok(Step(t, k))
    requires s[k] == '[' && SkipWs(s, k) == k && Or(s, k + 1) == Ok(Step(size, j))
    requires s[j] == ']' && SkipWs(s, j) == j
    ensures NewExpressionFixed(s, p) == Ok(Step(NewArray(t, size), j + 1))
  {
    hide TypeNameFixed, Or, Arguments, SkipWs;
  }

  // ---------------------------------------------------------------- character literals

  /** The corrected character literal: text that ends too early is the parser's own error, at the end. */
  function CharLiteralFixed(s: string, p: nat): (r: PResult<Expr>)
    requires p <= |s|
    ensures Fits(s, p, r)
  {
    var q :- Expect(s, p, '\'');
    if q >= |s| then Err(ParseException(ExpectedChar('\''), q))
    else if s[q] == '\\' then
      if q + 1 >= |s| then Err(ParseException(ExpectedChar('\''), q + 1))
      else
        var e :- Expect(s, q + 2, '\'');
        Ok(Step(Literal(LChar(Escape(s[q + 1]))), e))
    else
      var e :- Expect(s, q + 1, '\'');
      Ok(Step(Literal(LChar(s[q])), e))
  }

  /**
   * The corrected literal raises only the parser's own exception, at the same position where
   * the as-written one reads past the end, and is the as-written one everywhere else.
   */
  lemma CharLiteralFixedRaisesParseErrors(s: string, p: nat)
    requires p <= |s|
    ensures CharLiteralFixed(s, p).Err? ==> CharLiteralFixed(s, p).error.ParseException?
    ensures CharLiteral(s, p).Err? && CharLiteral(s, p).error.CharIndexOutOfBounds? ==>
      CharLiteralFixed(s, p) == Err(ParseException(ExpectedChar('\''), CharLiteral(s, p).error.index))
    ensures !(CharLiteral(s, p).Err? && CharLiteral(s, p).error.CharIndexOutOfBounds?) ==>
      CharLiteralFixed(s, p) == CharLiteral(s, p)
  {
  }

  /** A lone quote is a parse error at the end of the text. */
  lemma LoneQuoteIsParseError()
    ensures CharLiteralFixed("'", 0) == Err(ParseException(ExpectedChar('\''), 1))
  {
    assert SkipWs("'", 0) == 0;
  }
}
