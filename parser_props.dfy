/**
 * Properties of the expression grammar: what whole inputs of each kind parse to, the
 * round trips of names and literals, and the inputs the parser treats differently from Java.
 */
module ParserProps {
  import opened Wrappers
  import opened Ast
  import opened Lexer
  import opened Grammar
  import Strs
  import InterpProps
  import Interp

  // ---------------------------------------------------------------- the precedence ladder

  /** An operator whose first character is not next does not match, and leaves the position after the whitespace. */
  lemma MatchFails(s: string, p: nat, op: string)
    requires p <= |s| && |op| >= 1
    requires Peek(s, SkipWs(s, p)) != op[0]
    ensures Match(s, p, op) == Scan(false, SkipWs(s, p))
  {
    var q := SkipWs(s, p);
    if q + |op| <= |s| {
      assert s[q..q + |op|][0] == s[q];
    }
  }

  // Each loop of the precedence chain, before a character that starts none of its operators,
  // stops with the tree it has and the position after the whitespace.

  lemma OrRestStops(s: string, left: Expr, p: nat)
    requires p <= |s| && Peek(s, SkipWs(s, p)) != '|'
    ensures OrRest(s, left, p) == Ok(Step(left, SkipWs(s, p)))
  {
    hide And;
    MatchFails(s, p, "||");
  }

  lemma AndRestStops(s: string, left: Expr, p: nat)
    requires p <= |s| && Peek(s, SkipWs(s, p)) != '&'
    ensures AndRest(s, left, p) == Ok(Step(left, SkipWs(s, p)))
  {
    hide Equality;
    MatchFails(s, p, "&&");
  }

  lemma EqualityRestStops(s: string, left: Expr, p: nat)
    requires p <= |s| && Peek(s, SkipWs(s, p)) != '!'
    requires Peek(s, SkipWs(s, p)) == '=' ==> Peek(s, SkipWs(s, p) + 1) != '='
    ensures EqualityRest(s, left, p) == Ok(Step(left, SkipWs(s, p)))
  {
    hide Comparison;
    var q := SkipWs(s, p);
    SkipWsIdempotent(s, p);
    if q + 2 <= |s| {
      assert s[q..q + 2][0] == s[q] && s[q..q + 2][1] == s[q + 1];
    }
    assert Match(s, p, "==") == Scan(false, q);
    MatchFails(s, q, "!=");
  }

  lemma ComparisonRestStops(s: string, left: Expr, p: nat)
    requires p <= |s| && Peek(s, SkipWs(s, p)) !in {'<', '>', 'i'}
    ensures ComparisonRest(s, left, p) == Ok(Step(left, SkipWs(s, p)))
  {
    hide Additive, TypeName;
    var q := SkipWs(s, p);
    SkipWsIdempotent(s, p);
    MatchFails(s, p, "<=");
    MatchFails(s, q, ">=");
    MatchFails(s, q, "<");
    MatchFails(s, q, ">");
    if q + 10 <= |s| {
      assert s[q..q + 10][0] == s[q];
    }
    assert !MatchKeyword(s, q, "instanceof").ok;
  }

  lemma AdditiveRestStops(s: string, left: Expr, p: nat)
    requires p <= |s| && Peek(s, SkipWs(s, p)) !in {'+', '-'}
    ensures AdditiveRest(s, left, p) == Ok(Step(left, SkipWs(s, p)))
  {
    hide Multiplicative;
    SkipWsIdempotent(s, p);
    MatchFails(s, p, "+");
    MatchFails(s, SkipWs(s, p), "-");
  }

  lemma MultiplicativeRestStops(s: string, left: Expr, p: nat)
    requires p <= |s| && Peek(s, SkipWs(s, p)) !in {'*', '/', '%'}
    ensures MultiplicativeRest(s, left, p) == Ok(Step(left, SkipWs(s, p)))
  {
    hide Grammar.Unary;
    var q := SkipWs(s, p);
    SkipWsIdempotent(s, p);
    MatchFails(s, p, "*");
    MatchFails(s, q, "/");
    MatchFails(s, q, "%");
  }

  lemma PostfixRestStops(s: string, left: Expr, p: nat)
    requires p <= |s| && Peek(s, SkipWs(s, p)) !in {'.', '['}
    ensures PostfixRest(s, left, p) == Ok(Step(left, SkipWs(s, p)))
  {
    hide Identifier, Arguments, Or, Expect;
    var q := SkipWs(s, p);
    SkipWsIdempotent(s, p);
    MatchFails(s, q, ".");
    MatchFails(s, q, "[");
  }

  /** At the end of the input no operator follows, and every loop stops with the tree it has. */
  lemma RestAtEnd(s: string, left: Expr, p: nat)
    requires p <= |s| && SkipWs(s, p) == |s|
    ensures OrRest(s, left, p) == Ok(Step(left, |s|))
    ensures AndRest(s, left, p) == Ok(Step(left, |s|))
    ensures EqualityRest(s, left, p) == Ok(Step(left, |s|))
    ensures ComparisonRest(s, left, p) == Ok(Step(left, |s|))
    ensures AdditiveRest(s, left, p) == Ok(Step(left, |s|))
    ensures MultiplicativeRest(s, left, p) == Ok(Step(left, |s|))
    ensures PostfixRest(s, left, p) == Ok(Step(left, |s|))
  {
    hide OrRest, AndRest, EqualityRest, ComparisonRest, AdditiveRest, MultiplicativeRest, PostfixRest;
    RestAtStop(s, left, p);
  }

  /**
   * An operand that reaches the end of the input is the whole expression at every level of
   * precedence; an operand that fails fails the whole expression.
   */
  lemma OrOfUnary(s: string, p: nat)
    requires p <= |s|
    ensures Grammar.Unary(s, p).Err? ==> Or(s, p) == Grammar.Unary(s, p)
    ensures Grammar.Unary(s, p).Ok? && SkipWs(s, Grammar.Unary(s, p).value.pos) == |s| ==>
      Or(s, p) == Ok(Step(Grammar.Unary(s, p).value.value, |s|))
  {
    var u := Grammar.Unary(s, p);
    if u.Err? {
      assert Multiplicative(s, p) == u;
      assert Additive(s, p) == u;
      assert Comparison(s, p) == u;
      assert Equality(s, p) == u;
      assert And(s, p) == u;
    } else if SkipWs(s, u.value.pos) == |s| {
      var e := u.value.value;
      RestAtEnd(s, e, u.value.pos);
      RestAtEnd(s, e, |s|);
      assert Multiplicative(s, p) == Ok(Step(e, |s|));
      assert Additive(s, p) == Ok(Step(e, |s|));
      assert Comparison(s, p) == Ok(Step(e, |s|));
      assert Equality(s, p) == Ok(Step(e, |s|));
      assert And(s, p) == Ok(Step(e, |s|));
    }
  }

  /** A unary expression that covers the input, up to whitespace, is what `parse` answers; its error is the parse's error. */
  lemma ParseOfUnary(s: string)
    ensures Grammar.Unary(s, SkipWs(s, 0)).Err? ==> Parse(s) == Err(Grammar.Unary(s, SkipWs(s, 0)).error)
    ensures Grammar.Unary(s, SkipWs(s, 0)).Ok? && SkipWs(s, Grammar.Unary(s, SkipWs(s, 0)).value.pos) == |s| ==>
      Parse(s) == Ok(Grammar.Unary(s, SkipWs(s, 0)).value.value)
  {
    OrOfUnary(s, SkipWs(s, 0));
  }

  /** Text that does not start with a prefix operator or a parenthesis is a postfix expression. */
  lemma UnaryOfPostfix(s: string, p: nat)
    requires p <= |s|
    requires Peek(s, SkipWs(s, p)) !in {'!', '-', '+', '('}
    ensures Grammar.Unary(s, p) == Postfix(s, SkipWs(s, p))
  {
    var q := SkipWs(s, p);
    SkipWsIdempotent(s, p);
    MatchFails(s, p, "!");
    MatchFails(s, q, "-");
    MatchFails(s, q, "+");
  }

  /** Whatever follows a complete expression must be whitespace: anything else is the unexpected character. */
  lemma LeftoverIsUnexpected(s: string)
    requires Or(s, SkipWs(s, 0)).Ok?
    ensures var k := SkipWs(s, Or(s, SkipWs(s, 0)).value.pos);
      Parse(s) == if k < |s| then Err(ParseException(UnexpectedChar(s[k]), k)) else Ok(Or(s, SkipWs(s, 0)).value.value)
  {
  }

  /** A primary that covers the whole text, with no prefix operator before it, is the whole expression. */
  lemma ParseOfPrimary(s: string, e: Expr)
    requires Peek(s, SkipWs(s, 0)) !in {'!', '-', '+', '('}
    requires Primary(s, SkipWs(s, 0)) == Ok(Step(e, |s|))
    ensures Parse(s) == Ok(e)
  {
    hide Primary, PostfixRest, Parse, ParseAt, Or, Grammar.Unary, Match;
    SkipWsIdempotent(s, 0);
    UnaryOfPostfix(s, SkipWs(s, 0));
    PostfixAtEnd(s, e, |s|);
    assert Grammar.Unary(s, SkipWs(s, 0)) == Ok(Step(e, |s|));
    ParseOfUnary(s);
  }

  /** A primary that fails, with no prefix operator before it, fails the whole expression. */
  lemma ParseOfPrimaryErr(s: string, err: ParseError)
    requires Peek(s, SkipWs(s, 0)) !in {'!', '-', '+', '('}
    requires Primary(s, SkipWs(s, 0)) == Err(err)
    ensures Parse(s) == Err(err)
  {
    hide Primary, PostfixRest, Parse, ParseAt, Or, Grammar.Unary, Match;
    SkipWsIdempotent(s, 0);
    UnaryOfPostfix(s, SkipWs(s, 0));
    assert Grammar.Unary(s, SkipWs(s, 0)) == Err(err);
    ParseOfUnary(s);
  }

  // ---------------------------------------------------------------- names and keywords

  predicate IsName(name: string) {
    |name| > 0 && IsIdentStart(name[0]) && forall i | 0 < i < |name| :: IsIdentPart(name[i])
  }

  /** An identifier on its own parses to the keyword's literal, `this`, or a variable, and never as a keyword when it only begins with one. */
  lemma ParseName(name: string)
    requires IsName(name) && name != "new"
    ensures Parse(name) == Ok(if KeywordLiteral(name).Some? then KeywordLiteral(name).value else Variable(name))
  {
    hide Parse, Or, Arguments, StringLiteral, CharLiteral, Number, NewExpression, Expect;
    var s := name;
    assert SkipWs(s, 0) == 0 by { assert !IsWhitespace(s[0]); }
    assert IdentEnd(s, 0) == |s|;
    assert s[0..|s|] == name;
    MatchFails(s, 0, "(");
    var e := if KeywordLiteral(name).Some? then KeywordLiteral(name).value else Variable(name);
    assert Primary(s, 0) == Ok(Step(e, |s|));
    ParseOfPrimary(s, e);
  }

  // ---------------------------------------------------------------- dotted names

  predicate AllNames(fields: seq<string>)
    decreases |fields|
  {
    fields == [] || (IsName(fields[0]) && AllNames(fields[1..]))
  }

  /** The `.f1.f2...` suffix of a dotted name, read from the front as the parser reads it. */
  function Dots(fields: seq<string>): string {
    if fields == [] then "" else "." + fields[0] + Dots(fields[1..])
  }

  lemma DotsEmpty()
    ensures Dots([]) == ""
  {
  }

  lemma {:induction false} DotsAppend(fields: seq<string>, f: string)
    ensures Dots(fields + [f]) == Dots(fields) + "." + f
  {
    if fields != [] {
      assert (fields + [f])[1..] == fields[1..] + [f];
      DotsAppend(fields[1..], f);
    }
  }

  /** Read from the front or from the back, a dotted name is the same text. */
  lemma {:induction false} FrontAndBack(root: string, fields: seq<string>)
    ensures InterpProps.JoinDots(root, fields) == root + Dots(fields)
  {
    if fields != [] {
      var init := fields[..|fields| - 1];
      var last := fields[|fields| - 1];
      assert fields == init + [last];
      FrontAndBack(root, init);
      DotsAppend(init, last);
    }
  }

  /** A field name in the text stops at the dot after it, or at the end. */
  lemma NameEnds(s: string, p: nat, f: string, rest: seq<string>)
    requires IsName(f) && p + |f| <= |s|
    requires s[p..] == f + Dots(rest)
    ensures SkipWs(s, p) == p
    ensures IdentEnd(s, p) == p + |f| && s[p..p + |f|] == f
    ensures Peek(s, p + |f|) != '(' && s[p + |f|..] == Dots(rest)
  {
    assert s[p] == s[p..][0] == f[0];
    assert !IsWhitespace(s[p]);
    forall i | p <= i < p + |f| ensures IsIdentPart(s[i]) {
      assert s[i] == s[p..][i - p] == f[i - p];
    }
    if p + |f| < |s| {
      assert s[p + |f|] == s[p..][|f|] == Dots(rest)[0] == '.';
    }
    assert s[p..p + |f|] == s[p..][..|f|];
    assert s[p + |f|..] == s[p..][|f|..];
  }

  /** The field accesses of `fields` wrapped around `e`, the first one innermost. */
  function Fields(e: Expr, fields: seq<string>): Expr
    decreases |fields|
  {
    if fields == [] then e else Fields(FieldAccess(e, fields[0]), fields[1..])
  }

  lemma {:induction false} FieldsSnoc(e: Expr, fields: seq<string>, f: string)
    ensures Fields(e, fields + [f]) == FieldAccess(Fields(e, fields), f)
    decreases |fields|
  {
    if fields != [] {
      assert (fields + [f])[1..] == fields[1..] + [f];
      FieldsSnoc(FieldAccess(e, fields[0]), fields[1..], f);
    }
  }

  /** Built from the front as the parser builds it, the chain is the interpreter's dotted path. */
  lemma {:induction false} FieldsOfPath(root: string, fields: seq<string>)
    ensures Fields(Variable(root), fields) == InterpProps.DottedPath(root, fields)
  {
    if fields != [] {
      var init := fields[..|fields| - 1];
      assert fields == init + [fields[|fields| - 1]];
      FieldsOfPath(root, init);
      FieldsSnoc(Variable(root), init, fields[|fields| - 1]);
    }
  }

  /** What the postfix loop sees at `p`: a dot, then the identifier `f` not followed by `(`. */
  predicate FieldAt(s: string, p: nat, f: string) {
    p < |s| && SkipWs(s, p) == p && Match(s, p, ".") == Scan(true, p + 1) &&
    Identifier(s, p + 1) == Ok(Step(f, p + 1 + |f|)) && Peek(s, p + 1 + |f|) != '('
  }

  /** The loop sees the fields one after the other, and then the end of the input. */
  predicate ChainAt(s: string, p: nat, fields: seq<string>)
    decreases |fields|
  {
    if fields == [] then p == |s|
    else FieldAt(s, p, fields[0]) && ChainAt(s, p + 1 + |fields[0]|, fields[1..])
  }

  /** One `.field` suffix in the text is what the loop sees there. */
  lemma FieldInText(s: string, p: nat, f: string, rest: seq<string>)
    requires IsName(f) && p <= |s| && s[p..] == "." + f + Dots(rest)
    ensures FieldAt(s, p, f)
    ensures p + 1 + |f| <= |s| && s[p + 1 + |f|..] == Dots(rest)
  {
    assert s[p] == s[p..][0] == '.';
    assert SkipWs(s, p) == p;
    assert s[p + 1..] == f + Dots(rest) by { assert s[p + 1..] == s[p..][1..]; }
    assert |s| >= p + 1 + |f| by { assert |s[p + 1..]| >= |f|; }
    assert Match(s, p, ".") == Scan(true, p + 1) by { assert s[p..p + 1] == "."; }
    NameEnds(s, p + 1, f, rest);
  }

  lemma DotsInTextStep(s: string, p: nat, fields: seq<string>)
    requires AllNames(fields) && p <= |s| && s[p..] == Dots(fields) && fields != []
    ensures FieldAt(s, p, fields[0]) && AllNames(fields[1..])
    ensures p + 1 + |fields[0]| <= |s| && s[p + 1 + |fields[0]|..] == Dots(fields[1..])
  {
    FieldInText(s, p, fields[0], fields[1..]);
  }

  /** The `.f1.f2...` suffix of a dotted name is the chain the loop reads. */
  lemma {:induction false} DotsInText(s: string, p: nat, fields: seq<string>)
    requires AllNames(fields) && p <= |s| && s[p..] == Dots(fields)
    ensures ChainAt(s, p, fields)
    decreases |fields|
  {
    hide FieldAt, Dots, AllNames, Identifier, Match, SkipWs;
    if fields == [] {
      DotsEmpty();
      assert |s[p..]| == 0;
    } else {
      DotsInTextStep(s, p, fields);
      DotsInText(s, p + 1 + |fields[0]|, fields[1..]);
    }
  }

  lemma PostfixAtEnd(s: string, e: Expr, p: nat)
    requires p == |s|
    ensures PostfixRest(s, e, p) == Ok(Step(e, |s|))
  {
    RestAtEnd(s, e, p);
  }

  /** The field branch of the postfix loop, taken once. */
  lemma PostfixRestField(s: string, e: Expr, p: nat, f: string)
    requires FieldAt(s, p, f)
    ensures PostfixRest(s, e, p) == PostfixRest(s, FieldAccess(e, f), p + 1 + |f|)
  {
    hide Identifier, Match, SkipWs, Arguments, Or, Expect;
    var q := p + 1 + |f|;
    assert Match(s, SkipWs(s, p), ".") == Scan(true, p + 1);
    assert Identifier(s, p + 1) == Ok(Step(f, q));
    assert Peek(s, q) != '(';
  }

  /** The loop of `parsePostfix` reads a chain of `.field` suffixes into field accesses, up to the end of the input. */
  lemma {:induction false} PostfixOfDots(s: string, e: Expr, fields: seq<string>, p: nat)
    requires p <= |s| && ChainAt(s, p, fields)
    ensures PostfixRest(s, e, p) == Ok(Step(Fields(e, fields), |s|))
    decreases |fields|
  {
    hide PostfixRest, Or, Arguments, Identifier, Match, SkipWs;
    if fields == [] {
      PostfixAtEnd(s, e, p);
    } else {
      var f, rest := fields[0], fields[1..];
      var q := p + 1 + |f|;
      PostfixRestField(s, e, p, f);
      PostfixOfDots(s, FieldAccess(e, f), rest, q);
      assert Fields(e, fields) == Fields(FieldAccess(e, f), rest);
    }
  }

  /**
   * A dotted name parses into the chain of field accesses that the interpreter reads back as
   * the same dotted name, so `java.lang.Math` reaches the evaluator as a class name.
   */
  lemma ParseDottedName(root: string, fields: seq<string>)
    requires IsName(root) && AllNames(fields)
    requires KeywordLiteral(root).None? && root != "new"
    ensures Parse(InterpProps.JoinDots(root, fields)) == Ok(InterpProps.DottedPath(root, fields))
  {
    FrontAndBack(root, fields);
    var s := root + Dots(fields);
    assert s[0..] == root + Dots(fields);
    NameEnds(s, 0, root, fields);
    MatchFails(s, 0, "(");
    assert Primary(s, 0) == Ok(Step(Variable(root), |root|));
    DotsInText(s, |root|, fields);
    PostfixOfDots(s, Variable(root), fields, |root|);
    FieldsOfPath(root, fields);
    UnaryOfPostfix(s, 0);
    ParseOfUnary(s);
  }

  /** So a dotted name parsed and read by the interpreter is the name itself. */
  lemma DottedNameRoundTrip(root: string, fields: seq<string>)
    requires IsName(root) && AllNames(fields)
    requires KeywordLiteral(root).None? && root != "new"
    ensures Parse(InterpProps.JoinDots(root, fields)).Ok?
    ensures Interp.PotentialClassName(Parse(InterpProps.JoinDots(root, fields)).value) ==
      Some(InterpProps.JoinDots(root, fields))
  {
    ParseDottedName(root, fields);
    InterpProps.PotentialClassNameOfPath(root, fields);
  }

  // ---------------------------------------------------------------- number literals

  /** A decimal numeral at `p`, optionally followed by a type suffix, scans as an integer literal ending where the digits end. */
  lemma ScanDecimal(s: string, p: nat, n: nat, long: bool)
    requires p <= |s|
    requires s[p..] == Strs.NatToString(n) + (if long then "L" else "")
    ensures var d := Strs.NatToString(n);
      var sc := ScanNumber(s, p);
      !sc.isDouble && !sc.isFloat && sc.isLong == long &&
      sc.end == |s| && s[p..sc.textEnd] == d
  {
    var d := Strs.NatToString(n);
    assert forall k | p <= k < p + |d| :: IsDigit(s[k]) by {
      forall k | p <= k < p + |d| ensures IsDigit(s[k]) { assert s[k] == s[p..][k - p] == d[k - p]; }
    }
    assert DigitsEnd(s, p) == p + |d| by {
      if long { assert s[p + |d|] == s[p..][|d|] == 'L'; }
    }
    var a := p + |d|;
    assert FractionEnd(s, a) == a;
    assert !ExponentMarker(s, a);
    assert s[p..a] == d;
  }

  /** `parseNumberLiteral` on a decimal numeral: the literal of its kind when it fits, else the library's format error. */
  lemma NumberOfDecimal(s: string, p: nat, n: nat, long: bool)
    requires p <= |s|
    requires s[p..] == Strs.NatToString(n) + (if long then "L" else "")
    ensures var d := Strs.NatToString(n);
      Number(s, p) ==
        if long then (if n <= LongMax then Ok(Step(Literal(LLong(n)), |s|)) else Err(NumberFormat(d)))
        else (if n <= IntMax then Ok(Step(Literal(LInt(n)), |s|)) else Err(NumberFormat(d)))
  {
    ScanDecimal(s, p, n, long);
    Strs.DecimalOfNatToString(n);
  }

  /** A primary that starts with a digit is a number literal. */
  lemma PrimaryOfDigit(s: string, p: nat)
    requires p < |s| && IsDigit(s[p])
    ensures SkipWs(s, p) == p
    ensures Primary(s, p) == Number(s, p)
  {
    hide Number, StringLiteral, CharLiteral, Or, Arguments, NewExpression, Expect;
    assert !IsWhitespace(s[p]);
    MatchFails(s, p, "(");
  }

  /** A decimal numeral that fits an int parses to that int; one that does not is the library's format error. */
  lemma ParseIntLiteral(n: nat)
    ensures n <= IntMax ==> Parse(Strs.NatToString(n)) == Ok(Literal(LInt(n)))
    ensures n > IntMax ==> Parse(Strs.NatToString(n)) == Err(NumberFormat(Strs.NatToString(n)))
  {
    hide Parse, Primary, Number;
    var s := Strs.NatToString(n);
    assert s[0..] == s + "";
    NumberOfDecimal(s, 0, n, false);
    PrimaryOfDigit(s, 0);
    if n <= IntMax {
      ParseOfPrimary(s, Literal(LInt(n)));
    } else {
      ParseOfPrimaryErr(s, NumberFormat(s));
    }
  }

  /** With an `L` suffix the numeral is a long literal, within the long range. */
  lemma ParseLongLiteral(n: nat)
    ensures n <= LongMax ==> Parse(Strs.NatToString(n) + "L") == Ok(Literal(LLong(n)))
    ensures n > LongMax ==> Parse(Strs.NatToString(n) + "L") == Err(NumberFormat(Strs.NatToString(n)))
  {
    hide Parse, Primary, Number;
    var d := Strs.NatToString(n);
    var s := d + "L";
    assert s[0..] == s;
    assert s[0] == d[0];
    NumberOfDecimal(s, 0, n, true);
    PrimaryOfDigit(s, 0);
    if n <= LongMax {
      ParseOfPrimary(s, Literal(LLong(n)));
    } else {
      ParseOfPrimaryErr(s, NumberFormat(d));
    }
  }

  /**
   * The parser reads `-2147483648` as the negation of `2147483648`, which does not fit an int,
   * so the smallest int cannot be written as a literal, although Java accepts it; the same
   * holds for every numeral beyond the int range.
   */
  lemma NegatedLiteralOutOfRange(n: nat)
    requires n > IntMax
    ensures Parse("-" + Strs.NatToString(n)) == Err(NumberFormat(Strs.NatToString(n)))
  {
    hide Parse, Primary, Number, Or, PostfixRest;
    var d := Strs.NatToString(n);
    var s := "-" + d;
    assert s[1..] == d + "";
    assert s[1] == d[0];
    NumberOfDecimal(s, 1, n, false);
    PrimaryOfDigit(s, 1);
    assert SkipWs(s, 0) == 0;
    UnaryOfMinus(s, 0);
    UnaryOfPostfix(s, 1);
    assert Grammar.Unary(s, 0) == Err(NumberFormat(d));
    ParseOfUnary(s);
  }

  // ---------------------------------------------------------------- string and character literals

  /** How a string is written inside quotes so that the parser reads it back: quote, backslash and the four named escapes. */
  function EscapeChar(c: char): (r: string)
    ensures |r| >= 1 && (r[0] == '\\' <==> |r| == 2)
  {
    if c == '"' then "\\\""
    else if c == '\\' then "\\\\"
    else if c == '\n' then "\\n"
    else if c == '\t' then "\\t"
    else if c == '\r' then "\\r"
    else if c == '\0' then "\\0"
    else [c]
  }

  function Escaped(t: string): (r: string)
    ensures |r| >= |t|
  {
    if t == [] then [] else EscapeChar(t[0]) + Escaped(t[1..])
  }

  function Quoted(t: string): string {
    "\"" + Escaped(t) + "\""
  }

  lemma EscapeCharReadsBack(c: char)
    ensures EscapeChar(c)[0] != '"'
    ensures |EscapeChar(c)| == 2 ==> Escape(EscapeChar(c)[1]) == c
    ensures |EscapeChar(c)| == 1 ==> EscapeChar(c)[0] == c
  {
  }

  /** One character, written with its escape, is one turn of the string loop. */
  lemma StringBodyChar(s: string, acc: string, p: nat, c: char)
    requires p + |EscapeChar(c)| <= |s| && s[p..p + |EscapeChar(c)|] == EscapeChar(c)
    ensures StringBody(s, acc, p) == StringBody(s, acc + [c], p + |EscapeChar(c)|)
  {
    hide Expect;
    var e := EscapeChar(c);
    EscapeCharReadsBack(c);
    assert s[p] == e[0];
    if |e| == 2 {
      assert s[p + 1] == e[1];
    }
  }

  /** At the closing quote the string loop ends with what it has read. */
  lemma StringBodyAtQuote(s: string, acc: string, p: nat)
    requires p < |s| && s[p] == '"'
    ensures StringBody(s, acc, p) == Ok(Step(Literal(LStr(acc)), p + 1))
  {
    assert SkipWs(s, p) == p;
  }

  lemma EscapedUnfold(t: string)
    ensures t == [] ==> Escaped(t) == []
    ensures t != [] ==> Escaped(t) == EscapeChar(t[0]) + Escaped(t[1..])
  {
  }

  /** The string loop reads the escaped text back, up to the closing quote. */
  lemma {:induction false} StringBodyReadsBack(s: string, acc: string, p: nat, t: string)
    requires p + |Escaped(t)| < |s|
    requires s[p..p + |Escaped(t)|] == Escaped(t) && s[p + |Escaped(t)|] == '"'
    ensures StringBody(s, acc, p) == Ok(Step(Literal(LStr(acc + t)), p + |Escaped(t)| + 1))
    decreases t
  {
    hide StringBody, Escaped, EscapeChar;
    EscapedUnfold(t);
    if t == [] {
      assert acc + t == acc;
      StringBodyAtQuote(s, acc, p);
    } else {
      var e := EscapeChar(t[0]);
      var rest := Escaped(t[1..]);
      var p' := p + |e|;
      assert s[p..p + |e|] == e by {
        assert s[p..p + |e|] == s[p..p + |Escaped(t)|][..|e|];
      }
      assert s[p'..p' + |rest|] == rest by {
        assert s[p'..p' + |rest|] == s[p..p + |Escaped(t)|][|e|..];
      }
      StringBodyChar(s, acc, p, t[0]);
      StringBodyReadsBack(s, acc + [t[0]], p', t[1..]);
      assert acc + [t[0]] + t[1..] == acc + t;
    }
  }

  /** Any string, written with its escapes between quotes, parses back to itself. */
  lemma StringLiteralRoundTrip(t: string)
    ensures Parse(Quoted(t)) == Ok(Literal(LStr(t)))
  {
    hide Parse, Or, Arguments, CharLiteral, Number, NewExpression, StringBody;
    var s := Quoted(t);
    var n := |Escaped(t)|;
    assert s[1..1 + n] == Escaped(t) && s[1 + n] == '"';
    assert SkipWs(s, 0) == 0;
    MatchFails(s, 0, "(");
    StringBodyReadsBack(s, "", 1, t);
    assert "" + t == t;
    assert StringLiteral(s, 0) == Ok(Step(Literal(LStr(t)), |s|));
    assert Primary(s, 0) == StringLiteral(s, 0);
    ParseOfPrimary(s, Literal(LStr(t)));
  }

  /** A quoted character reads as that character. */
  lemma CharLiteralParses(c: char)
    requires c != '\\'
    ensures Parse(['\'', c, '\'']) == Ok(Literal(LChar(c)))
  {
    hide Parse, Or, Arguments, StringLiteral, Number, NewExpression;
    var s := ['\'', c, '\''];
    assert SkipWs(s, 0) == 0 && SkipWs(s, 2) == 2;
    MatchFails(s, 0, "(");
    assert CharLiteral(s, 0) == Ok(Step(Literal(LChar(c)), 3));
    assert Primary(s, 0) == CharLiteral(s, 0);
    ParseOfPrimary(s, Literal(LChar(c)));
  }

  /** A backslash and any character between quotes reads as the escape of that character. */
  lemma EscapedCharLiteralParses(x: char)
    ensures Parse(['\'', '\\', x, '\'']) == Ok(Literal(LChar(Escape(x))))
  {
    hide Parse, Or, Arguments, StringLiteral, Number, NewExpression;
    var s := ['\'', '\\', x, '\''];
    assert SkipWs(s, 0) == 0 && SkipWs(s, 3) == 3;
    MatchFails(s, 0, "(");
    assert CharLiteral(s, 0) == Ok(Step(Literal(LChar(Escape(x))), 4));
    assert Primary(s, 0) == CharLiteral(s, 0);
    ParseOfPrimary(s, Literal(LChar(Escape(x))));
  }

  /** A lone quote reads past the end of the text: `charAt` throws at index 1. */
  lemma LoneQuoteFails()
    ensures Parse("'") == Err(CharIndexOutOfBounds(1))
  {
    hide Parse, Or, Arguments, StringLiteral, Number, NewExpression;
    var s := "'";
    assert SkipWs(s, 0) == 0;
    MatchFails(s, 0, "(");
    assert CharLiteral(s, 0) == Err(CharIndexOutOfBounds(1));
    assert Primary(s, 0) == CharLiteral(s, 0);
    ParseOfPrimaryErr(s, CharIndexOutOfBounds(1));
  }

  // ---------------------------------------------------------------- array creation and casts

  /** The loop over `[]` pairs of a type name stops only before a character other than `[`. */
  lemma {:induction false} DimsRestStopsBeforeBracket(s: string, acc: string, p: nat)
    requires p <= |s|
    requires DimsRest(s, acc, p).Ok?
    ensures Peek(s, DimsRest(s, acc, p).value.pos) != '['
    decreases |s| - p
  {
    if Peek(s, p) == '[' {
      DimsRestStopsBeforeBracket(s, acc + "[]", SkipWs(s, p + 1) + 1);
    }
  }

  /**
   * The type name in `new T[size]` has already taken every `[` with it, so the array branch of
   * `parseNewExpression` is never reached: `new` yields only object creations.
   */
  lemma NewNeverCreatesArray(s: string, p: nat)
    requires p <= |s|
    requires NewExpression(s, p).Ok?
    ensures NewExpression(s, p).value.value.NewObject?
  {
    var id := Identifier(s, SkipWs(s, SkipWs(s, p)));
    var q := QualifiedRest(s, id.value.value, id.value.pos);
    DimsRestStopsBeforeBracket(s, q.value, q.pos);
  }

  /** A name in the text, followed by the end or by a character that cannot continue it. */
  lemma NameAt(s: string, p: nat, f: string)
    requires IsName(f) && p + |f| <= |s| && s[p..p + |f|] == f
    requires p + |f| == |s| || !IsIdentPart(s[p + |f|])
    ensures SkipWs(s, p) == p && IdentEnd(s, p) == p + |f|
    ensures Identifier(s, p) == Ok(Step(f, p + |f|))
  {
    assert s[p] == f[0] && !IsWhitespace(s[p]);
    forall i | p <= i < p + |f| ensures IsIdentPart(s[i]) {
      assert s[i] == s[p..p + |f|][i - p];
    }
  }

  /** The cast lookahead runs over identifier characters up to the first other character. */
  lemma {:induction false} CastScanOfName(s: string, p: nat, k: nat)
    requires p <= k < |s|
    requires forall i | p <= i < k :: IsIdentPart(s[i])
    requires !IsIdentPart(s[k]) && s[k] != '.' && s[k] != '['
    ensures CastScan(s, p) == k
    decreases k - p
  {
    if p < k {
      CastScanOfName(s, p + 1, k);
    }
  }

  /**
   * Before a character that starts no operator, every loop stops with the tree it has; `=`
   * counts as such a character unless a second `=` follows it.
   */
  lemma RestAtStop(s: string, left: Expr, p: nat)
    requires p <= |s|
    requires Peek(s, SkipWs(s, p)) !in {'|', '&', '!', '<', '>', '+', '-', '*', '/', '%', '.', '[', 'i'}
    requires Peek(s, SkipWs(s, p)) == '=' ==> Peek(s, SkipWs(s, p) + 1) != '='
    ensures OrRest(s, left, p) == Ok(Step(left, SkipWs(s, p)))
    ensures AndRest(s, left, p) == Ok(Step(left, SkipWs(s, p)))
    ensures EqualityRest(s, left, p) == Ok(Step(left, SkipWs(s, p)))
    ensures ComparisonRest(s, left, p) == Ok(Step(left, SkipWs(s, p)))
    ensures AdditiveRest(s, left, p) == Ok(Step(left, SkipWs(s, p)))
    ensures MultiplicativeRest(s, left, p) == Ok(Step(left, SkipWs(s, p)))
    ensures PostfixRest(s, left, p) == Ok(Step(left, SkipWs(s, p)))
  {
    hide OrRest, AndRest, EqualityRest, ComparisonRest, AdditiveRest, MultiplicativeRest, PostfixRest;
    OrRestStops(s, left, p);
    AndRestStops(s, left, p);
    EqualityRestStops(s, left, p);
    ComparisonRestStops(s, left, p);
    AdditiveRestStops(s, left, p);
    MultiplicativeRestStops(s, left, p);
    PostfixRestStops(s, left, p);
  }

  /** A `-` before an operand is its negation. */
  lemma UnaryOfMinus(s: string, p: nat)
    requires p < |s| && SkipWs(s, p) == p && s[p] == '-'
    ensures Grammar.Unary(s, p) ==
      match Grammar.Unary(s, p + 1)
      case Err(e) => Err(e)
      case Ok(st) => Ok(Step(Ast.Unary(Neg, st.value), st.pos))
  {
    hide Postfix, TypeName, LooksLikeCast;
    MatchFails(s, p, "!");
    assert Match(s, p, "-") == Scan(true, p + 1) by { assert s[p..p + 1] == "-"; }
  }

  /** When the lookahead accepts a parenthesized type name, the operand after it is cast to that type. */
  lemma UnaryOfCast(s: string, p: nat, t: string, k: nat)
    requires p < |s| && SkipWs(s, p) == p && s[p] == '(' && LooksLikeCast(s, p)
    requires TypeName(s, p + 1) == Ok(Step(t, k)) && k < |s| && SkipWs(s, k) == k && s[k] == ')'
    ensures Grammar.Unary(s, p) ==
      match Grammar.Unary(s, k + 1)
      case Err(e) => Err(e)
      case Ok(st) => Ok(Step(Cast(t, st.value), st.pos))
  {
    hide Postfix, TypeName;
    MatchFails(s, p, "!");
    MatchFails(s, p, "-");
    MatchFails(s, p, "+");
    assert Expect(s, p, '(') == Ok(p + 1);
    assert Expect(s, k, ')') == Ok(k + 1);
  }

  /** `(a)` at the start of `(a)-b` passes the lookahead and reads as the type name `a`. */
  lemma CastHead(s: string, a: string, b: string)
    requires IsName(a) && s == "(" + a + ")-" + b
    ensures SkipWs(s, 0) == 0 && s[0] == '(' && LooksLikeCast(s, 0)
    ensures TypeName(s, 1) == Ok(Step(a, 1 + |a|))
    ensures SkipWs(s, 1 + |a|) == 1 + |a| && s[1 + |a|] == ')'
  {
    var k := 1 + |a|;
    assert s[0] == '(' && s[k] == ')';
    assert s[1..k] == a;
    NameAt(s, 1, a);
    CastScanOfName(s, 1, k);
    SkipWsIdempotent(s, 1);
    assert QualifiedRest(s, a, k) == Step(a, k);
    assert DimsRest(s, a, k) == Ok(Step(a, k));
  }

  /** An identifier in primary position that is not a keyword or `new` and not followed by `(` is a variable. */
  lemma PrimaryOfName(s: string, p: nat, e: nat)
    requires p < |s| && SkipWs(s, p) == p && IsIdentStart(s[p]) && IdentEnd(s, p) == e
    requires KeywordLiteral(s[p..e]).None? && s[p..e] != "new" && Peek(s, e) != '('
    ensures Primary(s, p) == Ok(Step(Variable(s[p..e]), e))
  {
    hide Or, Arguments, StringLiteral, CharLiteral, Number, NewExpression, Expect, Identifier;
    MatchFails(s, p, "(");
  }

  /** A name that runs to the end of the input is a variable. */
  lemma VariableToEnd(s: string, p: nat, b: string)
    requires IsName(b) && KeywordLiteral(b).None? && b != "new"
    requires p <= |s| && s[p..] == b
    ensures Grammar.Unary(s, p) == Ok(Step(Variable(b), |s|))
  {
    assert s[p..|s|] == b;
    NameAt(s, p, b);
    assert s[p] == b[0];
    assert !IsDigit(s[p]) && s[p] != '.' && s[p] != '"' && s[p] != '\'';
    UnaryOfPostfix(s, p);
    MatchFails(s, p, "(");
    PrimaryOfName(s, p, p + |b|);
    RestAtEnd(s, Variable(b), |s|);
  }

  /** After the parenthesized name of `(a)-b` comes `-b`. */
  lemma CastTail(s: string, a: string, b: string)
    requires s == "(" + a + ")-" + b
    ensures s[2 + |a|..] == "-" + b
  {
    var head := "(" + a + ")";
    assert s == head + ("-" + b);
  }

  lemma NegatedName(s: string, k: nat, b: string)
    requires IsName(b) && KeywordLiteral(b).None? && b != "new"
    requires k <= |s| && s[k..] == "-" + b
    ensures Grammar.Unary(s, k) == Ok(Step(Ast.Unary(Neg, Variable(b)), |s|))
  {
    assert s[k] == s[k..][0] == '-';
    assert SkipWs(s, k) == k;
    assert s[k + 1..] == b by { assert s[k + 1..] == s[k..][1..]; }
    VariableToEnd(s, k + 1, b);
    UnaryOfMinus(s, k);
  }

  /**
   * Any parenthesized name passes the cast lookahead, so `(a)-b` parses as the cast of `-b`
   * to a type named `a`, not as a subtraction, whatever `a` names.
   */
  lemma ParenthesizedNameIsCast(a: string, b: string)
    requires IsName(a) && IsName(b) && KeywordLiteral(b).None? && b != "new"
    ensures Parse("(" + a + ")-" + b) == Ok(Cast(a, Ast.Unary(Neg, Variable(b))))
  {
    var s := "(" + a + ")-" + b;
    CastHead(s, a, b);
    CastTail(s, a, b);
    NegatedName(s, 2 + |a|, b);
    UnaryOfCast(s, 0, a, 1 + |a|);
    ParseOfUnary(s);
  }

  /** A lone `=` is not an operator: the expression stops before it and it is the unexpected character. */
  lemma SingleEqualsUnexpected(a: string, b: string)
    requires IsName(a) && IsName(b) && KeywordLiteral(a).None? && a != "new"
    ensures Parse(a + "=" + b) == Err(ParseException(UnexpectedChar('='), |a|))
  {
    var s := a + "=" + b;
    var k := |a|;
    assert s[k] == '=' && s[k + 1] == b[0];
    assert s[0..k] == a;
    NameAt(s, 0, a);
    assert SkipWs(s, k) == k;
    MatchFails(s, 0, "(");
    assert Primary(s, 0) == Ok(Step(Variable(a), k));
    UnaryOfPostfix(s, 0);
    var v := Variable(a);
    RestAtStop(s, v, k);
    assert Postfix(s, 0) == Ok(Step(v, k));
    assert Multiplicative(s, 0) == Ok(Step(v, k));
    assert Additive(s, 0) == Ok(Step(v, k));
    assert Comparison(s, 0) == Ok(Step(v, k));
    assert Equality(s, 0) == Ok(Step(v, k));
    assert And(s, 0) == Ok(Step(v, k));
    assert Or(s, 0) == Ok(Step(v, k));
    LeftoverIsUnexpected(s);
  }

  /** An argument list that parses ends with its closing parenthesis. */
  lemma ArgumentsEndWithParen(s: string, p: nat)
    requires p <= |s|
    requires Arguments(s, p).Ok?
    ensures 0 < Arguments(s, p).value.pos && s[Arguments(s, p).value.pos - 1] == ')'
  {
    hide Or, ArgumentsRest, Expect, SkipWs;
  }
}
