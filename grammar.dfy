/**
 * The expression grammar as a function of the text and a starting position: one function per
 * parsing method of ExpressionParser.java, and one per `while` loop (the `...Rest` functions,
 * which take the tree built so far). Each returns the tree and the position after it, or the
 * exception the method throws. The imperative parser class is proved to compute exactly these.
 */
module Grammar {
  import opened Wrappers
  import opened Ast
  import opened Lexer
  import Strs

  datatype Step<T> = Step(value: T, pos: nat)

  type PResult<T> = Result<Step<T>, ParseError>

  /** Where an error may be reported: at or after the starting position, within the text. */
  predicate ErrorWithin(e: ParseError, p: nat, n: nat) {
    match e
    case ParseException(_, k) => p <= k <= n
    case NumberFormat(_) => true
    case CharIndexOutOfBounds(k) => k == n
  }

  /** A result that never moves backwards and never reports a position outside the text. */
  predicate Fits<T>(s: string, p: nat, r: PResult<T>) {
    match r
    case Ok(st) => p <= st.pos <= |s|
    case Err(e) => ErrorWithin(e, p, |s|)
  }

  const IntMax: int := 0x7FFF_FFFF
  const LongMax: int := 0x7FFF_FFFF_FFFF_FFFF

  // ---------------------------------------------------------------- literals and names

  /** `parseIdentifier()`. */
  function Identifier(s: string, p: nat): (r: PResult<string>)
    requires p <= |s|
    ensures Fits(s, p, r)
    ensures r.Ok? <==> IsIdentStart(Peek(s, SkipWs(s, p)))
    ensures r.Ok? ==> SkipWs(s, p) < r.value.pos && r.value.value == s[SkipWs(s, p)..r.value.pos]
    ensures r.Ok? ==> r.value.pos == |s| || !IsIdentPart(s[r.value.pos])
    ensures r.Err? ==> r.error == ParseException(ExpectedIdentifier, SkipWs(s, p))
  {
    var q := SkipWs(s, p);
    if IsIdentStart(Peek(s, q)) then
      var e := IdentEnd(s, q);
      Ok(Step(s[q..e], e))
    else
      Err(ParseException(ExpectedIdentifier, q))
  }

  /** The `while (peek() == '.')` loop of `parseTypeName()`, one qualifier at a time. */
  function QualifiedRest(s: string, acc: string, p: nat): (r: Step<string>)
    requires p <= |s|
    ensures p <= r.pos <= |s|
    decreases |s| - p
  {
    if Peek(s, p) == '.' && IsIdentStart(Peek(s, SkipWs(s, p + 1))) then
      var q := SkipWs(s, p + 1);
      var e := IdentEnd(s, q);
      QualifiedRest(s, acc + "." + s[q..e], e)
    else
      Step(acc, p)
  }

  /** One qualifier: the identifier after the dot, read as `parseIdentifier()` reads it, joins the name. */
  lemma QualifiedRestStep(s: string, acc: string, p: nat)
    requires p < |s| && s[p] == '.' && IsIdentStart(Peek(s, SkipWs(s, p + 1)))
    ensures Identifier(s, SkipWs(s, p + 1)).Ok?
    ensures var id := Identifier(s, SkipWs(s, p + 1)).value;
      QualifiedRest(s, acc, p) == QualifiedRest(s, acc + "." + id.value, id.pos)
  {
    var q := SkipWs(s, p + 1);
    SkipWsIdempotent(s, p + 1);
    assert Identifier(s, q) == Ok(Step(s[q..IdentEnd(s, q)], IdentEnd(s, q)));
  }

  lemma QualifiedRestStop(s: string, acc: string, p: nat)
    requires p <= |s|
    requires !(Peek(s, p) == '.' && IsIdentStart(Peek(s, SkipWs(s, p + 1))))
    ensures QualifiedRest(s, acc, p) == Step(acc, p)
  {
  }

  /** The `while (peek() == '[')` loop of `parseTypeName()`: each `[` must be closed. */
  function DimsRest(s: string, acc: string, p: nat): (r: PResult<string>)
    requires p <= |s|
    ensures Fits(s, p, r)
    decreases |s| - p
  {
    if Peek(s, p) == '[' then
      var q := SkipWs(s, p + 1);
      if Peek(s, q) == ']' then DimsRest(s, acc + "[]", q + 1)
      else Err(ParseException(ExpectedChar(']'), q))
    else
      Ok(Step(acc, p))
  }

  lemma DimsRestStep(s: string, acc: string, p: nat)
    requires p < |s| && s[p] == '['
    ensures DimsRest(s, acc, p) ==
      if Peek(s, SkipWs(s, p + 1)) == ']' then DimsRest(s, acc + "[]", SkipWs(s, p + 1) + 1)
      else Err(ParseException(ExpectedChar(']'), SkipWs(s, p + 1)))
  {
  }

  lemma DimsRestStop(s: string, acc: string, p: nat)
    requires p <= |s| && Peek(s, p) != '['
    ensures DimsRest(s, acc, p) == Ok(Step(acc, p))
  {
  }

  /** `parseTypeName()`: a dotted name followed by `[]` pairs. */
  function TypeName(s: string, p: nat): (r: PResult<string>)
    requires p <= |s|
    ensures Fits(s, p, r)
  {
    var id :- Identifier(s, SkipWs(s, p));
    var q := QualifiedRest(s, id.value, id.pos);
    DimsRest(s, q.value, q.pos)
  }

  /** `parseEscapeSequence()` on the character after the backslash. */
  function Escape(c: char): (r: char)
    ensures c !in {'n', 't', 'r', '0'} ==> r == c
  {
    match c
    case 'n' => '\n'
    case 't' => '\t'
    case 'r' => '\r'
    case '0' => '\0'
    case _ => c
  }

  /** The loop of `parseStringLiteral()`: the characters up to the closing quote. */
  function StringBody(s: string, acc: string, p: nat): (r: PResult<Expr>)
    requires p <= |s|
    ensures Fits(s, p, r)
    decreases |s| - p
  {
    if p < |s| && s[p] != '"' then
      if s[p] == '\\' then
        if p + 1 >= |s| then Err(ParseException(UnterminatedString, p + 1))
        else StringBody(s, acc + [Escape(s[p + 1])], p + 2)
      else
        StringBody(s, acc + [s[p]], p + 1)
    else
      var e :- Expect(s, p, '"');
      Ok(Step(Literal(LStr(acc)), e))
  }

  /** `parseStringLiteral()`. */
  function StringLiteral(s: string, p: nat): (r: PResult<Expr>)
    requires p <= |s|
    ensures Fits(s, p, r)
  {
    var q :- Expect(s, p, '"');
    StringBody(s, "", q)
  }

  /** `parseCharLiteral()`: reading past the end raises the index error of String.charAt. */
  function CharLiteral(s: string, p: nat): (r: PResult<Expr>)
    requires p <= |s|
    ensures Fits(s, p, r)
  {
    var q :- Expect(s, p, '\'');
    if q >= |s| then Err(CharIndexOutOfBounds(q))
    else if s[q] == '\\' then
      if q + 1 >= |s| then Err(CharIndexOutOfBounds(q + 1))
      else
        var e :- Expect(s, q + 2, '\'');
        Ok(Step(Literal(LChar(Escape(s[q + 1]))), e))
    else
      var e :- Expect(s, q + 1, '\'');
      Ok(Step(Literal(LChar(s[q])), e))
  }

  /** The scan of `parseNumberLiteral()`: where each part of the literal ends and what it says. */
  datatype NumberScan = NumberScan(
    intEnd: nat,        // after the integer digits
    fracEnd: nat,       // after the optional `.digits`
    expDigits: nat,     // where the exponent's digits start (after `e` and its sign)
    expEnd: nat,        // after the optional exponent
    hasExp: bool,
    isDouble: bool,
    isLong: bool,
    isFloat: bool,
    end: nat,           // after the optional type suffix
    textEnd: nat)       // the end of the text handed to the library parser

  /** After the integer digits: the end of an optional `.digits`. */
  function FractionEnd(s: string, a: nat): (b: nat)
    requires a <= |s|
    ensures a <= b <= |s|
  {
    if a < |s| && s[a] == '.' then DigitsEnd(s, a + 1) else a
  }

  predicate ExponentMarker(s: string, b: nat) {
    b < |s| && (s[b] == 'e' || s[b] == 'E')
  }

  /** After an exponent marker at `b`: where its digits start, past an optional sign. */
  function ExponentDigits(s: string, b: nat): (c: nat)
    requires b < |s|
    ensures b < c <= |s|
  {
    if b + 1 < |s| && (s[b + 1] == '+' || s[b + 1] == '-') then b + 2 else b + 1
  }

  function ScanNumber(s: string, p: nat): (n: NumberScan)
    requires p <= |s|
    ensures p <= n.intEnd <= n.fracEnd <= n.expEnd <= n.end <= |s|
    ensures p <= n.textEnd <= n.end
    ensures forall k :: p <= k < n.intEnd ==> IsDigit(s[k])
    ensures n.intEnd == |s| || !IsDigit(s[n.intEnd])
    ensures !n.isDouble ==> n.fracEnd == n.intEnd && n.expEnd == n.intEnd
    ensures !n.isDouble && !n.isFloat ==> n.textEnd == n.intEnd
  {
    hide DigitsEnd, ExponentDigits;
    var a := DigitsEnd(s, p);
    var b := FractionEnd(s, a);
    var hasExp := ExponentMarker(s, b);
    var c1 := if hasExp then ExponentDigits(s, b) else b;
    var c := if hasExp then DigitsEnd(s, c1) else b;
    var suffix := Peek(s, c);
    var isLong := suffix == 'L' || suffix == 'l';
    var isFloat := suffix == 'F' || suffix == 'f';
    var isD := suffix == 'D' || suffix == 'd';
    var isDouble := b != a || hasExp || isD;
    var d := if isLong || isFloat || isD then c + 1 else c;
    var cut := isLong || isFloat || (isDouble && s[d - 1] == 'd');
    NumberScan(a, b, c1, c, hasExp, isDouble, isLong, isFloat, d, if cut then d - 1 else d)
  }

  /** ScanNumber put together from its parts, one part at a time. */
  lemma ScanNumberParts(s: string, p: nat, n: NumberScan)
    requires p <= |s|
    requires n.intEnd == DigitsEnd(s, p)
    requires n.fracEnd == FractionEnd(s, n.intEnd)
    requires n.hasExp == ExponentMarker(s, n.fracEnd)
    requires n.expDigits == if n.hasExp then ExponentDigits(s, n.fracEnd) else n.fracEnd
    requires n.expEnd == if n.hasExp then DigitsEnd(s, n.expDigits) else n.fracEnd
    requires n.isLong <==> Peek(s, n.expEnd) in {'L', 'l'}
    requires n.isFloat <==> Peek(s, n.expEnd) in {'F', 'f'}
    requires n.isDouble <==> n.fracEnd != n.intEnd || n.hasExp || Peek(s, n.expEnd) in {'D', 'd'}
    requires n.end == if n.isLong || n.isFloat || Peek(s, n.expEnd) in {'D', 'd'} then n.expEnd + 1 else n.expEnd
    requires n.end <= |s|
    requires n.textEnd == if n.isLong || n.isFloat || (n.isDouble && 0 < n.end && s[n.end - 1] == 'd') then n.end - 1 else n.end
    ensures ScanNumber(s, p) == n
  {
  }

  /**
   * `parseNumberLiteral()`. Float and double literals keep their text (the model does not
   * evaluate floating-point literals); the library parser rejects them only when an exponent
   * has no digits. Integer literals must fit the type.
   */
  function Number(s: string, p: nat): (r: PResult<Expr>)
    requires p <= |s|
    ensures Fits(s, p, r)
  {
    var n := ScanNumber(s, p);
    var text := s[p..n.textEnd];
    if n.isFloat || n.isDouble then
      if n.hasExp && n.expEnd == n.expDigits then Err(NumberFormat(text))
      else if n.isFloat then Ok(Step(Literal(LFloat(text)), n.end))
      else Ok(Step(Literal(LDouble(text)), n.end))
    else if text == [] then Err(NumberFormat(text))
    else if n.isLong then
      if Strs.DecimalValue(text) <= LongMax then Ok(Step(Literal(LLong(Strs.DecimalValue(text))), n.end))
      else Err(NumberFormat(text))
    else
      if Strs.DecimalValue(text) <= IntMax then Ok(Step(Literal(LInt(Strs.DecimalValue(text))), n.end))
      else Err(NumberFormat(text))
  }

  /** The scan loop of `lookAheadForCast()`: identifier characters, dots and `[` `]`. */
  function CastScan(s: string, p: nat): (q: nat)
    requires p <= |s|
    ensures p <= q <= |s|
    decreases |s| - p
  {
    if p < |s| then
      if IsIdentPart(s[p]) || s[p] == '.' then CastScan(s, p + 1)
      else if s[p] == '[' then
        if Peek(s, p + 1) == ']' then CastScan(s, p + 2) else CastScan(s, p + 1)
      else p
    else p
  }

  /** `lookAheadForCast()`: `(`, an identifier start, type-name characters, then `)`. */
  predicate LooksLikeCast(s: string, p: nat)
    requires p < |s|
  {
    s[p] == '(' &&
    var q := SkipWs(s, p + 1);
    IsIdentStart(Peek(s, q)) && Peek(s, SkipWs(s, CastScan(s, q))) == ')'
  }

  // ---------------------------------------------------------------- expressions

  /** `parseOr()`. */
  function Or(s: string, p: nat): (r: PResult<Expr>)
    requires p <= |s|
    ensures Fits(s, p, r)
    decreases |s| - p, 20
  {
    var l :- And(s, p);
    OrRest(s, l.value, l.pos)
  }

  function OrRest(s: string, left: Expr, p: nat): (r: PResult<Expr>)
    requires p <= |s|
    ensures Fits(s, p, r)
    decreases |s| - p, 19
  {
    var m := Match(s, p, "||");
    if m.ok then
      var rt :- And(s, m.pos);
      OrRest(s, Binary(left, CondOr, rt.value), rt.pos)
    else
      Ok(Step(left, m.pos))
  }

  /** `parseAnd()`. */
  function And(s: string, p: nat): (r: PResult<Expr>)
    requires p <= |s|
    ensures Fits(s, p, r)
    decreases |s| - p, 18
  {
    var l :- Equality(s, p);
    AndRest(s, l.value, l.pos)
  }

  function AndRest(s: string, left: Expr, p: nat): (r: PResult<Expr>)
    requires p <= |s|
    ensures Fits(s, p, r)
    decreases |s| - p, 17
  {
    var m := Match(s, p, "&&");
    if m.ok then
      var rt :- Equality(s, m.pos);
      AndRest(s, Binary(left, CondAnd, rt.value), rt.pos)
    else
      Ok(Step(left, m.pos))
  }

  /** `parseEquality()`. */
  function Equality(s: string, p: nat): (r: PResult<Expr>)
    requires p <= |s|
    ensures Fits(s, p, r)
    decreases |s| - p, 16
  {
    var l :- Comparison(s, p);
    EqualityRest(s, l.value, l.pos)
  }

  function EqualityRest(s: string, left: Expr, p: nat): (r: PResult<Expr>)
    requires p <= |s|
    ensures Fits(s, p, r)
    decreases |s| - p, 15
  {
    var m1 := Match(s, p, "==");
    if m1.ok then
      var rt :- Comparison(s, m1.pos);
      EqualityRest(s, Binary(left, Eq, rt.value), rt.pos)
    else
      var m2 := Match(s, m1.pos, "!=");
      if m2.ok then
        var rt :- Comparison(s, m2.pos);
        EqualityRest(s, Binary(left, Ne, rt.value), rt.pos)
      else
        Ok(Step(left, m2.pos))
  }

  /** `parseComparison()`. */
  function Comparison(s: string, p: nat): (r: PResult<Expr>)
    requires p <= |s|
    ensures Fits(s, p, r)
    decreases |s| - p, 14
  {
    var l :- Additive(s, p);
    ComparisonRest(s, l.value, l.pos)
  }

  function ComparisonRest(s: string, left: Expr, p: nat): (r: PResult<Expr>)
    requires p <= |s|
    ensures Fits(s, p, r)
    decreases |s| - p, 13
  {
    hide Additive, TypeName;
    var m1 := Match(s, p, "<=");
    if m1.ok then
      var rt :- Additive(s, m1.pos);
      ComparisonRest(s, Binary(left, Le, rt.value), rt.pos)
    else
      var m2 := Match(s, m1.pos, ">=");
      if m2.ok then
        var rt :- Additive(s, m2.pos);
        ComparisonRest(s, Binary(left, Ge, rt.value), rt.pos)
      else
        var m3 := Match(s, m2.pos, "<");
        if m3.ok then
          var rt :- Additive(s, m3.pos);
          ComparisonRest(s, Binary(left, Lt, rt.value), rt.pos)
        else
          var m4 := Match(s, m3.pos, ">");
          if m4.ok then
            var rt :- Additive(s, m4.pos);
            ComparisonRest(s, Binary(left, Gt, rt.value), rt.pos)
          else
            var k := MatchKeyword(s, m4.pos, "instanceof");
            if k.ok then
              var t :- TypeName(s, k.pos);
              ComparisonRest(s, InstanceOf(left, t.value), t.pos)
            else
              Ok(Step(left, k.pos))
  }

  /** `parseAdditive()`. */
  function Additive(s: string, p: nat): (r: PResult<Expr>)
    requires p <= |s|
    ensures Fits(s, p, r)
    decreases |s| - p, 12
  {
    var l :- Multiplicative(s, p);
    AdditiveRest(s, l.value, l.pos)
  }

  function AdditiveRest(s: string, left: Expr, p: nat): (r: PResult<Expr>)
    requires p <= |s|
    ensures Fits(s, p, r)
    decreases |s| - p, 11
  {
    var m1 := Match(s, p, "+");
    if m1.ok then
      var rt :- Multiplicative(s, m1.pos);
      AdditiveRest(s, Binary(left, Add, rt.value), rt.pos)
    else
      var m2 := Match(s, m1.pos, "-");
      if m2.ok then
        var rt :- Multiplicative(s, m2.pos);
        AdditiveRest(s, Binary(left, Sub, rt.value), rt.pos)
      else
        Ok(Step(left, m2.pos))
  }

  /** `parseMultiplicative()`. */
  function Multiplicative(s: string, p: nat): (r: PResult<Expr>)
    requires p <= |s|
    ensures Fits(s, p, r)
    decreases |s| - p, 10
  {
    var l :- Unary(s, p);
    MultiplicativeRest(s, l.value, l.pos)
  }

  function MultiplicativeRest(s: string, left: Expr, p: nat): (r: PResult<Expr>)
    requires p <= |s|
    ensures Fits(s, p, r)
    decreases |s| - p, 9
  {
    var m1 := Match(s, p, "*");
    if m1.ok then
      var rt :- Unary(s, m1.pos);
      MultiplicativeRest(s, Binary(left, Mul, rt.value), rt.pos)
    else
      var m2 := Match(s, m1.pos, "/");
      if m2.ok then
        var rt :- Unary(s, m2.pos);
        MultiplicativeRest(s, Binary(left, Div, rt.value), rt.pos)
      else
        var m3 := Match(s, m2.pos, "%");
        if m3.ok then
          var rt :- Unary(s, m3.pos);
          MultiplicativeRest(s, Binary(left, Rem, rt.value), rt.pos)
        else
          Ok(Step(left, m3.pos))
  }

  /** `parseUnary()`: `!`, `-`, a no-op `+`, a cast when the lookahead says so, else postfix. */
  function Unary(s: string, p: nat): (r: PResult<Expr>)
    requires p <= |s|
    ensures Fits(s, p, r)
    decreases |s| - p, 8
  {
    hide Postfix, TypeName, Expect;
    var m1 := Match(s, p, "!");
    if m1.ok then
      var e :- Unary(s, m1.pos);
      Ok(Step(Ast.Unary(Not, e.value), e.pos))
    else
      var m2 := Match(s, m1.pos, "-");
      if m2.ok then
        var e :- Unary(s, m2.pos);
        Ok(Step(Ast.Unary(Neg, e.value), e.pos))
      else
        var m3 := Match(s, m2.pos, "+");
        if m3.ok then
          Unary(s, m3.pos)
        else
          var q := m3.pos;
          if Peek(s, q) == '(' && LooksLikeCast(s, q) then
            match Expect(s, q, '(')
            case Err(e) => Err(e)
            case Ok(a) =>
            var t :- TypeName(s, a);
            var b :- Expect(s, t.pos, ')');
            var e :- Unary(s, b);
            Ok(Step(Cast(t.value, e.value), e.pos))
          else
            Postfix(s, q)
  }

  /** `parsePostfix()`. */
  function Postfix(s: string, p: nat): (r: PResult<Expr>)
    requires p <= |s|
    ensures Fits(s, p, r)
    decreases |s| - p, 7
  {
    var e :- Primary(s, p);
    PostfixRest(s, e.value, e.pos)
  }

  /** The loop of `parsePostfix()`: `.name`, `.name(args)` and `[index]` suffixes. */
  function PostfixRest(s: string, e: Expr, p: nat): (r: PResult<Expr>)
    requires p <= |s|
    ensures Fits(s, p, r)
    decreases |s| - p, 6
  {
    var q := SkipWs(s, p);
    var m1 := Match(s, q, ".");
    if m1.ok then
      var id :- Identifier(s, m1.pos);
      if Peek(s, id.pos) == '(' then
        var args :- Arguments(s, id.pos);
        PostfixRest(s, MethodCall(Some(e), id.value, args.value), args.pos)
      else
        PostfixRest(s, FieldAccess(e, id.value), id.pos)
    else
      var m2 := Match(s, m1.pos, "[");
      if m2.ok then
        var index :- Or(s, m2.pos);
        var c :- Expect(s, index.pos, ']');
        PostfixRest(s, ArrayAccess(e, index.value), c)
      else
        Ok(Step(e, m2.pos))
  }

  /** The keyword an identifier in primary position stands for, if any. */
  function KeywordLiteral(name: string): (r: Option<Expr>)
  {
    if name == "true" then Some(Literal(LBool(true)))
    else if name == "false" then Some(Literal(LBool(false)))
    else if name == "null" then Some(Literal(LNull))
    else if name == "this" then Some(This)
    else None
  }

  /** Whether a primary starting at `k` is a number literal. */
  predicate StartsNumber(s: string, k: nat) {
    IsDigit(Peek(s, k)) || (Peek(s, k) == '.' && k + 1 < |s| && IsDigit(s[k + 1]))
  }

  /** `parsePrimary()`. */
  function Primary(s: string, p: nat): (r: PResult<Expr>)
    requires p <= |s|
    ensures Fits(s, p, r)
    decreases |s| - p, 5
  {
    var m := Match(s, SkipWs(s, p), "(");
    if m.ok then
      var inner :- Or(s, m.pos);
      var c :- Expect(s, inner.pos, ')');
      Ok(Step(inner.value, c))
    else
      var k := m.pos;
      if Peek(s, k) == '"' then StringLiteral(s, k)
      else if Peek(s, k) == '\'' then CharLiteral(s, k)
      else if StartsNumber(s, k) then Number(s, k)
      else if IsIdentStart(Peek(s, k)) then
        var e := IdentEnd(s, k);
        var name := s[k..e];
        if KeywordLiteral(name).Some? then Ok(Step(KeywordLiteral(name).value, e))
        else if name == "new" then NewExpression(s, e)
        else if Peek(s, e) == '(' then
          var args :- Arguments(s, e);
          Ok(Step(MethodCall(None, name, args.value), args.pos))
        else
          Ok(Step(Variable(name), e))
      else
        Err(ParseException(ExpectedExpression, k))
  }

  /** `parseNewExpression()`: `new T[size]` or `new T(args)`. */
  function NewExpression(s: string, p: nat): (r: PResult<Expr>)
    requires p <= |s|
    ensures Fits(s, p, r)
    decreases |s| - p, 4
  {
    var t :- TypeName(s, SkipWs(s, p));
    if Peek(s, t.pos) == '[' then
      var a :- Expect(s, t.pos, '[');
      var size :- Or(s, a);
      var c :- Expect(s, size.pos, ']');
      Ok(Step(NewArray(t.value, size.value), c))
    else
      var args :- Arguments(s, t.pos);
      Ok(Step(NewObject(t.value, args.value), args.pos))
  }

  /** `parseArguments()`: `(`, then nothing or comma-separated expressions, then `)`. */
  function Arguments(s: string, p: nat): (r: PResult<seq<Expr>>)
    requires p <= |s|
    ensures Fits(s, p, r)
    decreases |s| - p, 3
  {
    var a :- Expect(s, p, '(');
    var q := SkipWs(s, a);
    var items :- if Peek(s, q) != ')' then
        var first :- Or(s, q);
        ArgumentsRest(s, [first.value], first.pos)
      else
        Ok(Step([], q));
    var c :- Expect(s, items.pos, ')');
    Ok(Step(items.value, c))
  }

  function ArgumentsRest(s: string, acc: seq<Expr>, p: nat): (r: PResult<seq<Expr>>)
    requires p <= |s|
    ensures Fits(s, p, r)
    decreases |s| - p, 2
  {
    var m := Match(s, p, ",");
    if m.ok then
      var e :- Or(s, m.pos);
      ArgumentsRest(s, acc + [e.value], e.pos)
    else
      Ok(Step(acc, m.pos))
  }

  // ---------------------------------------------------------------- entry point

  /** `parse()` on a parser positioned at `p`. */
  function ParseAt(s: string, p: nat): (r: Result<Expr, ParseError>)
    requires p <= |s|
  {
    var e :- Or(s, SkipWs(s, p));
    var k := SkipWs(s, e.pos);
    if k < |s| then Err(ParseException(UnexpectedChar(s[k]), k)) else Ok(e.value)
  }

  /** `new ExpressionParser(s).parse()`: an expression covering the whole text, up to surrounding whitespace. */
  function Parse(s: string): (r: Result<Expr, ParseError>)
  {
    ParseAt(s, 0)
  }
}
