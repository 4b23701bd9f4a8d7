/**
 * ExpressionParser.java as a class: the text is fixed at construction and every parsing
 * method advances `pos`. Each method is proved to compute what the corresponding function of
 * the Grammar module computes from the position it starts at: the same tree and final
 * position, or the same exception.
 */
module Parser {
  import opened Wrappers
  import opened Ast
  import opened Lexer
  import opened Grammar
  import Strs

  /** A method's result and final position agree with the grammar function's. */
  predicate Agrees<T(==)>(g: PResult<T>, r: Result<T, ParseError>, pos: nat) {
    match g
    case Ok(st) => r == Ok(st.value) && pos == st.pos
    case Err(e) => r == Err(e)
  }

  /** The same for a method that only consumes text. */
  predicate AgreesVoid(g: Result<nat, ParseError>, r: Outcome<ParseError>, pos: nat) {
    match g
    case Ok(q) => r == Pass && pos == q
    case Err(e) => r == Fail(e)
  }

  class ExpressionParser {
    const source: string
    var pos: nat

    constructor (source: string)
      ensures this.source == source && pos == 0
    {
      this.source := source;
      pos := 0;
    }

    /** `parse()`. */
    method Parse() returns (r: Result<Expr, ParseError>)
      requires pos <= |source|
      modifies this
      ensures r == ParseAt(source, old(pos))
    {
      SkipWhitespace();
      var e :- ParseOr();
      SkipWhitespace();
      if pos < |source| {
        return Err(ParseException(UnexpectedChar(source[pos]), pos));
      }
      return Ok(e);
    }

    // ------------------------------------------------------------ binary levels

    method ParseOr() returns (r: Result<Expr, ParseError>)
      requires pos <= |source|
      modifies this
      ensures Agrees(Or(source, old(pos)), r, pos)
      decreases |source| - pos, 20
    {
      var left :- ParseAnd();
      while true
        invariant pos <= |source|
        invariant OrRest(source, left, pos) == Or(source, old(pos))
        decreases |source| - pos
      {
        var matched := Match("||");
        if !matched {
          break;
        }
        var right :- ParseAnd();
        left := Binary(left, CondOr, right);
      }
      return Ok(left);
    }

    method ParseAnd() returns (r: Result<Expr, ParseError>)
      requires pos <= |source|
      modifies this
      ensures Agrees(And(source, old(pos)), r, pos)
      decreases |source| - pos, 18
    {
      var left :- ParseEquality();
      while true
        invariant pos <= |source|
        invariant AndRest(source, left, pos) == And(source, old(pos))
        decreases |source| - pos
      {
        var matched := Match("&&");
        if !matched {
          break;
        }
        var right :- ParseEquality();
        left := Binary(left, CondAnd, right);
      }
      return Ok(left);
    }

    method ParseEquality() returns (r: Result<Expr, ParseError>)
      requires pos <= |source|
      modifies this
      ensures Agrees(Equality(source, old(pos)), r, pos)
      decreases |source| - pos, 16
    {
      var left :- ParseComparison();
      while true
        invariant pos <= |source|
        invariant EqualityRest(source, left, pos) == Equality(source, old(pos))
        decreases |source| - pos
      {
        var eq := Match("==");
        if eq {
          var right :- ParseComparison();
          left := Binary(left, Eq, right);
        } else {
          var ne := Match("!=");
          if !ne {
            break;
          }
          var right :- ParseComparison();
          left := Binary(left, Ne, right);
        }
      }
      return Ok(left);
    }

    method ParseComparison() returns (r: Result<Expr, ParseError>)
      requires pos <= |source|
      modifies this
      ensures Agrees(Comparison(source, old(pos)), r, pos)
      decreases |source| - pos, 14
    {
      hide Additive, TypeName, Lexer.Match, Lexer.MatchKeyword;
      var left :- ParseAdditive();
      while true
        invariant pos <= |source|
        invariant ComparisonRest(source, left, pos) == Comparison(source, old(pos))
        decreases |source| - pos
      {
        var le := Match("<=");
        if le {
          var right :- ParseAdditive();
          left := Binary(left, Le, right);
          continue;
        }
        var ge := Match(">=");
        if ge {
          var right :- ParseAdditive();
          left := Binary(left, Ge, right);
          continue;
        }
        var lt := Match("<");
        if lt {
          var right :- ParseAdditive();
          left := Binary(left, Lt, right);
          continue;
        }
        var gt := Match(">");
        if gt {
          var right :- ParseAdditive();
          left := Binary(left, Gt, right);
          continue;
        }
        var io := MatchKeyword("instanceof");
        if !io {
          break;
        }
        var typeName :- ParseTypeName();
        left := InstanceOf(left, typeName);
      }
      return Ok(left);
    }

    method ParseAdditive() returns (r: Result<Expr, ParseError>)
      requires pos <= |source|
      modifies this
      ensures Agrees(Additive(source, old(pos)), r, pos)
      decreases |source| - pos, 12
    {
      var left :- ParseMultiplicative();
      while true
        invariant pos <= |source|
        invariant AdditiveRest(source, left, pos) == Additive(source, old(pos))
        decreases |source| - pos
      {
        var plus := Match("+");
        if plus {
          var right :- ParseMultiplicative();
          left := Binary(left, Add, right);
        } else {
          var minus := Match("-");
          if !minus {
            break;
          }
          var right :- ParseMultiplicative();
          left := Binary(left, Sub, right);
        }
      }
      return Ok(left);
    }

    method ParseMultiplicative() returns (r: Result<Expr, ParseError>)
      requires pos <= |source|
      modifies this
      ensures Agrees(Multiplicative(source, old(pos)), r, pos)
      decreases |source| - pos, 10
    {
      var left :- ParseUnary();
      while true
        invariant pos <= |source|
        invariant MultiplicativeRest(source, left, pos) == Multiplicative(source, old(pos))
        decreases |source| - pos
      {
        var times := Match("*");
        if times {
          var right :- ParseUnary();
          left := Binary(left, Mul, right);
          continue;
        }
        var div := Match("/");
        if div {
          var right :- ParseUnary();
          left := Binary(left, Div, right);
          continue;
        }
        var rem := Match("%");
        if !rem {
          break;
        }
        var right :- ParseUnary();
        left := Binary(left, Rem, right);
      }
      return Ok(left);
    }

    // ------------------------------------------------------------ unary, postfix, primary

    method ParseUnary() returns (r: Result<Expr, ParseError>)
      requires pos <= |source|
      modifies this
      ensures Agrees(Grammar.Unary(source, old(pos)), r, pos)
      decreases |source| - pos, 8
    {
      var not := Match("!");
      if not {
        var e :- ParseUnary();
        return Ok(Ast.Unary(Not, e));
      }
      var neg := Match("-");
      if neg {
        var e :- ParseUnary();
        return Ok(Ast.Unary(Neg, e));
      }
      var plus := Match("+");
      if plus {
        r := ParseUnary();
        return;
      }
      if Peek(source, pos) == '(' {
        var cast := LookAheadForCast();
        if cast {
          var open := Expect('(');
          match open {
            case Fail(e) => return Err(e);
            case Pass =>
          }
          var typeName :- ParseTypeName();
          :- Expect(')');
          var e :- ParseUnary();
          return Ok(Cast(typeName, e));
        }
      }
      r := ParsePostfix();
    }

    /** `lookAheadForCast()`: scans ahead and puts `pos` back where it was. */
    method LookAheadForCast() returns (b: bool)
      requires pos < |source|
      modifies this
      ensures pos == old(pos)
      ensures b == LooksLikeCast(source, pos)
    {
      var saved := pos;
      if source[pos] != '(' {
        return false;
      }
      pos := pos + 1;
      SkipWhitespace();
      if !IsIdentStart(Peek(source, pos)) {
        pos := saved;
        return false;
      }
      ghost var start := pos;
      while pos < |source|
        invariant start <= pos <= |source|
        invariant CastScan(source, pos) == CastScan(source, start)
        decreases |source| - pos
      {
        if IsIdentPart(source[pos]) || source[pos] == '.' {
          pos := pos + 1;
        } else if source[pos] == '[' {
          pos := pos + 1;
          if Peek(source, pos) == ']' {
            pos := pos + 1;
          }
        } else {
          break;
        }
      }
      SkipWhitespace();
      b := Peek(source, pos) == ')';
      pos := saved;
    }

    method ParsePostfix() returns (r: Result<Expr, ParseError>)
      requires pos <= |source|
      modifies this
      ensures Agrees(Postfix(source, old(pos)), r, pos)
      decreases |source| - pos, 7
    {
      var e :- ParsePrimary();
      while true
        invariant pos <= |source|
        invariant PostfixRest(source, e, pos) == Postfix(source, old(pos))
        decreases |source| - pos
      {
        ghost var before := pos;
        SkipWhitespace();
        var dot := Match(".");
        if dot {
          var name :- ParseIdentifier();
          if Peek(source, pos) == '(' {
            var args :- ParseArguments();
            e := MethodCall(Some(e), name, args);
          } else {
            e := FieldAccess(e, name);
          }
        } else {
          var bracket := Match("[");
          if !bracket {
            break;
          }
          var index :- ParseOr();
          :- Expect(']');
          e := ArrayAccess(e, index);
        }
      }
      return Ok(e);
    }

    method ParsePrimary() returns (r: Result<Expr, ParseError>)
      requires pos <= |source|
      modifies this
      ensures Agrees(Primary(source, old(pos)), r, pos)
      decreases |source| - pos, 5
    {
      SkipWhitespace();
      var paren := Match("(");
      if paren {
        var inner :- ParseOr();
        :- Expect(')');
        return Ok(inner);
      }
      var c := Peek(source, pos);
      if c == '"' {
        r := ParseStringLiteral();
      } else if c == '\'' {
        r := ParseCharLiteral();
      } else if StartsNumber(source, pos) {
        r := ParseNumberLiteral();
      } else if IsIdentStart(c) {
        var id := ParseIdentifier();
        var name;
        match id {
          case Err(e) => return Err(e);
          case Ok(n) => name := n;
        }
        var keyword := KeywordLiteral(name);
        if keyword.Some? {
          return Ok(keyword.value);
        } else if name == "new" {
          r := ParseNewExpression();
        } else if Peek(source, pos) == '(' {
          var args :- ParseArguments();
          return Ok(MethodCall(None, name, args));
        } else {
          return Ok(Variable(name));
        }
      } else {
        return Err(ParseException(ExpectedExpression, pos));
      }
    }

    method ParseNewExpression() returns (r: Result<Expr, ParseError>)
      requires pos <= |source|
      modifies this
      ensures Agrees(NewExpression(source, old(pos)), r, pos)
      decreases |source| - pos, 4
    {
      SkipWhitespace();
      var typeName :- ParseTypeName();
      if Peek(source, pos) == '[' {
        var open := Expect('[');
        match open {
          case Fail(e) => return Err(e);
          case Pass =>
        }
        var size :- ParseOr();
        :- Expect(']');
        return Ok(NewArray(typeName, size));
      } else {
        var args :- ParseArguments();
        return Ok(NewObject(typeName, args));
      }
    }

    method ParseArguments() returns (r: Result<seq<Expr>, ParseError>)
      requires pos <= |source|
      modifies this
      ensures Agrees(Arguments(source, old(pos)), r, pos)
      decreases |source| - pos, 3
    {
      var args: seq<Expr> := [];
      :- Expect('(');
      SkipWhitespace();
      ghost var q := pos;
      if Peek(source, pos) != ')' {
        var first :- ParseOr();
        ghost var afterFirst := pos;
        args := [first];
        while true
          invariant pos <= |source|
          invariant ArgumentsRest(source, args, pos) == ArgumentsRest(source, [first], afterFirst)
          decreases |source| - pos
        {
          var comma := Match(",");
          if !comma {
            break;
          }
          var next :- ParseOr();
          args := args + [next];
        }
      }
      :- Expect(')');
      return Ok(args);
    }

    // ------------------------------------------------------------ names and literals

    method ParseIdentifier() returns (r: Result<string, ParseError>)
      requires pos <= |source|
      modifies this
      ensures Agrees(Identifier(source, old(pos)), r, pos)
    {
      SkipWhitespace();
      var start := pos;
      if !IsIdentStart(Peek(source, pos)) {
        return Err(ParseException(ExpectedIdentifier, pos));
      }
      while pos < |source| && IsIdentPart(source[pos])
        invariant start <= pos <= |source|
        invariant IdentEnd(source, pos) == IdentEnd(source, start)
        decreases |source| - pos
      {
        pos := pos + 1;
      }
      return Ok(source[start..pos]);
    }

    method ParseTypeName() returns (r: Result<string, ParseError>)
      requires pos <= |source|
      modifies this
      ensures Agrees(TypeName(source, old(pos)), r, pos)
    {
      SkipWhitespace();
      var sb := ParseIdentifier();
      match sb {
        case Err(e) =>
          return Err(e);
        case Ok(first) =>
          var name := ParseQualifiedRest(first);
          r := ParseDims(name);
      }
    }

    /** The `while (peek() == '[')` loop of `parseTypeName()`. */
    method ParseDims(name: string) returns (r: Result<string, ParseError>)
      requires pos <= |source|
      modifies this
      ensures Agrees(DimsRest(source, name, old(pos)), r, pos)
    {
      hide DimsRest, SkipWs;
      var sb := name;
      while Peek(source, pos) == '['
        invariant pos <= |source|
        invariant DimsRest(source, sb, pos) == DimsRest(source, name, old(pos))
        decreases |source| - pos
      {
        ghost var open := pos;
        pos := pos + 1;
        SkipWhitespace();
        DimsRestStep(source, sb, open);
        if Peek(source, pos) == ']' {
          pos := pos + 1;
          sb := sb + "[]";
        } else {
          return Err(ParseException(ExpectedChar(']'), pos));
        }
      }
      DimsRestStop(source, sb, pos);
      return Ok(sb);
    }

    /** The `while (peek() == '.')` loop of `parseTypeName()`. */
    method ParseQualifiedRest(first: string) returns (name: string)
      requires pos <= |source|
      modifies this
      ensures QualifiedRest(source, first, old(pos)) == Step(name, pos)
    {
      hide QualifiedRest, Identifier, IdentEnd, SkipWs;
      name := first;
      while Peek(source, pos) == '.'
        invariant pos <= |source|
        invariant QualifiedRest(source, name, pos) == QualifiedRest(source, first, old(pos))
        decreases |source| - pos
      {
        var saved := pos;
        pos := pos + 1;
        SkipWhitespace();
        if IsIdentStart(Peek(source, pos)) {
          QualifiedRestStep(source, name, saved);
          var id := ParseIdentifier();
          match id {
            case Err(e) =>
              return;
            case Ok(n) =>
              name := name + "." + n;
          }
        } else {
          QualifiedRestStop(source, name, saved);
          pos := saved;
          break;
        }
      }
      QualifiedRestStop(source, name, pos);
    }

    method ParseStringLiteral() returns (r: Result<Expr, ParseError>)
      requires pos <= |source|
      modifies this
      ensures Agrees(StringLiteral(source, old(pos)), r, pos)
    {
      var sb := "";
      :- Expect('"');
      while pos < |source| && source[pos] != '"'
        invariant pos <= |source|
        invariant StringBody(source, sb, pos) == StringLiteral(source, old(pos))
        decreases |source| - pos
      {
        if source[pos] == '\\' {
          pos := pos + 1;
          if pos >= |source| {
            return Err(ParseException(UnterminatedString, pos));
          }
          var c := ParseEscapeSequence();
          match c {
            case Err(e) => return Err(e);
            case Ok(ch) => sb := sb + [ch];
          }
        } else {
          sb := sb + [source[pos]];
          pos := pos + 1;
        }
      }
      :- Expect('"');
      return Ok(Literal(LStr(sb)));
    }

    method ParseCharLiteral() returns (r: Result<Expr, ParseError>)
      requires pos <= |source|
      modifies this
      ensures Agrees(CharLiteral(source, old(pos)), r, pos)
    {
      var c: char;
      :- Expect('\'');
      if pos >= |source| {
        return Err(CharIndexOutOfBounds(pos));
      }
      if source[pos] == '\\' {
        pos := pos + 1;
        c :- ParseEscapeSequence();
      } else {
        c := source[pos];
        pos := pos + 1;
      }
      :- Expect('\'');
      return Ok(Literal(LChar(c)));
    }

    /** `parseEscapeSequence()`: reads one character, past the end an index error. */
    method ParseEscapeSequence() returns (r: Result<char, ParseError>)
      requires pos <= |source|
      modifies this
      ensures old(pos) < |source| ==> r == Ok(Escape(source[old(pos)])) && pos == old(pos) + 1
      ensures old(pos) == |source| ==> r == Err(CharIndexOutOfBounds(old(pos)))
    {
      if pos >= |source| {
        return Err(CharIndexOutOfBounds(pos));
      }
      var c := source[pos];
      pos := pos + 1;
      return Ok(Escape(c));
    }

    /** Advances over decimal digits. */
    method SkipDigits()
      requires pos <= |source|
      modifies this
      ensures pos == DigitsEnd(source, old(pos))
    {
      while pos < |source| && IsDigit(source[pos])
        invariant old(pos) <= pos <= |source|
        invariant DigitsEnd(source, pos) == DigitsEnd(source, old(pos))
        decreases |source| - pos
      {
        pos := pos + 1;
      }
    }

    /**
     * The scanning half of `parseNumberLiteral()`: integer digits, an optional fraction, an
     * optional exponent and an optional type suffix, and where the library parser's text ends.
     */
    method ScanNumberLiteral() returns (n: NumberScan)
      requires pos <= |source|
      modifies this
      ensures n == ScanNumber(source, old(pos)) && pos == n.end
    {
      hide ScanNumber, DigitsEnd, ExponentDigits;
      var start := pos;
      SkipDigits();
      var intEnd := pos;
      var isDouble := false;
      if pos < |source| && source[pos] == '.' {
        isDouble := true;
        pos := pos + 1;
        SkipDigits();
      }
      var fracEnd := pos;
      var hasExp, expDigits := ScanExponent();
      isDouble := isDouble || hasExp;
      var expEnd := pos;
      var isLong, isFloat, isD := ScanSuffix();
      isDouble := isDouble || isD;
      var cut := isLong || isFloat || (isDouble && source[pos - 1] == 'd');
      n := NumberScan(intEnd, fracEnd, expDigits, expEnd, hasExp, isDouble, isLong, isFloat, pos,
                      if cut then pos - 1 else pos);
      ScanNumberParts(source, start, n);
    }

    /** The exponent part: `e` or `E`, an optional sign, digits; also where the digits start. */
    method ScanExponent() returns (hasExp: bool, expDigits: nat)
      requires pos <= |source|
      modifies this
      ensures hasExp == ExponentMarker(source, old(pos))
      ensures expDigits == if hasExp then ExponentDigits(source, old(pos)) else old(pos)
      ensures pos == if hasExp then DigitsEnd(source, expDigits) else old(pos)
    {
      hasExp, expDigits := false, pos;
      if pos < |source| && (source[pos] == 'e' || source[pos] == 'E') {
        hasExp := true;
        pos := pos + 1;
        if pos < |source| && (source[pos] == '+' || source[pos] == '-') {
          pos := pos + 1;
        }
        expDigits := pos;
        SkipDigits();
      }
    }

    /** The type suffix: `L`/`l`, `F`/`f` or `D`/`d`, consumed when present. */
    method ScanSuffix() returns (isLong: bool, isFloat: bool, isD: bool)
      requires pos <= |source|
      modifies this
      ensures isLong <==> Peek(source, old(pos)) in {'L', 'l'}
      ensures isFloat <==> Peek(source, old(pos)) in {'F', 'f'}
      ensures isD <==> Peek(source, old(pos)) in {'D', 'd'}
      ensures pos == if isLong || isFloat || isD then old(pos) + 1 else old(pos)
    {
      isLong, isFloat, isD := false, false, false;
      if pos < |source| {
        var suffix := source[pos];
        if suffix == 'L' || suffix == 'l' {
          isLong := true;
          pos := pos + 1;
        } else if suffix == 'F' || suffix == 'f' {
          isFloat := true;
          pos := pos + 1;
        } else if suffix == 'D' || suffix == 'd' {
          isD := true;
          pos := pos + 1;
        }
      }
    }

    method ParseNumberLiteral() returns (r: Result<Expr, ParseError>)
      requires pos <= |source|
      modifies this
      ensures Agrees(Number(source, old(pos)), r, pos)
    {
      var start := pos;
      var n := ScanNumberLiteral();
      var text := source[start..n.textEnd];
      if n.isFloat || n.isDouble {
        if n.hasExp && n.expEnd == n.expDigits {
          return Err(NumberFormat(text));
        } else if n.isFloat {
          return Ok(Literal(LFloat(text)));
        } else {
          return Ok(Literal(LDouble(text)));
        }
      } else if text == [] {
        return Err(NumberFormat(text));
      } else if n.isLong {
        if Strs.DecimalValue(text) <= LongMax {
          return Ok(Literal(LLong(Strs.DecimalValue(text))));
        }
        return Err(NumberFormat(text));
      } else {
        if Strs.DecimalValue(text) <= IntMax {
          return Ok(Literal(LInt(Strs.DecimalValue(text))));
        }
        return Err(NumberFormat(text));
      }
    }

    // ------------------------------------------------------------ character level

    method SkipWhitespace()
      requires pos <= |source|
      modifies this
      ensures pos == SkipWs(source, old(pos))
    {
      while pos < |source| && IsWhitespace(source[pos])
        invariant old(pos) <= pos <= |source|
        invariant SkipWs(source, pos) == SkipWs(source, old(pos))
        decreases |source| - pos
      {
        pos := pos + 1;
      }
    }

    /** `match(op)`. */
    method Match(op: string) returns (ok: bool)
      requires pos <= |source|
      modifies this
      ensures ok == Lexer.Match(source, old(pos), op).ok
      ensures pos == Lexer.Match(source, old(pos), op).pos
    {
      SkipWhitespace();
      if pos + |op| <= |source| && source[pos..pos + |op|] == op {
        if |op| == 1 && pos + 1 < |source| {
          var next := source[pos + 1];
          if (op == "<" || op == ">" || op == "=" || op == "!") && next == '=' {
            return false;
          }
          if (op == "&" && next == '&') || (op == "|" && next == '|') {
            return false;
          }
        }
        pos := pos + |op|;
        return true;
      }
      return false;
    }

    /** `matchKeyword(keyword)`. */
    method MatchKeyword(keyword: string) returns (ok: bool)
      requires pos <= |source|
      modifies this
      ensures ok == Lexer.MatchKeyword(source, old(pos), keyword).ok
      ensures pos == Lexer.MatchKeyword(source, old(pos), keyword).pos
    {
      SkipWhitespace();
      if pos + |keyword| <= |source| && source[pos..pos + |keyword|] == keyword {
        var end := pos + |keyword|;
        if end >= |source| || !IsIdentPart(source[end]) {
          pos := end;
          return true;
        }
      }
      return false;
    }

    /** `expect(c)`. */
    method Expect(c: char) returns (r: Outcome<ParseError>)
      requires pos <= |source|
      modifies this
      ensures AgreesVoid(Lexer.Expect(source, old(pos), c), r, pos)
    {
      SkipWhitespace();
      if pos >= |source| || source[pos] != c {
        return Fail(ParseException(ExpectedChar(c), pos));
      }
      pos := pos + 1;
      return Pass;
    }
  }
}
