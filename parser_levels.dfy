/**
 * Operator precedence in general: for every chain of operands joined by binary operators and
 * `instanceof` tests, the parser builds the tree that precedence climbing builds, where `||`
 * binds loosest, then `&&`, `==` `!=`, the relational operators and `instanceof`, `+` `-`, and
 * `*` `/` `%` tightest, and every level nests to the left.
 */
module ParserLevels {
  import opened Wrappers
  import opened Ast
  import opened Lexer
  import opened Grammar
  import opened ParserProps
  import opened ParserCases
  import Strs

  // ---------------------------------------------------------------- chains of operators

  /** How tightly a binary operator binds: 0 for `||` up to 5 for `*` `/` `%`. */
  function Prec(op: BinOp): (n: nat)
    ensures n <= 5
  {
    match op
    case CondOr => 0
    case CondAnd => 1
    case Eq | Ne => 2
    case Le | Ge | Lt | Gt => 3
    case Add | Sub => 4
    case Mul | Div | Rem => 5
  }

  /** An operand of the chain: a variable name or a decimal int literal. */
  datatype Operand = Name(name: string) | Numeral(value: nat)

  predicate ValidOperand(o: Operand) {
    match o
    case Name(a) => IsVar(a)
    case Numeral(n) => n <= IntMax
  }

  function OperandText(o: Operand): string {
    match o
    case Name(a) => a
    case Numeral(n) => Strs.NatToString(n)
  }

  /** The tree an operand reads as on its own. */
  function OperandTree(o: Operand): Expr {
    match o
    case Name(a) => Variable(a)
    case Numeral(n) => Literal(LInt(n))
  }

  /** What follows an operand: a binary operator and the next operand, or an `instanceof` test of a dotted type name. */
  datatype Link = Bin(op: BinOp, operand: Operand) | InstOf(root: string, fields: seq<string>)

  /** `instanceof` binds as tightly as the relational operators. */
  function LinkPrec(l: Link): (n: nat)
    ensures n <= 5
  {
    match l
    case Bin(op, _) => Prec(op)
    case InstOf(_, _) => 3
  }

  /** A link in the text, set off by single blanks. */
  function LinkText(l: Link): string {
    match l
    case Bin(op, o) => " " + OpText(op) + " " + OperandText(o)
    case InstOf(root, fields) => " instanceof " + root + Dots(fields)
  }

  /** The character a link's operator starts with. */
  function Lead(l: Link): char {
    match l
    case Bin(op, _) => OpText(op)[0]
    case InstOf(_, _) => 'i'
  }

  predicate ValidLink(l: Link) {
    match l
    case Bin(_, o) => ValidOperand(o)
    case InstOf(root, fields) => IsName(root) && AllNames(fields)
  }

  /** After an `instanceof` test only an operator that binds no tighter may follow. */
  predicate FollowsTest(links: seq<Link>, j: nat)
    requires j < |links|
  {
    links[j].InstOf? && j + 1 < |links| ==> LinkPrec(links[j + 1]) <= 3
  }

  predicate Chained(links: seq<Link>) {
    forall j | 0 <= j < |links| :: FollowsTest(links, j)
  }

  predicate WellFormed(head: Operand, links: seq<Link>) {
    ValidOperand(head) && Chained(links) && forall j | 0 <= j < |links| :: ValidLink(links[j])
  }

  /** The chain's text: the head operand, then each link. */
  function Render(head: Operand, links: seq<Link>): string
    decreases |links|
  {
    if links == [] then OperandText(head)
    else Render(head, links[..|links| - 1]) + LinkText(links[|links| - 1])
  }

  // ---------------------------------------------------------------- precedence climbing

  /**
   * The reference reading: the expression of binding level `L` (0 for `||`, 6 for an operand)
   * that starts with `first` and continues with `links[j..]`, and the index of the first link
   * it leaves to a looser level.
   */
  function Climb(L: nat, first: Operand, links: seq<Link>, j: nat): (r: (Expr, nat))
    requires L <= 6 && j <= |links| && Chained(links)
    ensures j <= r.1 <= |links|
    ensures r.1 < |links| ==> LinkPrec(links[r.1]) < L
    decreases |links| - j, 6 - L, 1
  {
    if L == 6 then (OperandTree(first), j)
    else
      var (x, k) := Climb(L + 1, first, links, j);
      Loop(L, x, links, k)
  }

  /** The left-nesting loop of level `L`: each link of this level joins the tree built so far. */
  function Loop(L: nat, x: Expr, links: seq<Link>, j: nat): (r: (Expr, nat))
    requires L < 6 && j <= |links| && Chained(links)
    requires j < |links| ==> LinkPrec(links[j]) <= L
    ensures j <= r.1 <= |links|
    ensures r.1 < |links| ==> LinkPrec(links[r.1]) < L
    decreases |links| - j, 6 - L, 0
  {
    if j < |links| && LinkPrec(links[j]) == L then
      match links[j]
      case InstOf(root, fields) =>
        assert FollowsTest(links, j);
        Loop(L, InstanceOf(x, root + Dots(fields)), links, j + 1)
      case Bin(op, o) =>
        var (y, k) := Climb(L + 1, o, links, j + 1);
        Loop(L, Binary(x, op, y), links, k)
    else
      (x, j)
  }

  // ---------------------------------------------------------------- where each part of the chain sits

  /** The end of element `j` of the chain in its text: the head is element 0, link `i` is element `i + 1`. */
  function After(head: Operand, links: seq<Link>, j: nat): (n: nat)
    requires j <= |links|
    ensures n <= |Render(head, links)|
  {
    RenderPrefix(head, links, j);
    |Render(head, links[..j])|
  }

  lemma {:induction false} RenderPrefix(head: Operand, links: seq<Link>, j: nat)
    requires j <= |links|
    ensures |Render(head, links[..j])| <= |Render(head, links)|
    ensures Render(head, links)[..|Render(head, links[..j])|] == Render(head, links[..j])
    decreases |links|
  {
    if j < |links| {
      var init := links[..|links| - 1];
      assert init[..j] == links[..j];
      RenderPrefix(head, init, j);
    } else {
      assert links[..j] == links;
    }
  }

  lemma LinkSpan(s: string, head: Operand, links: seq<Link>, j: nat)
    requires s == Render(head, links) && j < |links|
    ensures After(head, links, j) + |LinkText(links[j])| == After(head, links, j + 1) <= |s|
    ensures s[After(head, links, j)..After(head, links, j + 1)] == LinkText(links[j])
  {
    RenderPrefix(head, links, j + 1);
    var pre := links[..j + 1];
    assert pre[..|pre| - 1] == links[..j];
    assert Render(head, pre) == Render(head, links[..j]) + LinkText(links[j]);
    var a := After(head, links, j);
    var b := After(head, links, j + 1);
    assert s[a..b] == s[..b][a..];
  }

  lemma HeadSpan(s: string, head: Operand, links: seq<Link>)
    requires s == Render(head, links)
    ensures After(head, links, 0) == |OperandText(head)| <= |s|
    ensures s[..After(head, links, 0)] == OperandText(head)
  {
    RenderPrefix(head, links, 0);
    assert links[..0] == [];
  }

  lemma EndSpan(s: string, head: Operand, links: seq<Link>)
    requires s == Render(head, links)
    ensures After(head, links, |links|) == |s|
  {
    assert links[..|links|] == links;
  }

  /** An operator's leading character is no blank and starts no suffix. */
  lemma LeadChar(l: Link)
    ensures !IsWhitespace(Lead(l)) && Lead(l) !in {'.', '['}
  {
  }

  /** An operand's text is not empty and starts with a character that is no blank. */
  lemma OperandStart(o: Operand)
    requires ValidOperand(o)
    ensures |OperandText(o)| > 0 && !IsWhitespace(OperandText(o)[0])
  {
    if o.Numeral? {
      assert IsDigit(OperandText(o)[0]);
    }
  }

  lemma SliceOfSlice(s: string, a: nat, b: nat, i: nat, j: nat)
    requires a <= b <= |s| && i <= j <= b - a
    ensures s[a..b][i..j] == s[a + i..a + j]
  {
    assert forall k | 0 <= k < j - i :: s[a..b][i..j][k] == s[a + i + k];
  }

  /** The parts of a binary link in the text. */
  lemma BinParts(s: string, a: nat, b: nat, op: BinOp, o: Operand)
    requires a <= b <= |s| && s[a..b] == LinkText(Bin(op, o))
    ensures var t := OpText(op);
      a + 2 + |t| + |OperandText(o)| == b &&
      s[a] == ' ' && s[a + 1..a + 1 + |t|] == t && s[a + 1 + |t|] == ' ' &&
      s[a + 2 + |t|..b] == OperandText(o)
  {
    var t := OpText(op);
    var w := LinkText(Bin(op, o));
    var u := OperandText(o);
    assert w == [' '] + t + [' '] + u;
    assert |w| == 2 + |t| + |u|;
    assert forall k | 0 <= k < |t| :: w[1 + k] == t[k];
    assert forall k | 0 <= k < |u| :: w[2 + |t| + k] == u[k];
    assert w[1..1 + |t|] == t;
    assert w[2 + |t|..] == u;
    assert s[a] == s[a..b][0];
    SliceOfSlice(s, a, b, 1, 1 + |t|);
    assert s[a + 1 + |t|] == s[a..b][1 + |t|];
    SliceOfSlice(s, a, b, 2 + |t|, b - a);
  }

  /** The parts of an `instanceof` link in the text. */
  lemma InstParts(s: string, a: nat, b: nat, root: string, fields: seq<string>)
    requires a <= b <= |s| && s[a..b] == LinkText(InstOf(root, fields))
    ensures a + 12 + |root + Dots(fields)| == b &&
      s[a] == ' ' && s[a + 1..a + 11] == "instanceof" && s[a + 11] == ' ' &&
      s[a + 12..b] == root + Dots(fields)
  {
    var w := LinkText(InstOf(root, fields));
    assert w == " instanceof " + (root + Dots(fields));
    assert w[1..11] == "instanceof" && w[12..] == root + Dots(fields);
    assert s[a] == s[a..b][0];
    SliceOfSlice(s, a, b, 1, 11);
    assert s[a + 11] == s[a..b][11];
    SliceOfSlice(s, a, b, 12, b - a);
  }

  /** What follows element `j`: the end of the text, or one blank and the next operator. */
  lemma Follow(s: string, head: Operand, links: seq<Link>, j: nat)
    requires s == Render(head, links) && j <= |links|
    ensures After(head, links, j) <= |s|
    ensures j == |links| ==> After(head, links, j) == |s| && SkipWs(s, After(head, links, j)) == |s|
    ensures j < |links| ==> var a := After(head, links, j);
      a + 1 < |s| && s[a] == ' ' && s[a + 1] == Lead(links[j]) && SkipWs(s, a) == a + 1
  {
    hide Render, After, SkipWs, OpText;
    if j == |links| {
      EndSpan(s, head, links);
    } else {
      LinkSpan(s, head, links, j);
      var a := After(head, links, j);
      var b := After(head, links, j + 1);
      match links[j] {
        case Bin(op, o) =>
          BinParts(s, a, b, op, o);
          assert s[a + 1] == s[a + 1..a + 1 + |OpText(op)|][0];
        case InstOf(root, fields) =>
          InstParts(s, a, b, root, fields);
          assert s[a + 1] == s[a + 1..a + 11][0];
      }
      LeadChar(links[j]);
      SkipOne(s, a);
    }
  }

  // ---------------------------------------------------------------- operands and type names

  /** A decimal numeral that fits an int, followed by the end or by a blank and a character that starts no suffix. */
  lemma NumeralOperand(s: string, k: nat, n: nat, e: nat)
    requires n <= IntMax && k <= e <= |s| && s[k..e] == Strs.NatToString(n)
    requires e == |s| || (e + 1 < |s| && s[e] == ' ' && !IsWhitespace(s[e + 1]) && s[e + 1] !in {'.', '['})
    ensures Grammar.Unary(s, k) == Ok(Step(Literal(LInt(n)), SkipWs(s, e)))
  {
    hide Primary, PostfixRest, Grammar.Unary, Postfix;
    var d := Strs.NatToString(n);
    forall i | k <= i < e
      ensures IsDigit(s[i])
    {
      assert s[i] == s[k..e][i - k] == d[i - k];
    }
    assert DigitsEnd(s, k) == e;
    assert FractionEnd(s, e) == e;
    assert !ExponentMarker(s, e);
    ScanNumberParts(s, k, NumberScan(e, e, e, e, false, false, false, false, e, e));
    Strs.DecimalOfNatToString(n);
    assert Number(s, k) == Ok(Step(Literal(LInt(n)), e));
    assert s[k] == d[0];
    PrimaryOfDigit(s, k);
    UnaryOfPostfix(s, k);
    PostfixRestStops(s, Literal(LInt(n)), e);
    PostfixOfPrimary(s, k, Literal(LInt(n)), e);
  }

  /** An operand in the text, followed by the end or by a blank and a character that starts no suffix. */
  lemma OperandAt(s: string, k: nat, o: Operand, e: nat)
    requires ValidOperand(o) && k <= e <= |s| && s[k..e] == OperandText(o)
    requires e == |s| || (e + 1 < |s| && s[e] == ' ' && !IsWhitespace(s[e + 1]) && s[e + 1] !in {'.', '['})
    ensures Grammar.Unary(s, k) == Ok(Step(OperandTree(o), SkipWs(s, e)))
  {
    match o
    case Name(a) =>
      if e == |s| {
        DelimitsAtEnd(s);
      } else {
        DelimitsBlank(s, e);
      }
      VarOperand(s, k, a, e);
    case Numeral(n) =>
      NumeralOperand(s, k, n, e);
  }

  lemma DotsCons(fields: seq<string>)
    requires fields != []
    ensures Dots(fields) == "." + fields[0] + Dots(fields[1..]) && Dots(fields)[0] == '.'
    ensures AllNames(fields) ==> IsName(fields[0]) && AllNames(fields[1..])
  {
  }

  /** The `.f1.f2...` qualifiers of a type name, up to a character that is neither a dot nor part of a name. */
  lemma {:induction false} QualifiedOfDots(s: string, acc: string, q: nat, fields: seq<string>, e: nat)
    requires AllNames(fields) && q <= e <= |s| && s[q..e] == Dots(fields)
    requires e == |s| || (s[e] != '.' && !IsIdentPart(s[e]))
    ensures QualifiedRest(s, acc, q) == Step(acc + Dots(fields), e)
    decreases |fields|
  {
    hide *;
    if fields == [] {
      DotsEmpty();
      assert q == e && acc + Dots(fields) == acc;
      PeekAt(s, q);
      QualifiedRestStop(s, acc, q);
    } else {
      var f := fields[0];
      var rest := fields[1..];
      var m := q + 1 + |f|;
      DotsCons(fields);
      assert s[q] == s[q..e][0] == '.';
      SliceOfSlice(s, q, e, 1, 1 + |f|);
      SliceOfSlice(s, q, e, 1 + |f|, e - q);
      assert s[q + 1..m] == f && s[m..e] == Dots(rest);
      if m < e {
        assert s[m] == s[m..e][0];
        if rest != [] {
          DotsCons(rest);
          Punct('.');
        } else {
          DotsEmpty();
        }
      } else {
        assert |Dots(rest)| == 0;
      }
      NameAt(s, q + 1, f);
      PeekAt(s, q);
      PeekAt(s, q + 1);
      assert IsIdentStart(f[0]);
      QualifiedRestStep(s, acc, q);
      QualifiedOfDots(s, acc + "." + f, m, rest, e);
      assert acc + "." + f + Dots(rest) == acc + Dots(fields);
    }
  }

  /** A dotted type name after blanks, followed by a character that continues it in no way. */
  lemma TypeNameOfDots(s: string, p: nat, root: string, fields: seq<string>, e: nat)
    requires IsName(root) && AllNames(fields) && p <= |s|
    requires SkipWs(s, p) <= e <= |s| && s[SkipWs(s, p)..e] == root + Dots(fields)
    requires e == |s| || (s[e] != '.' && s[e] != '[' && !IsIdentPart(s[e]))
    ensures TypeName(s, p) == Ok(Step(root + Dots(fields), e))
  {
    hide Identifier, QualifiedRest, DimsRest, Dots, AllNames, Span, IdentEnd;
    var k := SkipWs(s, p);
    var m := k + |root|;
    SliceOfSlice(s, k, e, 0, |root|);
    SliceOfSlice(s, k, e, |root|, e - k);
    assert s[k..m] == root && s[m..e] == Dots(fields);
    if m < e {
      assert s[m] == s[m..e][0];
      if fields != [] {
        DotsCons(fields);
        Punct('.');
      } else {
        DotsEmpty();
      }
    } else {
      assert |Dots(fields)| == 0;
    }
    SkipWsIdempotent(s, p);
    NameAt(s, k, root);
    QualifiedOfDots(s, root, m, fields, e);
    PeekAt(s, e);
    DimsRestStop(s, root + Dots(fields), e);
  }

  // ---------------------------------------------------------------- the grammar, level by level

  /** The parsing method of binding level `L`: `parseOr` at 0 down to `parseUnary` at 6. */
  function AtLevel(L: nat, s: string, p: nat): PResult<Expr>
    requires L <= 6 && p <= |s|
  {
    if L == 0 then Or(s, p)
    else if L == 1 then And(s, p)
    else if L == 2 then Equality(s, p)
    else if L == 3 then Comparison(s, p)
    else if L == 4 then Additive(s, p)
    else if L == 5 then Multiplicative(s, p)
    else Grammar.Unary(s, p)
  }

  /** The `while` loop of the parsing method of level `L`. */
  function RestAt(L: nat, s: string, left: Expr, p: nat): PResult<Expr>
    requires L < 6 && p <= |s|
  {
    if L == 0 then OrRest(s, left, p)
    else if L == 1 then AndRest(s, left, p)
    else if L == 2 then EqualityRest(s, left, p)
    else if L == 3 then ComparisonRest(s, left, p)
    else if L == 4 then AdditiveRest(s, left, p)
    else MultiplicativeRest(s, left, p)
  }

  /** Each level parses the next tighter level first, then runs its loop on what that gave. */
  lemma LevelOf(L: nat, s: string, p: nat, x: Expr, q: nat)
    requires L < 6 && p <= |s| && AtLevel(L + 1, s, p) == Ok(Step(x, q))
    ensures AtLevel(L, s, p) == RestAt(L, s, x, q)
  {
    hide Or, And, Equality, Comparison, Additive, Multiplicative, Grammar.Unary;
    hide OrRest, AndRest, EqualityRest, ComparisonRest, AdditiveRest, MultiplicativeRest;
    if L == 0 {
      OrOf(s, p, x, q);
    } else if L == 1 {
      AndOf(s, p, x, q);
    } else if L == 2 {
      EqualityOf(s, p, x, q);
    } else if L == 3 {
      ComparisonOf(s, p, x, q);
    } else if L == 4 {
      AdditiveOf(s, p, x, q);
    } else {
      MultiplicativeOf(s, p, x, q);
    }
  }

  /**
   * Where an operator's text stands after the blanks, followed by a blank, the matcher of an
   * operator of the same level matches exactly when it is that operator.
   */
  lemma MatchAtOp(s: string, p: nat, op: BinOp, u: BinOp)
    requires p <= |s| && Prec(u) == Prec(op)
    requires SkipWs(s, p) + |OpText(op)| < |s|
    requires s[SkipWs(s, p)..SkipWs(s, p) + |OpText(op)|] == OpText(op) && s[SkipWs(s, p) + |OpText(op)|] == ' '
    ensures Match(s, p, OpText(u)) ==
      if u == op then Scan(true, SkipWs(s, p) + |OpText(op)|) else Scan(false, SkipWs(s, p))
  {
    var k := SkipWs(s, p);
    var t := OpText(op);
    var v := OpText(u);
    assert s[k] == s[k..k + |t|][0] == t[0];
    assert s[k + 1] == if |t| == 2 then t[1] else ' ' by {
      if |t| == 2 {
        assert s[k + 1] == s[k..k + |t|][1];
      }
    }
    if |v| == 1 {
      assert s[k..k + 1] == [s[k]];
    } else if k + 2 <= |s| {
      assert s[k..k + 2] == [s[k], s[k + 1]];
    }
  }

  lemma OrStep(s: string, left: Expr, p: nat, op: BinOp, y: Expr, r: nat)
    requires Prec(op) == 0 && p <= |s|
    requires SkipWs(s, p) + |OpText(op)| < |s|
    requires s[SkipWs(s, p)..SkipWs(s, p) + |OpText(op)|] == OpText(op) && s[SkipWs(s, p) + |OpText(op)|] == ' '
    requires And(s, SkipWs(s, p) + |OpText(op)|) == Ok(Step(y, r))
    ensures OrRest(s, left, p) == OrRest(s, Binary(left, op, y), r)
  {
    hide And, Match, SkipWs;
    var k := SkipWs(s, p);
    SkipWsIdempotent(s, p);
    MatchAtOp(s, p, op, CondOr);
  }

  lemma AndStep(s: string, left: Expr, p: nat, op: BinOp, y: Expr, r: nat)
    requires Prec(op) == 1 && p <= |s|
    requires SkipWs(s, p) + |OpText(op)| < |s|
    requires s[SkipWs(s, p)..SkipWs(s, p) + |OpText(op)|] == OpText(op) && s[SkipWs(s, p) + |OpText(op)|] == ' '
    requires Equality(s, SkipWs(s, p) + |OpText(op)|) == Ok(Step(y, r))
    ensures AndRest(s, left, p) == AndRest(s, Binary(left, op, y), r)
  {
    hide Equality, Match, SkipWs;
    var k := SkipWs(s, p);
    SkipWsIdempotent(s, p);
    MatchAtOp(s, p, op, CondAnd);
  }

  lemma EqualityStep(s: string, left: Expr, p: nat, op: BinOp, y: Expr, r: nat)
    requires Prec(op) == 2 && p <= |s|
    requires SkipWs(s, p) + |OpText(op)| < |s|
    requires s[SkipWs(s, p)..SkipWs(s, p) + |OpText(op)|] == OpText(op) && s[SkipWs(s, p) + |OpText(op)|] == ' '
    requires Comparison(s, SkipWs(s, p) + |OpText(op)|) == Ok(Step(y, r))
    ensures EqualityRest(s, left, p) == EqualityRest(s, Binary(left, op, y), r)
  {
    hide Comparison, Match, SkipWs;
    var k := SkipWs(s, p);
    SkipWsIdempotent(s, p);
    MatchAtOp(s, p, op, Eq);
    MatchAtOp(s, k, op, Ne);
  }

  lemma LeStep(s: string, left: Expr, p: nat, op: BinOp, y: Expr, r: nat)
    requires op == Le
    requires p <= |s|
    requires SkipWs(s, p) + |OpText(op)| < |s|
    requires s[SkipWs(s, p)..SkipWs(s, p) + |OpText(op)|] == OpText(op) && s[SkipWs(s, p) + |OpText(op)|] == ' '
    requires Additive(s, SkipWs(s, p) + |OpText(op)|) == Ok(Step(y, r))
    ensures ComparisonRest(s, left, p) == ComparisonRest(s, Binary(left, op, y), r)
  {
    hide Additive, TypeName, MatchKeyword, Match, SkipWs;
    MatchAtOp(s, p, op, Le);
  }

  lemma GeStep(s: string, left: Expr, p: nat, op: BinOp, y: Expr, r: nat)
    requires op == Ge
    requires p <= |s|
    requires SkipWs(s, p) + |OpText(op)| < |s|
    requires s[SkipWs(s, p)..SkipWs(s, p) + |OpText(op)|] == OpText(op) && s[SkipWs(s, p) + |OpText(op)|] == ' '
    requires Additive(s, SkipWs(s, p) + |OpText(op)|) == Ok(Step(y, r))
    ensures ComparisonRest(s, left, p) == ComparisonRest(s, Binary(left, op, y), r)
  {
    hide Additive, TypeName, MatchKeyword, Match, SkipWs;
    var k := SkipWs(s, p);
    SkipWsIdempotent(s, p);
    MatchAtOp(s, p, op, Le);
    MatchAtOp(s, k, op, Ge);
  }

  lemma LtStep(s: string, left: Expr, p: nat, op: BinOp, y: Expr, r: nat)
    requires op == Lt
    requires p <= |s|
    requires SkipWs(s, p) + |OpText(op)| < |s|
    requires s[SkipWs(s, p)..SkipWs(s, p) + |OpText(op)|] == OpText(op) && s[SkipWs(s, p) + |OpText(op)|] == ' '
    requires Additive(s, SkipWs(s, p) + |OpText(op)|) == Ok(Step(y, r))
    ensures ComparisonRest(s, left, p) == ComparisonRest(s, Binary(left, op, y), r)
  {
    hide Additive, TypeName, MatchKeyword, Match, SkipWs;
    var k := SkipWs(s, p);
    SkipWsIdempotent(s, p);
    MatchAtOp(s, p, op, Le);
    MatchAtOp(s, k, op, Ge);
    MatchAtOp(s, k, op, Lt);
  }

  lemma GtStep(s: string, left: Expr, p: nat, op: BinOp, y: Expr, r: nat)
    requires op == Gt
    requires p <= |s|
    requires SkipWs(s, p) + |OpText(op)| < |s|
    requires s[SkipWs(s, p)..SkipWs(s, p) + |OpText(op)|] == OpText(op) && s[SkipWs(s, p) + |OpText(op)|] == ' '
    requires Additive(s, SkipWs(s, p) + |OpText(op)|) == Ok(Step(y, r))
    ensures ComparisonRest(s, left, p) == ComparisonRest(s, Binary(left, op, y), r)
  {
    hide Additive, TypeName, MatchKeyword, Match, SkipWs;
    var k := SkipWs(s, p);
    SkipWsIdempotent(s, p);
    MatchAtOp(s, p, op, Le);
    MatchAtOp(s, k, op, Ge);
    MatchAtOp(s, k, op, Lt);
    MatchAtOp(s, k, op, Gt);
  }

  lemma ComparisonStep(s: string, left: Expr, p: nat, op: BinOp, y: Expr, r: nat)
    requires Prec(op) == 3 && p <= |s|
    requires SkipWs(s, p) + |OpText(op)| < |s|
    requires s[SkipWs(s, p)..SkipWs(s, p) + |OpText(op)|] == OpText(op) && s[SkipWs(s, p) + |OpText(op)|] == ' '
    requires Additive(s, SkipWs(s, p) + |OpText(op)|) == Ok(Step(y, r))
    ensures ComparisonRest(s, left, p) == ComparisonRest(s, Binary(left, op, y), r)
  {
    hide ComparisonRest, Additive;
    if op == Le {
      LeStep(s, left, p, op, y, r);
    } else if op == Ge {
      GeStep(s, left, p, op, y, r);
    } else if op == Lt {
      LtStep(s, left, p, op, y, r);
    } else {
      GtStep(s, left, p, op, y, r);
    }
  }

  lemma AdditiveStep(s: string, left: Expr, p: nat, op: BinOp, y: Expr, r: nat)
    requires Prec(op) == 4 && p <= |s|
    requires SkipWs(s, p) + |OpText(op)| < |s|
    requires s[SkipWs(s, p)..SkipWs(s, p) + |OpText(op)|] == OpText(op) && s[SkipWs(s, p) + |OpText(op)|] == ' '
    requires Multiplicative(s, SkipWs(s, p) + |OpText(op)|) == Ok(Step(y, r))
    ensures AdditiveRest(s, left, p) == AdditiveRest(s, Binary(left, op, y), r)
  {
    hide Multiplicative, Match, SkipWs;
    var k := SkipWs(s, p);
    SkipWsIdempotent(s, p);
    MatchAtOp(s, p, op, Add);
    MatchAtOp(s, k, op, Sub);
  }

  lemma MultiplicativeStep(s: string, left: Expr, p: nat, op: BinOp, y: Expr, r: nat)
    requires Prec(op) == 5 && p <= |s|
    requires SkipWs(s, p) + |OpText(op)| < |s|
    requires s[SkipWs(s, p)..SkipWs(s, p) + |OpText(op)|] == OpText(op) && s[SkipWs(s, p) + |OpText(op)|] == ' '
    requires Grammar.Unary(s, SkipWs(s, p) + |OpText(op)|) == Ok(Step(y, r))
    ensures MultiplicativeRest(s, left, p) == MultiplicativeRest(s, Binary(left, op, y), r)
  {
    hide Grammar.Unary, Match, SkipWs;
    var k := SkipWs(s, p);
    SkipWsIdempotent(s, p);
    MatchAtOp(s, p, op, Mul);
    MatchAtOp(s, k, op, Div);
    MatchAtOp(s, k, op, Rem);
  }

  /**
   * One operator of level `L` before an operand: the loop of that level joins the tree so far and
   * the operand, and goes on after the operand.
   */
  lemma RestStep(L: nat, s: string, left: Expr, p: nat, op: BinOp, y: Expr, r: nat)
    requires L < 6 && Prec(op) == L && p <= |s|
    requires SkipWs(s, p) + |OpText(op)| < |s|
    requires s[SkipWs(s, p)..SkipWs(s, p) + |OpText(op)|] == OpText(op) && s[SkipWs(s, p) + |OpText(op)|] == ' '
    requires AtLevel(L + 1, s, SkipWs(s, p) + |OpText(op)|) == Ok(Step(y, r))
    ensures RestAt(L, s, left, p) == RestAt(L, s, Binary(left, op, y), r)
  {
    hide OrRest, AndRest, EqualityRest, ComparisonRest, AdditiveRest, MultiplicativeRest;
    hide Or, And, Equality, Comparison, Additive, Multiplicative, Grammar.Unary;
    if L == 0 {
      OrStep(s, left, p, op, y, r);
    } else if L == 1 {
      AndStep(s, left, p, op, y, r);
    } else if L == 2 {
      EqualityStep(s, left, p, op, y, r);
    } else if L == 3 {
      ComparisonStep(s, left, p, op, y, r);
    } else if L == 4 {
      AdditiveStep(s, left, p, op, y, r);
    } else {
      MultiplicativeStep(s, left, p, op, y, r);
    }
  }

  /** `instanceof` and a type name: the comparison loop tests the tree so far and goes on after the name. */
  lemma InstanceOfStep(s: string, left: Expr, p: nat, t: string, e: nat)
    requires p <= |s| && SkipWs(s, p) + 10 < |s|
    requires s[SkipWs(s, p)..SkipWs(s, p) + 10] == "instanceof" && s[SkipWs(s, p) + 10] == ' '
    requires SkipWs(s, p) + 10 <= e <= |s| && TypeName(s, SkipWs(s, p) + 10) == Ok(Step(t, e))
    ensures ComparisonRest(s, left, p) == ComparisonRest(s, InstanceOf(left, t), e)
  {
    hide Additive, TypeName;
    var k := SkipWs(s, p);
    SkipWsIdempotent(s, p);
    assert s[k] == s[k..k + 10][0] == 'i';
    MatchFails(s, p, "<=");
    MatchFails(s, k, ">=");
    MatchFails(s, k, "<");
    MatchFails(s, k, ">");
    Blank();
    assert MatchKeyword(s, k, "instanceof") == Scan(true, k + 10);
  }

  /** Before an operator of a looser level than `L` the loop of level `L` stops with the tree it has. */
  lemma RestStops(L: nat, s: string, left: Expr, p: nat, l: Link)
    requires L < 6 && p <= |s| && SkipWs(s, p) < |s| && s[SkipWs(s, p)] == Lead(l) && LinkPrec(l) < L
    ensures RestAt(L, s, left, p) == Ok(Step(left, SkipWs(s, p)))
  {
    hide OrRest, AndRest, EqualityRest, ComparisonRest, AdditiveRest, MultiplicativeRest;
    PeekAt(s, SkipWs(s, p));
    if L == 1 {
      AndRestStops(s, left, p);
    } else if L == 2 {
      EqualityRestStops(s, left, p);
    } else if L == 3 {
      ComparisonRestStops(s, left, p);
    } else if L == 4 {
      AdditiveRestStops(s, left, p);
    } else if L == 5 {
      MultiplicativeRestStops(s, left, p);
    }
  }

  /** At the end of the text every loop stops with the tree it has. */
  lemma RestEnds(L: nat, s: string, left: Expr, p: nat)
    requires L < 6 && p <= |s| && SkipWs(s, p) == |s|
    ensures RestAt(L, s, left, p) == Ok(Step(left, |s|))
  {
    hide OrRest, AndRest, EqualityRest, ComparisonRest, AdditiveRest, MultiplicativeRest;
    RestAtEnd(s, left, p);
  }

  // ---------------------------------------------------------------- the parser climbs as the reference does

  /** The operand that starts element `j`: the head, or the operand of the binary link before it. */
  predicate StartsWith(head: Operand, links: seq<Link>, j: nat, first: Operand)
    requires j <= |links|
  {
    if j == 0 then first == head else links[j - 1].Bin? && links[j - 1].operand == first
  }

  lemma WellFormedAt(head: Operand, links: seq<Link>, j: nat)
    requires WellFormed(head, links) && j < |links|
    ensures ValidLink(links[j]) && FollowsTest(links, j) && Chained(links) && ValidOperand(head)
    ensures links[j].Bin? ==> ValidOperand(links[j].operand)
    ensures links[j].InstOf? ==> IsName(links[j].root) && AllNames(links[j].fields)
  {
  }

  // The reference, one unfolding at a time.

  lemma ClimbOperand(first: Operand, links: seq<Link>, j: nat)
    requires j <= |links| && Chained(links)
    ensures Climb(6, first, links, j) == (OperandTree(first), j)
  {
  }

  lemma ClimbLevel(L: nat, first: Operand, links: seq<Link>, j: nat)
    requires L < 6 && j <= |links| && Chained(links)
    ensures var r := Climb(L + 1, first, links, j); Climb(L, first, links, j) == Loop(L, r.0, links, r.1)
  {
  }

  lemma LoopBin(L: nat, x: Expr, links: seq<Link>, j: nat)
    requires L < 6 && j < |links| && Chained(links) && LinkPrec(links[j]) == L && links[j].Bin?
    ensures var r := Climb(L + 1, links[j].operand, links, j + 1);
      Loop(L, x, links, j) == Loop(L, Binary(x, links[j].op, r.0), links, r.1)
  {
  }

  lemma LoopInst(L: nat, x: Expr, links: seq<Link>, j: nat)
    requires L < 6 && j < |links| && Chained(links) && LinkPrec(links[j]) == L && links[j].InstOf?
    requires FollowsTest(links, j)
    ensures Loop(L, x, links, j) == Loop(L, InstanceOf(x, links[j].root + Dots(links[j].fields)), links, j + 1)
  {
  }

  lemma LoopEnd(L: nat, x: Expr, links: seq<Link>, j: nat)
    requires L < 6 && j <= |links| && Chained(links) && (j == |links| || LinkPrec(links[j]) < L)
    ensures Loop(L, x, links, j) == (x, j)
  {
  }

  /** Element `j` ends with the text of its operand. */
  lemma OperandSpan(s: string, head: Operand, links: seq<Link>, j: nat, first: Operand)
    requires s == Render(head, links) && WellFormed(head, links) && j <= |links| && StartsWith(head, links, j, first)
    ensures ValidOperand(first)
    ensures |OperandText(first)| <= After(head, links, j) <= |s|
    ensures s[After(head, links, j) - |OperandText(first)|..After(head, links, j)] == OperandText(first)
  {
    hide Render, After, LinkText, OperandText, WellFormed, Chained, ValidLink, ValidOperand, OpText, Dots;
    if j == 0 {
      WellFormedChained(head, links);
      HeadSpan(s, head, links);
      assert s[..After(head, links, 0)] == s[0..After(head, links, 0)];
    } else {
      LinkSpan(s, head, links, j - 1);
      WellFormedAt(head, links, j - 1);
      BinParts(s, After(head, links, j - 1), After(head, links, j), links[j - 1].op, first);
    }
  }

  lemma WellFormedChained(head: Operand, links: seq<Link>)
    requires WellFormed(head, links)
    ensures Chained(links) && ValidOperand(head)
  {
  }

  lemma UnaryLevel(s: string, p: nat)
    requires p <= |s|
    ensures AtLevel(6, s, p) == Grammar.Unary(s, p)
  {
  }

  lemma StartsAfterBin(head: Operand, links: seq<Link>, j: nat)
    requires j < |links| && links[j].Bin?
    ensures StartsWith(head, links, j + 1, links[j].operand)
  {
  }

  lemma LinkPrecOf(l: Link)
    ensures LinkPrec(l) == if l.Bin? then Prec(l.op) else 3
  {
  }

  /**
   * Entered before the operand that starts element `j`, the parsing method of level `L` returns
   * the tree the reference builds, and stops after the blanks that follow the last element it took.
   */
  lemma {:induction false} ClimbCorr(s: string, head: Operand, links: seq<Link>, L: nat, first: Operand, j: nat, p: nat)
    requires s == Render(head, links) && WellFormed(head, links)
    requires L <= 6 && j <= |links| && StartsWith(head, links, j, first)
    requires |OperandText(first)| <= After(head, links, j)
    requires p <= |s| && SkipWs(s, p) == After(head, links, j) - |OperandText(first)|
    ensures var r := Climb(L, first, links, j);
      AtLevel(L, s, p) == Ok(Step(r.0, SkipWs(s, After(head, links, r.1))))
    decreases |links| - j, 6 - L, 1
  {
    hide *;
    WellFormedChained(head, links);
    if L == 6 {
      var a := After(head, links, j);
      OperandSpan(s, head, links, j, first);
      Follow(s, head, links, j);
      if j < |links| {
        LeadChar(links[j]);
      }
      OperandAt(s, SkipWs(s, p), first, a);
      UnaryFromBlank(s, p);
      UnaryLevel(s, p);
      ClimbOperand(first, links, j);
    } else {
      ClimbLevel(L, first, links, j);
      var r := Climb(L + 1, first, links, j);
      ClimbCorr(s, head, links, L + 1, first, j, p);
      var q := SkipWs(s, After(head, links, r.1));
      LevelOf(L, s, p, r.0, q);
      SkipWsIdempotent(s, After(head, links, r.1));
      LoopCorr(s, head, links, L, r.0, r.1, q);
    }
  }

  /**
   * Entered after element `j`, the loop of level `L` takes the links of level `L` as the
   * reference does and stops where the reference stops.
   */
  lemma {:induction false} LoopCorr(s: string, head: Operand, links: seq<Link>, L: nat, x: Expr, j: nat, p: nat)
    requires s == Render(head, links) && WellFormed(head, links)
    requires L < 6 && j <= |links| && (j < |links| ==> LinkPrec(links[j]) <= L)
    requires p <= |s| && SkipWs(s, p) == SkipWs(s, After(head, links, j))
    ensures var r := Loop(L, x, links, j);
      RestAt(L, s, x, p) == Ok(Step(r.0, SkipWs(s, After(head, links, r.1))))
    decreases |links| - j, 6 - L, 0
  {
    hide *;
    WellFormedChained(head, links);
    Follow(s, head, links, j);
    var a := After(head, links, j);
    if j < |links| && LinkPrec(links[j]) == L {
      LinkSpan(s, head, links, j);
      WellFormedAt(head, links, j);
      LinkPrecOf(links[j]);
      var b := After(head, links, j + 1);
      match links[j] {
        case Bin(op, o) =>
          LoopBin(L, x, links, j);
          StartsAfterBin(head, links, j);
          var t := OpText(op);
          BinParts(s, a, b, op, o);
          OperandStart(o);
          assert s[a + 2 + |t|] == s[a + 2 + |t|..b][0];
          Blank();
          SkipOne(s, a + 1 + |t|);
          ClimbCorr(s, head, links, L + 1, o, j + 1, a + 1 + |t|);
          var y := Climb(L + 1, o, links, j + 1);
          var r := SkipWs(s, After(head, links, y.1));
          RestStep(L, s, x, p, op, y.0, r);
          SkipWsIdempotent(s, After(head, links, y.1));
          LoopCorr(s, head, links, L, Binary(x, op, y.0), y.1, r);
        case InstOf(root, fields) =>
          LoopInst(L, x, links, j);
          var tn := root + Dots(fields);
          InstParts(s, a, b, root, fields);
          Follow(s, head, links, j + 1);
          Blank();
          Punct('.');
          Punct('[');
          assert s[a + 12] == s[a + 12..b][0];
          NameStart(root, fields);
          SkipOne(s, a + 11);
          TypeNameOfDots(s, a + 11, root, fields, b);
          InstanceOfStep(s, x, p, tn, b);
          LoopCorr(s, head, links, L, InstanceOf(x, tn), j + 1, b);
          ComparisonLevel(s, x, p);
          ComparisonLevel(s, InstanceOf(x, tn), b);
      }
    } else if j < |links| {
      LoopEnd(L, x, links, j);
      RestStops(L, s, x, p, links[j]);
    } else {
      LoopEnd(L, x, links, j);
      RestEnds(L, s, x, p);
    }
  }

  lemma NameStart(root: string, fields: seq<string>)
    requires IsName(root)
    ensures |root + Dots(fields)| > 0 && (root + Dots(fields))[0] == root[0] && !IsWhitespace(root[0])
  {
  }

  lemma ComparisonLevel(s: string, left: Expr, p: nat)
    requires p <= |s|
    ensures RestAt(3, s, left, p) == ComparisonRest(s, left, p)
  {
  }

  // ---------------------------------------------------------------- what the parser answers

  /** Every well-formed chain parses to the tree that precedence climbing builds from it. */
  lemma ParseChain(head: Operand, links: seq<Link>)
    requires WellFormed(head, links)
    ensures Parse(Render(head, links)) == Ok(Climb(0, head, links, 0).0)
  {
    var s := Render(head, links);
    WellFormedChained(head, links);
    HeadSpan(s, head, links);
    OperandStart(head);
    assert s[0] == s[..After(head, links, 0)][0];
    SkipNone(s, 0);
    ClimbCorr(s, head, links, 0, head, 0, 0);
    var r := Climb(0, head, links, 0);
    Follow(s, head, links, |links|);
    ParseOfOr(s, r.0);
  }

  // Computing the reference on short chains.

  /** Before a link of a looser level, or at the end, a level holds just the operand. */
  lemma {:induction false} ClimbStops(L: nat, first: Operand, links: seq<Link>, j: nat)
    requires L <= 6 && j <= |links| && Chained(links) && (j == |links| || LinkPrec(links[j]) < L)
    ensures Climb(L, first, links, j) == (OperandTree(first), j)
    decreases 6 - L
  {
    if L < 6 {
      ClimbStops(L + 1, first, links, j);
      ClimbLevel(L, first, links, j);
      LoopEnd(L, OperandTree(first), links, j);
    }
  }

  /** Levels that find no operator of their own pass the tree of a tighter level through. */
  lemma {:induction false} ClimbSkip(L: nat, M: nat, first: Operand, links: seq<Link>, j: nat)
    requires L <= M <= 6 && j <= |links| && Chained(links)
    requires Climb(M, first, links, j).1 == |links| || LinkPrec(links[Climb(M, first, links, j).1]) < L
    ensures Climb(L, first, links, j) == Climb(M, first, links, j)
    decreases M - L
  {
    if L < M {
      ClimbSkip(L + 1, M, first, links, j);
      ClimbLevel(L, first, links, j);
      var r := Climb(M, first, links, j);
      LoopEnd(L, r.0, links, r.1);
    }
  }

  /** A level that takes one binary link and then meets a looser one or the end. */
  lemma ClimbOne(L: nat, first: Operand, links: seq<Link>, j: nat)
    requires L < 6 && j < |links| && Chained(links) && links[j].Bin? && Prec(links[j].op) == L
    requires j + 1 == |links| || LinkPrec(links[j + 1]) < L
    ensures Climb(L, first, links, j) ==
      (Binary(OperandTree(first), links[j].op, OperandTree(links[j].operand)), j + 1)
  {
    ClimbStops(L + 1, first, links, j);
    ClimbStops(L + 1, links[j].operand, links, j + 1);
    ClimbLevel(L, first, links, j);
    LoopBin(L, OperandTree(first), links, j);
    LoopEnd(L, Binary(OperandTree(first), links[j].op, OperandTree(links[j].operand)), links, j + 1);
  }

  lemma RenderOne(head: Operand, l: Link)
    ensures Render(head, [l]) == OperandText(head) + LinkText(l)
  {
    assert [l][..0] == [];
  }

  lemma RenderTwo(head: Operand, l1: Link, l2: Link)
    ensures Render(head, [l1, l2]) == OperandText(head) + LinkText(l1) + LinkText(l2)
  {
    assert [l1, l2][..1] == [l1];
    RenderOne(head, l1);
  }

  /** `a op b` is the binary node of `op`, for every binary operator. */
  lemma BinaryOperator(a: string, op: BinOp, b: string)
    requires IsVar(a) && IsVar(b)
    ensures Parse(a + " " + OpText(op) + " " + b) == Ok(Binary(Variable(a), op, Variable(b)))
  {
    hide Parse, Climb, Loop;
    var links := [Bin(op, Name(b))];
    RenderOne(Name(a), links[0]);
    assert Render(Name(a), links) == a + " " + OpText(op) + " " + b;
    assert WellFormed(Name(a), links) by {
      assert FollowsTest(links, 0);
    }
    ParseChain(Name(a), links);
    ClimbOne(Prec(op), Name(a), links, 0);
    ClimbSkip(0, Prec(op), Name(a), links, 0);
  }

  /** The tree of `a op1 b op2 c` when `op2` binds less tightly than `op1`. */
  lemma LooserSecond(a: string, op1: BinOp, b: string, op2: BinOp, c: string)
    requires Prec(op2) < Prec(op1)
    ensures Chained([Bin(op1, Name(b)), Bin(op2, Name(c))])
    ensures Climb(0, Name(a), [Bin(op1, Name(b)), Bin(op2, Name(c))], 0).0 ==
      Binary(Binary(Variable(a), op1, Variable(b)), op2, Variable(c))
  {
    hide Climb, Loop;
    var links := [Bin(op1, Name(b)), Bin(op2, Name(c))];
    assert FollowsTest(links, 0) && FollowsTest(links, 1);
    var p1, p2 := Prec(op1), Prec(op2);
    var ab := Binary(Variable(a), op1, Variable(b));
    ClimbOne(p1, Name(a), links, 0);
    ClimbSkip(p2 + 1, p1, Name(a), links, 0);
    ClimbLevel(p2, Name(a), links, 0);
    LoopBin(p2, ab, links, 1);
    ClimbStops(p2 + 1, Name(c), links, 2);
    LoopEnd(p2, Binary(ab, op2, Variable(c)), links, 2);
    ClimbSkip(0, p2, Name(a), links, 0);
  }

  /** The tree of `a op1 b op2 c` when both operators are of one level. */
  lemma SameLevel(a: string, op1: BinOp, b: string, op2: BinOp, c: string)
    requires Prec(op2) == Prec(op1)
    ensures Chained([Bin(op1, Name(b)), Bin(op2, Name(c))])
    ensures Climb(0, Name(a), [Bin(op1, Name(b)), Bin(op2, Name(c))], 0).0 ==
      Binary(Binary(Variable(a), op1, Variable(b)), op2, Variable(c))
  {
    hide Climb, Loop;
    var links := [Bin(op1, Name(b)), Bin(op2, Name(c))];
    assert FollowsTest(links, 0) && FollowsTest(links, 1);
    var p1 := Prec(op1);
    var ab := Binary(Variable(a), op1, Variable(b));
    ClimbStops(p1 + 1, Name(a), links, 0);
    ClimbStops(p1 + 1, Name(b), links, 1);
    ClimbLevel(p1, Name(a), links, 0);
    LoopBin(p1, Variable(a), links, 0);
    LoopBin(p1, ab, links, 1);
    ClimbStops(p1 + 1, Name(c), links, 2);
    LoopEnd(p1, Binary(ab, op2, Variable(c)), links, 2);
    ClimbSkip(0, p1, Name(a), links, 0);
  }

  /** The tree of `a op1 b op2 c` when `op2` binds more tightly than `op1`. */
  lemma TighterSecond(a: string, op1: BinOp, b: string, op2: BinOp, c: string)
    requires Prec(op2) > Prec(op1)
    ensures Chained([Bin(op1, Name(b)), Bin(op2, Name(c))])
    ensures Climb(0, Name(a), [Bin(op1, Name(b)), Bin(op2, Name(c))], 0).0 ==
      Binary(Variable(a), op1, Binary(Variable(b), op2, Variable(c)))
  {
    hide Climb, Loop;
    var links := [Bin(op1, Name(b)), Bin(op2, Name(c))];
    assert FollowsTest(links, 0) && FollowsTest(links, 1);
    var p1, p2 := Prec(op1), Prec(op2);
    var bc := Binary(Variable(b), op2, Variable(c));
    ClimbOne(p2, Name(b), links, 1);
    ClimbSkip(p1 + 1, p2, Name(b), links, 1);
    ClimbStops(p1 + 1, Name(a), links, 0);
    ClimbLevel(p1, Name(a), links, 0);
    LoopBin(p1, Variable(a), links, 0);
    LoopEnd(p1, Binary(Variable(a), op1, bc), links, 2);
    ClimbSkip(0, p1, Name(a), links, 0);
  }

  /**
   * `a op1 b op2 c` nests the operator that binds tighter inside the other; between operators of
   * the same level it nests to the left.
   */
  lemma TwoOperators(a: string, op1: BinOp, b: string, op2: BinOp, c: string)
    requires IsVar(a) && IsVar(b) && IsVar(c)
    ensures Parse(a + " " + OpText(op1) + " " + b + " " + OpText(op2) + " " + c) ==
      if Prec(op2) <= Prec(op1) then Ok(Binary(Binary(Variable(a), op1, Variable(b)), op2, Variable(c)))
      else Ok(Binary(Variable(a), op1, Binary(Variable(b), op2, Variable(c))))
  {
    hide Parse, Climb, Loop, Render;
    var links := [Bin(op1, Name(b)), Bin(op2, Name(c))];
    RenderTwo(Name(a), links[0], links[1]);
    assert Render(Name(a), links) == a + " " + OpText(op1) + " " + b + " " + OpText(op2) + " " + c;
    assert WellFormed(Name(a), links) by {
      assert FollowsTest(links, 0) && FollowsTest(links, 1);
    }
    ParseChain(Name(a), links);
    if Prec(op2) < Prec(op1) {
      LooserSecond(a, op1, b, op2, c);
    } else if Prec(op2) == Prec(op1) {
      SameLevel(a, op1, b, op2, c);
    } else {
      TighterSecond(a, op1, b, op2, c);
    }
  }

  lemma RenderSnoc(head: Operand, links: seq<Link>, l: Link)
    ensures Render(head, links + [l]) == Render(head, links) + LinkText(l)
  {
    assert (links + [l])[..|links|] == links;
  }

  /** The chain of `a > m && b < n || c == k`. */
  function ConditionChain(m: nat, b: string, n: nat, c: string, k: nat): seq<Link>
  {
    [Bin(Gt, Numeral(m)), Bin(CondAnd, Name(b)), Bin(Lt, Numeral(n)), Bin(CondOr, Name(c)), Bin(Eq, Numeral(k))]
  }

  lemma ConditionText(a: string, m: nat, b: string, n: nat, c: string, k: nat)
    ensures Render(Name(a), ConditionChain(m, b, n, c, k)) == a + " > " + Strs.NatToString(m) + " && " + b +
      " < " + Strs.NatToString(n) + " || " + c + " == " + Strs.NatToString(k)
  {
    hide Render;
    var links := ConditionChain(m, b, n, c, k);
    var l0, l1, l2, l3, l4 := links[0], links[1], links[2], links[3], links[4];
    var h := Name(a);
    var t1 := a + " > " + Strs.NatToString(m);
    var t2 := t1 + " && " + b;
    var t3 := t2 + " < " + Strs.NatToString(n);
    var t4 := t3 + " || " + c;
    RenderOne(h, l0);
    assert Render(h, [l0]) == t1;
    RenderSnoc(h, [l0], l1);
    assert [l0] + [l1] == [l0, l1];
    assert Render(h, [l0, l1]) == t2;
    RenderSnoc(h, [l0, l1], l2);
    assert [l0, l1] + [l2] == [l0, l1, l2];
    assert Render(h, [l0, l1, l2]) == t3;
    RenderSnoc(h, [l0, l1, l2], l3);
    assert [l0, l1, l2] + [l3] == [l0, l1, l2, l3];
    assert Render(h, [l0, l1, l2, l3]) == t4;
    RenderSnoc(h, [l0, l1, l2, l3], l4);
    assert [l0, l1, l2, l3] + [l4] == links;
  }

  lemma ConditionTree(a: string, m: nat, b: string, n: nat, c: string, k: nat)
    ensures Chained(ConditionChain(m, b, n, c, k))
    ensures Climb(0, Name(a), ConditionChain(m, b, n, c, k), 0).0 ==
      Binary(
        Binary(Binary(Variable(a), Gt, Literal(LInt(m))), CondAnd, Binary(Variable(b), Lt, Literal(LInt(n)))),
        CondOr,
        Binary(Variable(c), Eq, Literal(LInt(k))))
  {
    hide Climb, Loop;
    var links := ConditionChain(m, b, n, c, k);
    assert Chained(links) by {
      forall j | 0 <= j < |links|
        ensures FollowsTest(links, j)
      {
      }
    }
    var h := Name(a);
    var ga := Binary(Variable(a), Gt, Literal(LInt(m)));
    var lb := Binary(Variable(b), Lt, Literal(LInt(n)));
    var ec := Binary(Variable(c), Eq, Literal(LInt(k)));
    ClimbOne(3, h, links, 0);
    ClimbSkip(2, 3, h, links, 0);
    ClimbOne(3, Name(b), links, 2);
    ClimbSkip(2, 3, Name(b), links, 2);
    ClimbLevel(1, h, links, 0);
    LoopBin(1, ga, links, 1);
    LoopEnd(1, Binary(ga, CondAnd, lb), links, 3);
    ClimbOne(2, Name(c), links, 4);
    ClimbSkip(1, 2, Name(c), links, 4);
    ClimbLevel(0, h, links, 0);
    LoopBin(0, Binary(ga, CondAnd, lb), links, 3);
    LoopEnd(0, Binary(Binary(ga, CondAnd, lb), CondOr, ec), links, 5);
  }

  /**
   * `a > m && b < n || c == k` is the `||` of the `&&` of the two comparisons and the equality,
   * for all variables and int numerals.
   */
  lemma ConditionalExpression(a: string, m: nat, b: string, n: nat, c: string, k: nat)
    requires IsVar(a) && IsVar(b) && IsVar(c) && m <= IntMax && n <= IntMax && k <= IntMax
    ensures Parse(a + " > " + Strs.NatToString(m) + " && " + b + " < " + Strs.NatToString(n) +
        " || " + c + " == " + Strs.NatToString(k)) ==
      Ok(Binary(
        Binary(Binary(Variable(a), Gt, Literal(LInt(m))), CondAnd, Binary(Variable(b), Lt, Literal(LInt(n)))),
        CondOr,
        Binary(Variable(c), Eq, Literal(LInt(k)))))
  {
    hide Parse, Climb, Loop, Render;
    var links := ConditionChain(m, b, n, c, k);
    ConditionText(a, m, b, n, c, k);
    ConditionTree(a, m, b, n, c, k);
    assert WellFormed(Name(a), links) by {
      forall j | 0 <= j < |links|
        ensures ValidLink(links[j])
      {
      }
    }
    ParseChain(Name(a), links);
  }

  /** `a instanceof T` tests the variable against the dotted type name. */
  lemma InstanceOfTest(a: string, root: string, fields: seq<string>)
    requires IsVar(a) && IsName(root) && AllNames(fields)
    ensures Parse(a + " instanceof " + root + Dots(fields)) == Ok(InstanceOf(Variable(a), root + Dots(fields)))
  {
    hide Parse, Climb, Loop, Render;
    var l := InstOf(root, fields);
    var links := [l];
    var h := Name(a);
    RenderOne(h, l);
    assert Render(h, links) == a + " instanceof " + root + Dots(fields);
    assert WellFormed(h, links) by {
      assert FollowsTest(links, 0) && ValidLink(links[0]);
    }
    ParseChain(h, links);
    ClimbStops(4, h, links, 0);
    ClimbLevel(3, h, links, 0);
    assert FollowsTest(links, 0);
    LoopInst(3, Variable(a), links, 0);
    LoopEnd(3, InstanceOf(Variable(a), root + Dots(fields)), links, 1);
    ClimbSkip(0, 3, h, links, 0);
  }

  /** The chain of `a instanceof T && b > n`. */
  function TestChain(root: string, fields: seq<string>, b: string, n: nat): seq<Link>
  {
    [InstOf(root, fields), Bin(CondAnd, Name(b)), Bin(Gt, Numeral(n))]
  }

  lemma TestText(a: string, root: string, fields: seq<string>, b: string, n: nat)
    ensures Render(Name(a), TestChain(root, fields, b, n)) ==
      a + " instanceof " + root + Dots(fields) + " && " + b + " > " + Strs.NatToString(n)
  {
    hide Render;
    var links := TestChain(root, fields, b, n);
    var l0, l1, l2 := links[0], links[1], links[2];
    var h := Name(a);
    var t1 := a + " instanceof " + root + Dots(fields);
    var t2 := t1 + " && " + b;
    RenderOne(h, l0);
    assert Render(h, [l0]) == t1;
    RenderSnoc(h, [l0], l1);
    assert [l0] + [l1] == [l0, l1];
    assert Render(h, [l0, l1]) == t2;
    RenderSnoc(h, [l0, l1], l2);
    assert [l0, l1] + [l2] == links;
  }

  lemma TestTree(a: string, root: string, fields: seq<string>, b: string, n: nat)
    ensures Chained(TestChain(root, fields, b, n))
    ensures Climb(0, Name(a), TestChain(root, fields, b, n), 0).0 ==
      Binary(InstanceOf(Variable(a), root + Dots(fields)), CondAnd, Binary(Variable(b), Gt, Literal(LInt(n))))
  {
    hide Climb, Loop;
    var links := TestChain(root, fields, b, n);
    assert Chained(links) by {
      forall j | 0 <= j < |links|
        ensures FollowsTest(links, j)
      {
      }
    }
    var h := Name(a);
    var test := InstanceOf(Variable(a), root + Dots(fields));
    ClimbStops(4, h, links, 0);
    ClimbLevel(3, h, links, 0);
    assert FollowsTest(links, 0);
    LoopInst(3, Variable(a), links, 0);
    LoopEnd(3, test, links, 1);
    ClimbSkip(2, 3, h, links, 0);
    ClimbLevel(1, h, links, 0);
    ClimbOne(3, Name(b), links, 2);
    ClimbSkip(2, 3, Name(b), links, 2);
    LoopBin(1, test, links, 1);
    LoopEnd(1, Binary(test, CondAnd, Binary(Variable(b), Gt, Literal(LInt(n)))), links, 3);
    ClimbSkip(0, 1, h, links, 0);
  }

  /** `a instanceof T && b > n`: the test binds tighter than `&&`, as a comparison does. */
  lemma InstanceOfInCondition(a: string, root: string, fields: seq<string>, b: string, n: nat)
    requires IsVar(a) && IsName(root) && AllNames(fields) && IsVar(b) && n <= IntMax
    ensures Parse(a + " instanceof " + root + Dots(fields) + " && " + b + " > " + Strs.NatToString(n)) ==
      Ok(Binary(InstanceOf(Variable(a), root + Dots(fields)), CondAnd, Binary(Variable(b), Gt, Literal(LInt(n)))))
  {
    hide Parse, Climb, Loop, Render;
    var links := TestChain(root, fields, b, n);
    TestText(a, root, fields, b, n);
    TestTree(a, root, fields, b, n);
    assert WellFormed(Name(a), links) by {
      forall j | 0 <= j < |links|
        ensures ValidLink(links[j])
      {
      }
    }
    ParseChain(Name(a), links);
  }
}
