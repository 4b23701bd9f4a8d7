/**
 * Chains of postfix suffixes: member accesses `.f`, calls without arguments `.m()` and
 * indexing by a variable `[i]`, in any order and number, as the loop of `parsePostfix` reads
 * them one after the other, innermost first.
 */
module ParserChains {
  import opened Wrappers
  import opened Ast
  import opened Lexer
  import opened Grammar
  import opened ParserProps
  import opened ParserCases

  datatype Suffix = Member(name: string) | Call(name: string) | Index(name: string)

  /** How a suffix is written. */
  function SuffixText(x: Suffix): string {
    match x
    case Member(f) => "." + f
    case Call(m) => "." + m + "()"
    case Index(i) => "[" + i + "]"
  }

  function ChainText(xs: seq<Suffix>): string {
    if xs == [] then "" else SuffixText(xs[0]) + ChainText(xs[1..])
  }

  /** The tree one suffix builds around the expression before it. */
  function Applied(e: Expr, x: Suffix): Expr {
    match x
    case Member(f) => FieldAccess(e, f)
    case Call(m) => MethodCall(Some(e), m, [])
    case Index(i) => ArrayAccess(e, Variable(i))
  }

  /** The suffixes applied from the front: the first one innermost. */
  function Chain(e: Expr, xs: seq<Suffix>): Expr
    decreases |xs|
  {
    if xs == [] then e else Chain(Applied(e, xs[0]), xs[1..])
  }

  predicate WellNamed(x: Suffix) {
    match x
    case Member(f) => IsName(f)
    case Call(m) => IsName(m)
    case Index(i) => IsVar(i)
  }

  predicate AllWellNamed(xs: seq<Suffix>) {
    forall k | 0 <= k < |xs| :: WellNamed(xs[k])
  }

  /** A chain starts with `.` or `[`, or is empty. */
  lemma ChainTextStart(xs: seq<Suffix>)
    ensures ChainText(xs) == [] || ChainText(xs)[0] in {'.', '['}
  {
    if xs != [] {
      var t := SuffixText(xs[0]);
      assert ChainText(xs)[0] == t[0];
    }
  }

  // ---------------------------------------------------------------- one suffix at a time

  /** `.f` before `.`, `[` or the end: a field access. */
  lemma MemberAt(s: string, e: Expr, p: nat, f: string, q: nat)
    requires IsName(f) && q == p + 1 + |f| && q <= |s| && s[p] == '.' && s[p + 1..q] == f
    requires q == |s| || s[q] in {'.', '['}
    ensures PostfixRest(s, e, p) == PostfixRest(s, FieldAccess(e, f), q)
  {
    Punct('.');
    Punct('[');
    SkipNone(s, p);
    assert s[p..p + 1] == ".";
    assert Match(s, p, ".") == Scan(true, p + 1);
    NameAt(s, p + 1, f);
    PeekAt(s, q);
    assert FieldAt(s, p, f);
    PostfixRestField(s, e, p, f);
  }

  /** `()` at `q`: an empty argument list. */
  lemma EmptyArguments(s: string, q: nat)
    requires q + 1 < |s| && s[q] == '(' && s[q + 1] == ')'
    ensures Arguments(s, q) == Ok(Step([], q + 2))
  {
    hide Or, ArgumentsRest;
    Punct('(');
    Punct(')');
    SkipNone(s, q);
    SkipNone(s, q + 1);
  }

  /** `.m()`: a call on the expression before it, with no arguments. */
  lemma CallAt(s: string, e: Expr, p: nat, m: string, q: nat)
    requires IsName(m) && q == p + 1 + |m| && q + 1 < |s| && s[p] == '.' && s[p + 1..q] == m
    requires s[q] == '(' && s[q + 1] == ')'
    ensures PostfixRest(s, e, p) == PostfixRest(s, MethodCall(Some(e), m, []), q + 2)
  {
    hide Identifier, Arguments, Or, Expect, SkipWs, Match, Peek;
    Punct('.');
    Punct('(');
    SkipNone(s, p);
    NameAt(s, p + 1, m);
    EmptyArguments(s, q);
    PeekAt(s, q);
    assert s[p..p + 1] == ".";
  }

  /** `[i]` with a variable `i`: indexing by it. */
  lemma IndexAt(s: string, e: Expr, p: nat, i: string, q: nat)
    requires IsVar(i) && q == p + 1 + |i| && q < |s| && s[p] == '[' && s[p + 1..q] == i && s[q] == ']'
    ensures PostfixRest(s, e, p) == PostfixRest(s, ArrayAccess(e, Variable(i)), q + 1)
  {
    hide Identifier, Arguments, Or, Expect, SkipWs, Match, Peek, Grammar.Unary, Additive, IsVar, Delimits,
      Primary, Postfix, Multiplicative, Comparison, Equality, And, OrRest, AndRest, EqualityRest, ComparisonRest, AdditiveRest, MultiplicativeRest;
    var vi := Variable(i);
    Punct('[');
    Punct(']');
    SkipNone(s, p);
    SkipNone(s, q);
    DelimitsCloser(s, q);
    PeekAt(s, q);
    VarOperand(s, p + 1, i, q);
    AdditiveOfUnary(s, p + 1, vi, q);
    OrOfAdditive(s, p + 1, vi, q);
    assert s[p..p + 1] == "[";
  }

  /** A chain, one suffix off its front. */
  lemma ChainUnfold(e: Expr, xs: seq<Suffix>)
    ensures xs == [] ==> ChainText(xs) == [] && Chain(e, xs) == e
    ensures xs != [] ==> ChainText(xs) == SuffixText(xs[0]) + ChainText(xs[1..])
    ensures xs != [] ==> Chain(e, xs) == Chain(Applied(e, xs[0]), xs[1..])
    ensures xs != [] && AllWellNamed(xs) ==> WellNamed(xs[0]) && AllWellNamed(xs[1..])
  {
    if xs != [] && AllWellNamed(xs) {
      forall k | 0 <= k < |xs| - 1 ensures WellNamed(xs[1..][k]) { assert xs[1..][k] == xs[k + 1]; }
    }
  }

  /** The text after position `p` split into its first `w` characters and the rest. */
  lemma SplitAt(s: string, p: nat, t: string, u: string)
    requires p <= |s| && s[p..] == t + u
    ensures p + |t| <= |s| && s[p..p + |t|] == t && s[p + |t|..] == u
    ensures forall k | 0 <= k < |t| :: s[p + k] == t[k]
  {
    assert |s[p..]| == |t| + |u|;
    assert s[p..p + |t|] == s[p..][..|t|];
    assert s[p + |t|..] == s[p..][|t|..];
    forall k | 0 <= k < |t| ensures s[p + k] == t[k] {
      assert s[p + k] == s[p..][k];
    }
  }

  /** After a suffix comes `.`, `[` or the end of the text. */
  lemma NextSuffix(s: string, q: nat, rest: seq<Suffix>)
    requires q <= |s| && s[q..] == ChainText(rest)
    ensures q == |s| || s[q] in {'.', '['}
  {
    ChainTextStart(rest);
    if q < |s| {
      assert s[q] == s[q..][0];
    }
  }

  lemma MemberText(s: string, p: nat, f: string, q: nat)
    requires q == p + 1 + |f| && q <= |s| && s[p..q] == "." + f
    ensures s[p] == '.' && s[p + 1..q] == f
  {
    assert s[p] == s[p..q][0];
    assert s[p + 1..q] == s[p..q][1..];
  }

  lemma CallText(s: string, p: nat, m: string, q: nat)
    requires q == p + 1 + |m| && q + 2 <= |s| && s[p..q + 2] == "." + m + "()"
    ensures s[p] == '.' && s[p + 1..q] == m && s[q] == '(' && s[q + 1] == ')'
  {
    var t := s[p..q + 2];
    assert s[p] == t[0];
    assert s[q] == t[1 + |m|] && s[q + 1] == t[2 + |m|];
    assert s[p + 1..q] == m by {
      forall k | 0 <= k < |m| ensures s[p + 1..q][k] == m[k] {
        assert s[p + 1 + k] == t[1 + k];
        assert t == ("." + m) + "()";
      }
    }
  }

  lemma IndexText(s: string, p: nat, i: string, q: nat)
    requires q == p + 1 + |i| && q + 1 <= |s| && s[p..q + 1] == "[" + i + "]"
    ensures s[p] == '[' && s[p + 1..q] == i && s[q] == ']'
  {
    var t := s[p..q + 1];
    assert s[p] == t[0];
    assert s[q] == t[1 + |i|];
    assert s[p + 1..q] == i by {
      forall k | 0 <= k < |i| ensures s[p + 1..q][k] == i[k] {
        assert s[p + 1 + k] == t[1 + k];
        assert t == ("[" + i) + "]";
      }
    }
  }

  /** What each kind of suffix is: its text, its tree, and what its name must be. */
  lemma SuffixOf(e: Expr, x: Suffix)
    ensures x.Member? ==>
      SuffixText(x) == "." + x.name && Applied(e, x) == FieldAccess(e, x.name) && (WellNamed(x) <==> IsName(x.name))
    ensures x.Call? ==>
      SuffixText(x) == "." + x.name + "()" && Applied(e, x) == MethodCall(Some(e), x.name, []) &&
      (WellNamed(x) <==> IsName(x.name))
    ensures x.Index? ==>
      SuffixText(x) == "[" + x.name + "]" && Applied(e, x) == ArrayAccess(e, Variable(x.name)) &&
      (WellNamed(x) <==> IsVar(x.name))
  {
  }

  /** One suffix at the front of the rest of the text, and what the loop makes of it. */
  lemma SuffixAt(s: string, e: Expr, p: nat, x: Suffix, rest: seq<Suffix>)
    requires WellNamed(x) && p <= |s| && s[p..] == SuffixText(x) + ChainText(rest)
    ensures p + |SuffixText(x)| <= |s| && s[p + |SuffixText(x)|..] == ChainText(rest)
    ensures PostfixRest(s, e, p) == PostfixRest(s, Applied(e, x), p + |SuffixText(x)|)
  {
    hide *;
    SuffixOf(e, x);
    SplitAt(s, p, SuffixText(x), ChainText(rest));
    NextSuffix(s, p + |SuffixText(x)|, rest);
    match x
    case Member(f) =>
      MemberText(s, p, f, p + 1 + |f|);
      MemberAt(s, e, p, f, p + 1 + |f|);
    case Call(m) =>
      CallText(s, p, m, p + 1 + |m|);
      CallAt(s, e, p, m, p + 1 + |m|);
    case Index(i) =>
      IndexText(s, p, i, p + 1 + |i|);
      IndexAt(s, e, p, i, p + 1 + |i|);
  }

  /** The loop of `parsePostfix` reads the whole chain, up to the end of the text. */
  lemma {:induction false} PostfixOfChain(s: string, e: Expr, xs: seq<Suffix>, p: nat)
    requires AllWellNamed(xs) && p <= |s| && s[p..] == ChainText(xs)
    ensures PostfixRest(s, e, p) == Ok(Step(Chain(e, xs), |s|))
    decreases |xs|
  {
    hide *;
    ChainUnfold(e, xs);
    if xs == [] {
      assert |s[p..]| == 0;
      RestAtEnd(s, e, p);
    } else {
      var x, rest := xs[0], xs[1..];
      SuffixAt(s, e, p, x, rest);
      PostfixOfChain(s, Applied(e, x), rest, p + |SuffixText(x)|);
    }
  }

  // ---------------------------------------------------------------- whole expressions

  /**
   * A variable followed by any chain of member accesses, argument-less calls and variable
   * indexes parses into that chain, the first suffix innermost: `obj.foo().bar().baz()`,
   * `arr[i]`, `matrix[i][j]`, `matrix[row][col].getValue()`.
   */
  lemma ParseChain(r: string, xs: seq<Suffix>)
    requires IsVar(r) && AllWellNamed(xs)
    ensures Parse(r + ChainText(xs)) == Ok(Chain(Variable(r), xs))
  {
    var s := r + ChainText(xs);
    var k := |r|;
    assert s[0..k] == r && s[k..] == ChainText(xs);
    ChainTextStart(xs);
    assert k == |s| || s[k] in {'.', '['} by {
      if k < |s| { assert s[k] == s[k..][0]; }
    }
    ChainAfterName(s, r, xs, k);
  }

  lemma ChainAfterName(s: string, r: string, xs: seq<Suffix>, k: nat)
    requires IsVar(r) && AllWellNamed(xs) && k == |r| && k <= |s| && s[0..k] == r && s[k..] == ChainText(xs)
    requires k == |s| || s[k] in {'.', '['}
    ensures Parse(s) == Ok(Chain(Variable(r), xs))
  {
    hide *;
    var v := Variable(r);
    VarStart(r);
    Punct('.');
    Punct('[');
    PeekAt(s, k);
    PeekAt(s, 0);
    SkipNone(s, 0);
    SkipNone(s, |s|);
    NameAt(s, 0, r);
    PrimaryOfName(s, 0, k);
    PostfixOfChain(s, v, xs, k);
    PostfixOfPrimary(s, 0, v, k);
    UnaryOfPostfix(s, 0);
    ParseOfUnary(s);
  }

  /**
   * A call without a receiver, `f()`, is a method call with none, and suffixes after it apply
   * to its result: `toString()`, `getArray()[i]`.
   */
  lemma ParseReceiverlessCall(f: string, xs: seq<Suffix>)
    requires IsVar(f) && AllWellNamed(xs)
    ensures Parse(f + "()" + ChainText(xs)) == Ok(Chain(MethodCall(None, f, []), xs))
  {
    var s := f + "()" + ChainText(xs);
    var k := |f|;
    assert s[0..k] == f && s[k] == '(' && s[k + 1] == ')' && s[k + 2..] == ChainText(xs);
    CallAfterName(s, f, xs, k);
  }

  lemma CallAfterName(s: string, f: string, xs: seq<Suffix>, k: nat)
    requires IsVar(f) && AllWellNamed(xs) && k == |f| && k + 2 <= |s| && s[0..k] == f
    requires s[k] == '(' && s[k + 1] == ')' && s[k + 2..] == ChainText(xs)
    ensures Parse(s) == Ok(Chain(MethodCall(None, f, []), xs))
  {
    var c := MethodCall(None, f, []);
    VarStart(f);
    Punct('(');
    SkipNone(s, 0);
    NameAt(s, 0, f);
    EmptyArguments(s, k);
    assert Primary(s, 0) == Ok(Step(c, k + 2)) by {
      hide Or, Arguments, StringLiteral, CharLiteral, Number, NewExpression, Expect, Identifier;
      MatchFails(s, 0, "(");
    }
    hide *;
    PeekAt(s, 0);
    SkipNone(s, |s|);
    PostfixOfChain(s, c, xs, k + 2);
    PostfixOfPrimary(s, 0, c, k + 2);
    UnaryOfPostfix(s, 0);
    ParseOfUnary(s);
  }
}
