/**
 * Object creation: `new T()` and `new T(a)` for every dotted type name `T`, as
 * `parseNewExpression` and `parseArguments` read them.
 */
module ParserCreation {
  import opened Wrappers
  import opened Ast
  import opened Lexer
  import opened Grammar
  import opened ParserProps
  import opened ParserCases
  import opened ParserChains
  import opened ParserErrors
  import opened ParserLevels

  /** An argument list ends where no comma follows. */
  lemma ArgumentsRestStops(s: string, acc: seq<Expr>, p: nat)
    requires p <= |s| && SkipWs(s, p) == p && Peek(s, p) != ','
    ensures ArgumentsRest(s, acc, p) == Ok(Step(acc, p))
  {
    hide Or;
    MatchFails(s, p, ",");
  }

  /** `(a)` at `q`: a list of one argument, the variable `a`. */
  lemma OneArgument(s: string, q: nat, a: string)
    requires IsVar(a) && q + |a| + 2 == |s| && s[q] == '(' && s[q + 1..q + 1 + |a|] == a && s[q + 1 + |a|] == ')'
    ensures Arguments(s, q) == Ok(Step([Variable(a)], |s|))
  {
    hide Or, ArgumentsRest, Grammar.Unary, Multiplicative, Additive, Match;
    var f := q + 1 + |a|;
    Punct('(');
    Punct(')');
    SkipNone(s, q);
    VarStart(a);
    assert s[q + 1] == a[0];
    SkipNone(s, q + 1);
    DelimitsCloser(s, f);
    VarOperand(s, q + 1, a, f);
    PeekAt(s, f);
    AdditiveOfUnary(s, q + 1, Variable(a), f);
    OrOfAdditive(s, q + 1, Variable(a), f);
    ArgumentsRestStops(s, [Variable(a)], f);
  }

  /** A type name not followed by `[`, then an argument list: the object creation. */
  lemma NewObjectOf(s: string, p: nat, c: string, e: nat, args: seq<Expr>, f: nat)
    requires p <= |s| && TypeName(s, SkipWs(s, p)) == Ok(Step(c, e)) && Peek(s, e) != '['
    requires Arguments(s, e) == Ok(Step(args, f))
    ensures NewExpression(s, p) == Ok(Step(NewObject(c, args), f))
  {
    hide TypeName, Arguments, Or, Expect;
  }

  /** `new T` followed at `e` by an argument list that ends the text: the object creation of `T`. */
  lemma ParseOfNew(s: string, root: string, fields: seq<string>, e: nat, args: seq<Expr>)
    requires IsName(root) && AllNames(fields) && e == 4 + |root + Dots(fields)| && e < |s|
    requires s[..4] == "new " && s[4..e] == root + Dots(fields) && s[e] == '('
    requires Arguments(s, e) == Ok(Step(args, |s|))
    ensures Parse(s) == Ok(NewObject(root + Dots(fields), args))
  {
    hide Parse, Primary, NewExpression, TypeName, Arguments, Or, Expect;
    var c := root + Dots(fields);
    NameStart(root, fields);
    assert s[4] == c[0];
    assert s[3] == ' ' && s[0] == 'n';
    Blank();
    SkipOne(s, 3);
    SkipNone(s, 4);
    Punct('(');
    TypeNameOfDots(s, 4, root, fields, e);
    PeekAt(s, e);
    NewObjectOf(s, 3, c, e, args, |s|);
    assert s[0..3] == "new";
    PrimaryOfNew(s);
    SkipNone(s, 0);
    PeekAt(s, 0);
    ParseOfPrimary(s, NewObject(c, args));
  }

  /** `new T()` creates a `T` with no arguments, for every dotted type name `T`. */
  lemma NewWithoutArguments(root: string, fields: seq<string>)
    requires IsName(root) && AllNames(fields)
    ensures Parse("new " + root + Dots(fields) + "()") == Ok(NewObject(root + Dots(fields), []))
  {
    hide Parse, Arguments;
    var c := root + Dots(fields);
    var s := "new " + c + "()";
    assert s == "new " + root + Dots(fields) + "()";
    var e := 4 + |c|;
    assert s[..4] == "new " && s[4..e] == c && s[e] == '(' && s[e + 1] == ')';
    EmptyArguments(s, e);
    ParseOfNew(s, root, fields, e, []);
  }

  /** `new T(a)` creates a `T` from the one argument `a`, for every dotted type name `T` and variable `a`. */
  lemma NewWithOneArgument(root: string, fields: seq<string>, a: string)
    requires IsName(root) && AllNames(fields) && IsVar(a)
    ensures Parse("new " + root + Dots(fields) + "(" + a + ")") == Ok(NewObject(root + Dots(fields), [Variable(a)]))
  {
    hide Parse, Arguments;
    var c := root + Dots(fields);
    var s := "new " + c + "(" + a + ")";
    assert s == "new " + root + Dots(fields) + "(" + a + ")";
    var e := 4 + |c|;
    assert s[..4] == "new " && s[4..e] == c && s[e] == '(';
    assert s[e + 1..e + 1 + |a|] == a && s[e + 1 + |a|] == ')';
    OneArgument(s, e, a);
    ParseOfNew(s, root, fields, e, [Variable(a)]);
  }
}
