/**
 * The kinds of number literal: a fraction or an exponent makes a double, an `f` or `F`
 * suffix a float, a `d` or `D` suffix a double; floating-point literals keep their text.
 */
module ParserNumbers {
  import opened Wrappers
  import opened Ast
  import opened Lexer
  import opened Grammar
  import opened ParserProps
  import opened ParserCases

  /** A run of decimal digits, possibly empty. */
  predicate Digits(m: string) {
    forall k | 0 <= k < |m| :: IsDigit(m[k])
  }

  /** The digit loop stops at the first character that is not a digit. */
  lemma {:induction false} DigitRun(s: string, p: nat, q: nat)
    requires p <= q <= |s|
    requires forall k | p <= k < q :: IsDigit(s[k])
    requires q == |s| || !IsDigit(s[q])
    ensures DigitsEnd(s, p) == q
    decreases q - p
  {
    if p < q {
      DigitRun(s, p + 1, q);
    }
  }

  /** Digits copied into the text at `p` are a run of digits there. */
  lemma DigitsAt(s: string, p: nat, m: string)
    requires Digits(m) && p + |m| <= |s| && s[p..p + |m|] == m
    ensures forall k | p <= k < p + |m| :: IsDigit(s[k])
  {
    forall k | p <= k < p + |m| ensures IsDigit(s[k]) {
      assert s[k] == s[p..p + |m|][k - p];
    }
  }

  /** A number literal at the start of the text that covers all of it is what `parse` answers. */
  lemma ParseNumeral(s: string, e: Expr)
    requires StartsNumber(s, 0) && Number(s, 0) == Ok(Step(e, |s|))
    ensures Parse(s) == Ok(e)
  {
    hide Number, Or, Arguments, StringLiteral, CharLiteral, NewExpression, Parse;
    SkipNone(s, 0);
    MatchFails(s, 0, "(");
    ParseOfPrimary(s, e);
  }

  /** A number literal at the start of the text that the library parser rejects fails the parse. */
  lemma ParseNumeralErr(s: string, err: ParseError)
    requires StartsNumber(s, 0) && Number(s, 0) == Err(err)
    ensures Parse(s) == Err(err)
  {
    hide Number, Or, Arguments, StringLiteral, CharLiteral, NewExpression, Parse;
    SkipNone(s, 0);
    MatchFails(s, 0, "(");
    ParseOfPrimaryErr(s, err);
  }

  /** Where the integer digits and the fraction of `m.f` end, whatever follows them. */
  lemma FractionParts(s: string, m: string, f: string)
    requires |m| >= 1 && Digits(m) && Digits(f)
    requires |m| + 1 + |f| <= |s| && s[..|m| + 1 + |f|] == m + "." + f
    requires |s| == |m| + 1 + |f| || !IsDigit(s[|m| + 1 + |f|])
    ensures StartsNumber(s, 0)
    ensures DigitsEnd(s, 0) == |m| && FractionEnd(s, |m|) == |m| + 1 + |f|
  {
    var a := |m|;
    var b := a + 1 + |f|;
    assert s[0..a] == m && s[a] == '.' && s[a + 1..b] == f by {
      assert s[0..a] == s[..b][0..a];
      assert s[a + 1..b] == s[..b][a + 1..b];
      assert s[a] == s[..b][a];
    }
    DigitsAt(s, 0, m);
    DigitsAt(s, a + 1, f);
    DigitRun(s, 0, a);
    DigitRun(s, a + 1, b);
  }

  /** `3.14`: digits, a dot and digits are a double literal, its text kept as written. */
  lemma FractionIsDouble(m: string, f: string)
    requires |m| >= 1 && Digits(m) && Digits(f)
    ensures Parse(m + "." + f) == Ok(Literal(LDouble(m + "." + f)))
  {
    hide ScanNumber, Parse, Primary, DigitsEnd, FractionEnd, ExponentDigits;
    var s := m + "." + f;
    var b := |s|;
    assert s[..b] == s;
    FractionParts(s, m, f);
    ScanNumberParts(s, 0, NumberScan(|m|, b, b, b, false, true, false, false, b, b));
    assert s[0..b] == s;
    ParseNumeral(s, Literal(LDouble(s)));
  }

  /** `3.14f`: an `f` or `F` suffix makes a float literal; the suffix is dropped from its text. */
  lemma FloatSuffix(m: string, f: string, x: char)
    requires |m| >= 1 && Digits(m) && Digits(f) && x in {'f', 'F'}
    ensures Parse(m + "." + f + [x]) == Ok(Literal(LFloat(m + "." + f)))
  {
    hide ScanNumber, Parse, Primary, DigitsEnd, FractionEnd, ExponentDigits;
    var t := m + "." + f;
    var s := t + [x];
    var b := |t|;
    assert s[..b] == t && s[b] == x;
    FractionParts(s, m, f);
    ScanNumberParts(s, 0, NumberScan(|m|, b, b, b, false, true, false, true, b + 1, b));
    assert s[0..b] == t;
    ParseNumeral(s, Literal(LFloat(t)));
  }

  /**
   * `2.5d` and `2.5D`: a double suffix keeps the literal a double; the lower-case `d` is cut
   * from the text handed to the library parser, the upper-case `D` is kept (the library
   * accepts both).
   */
  lemma DoubleSuffix(m: string, f: string, x: char)
    requires |m| >= 1 && Digits(m) && Digits(f) && x in {'d', 'D'}
    ensures Parse(m + "." + f + [x]) ==
      Ok(Literal(LDouble(if x == 'd' then m + "." + f else m + "." + f + [x])))
  {
    hide ScanNumber, Parse, Primary, DigitsEnd, FractionEnd, ExponentDigits;
    var t := m + "." + f;
    var s := t + [x];
    var b := |t|;
    assert s[..b] == t && s[b] == x;
    FractionParts(s, m, f);
    var cut := if x == 'd' then b else b + 1;
    ScanNumberParts(s, 0, NumberScan(|m|, b, b, b, false, true, false, false, b + 1, cut));
    assert s[0..b] == t && s[0..b + 1] == s;
    ParseNumeral(s, Literal(LDouble(if x == 'd' then t else s)));
  }

  /** `.5`: a dot followed by digits starts a number, and it is a double. */
  lemma LeadingDotIsDouble(f: string)
    requires |f| >= 1 && Digits(f)
    ensures Parse("." + f) == Ok(Literal(LDouble("." + f)))
  {
    hide ScanNumber, Parse, Primary, DigitsEnd;
    var s := "." + f;
    assert s[0] == '.' && s[1] == f[0] && s[1..] == f;
    DigitsAt(s, 1, f);
    DigitRun(s, 0, 0);
    DigitRun(s, 1, |s|);
    ScanNumberParts(s, 0, NumberScan(0, |s|, |s|, |s|, false, true, false, false, |s|, |s|));
    assert s[0..|s|] == s;
    ParseNumeral(s, Literal(LDouble(s)));
  }

  /** `1.5e10`: an exponent with digits makes a double, its text kept as written. */
  lemma ExponentIsDouble(m: string, f: string, e: string)
    requires |m| >= 1 && Digits(m) && Digits(f) && |e| >= 1 && Digits(e)
    ensures Parse(m + "." + f + "e" + e) == Ok(Literal(LDouble(m + "." + f + "e" + e)))
  {
    hide ScanNumber, Parse, Primary, DigitsEnd;
    var t := m + "." + f;
    var s := t + "e" + e;
    var b := |t|;
    assert s[..b] == t && s[b] == 'e' && s[b + 1..] == e && s[b + 1] == e[0];
    FractionParts(s, m, f);
    DigitsAt(s, b + 1, e);
    DigitRun(s, b + 1, |s|);
    ScanNumberParts(s, 0, NumberScan(|m|, b, b + 1, |s|, true, true, false, false, |s|, |s|));
    assert s[0..|s|] == s;
    ParseNumeral(s, Literal(LDouble(s)));
  }

  /** `1e`: an exponent marker with no digits after it is the library's format error. */
  lemma ExponentWithoutDigits(m: string)
    requires |m| >= 1 && Digits(m)
    ensures Parse(m + "e") == Err(NumberFormat(m + "e"))
  {
    hide ScanNumber, Parse, Primary, DigitsEnd;
    var s := m + "e";
    var a := |m|;
    assert s[0..a] == m && s[a] == 'e' && s[0] == m[0];
    DigitsAt(s, 0, m);
    DigitRun(s, 0, a);
    DigitRun(s, a + 1, a + 1);
    ScanNumberParts(s, 0, NumberScan(a, a, a + 1, a + 1, true, true, false, false, a + 1, a + 1));
    assert s[0..a + 1] == s;
    ParseNumeralErr(s, NumberFormat(s));
  }
}
