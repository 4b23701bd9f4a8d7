/**
 * The character-level layer of the expression parser: character classes, whitespace skipping,
 * the operator and keyword matchers and `expect`, as functions of the text and a position.
 * ExpressionParser.java:452-499.
 */
module Lexer {
  import opened Wrappers

  /** Character.isWhitespace, restricted to the ASCII range. */
  predicate IsWhitespace(c: char) {
    c == ' ' || c == '\t' || c == '\n' || c == '\U{B}' || c == '\U{C}' || c == '\r' ||
    ('\U{1C}' <= c <= '\U{1F}')
  }

  /** Character.isDigit, restricted to ASCII. */
  predicate IsDigit(c: char) {
    '0' <= c <= '9'
  }

  /** Character.isJavaIdentifierStart, restricted to ASCII. */
  predicate IsIdentStart(c: char) {
    ('a' <= c <= 'z') || ('A' <= c <= 'Z') || c == '_' || c == '$'
  }

  /** Character.isJavaIdentifierPart, restricted to ASCII and the control characters Java ignores. */
  predicate IsIdentPart(c: char) {
    IsIdentStart(c) || IsDigit(c) ||
    ('\0' <= c <= '\U{8}') || ('\U{E}' <= c <= '\U{1B}') || ('\U{7F}' <= c <= '\U{9F}')
  }

  /** The messages of the parser's own ParseException. */
  datatype SyntaxError =
    | UnexpectedChar(c: char)        // "Unexpected character: c"
    | ExpectedExpression             // "Expected expression"
    | ExpectedIdentifier             // "Expected identifier"
    | ExpectedChar(expected: char)   // "Expected 'c'"
    | UnterminatedString             // "Unterminated string"

  /** The exceptions the parser lets escape. */
  datatype ParseError =
    | ParseException(what: SyntaxError, position: nat)
    | NumberFormat(text: string)           // from Integer/Long/Float/Double parsing
    | CharIndexOutOfBounds(index: nat)     // from String.charAt past the end

  /** `peek()`: the character at `p`, or '\0' past the end. */
  function Peek(s: string, p: nat): char {
    if p < |s| then s[p] else '\0'
  }

  /** The first position at or after `p` where `keep` fails, and everything before it kept. */
  function Span(s: string, p: nat, keep: char -> bool): (q: nat)
    requires p <= |s|
    ensures p <= q <= |s|
    ensures q < |s| ==> !keep(s[q])
    ensures forall k :: p <= k < q ==> keep(s[k])
    decreases |s| - p
  {
    if p < |s| && keep(s[p]) then Span(s, p + 1, keep) else p
  }

  /** `skipWhitespace()`. */
  function SkipWs(s: string, p: nat): (q: nat)
    requires p <= |s|
    ensures p <= q <= |s|
    ensures Peek(s, q) == '\0' || !IsWhitespace(Peek(s, q))
  {
    Span(s, p, IsWhitespace)
  }

  lemma SkipWsIdempotent(s: string, p: nat)
    requires p <= |s|
    ensures SkipWs(s, SkipWs(s, p)) == SkipWs(s, p)
  {
  }

  /** The end of the run of identifier characters starting at `p`. */
  function IdentEnd(s: string, p: nat): (q: nat)
    requires p <= |s|
    ensures p <= q <= |s|
    ensures q < |s| ==> !IsIdentPart(s[q])
  {
    Span(s, p, IsIdentPart)
  }

  /** The end of the run of decimal digits starting at `p`. */
  function DigitsEnd(s: string, p: nat): (q: nat)
    requires p <= |s|
    ensures p <= q <= |s|
    ensures q < |s| ==> !IsDigit(s[q])
    ensures forall k :: p <= k < q ==> IsDigit(s[k])
  {
    Span(s, p, IsDigit)
  }

  /** A matcher's outcome: whether it consumed the text, and the position after it. */
  datatype Scan = Scan(ok: bool, pos: nat)

  /**
   * A one-character operator that refuses to match when the next character would make it a
   * different operator: `<`, `>`, `=` and `!` before `=`, `&` before `&`, `|` before `|`.
   */
  predicate Refuses(op: string, next: char) {
    |op| == 1 &&
    (((op == "<" || op == ">" || op == "=" || op == "!") && next == '=') ||
     (op == "&" && next == '&') ||
     (op == "|" && next == '|'))
  }

  /** `match(op)`: skips whitespace in any case, then consumes `op` unless it is refused. */
  function Match(s: string, p: nat, op: string): (m: Scan)
    requires p <= |s|
    ensures m.pos <= |s|
    ensures m.ok <==>
      SkipWs(s, p) + |op| <= |s| && s[SkipWs(s, p)..SkipWs(s, p) + |op|] == op &&
      !(SkipWs(s, p) + 1 < |s| && Refuses(op, s[SkipWs(s, p) + 1]))
    ensures m.pos == if m.ok then SkipWs(s, p) + |op| else SkipWs(s, p)
  {
    var q := SkipWs(s, p);
    if q + |op| <= |s| && s[q..q + |op|] == op then
      if q + 1 < |s| && Refuses(op, s[q + 1]) then Scan(false, q) else Scan(true, q + |op|)
    else
      Scan(false, q)
  }

  /** `matchKeyword(kw)`: the keyword followed by the end of input or a character that cannot continue an identifier. */
  function MatchKeyword(s: string, p: nat, kw: string): (m: Scan)
    requires p <= |s|
    ensures m.pos <= |s|
    ensures m.ok <==>
      SkipWs(s, p) + |kw| <= |s| && s[SkipWs(s, p)..SkipWs(s, p) + |kw|] == kw &&
      (SkipWs(s, p) + |kw| == |s| || !IsIdentPart(s[SkipWs(s, p) + |kw|]))
    ensures m.pos == if m.ok then SkipWs(s, p) + |kw| else SkipWs(s, p)
  {
    var q := SkipWs(s, p);
    if q + |kw| <= |s| && s[q..q + |kw|] == kw && (q + |kw| == |s| || !IsIdentPart(s[q + |kw|])) then
      Scan(true, q + |kw|)
    else
      Scan(false, q)
  }

  /** `expect(c)`: skips whitespace and consumes `c`, or fails at the position reached. */
  function Expect(s: string, p: nat, c: char): (r: Result<nat, ParseError>)
    requires p <= |s|
    ensures r.Ok? <==> SkipWs(s, p) < |s| && s[SkipWs(s, p)] == c
    ensures r.Ok? ==> r.value == SkipWs(s, p) + 1
    ensures r.Err? ==> r.error == ParseException(ExpectedChar(c), SkipWs(s, p))
  {
    var q := SkipWs(s, p);
    if q < |s| && s[q] == c then Ok(q + 1) else Err(ParseException(ExpectedChar(c), q))
  }

  /**
   * What a successful match consumed is the operator itself, and a one-character operator it
   * accepted is never the first character of `<=`, `>=`, `==`, `!=`, `&&` or `||`.
   */
  lemma MatchConsumes(s: string, p: nat, op: string)
    requires p <= |s|
    ensures var m := Match(s, p, op);
      m.ok ==> p + |op| <= m.pos && s[m.pos - |op|..m.pos] == op && (m.pos < |s| ==> !Refuses(op, s[m.pos]))
  {
  }

  /** A matched keyword is the text just before the cursor, and no identifier continues after it. */
  lemma MatchKeywordConsumes(s: string, p: nat, kw: string)
    requires p <= |s|
    ensures var m := MatchKeyword(s, p, kw);
      m.ok ==> p + |kw| <= m.pos && s[m.pos - |kw|..m.pos] == kw && (m.pos == |s| || !IsIdentPart(s[m.pos]))
  {
  }

  /** A successful expect leaves the cursor just past the expected character. */
  lemma ExpectConsumes(s: string, p: nat, c: char)
    requires p <= |s|
    ensures var r := Expect(s, p, c); r.Ok? ==> p < r.value <= |s| && s[r.value - 1] == c
  {
  }
}
