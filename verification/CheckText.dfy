/** The text of CHECK constraints: how a predicate is printed and how the
    tokenizer cuts text into tokens. */
module CheckText {
  import opened Decimals
  import opened Values

  // ----- Predicates -----------------------------------------------------------------------

  /** `Fraction` is a literal with a decimal point, whose value is not modelled. */
  datatype Literal =
    | NullLiteral
    | IntLiteral(n: int)
    | TextLiteral(s: string)
    | Fraction(negative: bool, digits: string)
    | Placeholder

  datatype Side = ColumnRef(name: string) | Constant(literal: Literal)

  /** `Unsupported` stands for the predicates a CHECK may not contain: expression
      comparisons, IN, LIKE, regular expressions and EXISTS. */
  datatype Check =
    | Comparison(column: string, op: CompareOp, rhs: Side)
    | Conjunction(left: Check, right: Check)
    | Disjunction(left: Check, right: Check)
    | Unsupported

  /** `assertSimpleCheckConstraint`. */
  predicate Simple(c: Check) {
    match c
    case Comparison(_, _, rhs) => rhs != Constant(Placeholder)
    case Conjunction(l, r) => Simple(l) && Simple(r)
    case Disjunction(l, r) => Simple(l) && Simple(r)
    case Unsupported => false
  }

  /** No literal with a decimal point. */
  predicate Whole(c: Check) {
    match c
    case Comparison(_, _, rhs) => !(rhs.Constant? && rhs.literal.Fraction?)
    case Conjunction(l, r) => Whole(l) && Whole(r)
    case Disjunction(l, r) => Whole(l) && Whole(r)
    case Unsupported => true
  }

  // ----- Printing -------------------------------------------------------------------------

  function Escaped(s: string): string {
    if s == [] then []
    else (if s[0] == '"' || s[0] == '\\' then ['\\', s[0]] else [s[0]]) + Escaped(s[1..])
  }

  function LiteralText(v: Literal): string
    requires !v.Fraction? && !v.Placeholder?
  {
    match v
    case NullLiteral => "NULL"
    case IntLiteral(n) => if n < 0 then "-" + Digits(-n) else Digits(n)
    case TextLiteral(s) => ['"'] + Escaped(s) + ['"']
  }

  function OperatorText(op: CompareOp): string {
    match op
    case Eq => "="
    case Gt => ">"
    case Lt => "<"
  }

  function SideText(rhs: Side): string
    requires rhs.Constant? ==> !rhs.literal.Fraction? && !rhs.literal.Placeholder?
  {
    match rhs
    case ColumnRef(name) => name
    case Constant(v) => LiteralText(v)
  }

  /** `checkConstraintLiteral`. */
  function Print(c: Check): string
    requires Simple(c) && Whole(c)
  {
    match c
    case Comparison(column, op, rhs) => column + (" " + (OperatorText(op) + (" " + SideText(rhs))))
    case Conjunction(l, r) => "(" + (Print(l) + (" AND " + (Print(r) + ")")))
    case Disjunction(l, r) => "(" + (Print(l) + (" OR " + (Print(r) + ")")))
  }

  // ----- Tokens ----------------------------------------------------------------------------

  datatype Kind =
    | Identifier | Number | Text | Comma | Semicolon | LeftParen | RightParen | Star
    | Equal | Greater | Less | Plus | Minus | Parameter | Tilde | End

  datatype Token = Token(kind: Kind, lexeme: string)

  predicate IsSpace(c: char) {
    c == ' ' || 9 <= c as int <= 13
  }

  predicate IsDigit(c: char) {
    '0' <= c <= '9'
  }

  predicate IsIdentifierStart(c: char) {
    'a' <= c <= 'z' || 'A' <= c <= 'Z' || c == '_'
  }

  predicate IsIdentifierPart(c: char) {
    IsIdentifierStart(c) || IsDigit(c) || c == '.'
  }

  predicate IsNumberPart(c: char) {
    IsDigit(c) || c == '.'
  }

  predicate IsIdentifier(s: string) {
    s != [] && IsIdentifierStart(s[0]) && Span(s, IsIdentifierPart) == |s|
  }

  function Span(s: string, p: char -> bool): (n: nat)
    ensures n <= |s|
  {
    if s == [] || !p(s[0]) then 0 else 1 + Span(s[1..], p)
  }

  /** The text up to the closing quote, and how many characters it took. */
  function ReadText(s: string): (r: Option<(string, nat)>)
    ensures r.Some? ==> 1 <= r.value.1 <= |s|
  {
    if s == [] then None
    else if s[0] == '"' then Some(([], 1))
    else if s[0] == '\\' then
      if |s| == 1 then None
      else
        var rest := ReadText(s[2..]);
        if rest.None? then None else Some(([s[1]] + rest.value.0, rest.value.1 + 2))
    else
      var rest := ReadText(s[1..]);
      if rest.None? then None else Some(([s[0]] + rest.value.0, rest.value.1 + 1))
  }

  function Punctuation(c: char): Option<Kind> {
    match c
    case ',' => Some(Comma)
    case ';' => Some(Semicolon)
    case '(' => Some(LeftParen)
    case ')' => Some(RightParen)
    case '*' => Some(Star)
    case '=' => Some(Equal)
    case '>' => Some(Greater)
    case '<' => Some(Less)
    case '+' => Some(Plus)
    case '-' => Some(Minus)
    case '?' => Some(Parameter)
    case '~' => Some(Tilde)
    case _ => None
  }

  /** The next token and its length; nothing is an unexpected character or an
      unterminated string. */
  function NextToken(s: string): (r: Option<(Token, nat)>)
    requires s != []
    ensures r.Some? ==> 1 <= r.value.1 <= |s|
  {
    if IsIdentifierStart(s[0]) then
      var n := 1 + Span(s[1..], IsIdentifierPart);
      Some((Token(Identifier, s[..n]), n))
    else if IsDigit(s[0]) then
      var n := 1 + Span(s[1..], IsNumberPart);
      Some((Token(Number, s[..n]), n))
    else if s[0] == '"' then
      var t := ReadText(s[1..]);
      if t.None? then None else Some((Token(Text, t.value.0), t.value.1 + 1))
    else
      var k := Punctuation(s[0]);
      if k.None? then None else Some((Token(k.value, [s[0]]), 1))
  }

  function Lex(s: string): Option<seq<Token>> {
    if s == [] then Some([Token(End, [])])
    else if IsSpace(s[0]) then Lex(s[1..])
    else
      var t := NextToken(s);
      if t.None? then None else Prepend([t.value.0], Lex(s[t.value.1..]))
  }

  function Prepend(front: seq<Token>, rest: Option<seq<Token>>): Option<seq<Token>> {
    if rest.None? then None else Some(front + rest.value)
  }

  // ----- The tokenizer ---------------------------------------------------------------------

  method SpanFrom(sql: string, start: nat, p: char -> bool) returns (pos: nat)
    requires start <= |sql|
    ensures pos == start + Span(sql[start..], p)
  {
    pos := start;
    while pos < |sql| && p(sql[pos])
      invariant start <= pos <= |sql|
      invariant pos + Span(sql[pos..], p) == start + Span(sql[start..], p)
    {
      assert sql[pos..][1..] == sql[pos + 1..];
      pos := pos + 1;
    }
  }

  method TextFrom(sql: string, start: nat) returns (r: Option<(string, nat)>)
    requires start <= |sql|
    ensures r == ReadText(sql[start..])
  {
    hide Shifted;
    var pos := start;
    var value := "";
    ShiftNone(ReadText(sql[start..]));
    while pos < |sql| && sql[pos] != '"'
      invariant start <= pos <= |sql|
      invariant ReadText(sql[start..]) == Shifted(value, pos - start, ReadText(sql[pos..]))
    {
      ghost var rest := sql[pos..];
      if sql[pos] == '\\' {
        if pos + 1 >= |sql| {
          ShiftFails(value, pos - start);
          return None;
        }
        assert rest[2..] == sql[pos + 2..] && rest[1] == sql[pos + 1];
        ReadStep(rest);
        ShiftShift(value, pos - start, [sql[pos + 1]], 2, ReadText(sql[pos + 2..]));
        value := value + [sql[pos + 1]];
        pos := pos + 2;
      } else {
        assert rest[1..] == sql[pos + 1..];
        ReadStep(rest);
        ShiftShift(value, pos - start, [sql[pos]], 1, ReadText(sql[pos + 1..]));
        value := value + [sql[pos]];
        pos := pos + 1;
      }
    }
    if pos >= |sql| {
      ShiftFails(value, pos - start);
      return None;
    }
    ShiftDone(value, pos - start);
    return Some((value, pos - start + 1));
  }

  ghost function Shifted(value: string, n: nat, r: Option<(string, nat)>): Option<(string, nat)> {
    if r.None? then None else Some((value + r.value.0, n + r.value.1))
  }

  lemma ShiftNone(r: Option<(string, nat)>)
    ensures Shifted([], 0, r) == r
  {
    assert r.Some? ==> [] + r.value.0 == r.value.0;
  }

  lemma ShiftFails(value: string, n: nat)
    ensures Shifted(value, n, None) == None
  {
  }

  lemma ShiftDone(value: string, n: nat)
    ensures Shifted(value, n, Some(([], 1))) == Some((value, n + 1))
  {
    assert value + [] == value;
  }

  lemma ReadStep(s: string)
    requires s != [] && s[0] != '"'
    ensures s[0] == '\\' && |s| > 1 ==> ReadText(s) == Shifted([s[1]], 2, ReadText(s[2..]))
    ensures s[0] != '\\' ==> ReadText(s) == Shifted([s[0]], 1, ReadText(s[1..]))
  {
  }

  lemma ShiftShift(a: string, n: nat, b: string, m: nat, r: Option<(string, nat)>)
    ensures Shifted(a, n, Shifted(b, m, r)) == Shifted(a + b, n + m, r)
  {
    if r.Some? {
      assert a + (b + r.value.0) == a + b + r.value.0;
    }
  }

  lemma PrependNone(r: Option<seq<Token>>)
    ensures Prepend([], r) == r
  {
    assert r.Some? ==> [] + r.value == r.value;
  }

  lemma PrependPrepend(a: seq<Token>, b: seq<Token>, r: Option<seq<Token>>)
    ensures Prepend(a, Prepend(b, r)) == Prepend(a + b, r)
  {
    if r.Some? {
      assert a + (b + r.value) == a + b + r.value;
    }
  }

  lemma PrependSome(a: seq<Token>, b: seq<Token>)
    ensures Prepend(a, Some(b)) == Some(a + b)
  {
  }

  lemma PrependFails(a: seq<Token>)
    ensures Prepend(a, None) == None
  {
  }

  /** The part of the loop that reads one token, and how far it moves the cursor. */
  method TokenAt(sql: string, start: nat) returns (r: Option<(Token, nat)>)
    requires start < |sql|
    ensures r == NextToken(sql[start..])
  {
    hide Span, ReadText, Punctuation;
    var ch := sql[start];
    ghost var rest := sql[start..];
    assert rest[1..] == sql[start + 1..];
    if IsIdentifierStart(ch) {
      var pos := SpanFrom(sql, start + 1, IsIdentifierPart);
      assert sql[start..pos] == rest[..pos - start];
      return Some((Token(Identifier, sql[start..pos]), pos - start));
    }
    if IsDigit(ch) {
      var pos := SpanFrom(sql, start + 1, IsNumberPart);
      assert sql[start..pos] == rest[..pos - start];
      return Some((Token(Number, sql[start..pos]), pos - start));
    }
    if ch == '"' {
      var text := TextFrom(sql, start + 1);
      if text.None? {
        return None;
      }
      return Some((Token(Text, text.value.0), text.value.1 + 1));
    }
    var kind := Punctuation(ch);
    if kind.None? {
      return None;
    }
    return Some((Token(kind.value, [ch]), 1));
  }

  method Tokenize(sql: string) returns (r: Option<seq<Token>>)
    ensures r == Lex(sql)
  {
    hide Span, ReadText, Punctuation, NextToken, Prepend;
    PrependNone(Lex(sql));
    assert sql[0..] == sql;
    var tokens: seq<Token> := [];
    var pos := 0;
    while pos < |sql|
      invariant pos <= |sql|
      invariant Lex(sql) == Prepend(tokens, Lex(sql[pos..]))
    {
      var ch := sql[pos];
      var rest := sql[pos..];
      if IsSpace(ch) {
        assert rest[1..] == sql[pos + 1..];
        pos := pos + 1;
        continue;
      }
      var step := TokenAt(sql, pos);
      if step.None? {
        PrependFails(tokens);
        return None;
      }
      var (token, n) := step.value;
      assert rest[n..] == sql[pos + n..];
      PrependPrepend(tokens, [token], Lex(sql[pos + n..]));
      tokens := tokens + [token];
      pos := pos + n;
    }
    assert sql[pos..] == [];
    assert Lex([]) == Some([Token(End, [])]);
    PrependSome(tokens, [Token(End, [])]);
    return Some(tokens + [Token(End, "")]);
  }

  // ----- Printed text and its tokens ------------------------------------------------------------

  function OperatorToken(op: CompareOp): Token {
    match op
    case Eq => Token(Equal, "=")
    case Gt => Token(Greater, ">")
    case Lt => Token(Less, "<")
  }

  function LiteralTokens(v: Literal): seq<Token>
    requires !v.Fraction? && !v.Placeholder?
  {
    match v
    case NullLiteral => [Token(Identifier, "NULL")]
    case IntLiteral(n) => if n < 0 then [Token(Minus, "-"), Token(Number, Digits(-n))] else [Token(Number, Digits(n))]
    case TextLiteral(s) => [Token(Text, s)]
  }

  function SideTokens(rhs: Side): seq<Token>
    requires rhs.Constant? ==> !rhs.literal.Fraction? && !rhs.literal.Placeholder?
  {
    match rhs
    case ColumnRef(name) => [Token(Identifier, name)]
    case Constant(v) => LiteralTokens(v)
  }

  function Group(l: seq<Token>, word: string, r: seq<Token>): seq<Token> {
    [Token(LeftParen, "(")] + (l + ([Token(Identifier, word)] + (r + [Token(RightParen, ")")])))
  }

  /** The tokens of the printed text. */
  function Tokens(c: Check): seq<Token>
    requires Simple(c) && Whole(c)
  {
    match c
    case Comparison(column, op, rhs) => [Token(Identifier, column), OperatorToken(op)] + SideTokens(rhs)
    case Conjunction(l, r) => Group(Tokens(l), "AND", Tokens(r))
    case Disjunction(l, r) => Group(Tokens(l), "OR", Tokens(r))
  }

  ghost predicate Named(c: Check) {
    match c
    case Comparison(column, _, rhs) => IsIdentifier(column) && (rhs.ColumnRef? ==> IsIdentifier(rhs.name))
    case Conjunction(l, r) => Named(l) && Named(r)
    case Disjunction(l, r) => Named(l) && Named(r)
    case Unsupported => true
  }

  /** Text after which an identifier or a number cannot go on. */
  predicate Boundary(s: string) {
    s == [] || s[0] == ' ' || s[0] == ')'
  }

  lemma {:induction false} SpanStops(a: string, b: string, p: char -> bool)
    requires Span(a, p) == |a| && (b == [] || !p(b[0]))
    ensures Span(a + b, p) == |a|
  {
    if a == [] {
      assert a + b == b;
    } else {
      assert (a + b)[1..] == a[1..] + b;
      SpanStops(a[1..], b, p);
    }
  }

  lemma LexIdentifier(name: string, rest: string)
    requires IsIdentifier(name) && Boundary(rest)
    ensures Lex(name + rest) == Prepend([Token(Identifier, name)], Lex(rest))
  {
    hide Prepend, ReadText, Punctuation;
    var s := name + rest;
    assert s[1..] == name[1..] + rest;
    SpanStops(name[1..], rest, IsIdentifierPart);
    assert s[..|name|] == name && s[|name|..] == rest;
    assert NextToken(s) == Some((Token(Identifier, name), |name|));
  }

  ghost predicate AllDigits(s: string) {
    s != [] && forall i :: 0 <= i < |s| ==> IsDigit(s[i])
  }

  lemma DigitsAreDigits(n: nat)
    ensures AllDigits(Digits(n))
  {
    var s := Digits(n);
    assert forall i :: 0 <= i < |s| ==> s[i] in s;
  }

  lemma {:induction false} DigitsSpan(s: string)
    requires forall i :: 0 <= i < |s| ==> IsDigit(s[i])
    ensures Span(s, IsNumberPart) == |s|
  {
    if s != [] {
      DigitsSpan(s[1..]);
    }
  }

  lemma LexNumber(digits: string, rest: string)
    requires AllDigits(digits) && Boundary(rest)
    ensures Lex(digits + rest) == Prepend([Token(Number, digits)], Lex(rest))
  {
    hide Prepend, ReadText, Punctuation;
    var s := digits + rest;
    assert s[1..] == digits[1..] + rest && s[0] == digits[0];
    DigitsSpan(digits[1..]);
    SpanStops(digits[1..], rest, IsNumberPart);
    assert s[..|digits|] == digits && s[|digits|..] == rest;
    assert NextToken(s) == Some((Token(Number, digits), |digits|));
  }

  /** Escaping is undone by the tokenizer, whatever the text. */
  lemma {:induction false} ReadEscaped(s: string, rest: string)
    ensures ReadText(Escaped(s) + (['"'] + rest)) == Some((s, |Escaped(s)| + 1))
  {
    var all := Escaped(s) + (['"'] + rest);
    if s == [] {
      assert all == ['"'] + rest;
    } else {
      var tail := Escaped(s[1..]) + (['"'] + rest);
      ReadEscaped(s[1..], rest);
      assert s == [s[0]] + s[1..];
      if s[0] == '"' || s[0] == '\\' {
        assert all[0] == '\\' && all[1] == s[0] && all[2..] == tail;
      } else {
        assert all[0] == s[0] && all[1..] == tail;
      }
    }
  }

  lemma LexText(s: string, rest: string)
    ensures Lex(['"'] + Escaped(s) + ['"'] + rest) == Prepend([Token(Text, s)], Lex(rest))
  {
    hide Prepend, Span, Punctuation, ReadText;
    var all := ['"'] + Escaped(s) + ['"'] + rest;
    ReadEscaped(s, rest);
    assert all[0] == '"' && all[1..] == Escaped(s) + (['"'] + rest);
    assert all[|Escaped(s)| + 2..] == rest;
    assert NextToken(all) == Some((Token(Text, s), |Escaped(s)| + 2));
  }

  lemma LexMark(c: char, kind: Kind, rest: string)
    requires Punctuation(c) == Some(kind)
    ensures Lex([c] + rest) == Prepend([Token(kind, [c])], Lex(rest))
  {
    hide Prepend, Span, ReadText, Punctuation, IsSpace, IsIdentifierStart, IsDigit;
    PunctuationIsPlain(c);
    assert ([c] + rest)[1..] == rest;
  }

  lemma PunctuationIsPlain(c: char)
    requires Punctuation(c).Some?
    ensures !IsSpace(c) && !IsIdentifierStart(c) && !IsDigit(c) && c != '"'
  {
  }

  lemma LexSpace(rest: string)
    ensures Lex(" " + rest) == Lex(rest)
  {
    hide NextToken;
    assert (" " + rest)[1..] == rest;
  }

  lemma LexLiteral(v: Literal, rest: string)
    requires !v.Fraction? && !v.Placeholder? && Boundary(rest)
    ensures Lex(LiteralText(v) + rest) == Prepend(LiteralTokens(v), Lex(rest))
  {
    hide Lex, Prepend, Digits, Escaped;
    match v {
      case NullLiteral =>
        IsNull();
        LexIdentifier("NULL", rest);
      case IntLiteral(n) =>
        if n < 0 {
          var digits := Digits(-n);
          DigitsAreDigits(-n);
          assert LiteralText(v) + rest == ['-'] + (digits + rest);
          LexMark('-', Minus, digits + rest);
          LexNumber(digits, rest);
          PrependPrepend([Token(Minus, "-")], [Token(Number, digits)], Lex(rest));
          assert [Token(Minus, "-")] + [Token(Number, digits)] == LiteralTokens(v);
        } else {
          DigitsAreDigits(n);
          LexNumber(Digits(n), rest);
        }
      case TextLiteral(s) =>
        LexText(s, rest);
    }
  }

  lemma IsNull()
    ensures IsIdentifier("NULL")
  {
    assert "NULL"[1..] == "ULL" && "ULL"[1..] == "LL" && "LL"[1..] == "L" && "L"[1..] == "";
  }

  lemma LexSide(rhs: Side, rest: string)
    requires rhs.Constant? ==> !rhs.literal.Fraction? && !rhs.literal.Placeholder?
    requires rhs.ColumnRef? ==> IsIdentifier(rhs.name)
    requires Boundary(rest)
    ensures Lex(SideText(rhs) + rest) == Prepend(SideTokens(rhs), Lex(rest))
  {
    hide Lex, Prepend, LiteralText, LiteralTokens, IsIdentifier;
    match rhs {
      case ColumnRef(name) => LexIdentifier(name, rest);
      case Constant(v) => LexLiteral(v, rest);
    }
  }

  lemma LexComparison(column: string, op: CompareOp, rhs: Side, rest: string)
    requires rhs.Constant? ==> !rhs.literal.Fraction? && !rhs.literal.Placeholder?
    requires IsIdentifier(column) && (rhs.ColumnRef? ==> IsIdentifier(rhs.name)) && Boundary(rest)
    ensures Lex(column + (" " + (OperatorText(op) + (" " + SideText(rhs)))) + rest)
      == Prepend([Token(Identifier, column), OperatorToken(op)] + SideTokens(rhs), Lex(rest))
  {
    hide Lex, Prepend, SideText, SideTokens, IsIdentifier;
    var last := SideText(rhs) + rest;
    var mark := OperatorText(op);
    var all := column + (" " + (mark + (" " + SideText(rhs)))) + rest;
    assert all == column + (" " + (mark + (" " + last)));
    LexIdentifier(column, " " + (mark + (" " + last)));
    LexSpace(mark + (" " + last));
    assert mark == [mark[0]];
    LexMark(mark[0], OperatorToken(op).kind, " " + last);
    LexSpace(last);
    LexSide(rhs, rest);
    PrependPrepend([OperatorToken(op)], SideTokens(rhs), Lex(rest));
    PrependPrepend([Token(Identifier, column)], [OperatorToken(op)] + SideTokens(rhs), Lex(rest));
    assert [Token(Identifier, column)] + ([OperatorToken(op)] + SideTokens(rhs))
      == [Token(Identifier, column), OperatorToken(op)] + SideTokens(rhs);
  }

  /** `(left word right)` */
  lemma LexGroup(left: string, word: string, right: string, l: seq<Token>, r: seq<Token>, rest: string)
    requires IsIdentifier(word)
    requires forall more :: Boundary(more) ==> Lex(left + more) == Prepend(l, Lex(more))
    requires forall more :: Boundary(more) ==> Lex(right + more) == Prepend(r, Lex(more))
    ensures Lex("(" + (left + ((" " + word + " ") + (right + ")"))) + rest)
      == Prepend(Group(l, word, r), Lex(rest))
  {
    hide Lex, Prepend, IsIdentifier;
    var close := ")" + rest;
    var second := right + close;
    var middle := " " + (word + (" " + second));
    var all := "(" + (left + ((" " + word + " ") + (right + ")"))) + rest;
    assert all == "(" + (left + middle);
    LexMark('(', LeftParen, left + middle);
    LexSpace(word + (" " + second));
    LexIdentifier(word, " " + second);
    LexSpace(second);
    LexMark(')', RightParen, rest);
    var w := [Token(Identifier, word)];
    PrependPrepend(r, [Token(RightParen, ")")], Lex(rest));
    PrependPrepend(w, r + [Token(RightParen, ")")], Lex(rest));
    PrependPrepend(l, w + (r + [Token(RightParen, ")")]), Lex(rest));
    PrependPrepend([Token(LeftParen, "(")], l + (w + (r + [Token(RightParen, ")")])), Lex(rest));
  }

  /** The tokenizer cuts printed text into exactly the intended tokens. */
  lemma {:induction false} LexPrint(c: Check, rest: string)
    requires Simple(c) && Whole(c) && Named(c) && Boundary(rest)
    ensures Lex(Print(c) + rest) == Prepend(Tokens(c), Lex(rest))
    decreases c
  {
    hide Lex, Prepend, IsIdentifier;
    match c {
      case Comparison(column, op, rhs) =>
        LexComparison(column, op, rhs, rest);
      case Conjunction(l, r) =>
        forall more | Boundary(more)
          ensures Lex(Print(l) + more) == Prepend(Tokens(l), Lex(more))
        {
          LexPrint(l, more);
        }
        forall more | Boundary(more)
          ensures Lex(Print(r) + more) == Prepend(Tokens(r), Lex(more))
        {
          LexPrint(r, more);
        }
        WordsAreIdentifiers();
        assert " AND " == " " + "AND" + " ";
        LexGroup(Print(l), "AND", Print(r), Tokens(l), Tokens(r), rest);
      case Disjunction(l, r) =>
        forall more | Boundary(more)
          ensures Lex(Print(l) + more) == Prepend(Tokens(l), Lex(more))
        {
          LexPrint(l, more);
        }
        forall more | Boundary(more)
          ensures Lex(Print(r) + more) == Prepend(Tokens(r), Lex(more))
        {
          LexPrint(r, more);
        }
        WordsAreIdentifiers();
        assert " OR " == " " + "OR" + " ";
        LexGroup(Print(l), "OR", Print(r), Tokens(l), Tokens(r), rest);
    }
  }

  lemma WordsAreIdentifiers()
    ensures IsIdentifier("AND") && IsIdentifier("OR")
  {
    assert "AND"[1..] == "ND" && "ND"[1..] == "D" && "D"[1..] == "" && "OR"[1..] == "R" && "R"[1..] == "";
  }
}
