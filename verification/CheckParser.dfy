/** The recursive-descent parser of predicates, and the round trip of CHECK
    constraints through their printed text. */
module CheckParsers {
  import opened Values
  import opened CheckText
  import opened Decimals
  import opened Words

  const INT64_LIMIT: int := 0x8000_0000_0000_0000

  // ----- Reading tokens ---------------------------------------------------------------------

  predicate Is(ts: seq<Token>, pos: nat, kind: Kind) {
    pos < |ts| && ts[pos].kind == kind
  }

  predicate IsWord(ts: seq<Token>, pos: nat, word: string) {
    Is(ts, pos, Identifier) && SameWord(ts[pos].lexeme, word)
  }

  function DigitValue(c: char): nat {
    if IsDigit(c) then (c - '0') as int else 0
  }

  function Decimal(s: string): nat {
    if s == [] then 0 else Decimal(s[..|s| - 1]) * 10 + DigitValue(s[|s| - 1])
  }

  /** `parseIntLiteral` fails outside the 64-bit range. */
  function ParseInt(s: string): Option<int> {
    if Decimal(s) < INT64_LIMIT then Some(Decimal(s)) else None
  }

  function NumberLiteral(negative: bool, lexeme: string): Option<Literal> {
    if '.' in lexeme then Some(Fraction(negative, lexeme))
    else
      var n := ParseInt(lexeme);
      if n.None? then None else Some(IntLiteral(if negative then -n.value else n.value))
  }

  type Parsed<T> = Option<(T, nat)>

  function ParseValue(ts: seq<Token>, pos: nat): (r: Parsed<Literal>)
    ensures r.Some? ==> pos < r.value.1 <= |ts|
  {
    if pos >= |ts| then None
    else
      match ts[pos].kind
      case Parameter => Some((Placeholder, pos + 1))
      case Minus =>
        if !Is(ts, pos + 1, Number) then None
        else
          var v := NumberLiteral(true, ts[pos + 1].lexeme);
          if v.None? then None else Some((v.value, pos + 2))
      case Identifier => if SameWord(ts[pos].lexeme, "NULL") then Some((NullLiteral, pos + 1)) else None
      case Text => Some((TextLiteral(ts[pos].lexeme), pos + 1))
      case Number =>
        var v := NumberLiteral(false, ts[pos].lexeme);
        if v.None? then None else Some((v.value, pos + 1))
      case _ => None
  }

  function OperatorAt(ts: seq<Token>, pos: nat): Option<CompareOp> {
    if Is(ts, pos, Equal) then Some(Eq)
    else if Is(ts, pos, Greater) then Some(Gt)
    else if Is(ts, pos, Less) then Some(Lt)
    else None
  }

  predicate PlainColumn(ts: seq<Token>, pos: nat) {
    Is(ts, pos, Identifier) && '.' !in ts[pos].lexeme
  }

  /** `parseIndexExpression`: the position after the expression. */
  function ParseIndexExpression(ts: seq<Token>, pos: nat): (r: Option<nat>)
    ensures r.Some? ==> pos < r.value <= |ts|
  {
    if Is(ts, pos, Minus) then
      if PlainColumn(ts, pos + 1) then Some(pos + 2) else None
    else if !Is(ts, pos, Identifier) then None
    else if IsWord(ts, pos, "trigram") then
      if Is(ts, pos + 1, LeftParen) && PlainColumn(ts, pos + 2) && Is(ts, pos + 3, RightParen) then Some(pos + 4)
      else None
    else if !PlainColumn(ts, pos) then None
    else if Is(ts, pos + 1, Plus) || Is(ts, pos + 1, Minus) then
      var v := ParseValue(ts, pos + 2);
      if v.None? then None else Some(v.value.1)
    else Some(pos + 1)
  }

  /** `(expr) op value`, after the opening parenthesis. */
  function ParseExpressionComparison(ts: seq<Token>, pos: nat): (r: Option<nat>)
    ensures r.Some? ==> pos < r.value <= |ts|
  {
    var e := ParseIndexExpression(ts, pos);
    if e.None? || !Is(ts, e.value, RightParen) || OperatorAt(ts, e.value + 1).None? then None
    else
      var v := ParseValue(ts, e.value + 2);
      if v.None? then None else Some(v.value.1)
  }

  // ----- Predicates ----------------------------------------------------------------------------

  /** Where a subquery that starts at a position ends; its parser is not part of this
      model, except that it moves forward. */
  type Subqueries = (seq<Token>, nat) -> Option<nat>

  function Subquery(sub: Subqueries, ts: seq<Token>, pos: nat): (r: Option<nat>)
    ensures r.Some? ==> pos < r.value < |ts|
  {
    var r := sub(ts, pos);
    if r.Some? && pos < r.value < |ts| then r else None
  }

  function ParseList(ts: seq<Token>, pos: nat): (r: Option<nat>)
    ensures r.Some? ==> pos < r.value <= |ts|
    decreases |ts| - pos
  {
    var v := ParseValue(ts, pos);
    if v.None? then None
    else if Is(ts, v.value.1, Comma) then ParseList(ts, v.value.1 + 1)
    else Some(v.value.1)
  }

  /** IN with a subquery or a list, after the opening parenthesis. */
  function ParseIn(sub: Subqueries, ts: seq<Token>, pos: nat): (r: Option<nat>)
    ensures r.Some? ==> pos < r.value <= |ts|
  {
    var last :=
      if IsWord(ts, pos, "SELECT") || IsWord(ts, pos, "WITH") then Subquery(sub, ts, pos) else ParseList(ts, pos);
    if last.Some? && Is(ts, last.value, RightParen) then Some(last.value + 1) else None
  }

  function ParseComparison(sub: Subqueries, ts: seq<Token>, pos: nat): (r: Parsed<Check>)
    ensures r.Some? ==> pos < r.value.1 <= |ts|
  {
    if !Is(ts, pos, Identifier) then None
    else if IsWord(ts, pos + 1, "IN") then
      var last := if Is(ts, pos + 2, LeftParen) then ParseIn(sub, ts, pos + 3) else None;
      if last.None? then None else Some((Unsupported, last.value))
    else if IsWord(ts, pos + 1, "LIKE") || Is(ts, pos + 1, Tilde) then
      var v := ParseValue(ts, pos + 2);
      if v.Some? && v.value.0.TextLiteral? then Some((Unsupported, v.value.1)) else None
    else
      var op := OperatorAt(ts, pos + 1);
      if op.None? then None
      else if Is(ts, pos + 2, Identifier) && !IsWord(ts, pos + 2, "NULL") then
        Some((Comparison(ts[pos].lexeme, op.value, ColumnRef(ts[pos + 2].lexeme)), pos + 3))
      else
        var v := ParseValue(ts, pos + 2);
        if v.None? then None else Some((Comparison(ts[pos].lexeme, op.value, Constant(v.value.0)), v.value.1))
  }

  /** A comparison of an expression is tried first; on failure the parser goes back to
      the parenthesis and reads a predicate. */
  function ParsePrimary(sub: Subqueries, ts: seq<Token>, pos: nat): (r: Parsed<Check>)
    ensures r.Some? ==> pos < r.value.1 <= |ts|
    decreases |ts| - pos, 0
  {
    if pos >= |ts| then None
    else if IsWord(ts, pos, "EXISTS") then
      var last := if Is(ts, pos + 1, LeftParen) then Subquery(sub, ts, pos + 2) else None;
      if last.Some? && Is(ts, last.value, RightParen) then Some((Unsupported, last.value + 1)) else None
    else if Is(ts, pos, LeftParen) then
      var attempt :=
        if Is(ts, pos + 1, Identifier) || Is(ts, pos + 1, Minus) then ParseExpressionComparison(ts, pos + 1) else None;
      if attempt.Some? then Some((Unsupported, attempt.value))
      else
        var inner := ParseOr(sub, ts, pos + 1);
        if inner.Some? && Is(ts, inner.value.1, RightParen) then Some((inner.value.0, inner.value.1 + 1)) else None
    else ParseComparison(sub, ts, pos)
  }

  function ParseAnd(sub: Subqueries, ts: seq<Token>, pos: nat): (r: Parsed<Check>)
    ensures r.Some? ==> pos < r.value.1 <= |ts|
    decreases |ts| - pos, 1
  {
    var first := ParsePrimary(sub, ts, pos);
    if first.None? then None else AndTail(sub, ts, first.value.0, first.value.1)
  }

  function AndTail(sub: Subqueries, ts: seq<Token>, left: Check, pos: nat): (r: Parsed<Check>)
    requires pos <= |ts|
    ensures r.Some? ==> pos <= r.value.1 <= |ts|
    decreases |ts| - pos, 2
  {
    if !IsWord(ts, pos, "AND") then Some((left, pos))
    else
      var next := ParsePrimary(sub, ts, pos + 1);
      if next.None? then None else AndTail(sub, ts, Conjunction(left, next.value.0), next.value.1)
  }

  function ParseOr(sub: Subqueries, ts: seq<Token>, pos: nat): (r: Parsed<Check>)
    ensures r.Some? ==> pos < r.value.1 <= |ts|
    decreases |ts| - pos, 3
  {
    var first := ParseAnd(sub, ts, pos);
    if first.None? then None else OrTail(sub, ts, first.value.0, first.value.1)
  }

  function OrTail(sub: Subqueries, ts: seq<Token>, left: Check, pos: nat): (r: Parsed<Check>)
    requires pos <= |ts|
    ensures r.Some? ==> pos <= r.value.1 <= |ts|
    decreases |ts| - pos, 2
  {
    if !IsWord(ts, pos, "OR") then Some((left, pos))
    else
      var next := ParseAnd(sub, ts, pos + 1);
      if next.None? then None else OrTail(sub, ts, Disjunction(left, next.value.0), next.value.1)
  }

  /** `parseCheckConstraintExpression`: the whole text must be one simple predicate. */
  function ParseCheck(sub: Subqueries, ts: seq<Token>): Option<Check> {
    var r := ParseOr(sub, ts, 0);
    if r.None? || (r.value.1 < |ts| && ts[r.value.1].kind != End) || !Simple(r.value.0) then None
    else Some(r.value.0)
  }

  function Accept(sub: Subqueries, text: string): Option<Check> {
    var ts := Lex(text);
    if ts.None? then None else ParseCheck(sub, ts.value)
  }

  // ----- What can be printed and read back ----------------------------------------------------------

  ghost predicate LeafPrintable(column: string, rhs: Side) {
    && IsIdentifier(column) && !SameWord(column, "EXISTS")
    && match rhs
       case ColumnRef(name) => IsIdentifier(name) && !SameWord(name, "NULL")
       case Constant(v) => v.IntLiteral? ==> -INT64_LIMIT < v.n < INT64_LIMIT
  }

  /** Columns are identifiers other than the keywords at their position, and integers
      lie strictly above the smallest 64-bit one. */
  ghost predicate Printable(c: Check) {
    match c
    case Comparison(column, _, rhs) => LeafPrintable(column, rhs)
    case Conjunction(l, r) => Printable(l) && Printable(r)
    case Disjunction(l, r) => Printable(l) && Printable(r)
    case Unsupported => true
  }

  lemma {:induction false} PrintableNamed(c: Check)
    requires Printable(c)
    ensures Named(c)
    decreases c
  {
    hide IsIdentifier, SameWord;
    match c {
      case Comparison(_, _, _) =>
      case Conjunction(l, r) => PrintableNamed(l); PrintableNamed(r);
      case Disjunction(l, r) => PrintableNamed(l); PrintableNamed(r);
      case Unsupported =>
    }
  }

  lemma {:induction false} DecimalDigits(n: nat)
    ensures Decimal(Digits(n)) == n && '.' !in Digits(n)
  {
    var s := Digits(n);
    if n < 10 {
      assert s[..|s| - 1] == [];
    } else {
      DecimalDigits(n / 10);
      assert s[..|s| - 1] == Digits(n / 10);
    }
    assert DigitValue(s[|s| - 1]) == n % 10;
  }

  /** The tokens from `pos` on begin with `part`. */
  ghost predicate Holds(ts: seq<Token>, pos: nat, part: seq<Token>) {
    pos + |part| <= |ts| && ts[pos..pos + |part|] == part
  }

  lemma HoldsAt(ts: seq<Token>, pos: nat, part: seq<Token>, i: nat)
    requires Holds(ts, pos, part) && i < |part|
    ensures pos + i < |ts| && ts[pos + i] == part[i]
  {
    assert ts[pos..pos + |part|][i] == part[i];
  }

  lemma HoldsParts(ts: seq<Token>, pos: nat, a: seq<Token>, b: seq<Token>)
    requires Holds(ts, pos, a + b)
    ensures Holds(ts, pos, a) && Holds(ts, pos + |a|, b)
  {
    var all := ts[pos..pos + |a + b|];
    assert all[..|a|] == a && all[|a|..] == b;
    assert ts[pos..pos + |a|] == all[..|a|];
    assert ts[pos + |a|..pos + |a| + |b|] == all[|a|..];
  }

  lemma LiteralReads(ts: seq<Token>, pos: nat, v: Literal)
    requires !v.Fraction? && !v.Placeholder? && (v.IntLiteral? ==> -INT64_LIMIT < v.n < INT64_LIMIT)
    requires Holds(ts, pos, LiteralTokens(v))
    ensures ParseValue(ts, pos) == Some((v, pos + |LiteralTokens(v)|))
    ensures Is(ts, pos, Identifier) ==> IsWord(ts, pos, "NULL")
  {
    hide Digits, Decimal;
    HoldsAt(ts, pos, LiteralTokens(v), 0);
    if v.IntLiteral? {
      if v.n < 0 {
        HoldsAt(ts, pos, LiteralTokens(v), 1);
        DecimalDigits(-v.n);
      } else {
        DecimalDigits(v.n);
      }
    }
  }

  lemma ComparisonReads(sub: Subqueries, ts: seq<Token>, pos: nat, c: Check)
    requires c.Comparison? && Simple(c) && Whole(c) && Printable(c) && Holds(ts, pos, Tokens(c))
    ensures ParsePrimary(sub, ts, pos) == Some((c, pos + |Tokens(c)|))
  {
    hide IsIdentifier, SameWord, ParseValue, LiteralTokens;
    var rhs := c.rhs;
    HoldsAt(ts, pos, Tokens(c), 0);
    HoldsAt(ts, pos, Tokens(c), 1);
    HoldsParts(ts, pos, [Token(Identifier, c.column), OperatorToken(c.op)], SideTokens(rhs));
    if rhs.ColumnRef? {
      HoldsAt(ts, pos + 2, SideTokens(rhs), 0);
    } else {
      LiteralReads(ts, pos + 2, rhs.literal);
    }
    assert OperatorAt(ts, pos + 1) == Some(c.op);
    assert !IsWord(ts, pos, "EXISTS");
    assert ParseComparison(sub, ts, pos) == Some((c, pos + |Tokens(c)|));
  }

  /** Printed text never opens with an expression comparison: after a column comes an
      operator, neither a parenthesis nor an arithmetic sign. */
  lemma AttemptFails(ts: seq<Token>, pos: nat, c: Check)
    requires Simple(c) && Whole(c) && Holds(ts, pos, Tokens(c))
    ensures !Is(ts, pos, Minus)
    ensures Is(ts, pos, Identifier) ==> ParseExpressionComparison(ts, pos) == None
  {
    hide SameWord, ParseValue, SideTokens;
    HoldsAt(ts, pos, Tokens(c), 0);
    if c.Comparison? {
      HoldsAt(ts, pos, Tokens(c), 1);
    }
  }

  lemma GroupParts(ts: seq<Token>, pos: nat, l: seq<Token>, word: string, r: seq<Token>)
    requires Holds(ts, pos, Group(l, word, r))
    ensures Is(ts, pos, LeftParen) && Holds(ts, pos + 1, l)
    ensures IsWord(ts, pos + 1 + |l|, word) && Holds(ts, pos + 2 + |l|, r)
    ensures Is(ts, pos + 2 + |l| + |r|, RightParen) && |Group(l, word, r)| == 3 + |l| + |r|
  {
    hide Holds;
    var w := Token(Identifier, word);
    var open, close := [Token(LeftParen, "(")], [Token(RightParen, ")")];
    HoldsParts(ts, pos, open, l + ([w] + (r + close)));
    HoldsAt(ts, pos, open, 0);
    HoldsParts(ts, pos + 1, l, [w] + (r + close));
    HoldsParts(ts, pos + 1 + |l|, [w], r + close);
    HoldsAt(ts, pos + 1 + |l|, [w], 0);
    HoldsParts(ts, pos + 2 + |l|, r, close);
    HoldsAt(ts, pos + 2 + |l| + |r|, close, 0);
  }

  lemma AndStops(sub: Subqueries, ts: seq<Token>, c: Check, pos: nat)
    requires pos < |ts| && !IsWord(ts, pos, "AND")
    ensures AndTail(sub, ts, c, pos) == Some((c, pos))
  {
  }

  lemma OrStops(sub: Subqueries, ts: seq<Token>, c: Check, pos: nat)
    requires pos < |ts| && !IsWord(ts, pos, "OR")
    ensures OrTail(sub, ts, c, pos) == Some((c, pos))
  {
  }

  lemma AndReads(sub: Subqueries, ts: seq<Token>, start: nat, l: Check, mid: nat, r: Check, last: nat)
    requires ParsePrimary(sub, ts, start) == Some((l, mid)) && IsWord(ts, mid, "AND")
    requires ParsePrimary(sub, ts, mid + 1) == Some((r, last)) && Is(ts, last, RightParen)
    ensures ParseOr(sub, ts, start) == Some((Conjunction(l, r), last))
  {
    hide ParsePrimary, SameWord;
    AndStops(sub, ts, Conjunction(l, r), last);
    OrStops(sub, ts, Conjunction(l, r), last);
    assert AndTail(sub, ts, l, mid) == Some((Conjunction(l, r), last));
  }

  lemma OrReads(sub: Subqueries, ts: seq<Token>, start: nat, l: Check, mid: nat, r: Check, last: nat)
    requires ParsePrimary(sub, ts, start) == Some((l, mid)) && IsWord(ts, mid, "OR")
    requires ParsePrimary(sub, ts, mid + 1) == Some((r, last)) && Is(ts, last, RightParen)
    ensures ParseOr(sub, ts, start) == Some((Disjunction(l, r), last))
  {
    hide ParsePrimary;
    assert |ts[mid].lexeme| == 2;
    AndStops(sub, ts, l, mid);
    AndStops(sub, ts, r, last);
    OrStops(sub, ts, Disjunction(l, r), last);
    assert ParseAnd(sub, ts, mid + 1) == Some((r, last));
    assert OrTail(sub, ts, l, mid) == Some((Disjunction(l, r), last));
  }

  lemma ParenthesesRead(sub: Subqueries, ts: seq<Token>, pos: nat, l: Check, c: Check, last: nat)
    requires Is(ts, pos, LeftParen) && Simple(l) && Whole(l) && Holds(ts, pos + 1, Tokens(l))
    requires ParseOr(sub, ts, pos + 1) == Some((c, last)) && Is(ts, last, RightParen)
    ensures ParsePrimary(sub, ts, pos) == Some((c, last + 1))
  {
    hide ParseOr, ParseExpressionComparison, ParseComparison, Tokens, SameWord, Holds;
    AttemptFails(ts, pos + 1, l);
  }

  ghost predicate PartsRead(sub: Subqueries, ts: seq<Token>, pos: nat, l: Check, r: Check)
    requires Simple(l) && Whole(l) && Simple(r) && Whole(r)
  {
    var mid := pos + 1 + |Tokens(l)|;
    && ParsePrimary(sub, ts, pos + 1) == Some((l, mid))
    && ParsePrimary(sub, ts, mid + 1) == Some((r, mid + 1 + |Tokens(r)|))
  }

  lemma GroupReads(sub: Subqueries, ts: seq<Token>, pos: nat, l: Check, r: Check, both: bool)
    requires Simple(l) && Whole(l) && Simple(r) && Whole(r)
    requires Holds(ts, pos, Group(Tokens(l), if both then "AND" else "OR", Tokens(r))) && PartsRead(sub, ts, pos, l, r)
    ensures ParsePrimary(sub, ts, pos) ==
      Some((if both then Conjunction(l, r) else Disjunction(l, r), pos + 3 + |Tokens(l)| + |Tokens(r)|))
  {
    hide Holds, ParsePrimary, ParseOr, Tokens, SameWord, Simple, Whole, Group;
    GroupParts(ts, pos, Tokens(l), if both then "AND" else "OR", Tokens(r));
    var mid := pos + 1 + |Tokens(l)|;
    var last := mid + 1 + |Tokens(r)|;
    if both {
      AndReads(sub, ts, pos + 1, l, mid, r, last);
      ParenthesesRead(sub, ts, pos, l, Conjunction(l, r), last);
    } else {
      OrReads(sub, ts, pos + 1, l, mid, r, last);
      ParenthesesRead(sub, ts, pos, l, Disjunction(l, r), last);
    }
  }

  /** The parser reads the tokens of a printed predicate as that predicate. */
  lemma {:induction false} PrimaryReads(sub: Subqueries, ts: seq<Token>, pos: nat, c: Check)
    requires Simple(c) && Whole(c) && Printable(c) && Holds(ts, pos, Tokens(c))
    ensures ParsePrimary(sub, ts, pos) == Some((c, pos + |Tokens(c)|))
    decreases c
  {
    hide Holds, ParsePrimary, LeafPrintable, Group, SideTokens, SameWord;
    if c.Comparison? {
      ComparisonReads(sub, ts, pos, c);
    } else {
      var both, l, r := c.Conjunction?, c.left, c.right;
      assert Tokens(c) == Group(Tokens(l), if both then "AND" else "OR", Tokens(r));
      GroupParts(ts, pos, Tokens(l), if both then "AND" else "OR", Tokens(r));
      PrimaryReads(sub, ts, pos + 1, l);
      PrimaryReads(sub, ts, pos + 2 + |Tokens(l)|, r);
      GroupReads(sub, ts, pos, l, r, both);
    }
  }

  /** Printing and parsing again gives back the same tree. */
  lemma PrintedReadsBack(sub: Subqueries, c: Check)
    requires Simple(c) && Whole(c) && Printable(c)
    ensures Accept(sub, Print(c)) == Some(c)
  {
    hide Print, ParsePrimary, Lex, ParseCheck, Tokens, Simple, Whole, Printable;
    PrintableNamed(c);
    LexPrint(c, []);
    assert Print(c) + [] == Print(c);
    var last := [Token(End, [])];
    assert Lex([]) == Some(last) by { LexEmpty(); }
    var ts := Tokens(c) + last;
    assert Lex(Print(c)) == Some(ts);
    assert ts[0..|Tokens(c)|] == Tokens(c);
    PrimaryReads(sub, ts, 0, c);
    WholeText(sub, ts, c, |Tokens(c)|);
  }

  lemma WholeText(sub: Subqueries, ts: seq<Token>, c: Check, n: nat)
    requires ParsePrimary(sub, ts, 0) == Some((c, n)) && Is(ts, n, End) && Simple(c)
    ensures ParseCheck(sub, ts) == Some(c)
  {
    hide ParsePrimary, SameWord;
    AndStops(sub, ts, c, n);
    OrStops(sub, ts, c, n);
    assert ParseAnd(sub, ts, 0) == Some((c, n));
    assert ParseOr(sub, ts, 0) == Some((c, n));
  }

  lemma LexEmpty()
    ensures Lex([]) == Some([Token(End, [])])
  {
  }

  // ----- What the parser can return ---------------------------------------------------------------

  ghost predicate GoodTokens(ts: seq<Token>) {
    forall i :: 0 <= i < |ts| && ts[i].kind == Identifier ==> IsIdentifier(ts[i].lexeme)
  }

  lemma {:induction false} SpanTaken(s: string, p: char -> bool, n: nat)
    requires n <= Span(s, p)
    ensures Span(s[..n], p) == n
  {
    if n > 0 {
      assert s[..n][1..] == s[1..][..n - 1];
      SpanTaken(s[1..], p, n - 1);
    }
  }

  lemma TokenIsGood(s: string)
    requires s != []
    ensures NextToken(s).Some? && NextToken(s).value.0.kind == Identifier ==> IsIdentifier(NextToken(s).value.0.lexeme)
  {
    hide ReadText, Punctuation;
    PunctuationKinds(s[0]);
    if IsIdentifierStart(s[0]) {
      var n := Span(s[1..], IsIdentifierPart);
      SpanTaken(s[1..], IsIdentifierPart, n);
      assert s[..n + 1][1..] == s[1..][..n];
    }
  }

  lemma PunctuationKinds(c: char)
    ensures Punctuation(c) != Some(Identifier)
  {
  }

  lemma {:induction false} LexIsGood(s: string)
    ensures Lex(s).Some? ==> GoodTokens(Lex(s).value)
    decreases |s|
  {
    hide NextToken, IsIdentifier;
    if s != [] {
      TokenIsGood(s);
      LexIsGood(s[1..]);
      var t := NextToken(s);
      if t.Some? {
        LexIsGood(s[t.value.1..]);
      }
    }
  }

  /** A simple predicate without fractions can be printed. */
  ghost predicate Good(c: Check) {
    Simple(c) && Whole(c) ==> Printable(c)
  }

  lemma ValueIsGood(ts: seq<Token>, pos: nat)
    ensures var r := ParseValue(ts, pos); r.Some? && r.value.0.IntLiteral? ==> -INT64_LIMIT < r.value.0.n < INT64_LIMIT
  {
    hide Decimal, SameWord;
  }

  lemma ComparisonIsGood(sub: Subqueries, ts: seq<Token>, pos: nat)
    requires GoodTokens(ts) && !IsWord(ts, pos, "EXISTS")
    ensures var r := ParseComparison(sub, ts, pos); r.Some? ==> Good(r.value.0)
  {
    hide SameWord, IsIdentifier, ParseValue, ParseIn;
    ValueIsGood(ts, pos + 2);
  }

  lemma {:induction false} PrimaryIsGood(sub: Subqueries, ts: seq<Token>, pos: nat)
    requires GoodTokens(ts)
    ensures var r := ParsePrimary(sub, ts, pos); r.Some? ==> Good(r.value.0)
    decreases |ts| - pos, 0
  {
    hide SameWord, GoodTokens, ParseComparison, ParseOr, ParseExpressionComparison, Subquery;
    if pos < |ts| && !IsWord(ts, pos, "EXISTS") {
      ComparisonIsGood(sub, ts, pos);
      OrIsGood(sub, ts, pos + 1);
    }
  }

  lemma {:induction false} AndIsGood(sub: Subqueries, ts: seq<Token>, pos: nat)
    requires GoodTokens(ts)
    ensures var r := ParseAnd(sub, ts, pos); r.Some? ==> Good(r.value.0)
    decreases |ts| - pos, 1
  {
    hide GoodTokens, ParsePrimary, AndTail, Good;
    PrimaryIsGood(sub, ts, pos);
    var first := ParsePrimary(sub, ts, pos);
    if first.Some? {
      AndTailIsGood(sub, ts, first.value.0, first.value.1);
    }
  }

  lemma {:induction false} AndTailIsGood(sub: Subqueries, ts: seq<Token>, left: Check, pos: nat)
    requires GoodTokens(ts) && Good(left) && pos <= |ts|
    ensures var r := AndTail(sub, ts, left, pos); r.Some? ==> Good(r.value.0)
    decreases |ts| - pos, 2
  {
    hide GoodTokens, ParsePrimary, SameWord;
    if IsWord(ts, pos, "AND") {
      PrimaryIsGood(sub, ts, pos + 1);
      var next := ParsePrimary(sub, ts, pos + 1);
      if next.Some? {
        AndTailIsGood(sub, ts, Conjunction(left, next.value.0), next.value.1);
      }
    }
  }

  lemma {:induction false} OrIsGood(sub: Subqueries, ts: seq<Token>, pos: nat)
    requires GoodTokens(ts)
    ensures var r := ParseOr(sub, ts, pos); r.Some? ==> Good(r.value.0)
    decreases |ts| - pos, 3
  {
    hide GoodTokens, ParseAnd, OrTail, Good;
    AndIsGood(sub, ts, pos);
    var first := ParseAnd(sub, ts, pos);
    if first.Some? {
      OrTailIsGood(sub, ts, first.value.0, first.value.1);
    }
  }

  lemma {:induction false} OrTailIsGood(sub: Subqueries, ts: seq<Token>, left: Check, pos: nat)
    requires GoodTokens(ts) && Good(left) && pos <= |ts|
    ensures var r := OrTail(sub, ts, left, pos); r.Some? ==> Good(r.value.0)
    decreases |ts| - pos, 2
  {
    hide GoodTokens, ParseAnd, SameWord;
    if IsWord(ts, pos, "OR") {
      AndIsGood(sub, ts, pos + 1);
      var next := ParseAnd(sub, ts, pos + 1);
      if next.Some? {
        OrTailIsGood(sub, ts, Disjunction(left, next.value.0), next.value.1);
      }
    }
  }

  /** Every CHECK that the parser accepts survives being stored as text and read
      again, unless it has a literal with a decimal point. */
  lemma AcceptedChecksSurvive(sub: Subqueries, text: string)
    ensures var c := Accept(sub, text);
      c.Some? ==> Simple(c.value) && (Whole(c.value) ==> Printable(c.value) && Accept(sub, Print(c.value)) == c)
  {
    hide Lex, ParseOr, Print, Simple, Whole, Printable;
    var ts := Lex(text);
    var c := Accept(sub, text);
    if c.Some? {
      LexIsGood(text);
      OrIsGood(sub, ts.value, 0);
      assert Good(c.value);
      if Whole(c.value) {
        PrintedReadsBack(sub, c.value);
      }
    }
  }

  /** The condition is exact: a predicate reads back as itself if and only if it is
      printable. */
  lemma ReadsBackExactly(sub: Subqueries, c: Check)
    requires Simple(c) && Whole(c)
    ensures Accept(sub, Print(c)) == Some(c) <==> Printable(c)
  {
    hide Accept, Print, Simple, Whole, Printable;
    AcceptedChecksSurvive(sub, Print(c));
    if Printable(c) {
      PrintedReadsBack(sub, c);
    }
  }

  // ----- The parser with its cursor ------------------------------------------------------------------

  /** The result and the cursor after a call; a failed call may leave the cursor
      anywhere. */
  ghost predicate Did<T>(expected: Parsed<T>, r: Option<T>, current: nat) {
    if expected.None? then r.None? else r == Some(expected.value.0) && current == expected.value.1
  }

  class Parser {
    const tokens: seq<Token>
    const sub: Subqueries
    var current: nat

    constructor (tokens: seq<Token>, sub: Subqueries)
      ensures this.tokens == tokens && this.sub == sub && current == 0
    {
      this.tokens := tokens;
      this.sub := sub;
      current := 0;
    }

    method Match(kind: Kind) returns (b: bool)
      requires kind != End
      modifies this`current
      ensures b == Is(tokens, old(current), kind) && current == if b then old(current) + 1 else old(current)
    {
      b := Is(tokens, current, kind);
      if b {
        current := current + 1;
      }
    }

    method MatchWord(word: string) returns (b: bool)
      modifies this`current
      ensures b == IsWord(tokens, old(current), word) && current == if b then old(current) + 1 else old(current)
    {
      b := IsWord(tokens, current, word);
      if b {
        current := current + 1;
      }
    }

    /** An operator token, or the exception. */
    method MatchOperator() returns (op: Option<CompareOp>)
      modifies this`current
      ensures op == OperatorAt(tokens, old(current)) && current == if op.Some? then old(current) + 1 else old(current)
    {
      var found := Match(Equal);
      if found {
        return Some(Eq);
      }
      found := Match(Greater);
      if found {
        return Some(Gt);
      }
      found := Match(Less);
      op := if found then Some(Lt) else None;
    }

    method ReadValue() returns (r: Option<Literal>)
      modifies this`current
      ensures Did(ParseValue(tokens, old(current)), r, current)
    {
      hide SameWord, NumberLiteral;
      var found := Match(Parameter);
      if found {
        return Some(Placeholder);
      }
      found := Match(Minus);
      if found {
        found := Match(Number);
        if !found {
          return None;
        }
        return NumberLiteral(true, tokens[current - 1].lexeme);
      }
      found := MatchWord("NULL");
      if found {
        return Some(NullLiteral);
      }
      found := Match(Text);
      if found {
        return Some(TextLiteral(tokens[current - 1].lexeme));
      }
      found := Match(Number);
      if found {
        return NumberLiteral(false, tokens[current - 1].lexeme);
      }
      return None;
    }

    method ReadColumn() returns (b: bool)
      modifies this`current
      ensures b == PlainColumn(tokens, old(current)) && (b ==> current == old(current) + 1)
    {
      b := Match(Identifier);
      if b {
        b := '.' !in tokens[current - 1].lexeme;
      }
    }

    method ReadIndexExpression() returns (ok: bool)
      modifies this`current
      ensures var e := ParseIndexExpression(tokens, old(current)); ok == e.Some? && (ok ==> current == e.value)
    {
      hide SameWord, ParseValue;
      var found := Match(Minus);
      if found {
        ok := ReadColumn();
        return;
      }
      found := MatchWord("trigram");
      if found {
        ok := Match(LeftParen);
        if ok {
          ok := ReadColumn();
        }
        if ok {
          ok := Match(RightParen);
        }
        return;
      }
      ok := ReadColumn();
      if !ok {
        return;
      }
      found := Match(Plus);
      if !found {
        found := Match(Minus);
      }
      if found {
        var v := ReadValue();
        ok := v.Some?;
      }
    }

    method ReadExpressionComparison() returns (ok: bool)
      modifies this`current
      ensures var e := ParseExpressionComparison(tokens, old(current)); ok == e.Some? && (ok ==> current == e.value)
    {
      hide ParseIndexExpression, ParseValue;
      ok := ReadIndexExpression();
      if ok {
        ok := Match(RightParen);
      }
      if ok {
        var op := MatchOperator();
        ok := op.Some?;
      }
      if ok {
        var v := ReadValue();
        ok := v.Some?;
      }
    }

    method ReadIn() returns (ok: bool)
      modifies this`current
      ensures var e := ParseIn(sub, tokens, old(current)); ok == e.Some? && (ok ==> current == e.value)
    {
      hide ParseValue, SameWord, Subquery;
      if IsWord(tokens, current, "SELECT") || IsWord(tokens, current, "WITH") {
        var last := Subquery(sub, tokens, current);
        if last.None? {
          return false;
        }
        current := last.value;
      } else {
        var more := true;
        while more
          invariant more ==> ParseList(tokens, current) == ParseList(tokens, old(current))
          invariant !more ==> ParseList(tokens, old(current)) == Some(current)
          decreases if more then 1 + |tokens| - current else 0, more
        {
          var v := ReadValue();
          if v.None? {
            return false;
          }
          more := Match(Comma);
        }
      }
      ok := Match(RightParen);
    }

    method ReadComparison() returns (r: Option<Check>)
      modifies this`current
      ensures Did(ParseComparison(sub, tokens, old(current)), r, current)
    {
      hide ParseValue, SameWord, ParseIn;
      var found := Match(Identifier);
      if !found {
        return None;
      }
      var column := tokens[current - 1].lexeme;
      found := MatchWord("IN");
      if found {
        found := Match(LeftParen);
        if found {
          found := ReadIn();
        }
        return if found then Some(Unsupported) else None;
      }
      found := MatchWord("LIKE");
      if !found {
        found := Match(Tilde);
      }
      if found {
        var pattern := ReadValue();
        return if pattern.Some? && pattern.value.TextLiteral? then Some(Unsupported) else None;
      }
      var op := MatchOperator();
      if op.None? {
        return None;
      }
      if Is(tokens, current, Identifier) && !IsWord(tokens, current, "NULL") {
        current := current + 1;
        return Some(Comparison(column, op.value, ColumnRef(tokens[current - 1].lexeme)));
      }
      var v := ReadValue();
      return if v.None? then None else Some(Comparison(column, op.value, Constant(v.value)));
    }

    method ReadPrimary() returns (r: Option<Check>)
      modifies this`current
      ensures Did(ParsePrimary(sub, tokens, old(current)), r, current)
      decreases |tokens| - current, 0
    {
      hide SameWord, ParseComparison, ParseExpressionComparison, ParseOr, Subquery;
      var found := MatchWord("EXISTS");
      if found {
        found := Match(LeftParen);
        var last := if found then Subquery(sub, tokens, current) else None;
        if last.None? {
          return None;
        }
        current := last.value;
        found := Match(RightParen);
        return if found then Some(Unsupported) else None;
      }
      found := Match(LeftParen);
      if found {
        if Is(tokens, current, Identifier) || Is(tokens, current, Minus) {
          var saved := current;
          var ok := ReadExpressionComparison();
          if ok {
            return Some(Unsupported);
          }
          current := saved;
        }
        r := ReadOr();
        if r.Some? {
          found := Match(RightParen);
          if !found {
            return None;
          }
        }
        return;
      }
      r := ReadComparison();
    }

    method ReadAnd() returns (r: Option<Check>)
      modifies this`current
      ensures Did(ParseAnd(sub, tokens, old(current)), r, current)
      decreases |tokens| - current, 1
    {
      hide SameWord, ParsePrimary;
      r := ReadPrimary();
      if r.None? {
        return;
      }
      ghost var start := old(current);
      var found := MatchWord("AND");
      while found
        invariant r.Some? && start < current <= |tokens|
        invariant !found ==> !IsWord(tokens, current, "AND")
        invariant current - (if found then 1 else 0) > start
        invariant AndTail(sub, tokens, r.value, if found then current - 1 else current) == ParseAnd(sub, tokens, start)
        invariant found ==> IsWord(tokens, current - 1, "AND")
        decreases |tokens| - current, found
      {
        var next := ReadPrimary();
        if next.None? {
          return None;
        }
        r := Some(Conjunction(r.value, next.value));
        found := MatchWord("AND");
      }
    }

    method ReadOr() returns (r: Option<Check>)
      modifies this`current
      ensures Did(ParseOr(sub, tokens, old(current)), r, current)
      decreases |tokens| - current, 3
    {
      hide SameWord, ParseAnd;
      r := ReadAnd();
      if r.None? {
        return;
      }
      ghost var start := old(current);
      var found := MatchWord("OR");
      while found
        invariant r.Some? && start < current <= |tokens|
        invariant !found ==> !IsWord(tokens, current, "OR")
        invariant current - (if found then 1 else 0) > start
        invariant OrTail(sub, tokens, r.value, if found then current - 1 else current) == ParseOr(sub, tokens, start)
        invariant found ==> IsWord(tokens, current - 1, "OR")
        decreases |tokens| - current, found
      {
        var next := ReadAnd();
        if next.None? {
          return None;
        }
        r := Some(Disjunction(r.value, next.value));
        found := MatchWord("OR");
      }
    }
  }

  /** The stored text of a CHECK constraint is read back. */
  method ParseCheckConstraintExpression(text: string, sub: Subqueries) returns (r: Option<Check>)
    ensures r == Accept(sub, text)
    ensures forall c | Simple(c) && Whole(c) && Print(c) == text :: r == Some(c) <==> Printable(c)
  {
    hide Lex, Print, Printable, ParseOr;
    forall c | Simple(c) && Whole(c) && Print(c) == text ensures Accept(sub, text) == Some(c) <==> Printable(c) {
      ReadsBackExactly(sub, c);
    }
    var ts := Tokenize(text);
    if ts.None? {
      return None;
    }
    var parser := new Parser(ts.value, sub);
    r := parser.ReadOr();
    if r.None? || (parser.current < |parser.tokens| && parser.tokens[parser.current].kind != End) || !Simple(r.value) {
      return None;
    }
  }
}
