/** WHERE trees: what they mean, and how the planner takes them apart and puts
    them together again. */
module Predicates {
  import opened Values
  import opened LikePatterns

  /** Arithmetic over a column, or the trigrams of a text column. */
  datatype IndexExpression =
    | Arithmetic(column: string, kind: nat, literal: Value)
    | Trigram(column: string)

  /** `Other` stands for the leaves no index serves: regular expressions and
      subqueries. */
  datatype Predicate =
    | Comparison(column: string, expr: Option<IndexExpression>, op: CompareOp, value: Value, rhs: Option<string>)
    | InList(column: string, expr: Option<IndexExpression>, values: seq<Value>)
    | Like(column: string, pattern: string)
    | Other(tag: nat)
    | And(left: Predicate, right: Predicate)
    | Or(left: Predicate, right: Predicate)

  /** How names, arithmetic and unindexable leaves are evaluated on a row. */
  datatype Env = Env(
    cell: (Row, string) -> Value,
    arith: (IndexExpression, Row) -> Value,
    other: (nat, Row) -> bool)

  /** The left-hand side of a comparison or IN list.  A trigram expression used
      this way denotes the text itself. */
  function Operand(env: Env, column: string, expr: Option<IndexExpression>, row: Row): Value {
    match expr
    case None => env.cell(row, column)
    case Some(Trigram(c)) => env.cell(row, c)
    case Some(e) => env.arith(e, row)
  }

  /** `evalPredicate`. */
  ghost predicate Eval(env: Env, p: Predicate, row: Row) {
    match p
    case Comparison(column, expr, op, value, rhs) =>
      Compare(Operand(env, column, expr, row), op, if rhs.Some? then env.cell(row, rhs.value) else value)
    case InList(column, expr, values) => Operand(env, column, expr, row) in values
    case Like(column, pattern) => env.cell(row, column).Str? && Matches(env.cell(row, column).s, pattern)
    case Other(tag) => env.other(tag, row)
    case And(left, right) => Eval(env, left, row) && Eval(env, right, row)
    case Or(left, right) => Eval(env, left, row) || Eval(env, right, row)
  }

  ghost predicate AllHold(env: Env, ps: seq<Predicate>, row: Row) {
    forall i :: 0 <= i < |ps| ==> Eval(env, ps[i], row)
  }

  ghost predicate AnyHolds(env: Env, ps: seq<Predicate>, row: Row) {
    exists i :: 0 <= i < |ps| && Eval(env, ps[i], row)
  }

  /** An absent filter passes everything. */
  ghost predicate Passes(env: Env, p: Option<Predicate>, row: Row) {
    p.None? || Eval(env, p.value, row)
  }

  /** An absent complement adds nothing. */
  ghost predicate Adds(env: Env, p: Option<Predicate>, row: Row) {
    p.Some? && Eval(env, p.value, row)
  }

  /** The columns that a tree compares with literals or patterns. */
  function Names(p: Predicate): set<string> {
    match p
    case Comparison(column, expr, _, _, rhs) => if expr.Some? || rhs.Some? then {} else {column}
    case InList(column, expr, _) => if expr.Some? then {} else {column}
    case Like(column, _) => {column}
    case Other(_) => {}
    case And(left, right) => Names(left) + Names(right)
    case Or(left, right) => Names(left) + Names(right)
  }

  ghost predicate AllNamed(ps: seq<Predicate>, names: set<string>) {
    forall i :: 0 <= i < |ps| ==> Names(ps[i]) <= names
  }

  /** What a comparison with a literal selects, by what the order of values is. */
  lemma ComparisonSelects(
      env: Env, column: string, expr: Option<IndexExpression>, op: CompareOp, value: Value, row: Row)
    ensures Eval(env, Comparison(column, expr, op, value, None), row) <==>
      var cell := Operand(env, column, expr, row);
      match op
      case Eq => cell == value
      case Gt => ComesBefore(value, cell)
      case Lt => ComesBefore(cell, value)
  {
    hide ComesBefore, Compare;
    ComparisonIs(Operand(env, column, expr, row), op, value);
  }

  // ----- Conjuncts and disjuncts ------------------------------------------------

  function Conjuncts(p: Predicate): (ps: seq<Predicate>)
    ensures ps != []
  {
    if p.And? then Conjuncts(p.left) + Conjuncts(p.right) else [p]
  }

  function Disjuncts(p: Predicate): (ps: seq<Predicate>)
    ensures ps != []
    ensures p.Or? ==> |ps| >= 2
  {
    if p.Or? then Disjuncts(p.left) + Disjuncts(p.right) else [p]
  }

  lemma AllHoldConcat(env: Env, a: seq<Predicate>, b: seq<Predicate>, row: Row)
    ensures AllHold(env, a + b, row) <==> AllHold(env, a, row) && AllHold(env, b, row)
  {
    if AllHold(env, a + b, row) {
      forall i | 0 <= i < |a| ensures Eval(env, a[i], row) { assert (a + b)[i] == a[i]; }
      forall i | 0 <= i < |b| ensures Eval(env, b[i], row) { assert (a + b)[|a| + i] == b[i]; }
    }
  }

  lemma AnyHoldsConcat(env: Env, a: seq<Predicate>, b: seq<Predicate>, row: Row)
    ensures AnyHolds(env, a + b, row) <==> AnyHolds(env, a, row) || AnyHolds(env, b, row)
  {
    if i :| 0 <= i < |a| && Eval(env, a[i], row) { assert (a + b)[i] == a[i]; }
    if i :| 0 <= i < |b| && Eval(env, b[i], row) { assert (a + b)[|a| + i] == b[i]; }
  }

  lemma {:induction false} ConjunctsMean(env: Env, p: Predicate, row: Row)
    ensures AllHold(env, Conjuncts(p), row) <==> Eval(env, p, row)
  {
    if p.And? {
      ConjunctsMean(env, p.left, row);
      ConjunctsMean(env, p.right, row);
      AllHoldConcat(env, Conjuncts(p.left), Conjuncts(p.right), row);
    } else {
      assert Conjuncts(p)[0] == p;
    }
  }

  lemma {:induction false} DisjunctsMean(env: Env, p: Predicate, row: Row)
    ensures AnyHolds(env, Disjuncts(p), row) <==> Eval(env, p, row)
  {
    if p.Or? {
      DisjunctsMean(env, p.left, row);
      DisjunctsMean(env, p.right, row);
      AnyHoldsConcat(env, Disjuncts(p.left), Disjuncts(p.right), row);
    } else {
      assert Disjuncts(p)[0] == p;
    }
  }

  lemma {:induction false} PartsNamed(p: Predicate, names: set<string>)
    requires Names(p) <= names
    ensures AllNamed(Conjuncts(p), names) && AllNamed(Disjuncts(p), names)
  {
    if p.And? || p.Or? {
      PartsNamed(p.left, names);
      PartsNamed(p.right, names);
    }
  }

  /** Rebuilding a conjunction, left to right. */
  method BuildAndTree(ps: seq<Predicate>) returns (tree: Option<Predicate>)
    ensures tree.None? <==> ps == []
    ensures forall env: Env, row :: Passes(env, tree, row) <==> AllHold(env, ps, row)
    ensures tree.Some? ==> forall names :: AllNamed(ps, names) ==> Names(tree.value) <= names
  {
    if ps == [] {
      return None;
    }
    var t := ps[0];
    for i := 1 to |ps|
      invariant forall env: Env, row :: Eval(env, t, row) <==> AllHold(env, ps[..i], row)
      invariant forall names :: AllNamed(ps, names) ==> Names(t) <= names
    {
      t := And(t, ps[i]);
      assert ps[..i + 1] == ps[..i] + [ps[i]];
    }
    assert ps[..|ps|] == ps;
    return Some(t);
  }

  method BuildOrTree(ps: seq<Predicate>) returns (tree: Option<Predicate>)
    ensures tree.None? <==> ps == []
    ensures forall env: Env, row :: Adds(env, tree, row) <==> AnyHolds(env, ps, row)
    ensures tree.Some? ==> forall names :: AllNamed(ps, names) ==> Names(tree.value) <= names
  {
    if ps == [] {
      return None;
    }
    var t := ps[0];
    for i := 1 to |ps|
      invariant forall env: Env, row :: Eval(env, t, row) <==> AnyHolds(env, ps[..i], row)
      invariant forall names :: AllNamed(ps, names) ==> Names(t) <= names
    {
      ghost var was := t;
      t := Or(t, ps[i]);
      forall env: Env, row ensures Eval(env, t, row) <==> AnyHolds(env, ps[..i + 1], row) {
        assert ps[..i + 1] == ps[..i] + [ps[i]];
        AnyHoldsConcat(env, ps[..i], [ps[i]], row);
        assert [ps[i]][0] == ps[i];
        assert Eval(env, was, row) <==> AnyHolds(env, ps[..i], row);
      }
    }
    assert ps[..|ps|] == ps;
    return Some(t);
  }

  // ----- OR of equalities to IN -----------------------------------------------------

  predicate IsEquality(p: Predicate) {
    p.Comparison? && p.rhs.None? && p.op == Eq
  }

  predicate SameOperand(a: Predicate, b: Predicate) {
    IsEquality(a) && IsEquality(b) && a.column == b.column && a.expr == b.expr
  }

  predicate Foldable(p: Predicate) {
    p.Or? && var d := Disjuncts(p); forall i :: 0 <= i < |d| ==> SameOperand(d[0], d[i])
  }

  /** An OR of equalities on one operand becomes an IN list; anything else is kept. */
  function Folded(p: Predicate): Predicate {
    if Foldable(p) then
      var d := Disjuncts(p);
      assert SameOperand(d[0], d[0]);
      InList(d[0].column, d[0].expr, seq(|d|, i requires 0 <= i < |d| => assert SameOperand(d[0], d[i]); d[i].value))
    else p
  }

  lemma FoldedNamed(p: Predicate, names: set<string>)
    requires Names(p) <= names
    ensures Names(Folded(p)) <= names
  {
    PartsNamed(p, names);
    if Foldable(p) {
      var d := Disjuncts(p);
      assert SameOperand(d[0], d[0]) && Names(d[0]) <= names;
    }
  }

  lemma FoldedMeans(env: Env, p: Predicate, row: Row)
    ensures Eval(env, Folded(p), row) <==> Eval(env, p, row)
  {
    if Foldable(p) {
      DisjunctsMean(env, p, row);
      var d, q := Disjuncts(p), Folded(p);
      var v := Operand(env, q.column, q.expr, row);
      if v in q.values {
        var i :| 0 <= i < |q.values| && q.values[i] == v;
        assert SameOperand(d[0], d[i]) && Eval(env, d[i], row);
      }
      if AnyHolds(env, d, row) {
        var i :| 0 <= i < |d| && Eval(env, d[i], row);
        assert SameOperand(d[0], d[i]) && q.values[i] == v;
      }
    }
  }

  method RewriteEqualityOrToIn(p: Predicate) returns (r: Option<Predicate>)
    ensures r == if Foldable(p) then Some(Folded(p)) else None
  {
    if !p.Or? {
      return None;
    }
    var d := Disjuncts(p);
    var values := [];
    for i := 0 to |d|
      invariant |values| == i
      invariant i > 0 ==> IsEquality(d[0])
      invariant forall j :: 0 <= j < i ==> SameOperand(d[0], d[j]) && values[j] == d[j].value
    {
      if !IsEquality(d[i]) {
        assert !SameOperand(d[0], d[i]);
        return None;
      }
      if d[i].column != d[0].column || d[i].expr != d[0].expr {
        assert !SameOperand(d[0], d[i]);
        return None;
      }
      values := values + [d[i].value];
    }
    assert Foldable(p) && values == Folded(p).values;
    return Some(InList(d[0].column, d[0].expr, values));
  }
}
