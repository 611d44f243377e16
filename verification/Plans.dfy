/** Access paths: index probes, bitmap trees, residual filters and
    complementary scans, and the rows each of them selects. */
module Plans {
  import opened Values
  import opened LikePatterns
  import opened Predicates

  datatype Probe = Probe(column: string, expr: Option<IndexExpression>, value: Value)

  datatype Node =
    | Leaf(probe: Probe)
    | Intersection(children: seq<Node>)
    | Union(children: seq<Node>)

  datatype Path =
    | FullScan
    | HashEq(column: string, expr: Option<IndexExpression>, value: Value)
    | CompositeEq(columns: seq<string>, values: seq<Value>)
    | OrderedRange(column: string, expr: Option<IndexExpression>, op: CompareOp, value: Value)
    | HashIn(column: string, expr: Option<IndexExpression>, values: seq<Value>)
    | PrefixLike(column: string, prefix: string)
    | IntersectPath(children: seq<Node>)
    | UnionPath(children: seq<Node>)

  /** The residual filters index hits, except on a union path, where it is an
      alternative to them; the complement is an alternative on an intersect path. */
  datatype Plan = Plan(path: Path, residual: Option<Predicate>, complement: Option<Predicate>)

  /** What indexes exist. */
  datatype Catalog = Catalog(columns: set<string>, exprs: set<IndexExpression>, composites: seq<seq<string>>)

  // ----- The rows a plan selects --------------------------------------------------

  /** An equality probe finds a row under its key, or under each of its trigrams. */
  predicate ProbeHolds(env: Env, p: Probe, row: Row) {
    if p.expr.Some? && p.expr.value.Trigram? then
      var v := env.cell(row, p.expr.value.column);
      v.Str? && p.value.Str? && p.value.s in Grams(v.s)
    else Operand(env, p.column, p.expr, row) == p.value
  }

  /** Trigram indexes have no ordered side. */
  predicate RangeHolds(env: Env, column: string, expr: Option<IndexExpression>, op: CompareOp, value: Value, row: Row) {
    !(expr.Some? && expr.value.Trigram?) && Compare(Operand(env, column, expr, row), op, value)
  }

  predicate NodeHolds(env: Env, node: Node, row: Row) {
    match node
    case Leaf(p) => ProbeHolds(env, p, row)
    case Intersection(children) =>
      children != [] && forall i :: 0 <= i < |children| ==> NodeHolds(env, children[i], row)
    case Union(children) => exists i :: 0 <= i < |children| && NodeHolds(env, children[i], row)
  }

  predicate AllNodes(env: Env, nodes: seq<Node>, row: Row) {
    forall i :: 0 <= i < |nodes| ==> NodeHolds(env, nodes[i], row)
  }

  predicate AnyNode(env: Env, nodes: seq<Node>, row: Row) {
    exists i :: 0 <= i < |nodes| && NodeHolds(env, nodes[i], row)
  }

  predicate CompositeHolds(env: Env, columns: seq<string>, values: seq<Value>, row: Row) {
    |columns| == |values| && forall i :: 0 <= i < |columns| ==> env.cell(row, columns[i]) == values[i]
  }

  /** The rows of the index lookup alone. */
  predicate PathHolds(env: Env, path: Path, row: Row) {
    match path
    case FullScan => true
    case HashEq(column, expr, value) => ProbeHolds(env, Probe(column, expr, value), row)
    case CompositeEq(columns, values) => CompositeHolds(env, columns, values, row)
    case OrderedRange(column, expr, op, value) => RangeHolds(env, column, expr, op, value, row)
    case HashIn(column, expr, values) =>
      exists i :: 0 <= i < |values| && ProbeHolds(env, Probe(column, expr, values[i]), row)
    case PrefixLike(column, prefix) => LessEq(Str(prefix), env.cell(row, column))
    case IntersectPath(children) => children != [] && AllNodes(env, children, row)
    case UnionPath(children) => AnyNode(env, children, row)
  }

  /** The rows the executor returns for a plan. */
  ghost predicate Selects(env: Env, plan: Plan, wher: Option<Predicate>, row: Row) {
    match plan.path
    case FullScan => Passes(env, wher, row)
    case UnionPath(_) => PathHolds(env, plan.path, row) || Adds(env, plan.residual, row)
    case IntersectPath(_) =>
      (PathHolds(env, plan.path, row) && Passes(env, plan.residual, row)) || Adds(env, plan.complement, row)
    case _ => PathHolds(env, plan.path, row) && Passes(env, plan.residual, row)
  }

  // ----- Probes from predicates ------------------------------------------------------

  predicate HasIndex(cat: Catalog, column: string, expr: Option<IndexExpression>) {
    if expr.Some? then expr.value in cat.exprs else column in cat.columns
  }

  predicate IsProbe(cat: Catalog, p: Predicate) {
    IsEquality(p) && HasIndex(cat, p.column, p.expr)
  }

  function ProbeOf(p: Predicate): Probe
    requires p.Comparison?
  {
    Probe(p.column, p.expr, p.value)
  }

  /** No leaf compares a trigram expression that has an index: such a comparison
      means the text, but the index answers for its grams. */
  predicate Clean(cat: Catalog, p: Predicate) {
    match p
    case Comparison(_, expr, _, _, rhs) => rhs.None? && expr.Some? && expr.value.Trigram? ==> expr.value !in cat.exprs
    case InList(_, expr, _) => expr.Some? && expr.value.Trigram? ==> expr.value !in cat.exprs
    case And(left, right) => Clean(cat, left) && Clean(cat, right)
    case Or(left, right) => Clean(cat, left) && Clean(cat, right)
    case _ => true
  }

  lemma ProbeMeans(env: Env, cat: Catalog, p: Predicate, row: Row)
    requires IsProbe(cat, p) && Clean(cat, p)
    ensures ProbeHolds(env, ProbeOf(p), row) <==> Eval(env, p, row)
  {
  }

  lemma {:induction false} CleanParts(cat: Catalog, p: Predicate)
    requires Clean(cat, p)
    ensures forall i :: 0 <= i < |Conjuncts(p)| ==> Clean(cat, Conjuncts(p)[i])
    ensures forall i :: 0 <= i < |Disjuncts(p)| ==> Clean(cat, Disjuncts(p)[i])
  {
    if p.And? || p.Or? {
      CleanParts(cat, p.left);
      CleanParts(cat, p.right);
    }
  }

  lemma CleanFolded(cat: Catalog, p: Predicate)
    requires Clean(cat, p)
    ensures Clean(cat, Folded(p))
  {
    CleanParts(cat, p);
    if Foldable(p) {
      var d := Disjuncts(p);
      assert SameOperand(d[0], d[0]) && Clean(cat, d[0]);
    }
  }

  // ----- Splitting an OR into indexable and other arms -----------------------------------

  function Probes(cat: Catalog, ps: seq<Predicate>): seq<Node> {
    if ps == [] then []
    else if IsProbe(cat, ps[0]) then [Leaf(ProbeOf(ps[0]))] + Probes(cat, ps[1..])
    else Probes(cat, ps[1..])
  }

  function Unindexed(cat: Catalog, ps: seq<Predicate>): seq<Predicate> {
    if ps == [] then []
    else if IsProbe(cat, ps[0]) then Unindexed(cat, ps[1..])
    else [ps[0]] + Unindexed(cat, ps[1..])
  }

  lemma {:induction false} SplitAppend(cat: Catalog, ps: seq<Predicate>, p: Predicate)
    ensures Probes(cat, ps + [p]) == Probes(cat, ps) + if IsProbe(cat, p) then [Leaf(ProbeOf(p))] else []
    ensures Unindexed(cat, ps + [p]) == Unindexed(cat, ps) + if IsProbe(cat, p) then [] else [p]
  {
    if ps == [] {
      assert ps + [p] == [p] && [p][1..] == [];
    } else {
      assert (ps + [p])[1..] == ps[1..] + [p];
      SplitAppend(cat, ps[1..], p);
    }
  }

  /** The two sides of the split together are the disjunction. */
  lemma {:induction false} SplitMeans(env: Env, cat: Catalog, ps: seq<Predicate>, row: Row)
    requires forall i :: 0 <= i < |ps| ==> Clean(cat, ps[i])
    ensures AnyHolds(env, ps, row) <==> AnyNode(env, Probes(cat, ps), row) || AnyHolds(env, Unindexed(cat, ps), row)
  {
    if ps != [] {
      var rest := ps[1..];
      assert ps == [ps[0]] + rest;
      SplitMeans(env, cat, rest, row);
      AnyHoldsConcat(env, [ps[0]], rest, row);
      assert AnyHolds(env, [ps[0]], row) <==> Eval(env, ps[0], row) by { assert [ps[0]][0] == ps[0]; }
      if IsProbe(cat, ps[0]) {
        ProbeMeans(env, cat, ps[0], row);
        AnyNodeCons(env, Leaf(ProbeOf(ps[0])), Probes(cat, rest), row);
      } else {
        AnyHoldsConcat(env, [ps[0]], Unindexed(cat, rest), row);
      }
    }
  }

  lemma AnyNodeCons(env: Env, n: Node, ns: seq<Node>, row: Row)
    ensures AnyNode(env, [n] + ns, row) <==> NodeHolds(env, n, row) || AnyNode(env, ns, row)
  {
    var all := [n] + ns;
    assert all[0] == n;
    if i :| 0 <= i < |ns| && NodeHolds(env, ns[i], row) {
      assert all[i + 1] == ns[i];
    }
  }

  datatype Split = Split(probes: seq<Node>, rest: seq<Predicate>)

  /** `tryMakeOrUnionSplit`: None unless some arm of the OR is an equality probe. */
  method SplitOr(cat: Catalog, p: Predicate) returns (r: Option<Split>)
    ensures r == if p.Or? && Probes(cat, Disjuncts(p)) != []
                 then Some(Split(Probes(cat, Disjuncts(p)), Unindexed(cat, Disjuncts(p)))) else None
  {
    if !p.Or? {
      return None;
    }
    var d := Disjuncts(p);
    var probes: seq<Node>, rest: seq<Predicate> := [], [];
    for i := 0 to |d|
      invariant probes == Probes(cat, d[..i]) && rest == Unindexed(cat, d[..i])
    {
      assert d[..i + 1] == d[..i] + [d[i]];
      SplitAppend(cat, d[..i], d[i]);
      if IsProbe(cat, d[i]) {
        probes := probes + [Leaf(ProbeOf(d[i]))];
      } else {
        rest := rest + [d[i]];
      }
    }
    assert d[..|d|] == d;
    if probes == [] {
      return None;
    }
    return Some(Split(probes, rest));
  }
}
