/** How often a scan returns a row: posting lists may hold an id several times,
    and nothing on the way removes the repetitions. */
module Repeats {
  import opened Values
  import opened LikePatterns
  import opened Predicates
  import opened Plans
  import opened Planner

  ghost function Times<T>(s: seq<T>, x: T): nat {
    multiset(s)[x]
  }

  lemma TimesAppend<T>(s: seq<T>, y: T, x: T)
    ensures Times(s + [y], x) == Times(s, x) + if x == y then 1 else 0
  {
  }

  lemma TimesIn<T>(s: seq<T>, x: T)
    ensures Times(s, x) > 0 <==> x in s
  {
    assert x in multiset(s) <==> x in s;
  }

  lemma InsertCounts<T>(s: seq<T>, k: nat, x: T)
    requires k <= |s|
    ensures multiset(s[..k] + [x] + s[k..]) == multiset(s) + multiset{x}
  {
    assert s == s[..k] + s[k..];
  }

  ghost function Least(a: nat, b: nat): nat { if a < b then a else b }
  ghost function Most(a: nat, b: nat): nat { if a < b then b else a }

  // ----- Index lookups ---------------------------------------------------------------

  /** A trigram index lists a row once for every place where the gram occurs. */
  ghost function ProbeTimes(env: Env, p: Probe, row: Row): nat {
    if p.expr.Some? && p.expr.value.Trigram? then
      var v := env.cell(row, p.expr.value.column);
      if v.Str? && p.value.Str? then Times(Grams(v.s), p.value.s) else 0
    else if Operand(env, p.column, p.expr, row) == p.value then 1
    else 0
  }

  ghost function NodeTimes(env: Env, node: Node, row: Row): nat
    decreases node, 1
  {
    match node
    case Leaf(p) => ProbeTimes(env, p, row)
    case Intersection(children) => LeastTimes(env, children, row)
    case Union(children) => MostTimes(env, children, row)
  }

  /** `std::set_intersection` keeps the smaller number of repetitions. */
  ghost function LeastTimes(env: Env, nodes: seq<Node>, row: Row): nat
    decreases nodes, 0
  {
    if nodes == [] then 0
    else if |nodes| == 1 then NodeTimes(env, nodes[0], row)
    else Least(LeastTimes(env, nodes[..|nodes| - 1], row), NodeTimes(env, nodes[|nodes| - 1], row))
  }

  /** `std::set_union` keeps the larger one. */
  ghost function MostTimes(env: Env, nodes: seq<Node>, row: Row): nat
    decreases nodes, 0
  {
    if nodes == [] then 0
    else Most(MostTimes(env, nodes[..|nodes| - 1], row), NodeTimes(env, nodes[|nodes| - 1], row))
  }

  /** An IN list is looked up value by value. */
  ghost function ListTimes(env: Env, column: string, expr: Option<IndexExpression>, values: seq<Value>, row: Row): nat {
    if values == [] then 0
    else
      ListTimes(env, column, expr, values[..|values| - 1], row) +
      ProbeTimes(env, Probe(column, expr, values[|values| - 1]), row)
  }

  ghost function Once(b: bool): nat {
    if b then 1 else 0
  }

  ghost function PathTimes(env: Env, path: Path, row: Row): nat {
    match path
    case HashEq(column, expr, value) => ProbeTimes(env, Probe(column, expr, value), row)
    case HashIn(column, expr, values) => ListTimes(env, column, expr, values, row)
    case IntersectPath(children) => LeastTimes(env, children, row)
    case UnionPath(children) => MostTimes(env, children, row)
    case _ => Once(PathHolds(env, path, row))
  }

  /** How often the executor returns a visible row. */
  ghost function PlanTimes(env: Env, plan: Plan, wher: Option<Predicate>, row: Row): nat {
    if plan.path.FullScan? then Once(Passes(env, wher, row))
    else
      var hits := PathTimes(env, plan.path, row);
      if plan.path.UnionPath? then
        if hits > 0 then hits else Once(Adds(env, plan.residual, row))
      else
        var kept := if Passes(env, plan.residual, row) then hits else 0;
        if kept > 0 || !plan.path.IntersectPath? then kept else Once(Adds(env, plan.complement, row))
  }

  // ----- At least once is membership -----------------------------------------------------

  lemma ProbeFinds(env: Env, p: Probe, row: Row)
    ensures ProbeTimes(env, p, row) > 0 <==> ProbeHolds(env, p, row)
  {
    if p.expr.Some? && p.expr.value.Trigram? {
      var v := env.cell(row, p.expr.value.column);
      if v.Str? && p.value.Str? {
        TimesIn(Grams(v.s), p.value.s);
      }
    }
  }

  lemma {:induction false} NodeFinds(env: Env, node: Node, row: Row)
    ensures NodeTimes(env, node, row) > 0 <==> NodeHolds(env, node, row)
    decreases node, 1
  {
    hide ProbeHolds, ProbeTimes;
    match node {
      case Leaf(p) => ProbeFinds(env, p, row);
      case Intersection(children) => AllFind(env, children, row);
      case Union(children) => AnyFinds(env, children, row);
    }
  }

  lemma {:induction false} AllFind(env: Env, nodes: seq<Node>, row: Row)
    ensures LeastTimes(env, nodes, row) > 0 <==> nodes != [] && AllNodes(env, nodes, row)
    decreases nodes, 0
  {
    hide NodeTimes, NodeHolds;
    if nodes != [] {
      var front, last := nodes[..|nodes| - 1], nodes[|nodes| - 1];
      NodeFinds(env, last, row);
      if front != [] {
        AllFind(env, front, row);
        assert nodes == front + [last];
      }
    }
  }

  lemma {:induction false} AnyFinds(env: Env, nodes: seq<Node>, row: Row)
    ensures MostTimes(env, nodes, row) > 0 <==> AnyNode(env, nodes, row)
    decreases nodes, 0
  {
    hide NodeTimes, NodeHolds;
    if nodes != [] {
      var front, last := nodes[..|nodes| - 1], nodes[|nodes| - 1];
      NodeFinds(env, last, row);
      AnyFinds(env, front, row);
      assert nodes == front + [last];
    }
  }

  lemma {:induction false} ListFinds(env: Env, column: string, expr: Option<IndexExpression>, values: seq<Value>,
                                     row: Row)
    ensures ListTimes(env, column, expr, values, row) > 0 <==> PathHolds(env, HashIn(column, expr, values), row)
  {
    hide ProbeHolds, ProbeTimes;
    if values != [] {
      var front, last := values[..|values| - 1], values[|values| - 1];
      ListFinds(env, column, expr, front, row);
      ProbeFinds(env, Probe(column, expr, last), row);
      assert values == front + [last];
    }
  }

  lemma PathFinds(env: Env, path: Path, row: Row)
    requires !path.FullScan?
    ensures PathTimes(env, path, row) > 0 <==> PathHolds(env, path, row)
  {
    hide ProbeHolds, ProbeTimes, LeastTimes, MostTimes, ListTimes, AllNodes, AnyNode, CompositeHolds, RangeHolds;
    match path {
      case HashEq(column, expr, value) => ProbeFinds(env, Probe(column, expr, value), row);
      case HashIn(column, expr, values) => ListFinds(env, column, expr, values, row);
      case IntersectPath(children) => AllFind(env, children, row);
      case UnionPath(children) => AnyFinds(env, children, row);
      case _ =>
    }
  }

  /** A row is returned at least once exactly when the plan selects it. */
  lemma SelectedAtLeastOnce(env: Env, plan: Plan, wher: Option<Predicate>, row: Row)
    ensures PlanTimes(env, plan, wher, row) > 0 <==> Selects(env, plan, wher, row)
  {
    hide PathTimes, PathHolds;
    if !plan.path.FullScan? {
      PathFinds(env, plan.path, row);
    }
  }

  // ----- At most once ------------------------------------------------------------------------

  predicate GramFree(p: Probe) {
    !(p.expr.Some? && p.expr.value.Trigram?)
  }

  predicate GramFreeNode(node: Node) {
    match node
    case Leaf(p) => GramFree(p)
    case Intersection(children) => forall i :: 0 <= i < |children| ==> GramFreeNode(children[i])
    case Union(children) => forall i :: 0 <= i < |children| ==> GramFreeNode(children[i])
  }

  /** No trigram lookup, and no value twice in an IN list. */
  predicate RepeatFree(path: Path) {
    match path
    case HashEq(column, expr, value) => GramFree(Probe(column, expr, value))
    case HashIn(column, expr, values) => GramFree(Probe(column, expr, Null)) && Distinct(values)
    case IntersectPath(children) => forall i :: 0 <= i < |children| ==> GramFreeNode(children[i])
    case UnionPath(children) => forall i :: 0 <= i < |children| ==> GramFreeNode(children[i])
    case _ => true
  }

  lemma {:induction false} NodeOnce(env: Env, node: Node, row: Row)
    requires GramFreeNode(node)
    ensures NodeTimes(env, node, row) <= 1
    decreases node, 1
  {
    match node {
      case Leaf(p) =>
      case Intersection(children) => ListOfNodesOnce(env, children, row);
      case Union(children) => ListOfNodesOnce(env, children, row);
    }
  }

  lemma {:induction false} ListOfNodesOnce(env: Env, nodes: seq<Node>, row: Row)
    requires forall i :: 0 <= i < |nodes| ==> GramFreeNode(nodes[i])
    ensures LeastTimes(env, nodes, row) <= 1 && MostTimes(env, nodes, row) <= 1
    decreases nodes, 0
  {
    hide NodeTimes;
    if nodes != [] {
      NodeOnce(env, nodes[|nodes| - 1], row);
      ListOfNodesOnce(env, nodes[..|nodes| - 1], row);
    }
  }

  lemma {:induction false} ListOnce(env: Env, column: string, expr: Option<IndexExpression>, values: seq<Value>,
                                    row: Row)
    requires GramFree(Probe(column, expr, Null))
    ensures ListTimes(env, column, expr, values, row) == Times(values, Operand(env, column, expr, row))
  {
    if values != [] {
      var front, last := values[..|values| - 1], values[|values| - 1];
      ListOnce(env, column, expr, front, row);
      assert values == front + [last];
      TimesAppend(front, last, Operand(env, column, expr, row));
    }
  }

  lemma {:induction false} DistinctOnce(values: seq<Value>, v: Value)
    requires Distinct(values)
    ensures Times(values, v) <= 1
  {
    if values != [] {
      var front, last := values[..|values| - 1], values[|values| - 1];
      DistinctOnce(front, v);
      assert values == front + [last];
      TimesAppend(front, last, v);
      TimesIn(front, last);
    }
  }

  /** Then every row is returned at most once. */
  lemma ReturnedOnce(env: Env, plan: Plan, wher: Option<Predicate>, row: Row)
    requires RepeatFree(plan.path)
    ensures PlanTimes(env, plan, wher, row) == Once(Selects(env, plan, wher, row))
  {
    SelectedAtLeastOnce(env, plan, wher, row);
    hide ListTimes, LeastTimes, MostTimes, PathHolds, Selects;
    match plan.path {
      case HashIn(column, expr, values) =>
        ListOnce(env, column, expr, values, row);
        DistinctOnce(values, Operand(env, column, expr, row));
      case IntersectPath(children) => ListOfNodesOnce(env, children, row);
      case UnionPath(children) => ListOfNodesOnce(env, children, row);
      case _ =>
    }
  }

  /** No trigram index, and no IN list with a repeated value among the conjuncts. */
  ghost predicate NoRepeatSource(cat: Catalog, query: Predicate) {
    && (forall e :: e in cat.exprs ==> !e.Trigram?)
    && forall i :: 0 <= i < |PlannedConjuncts(query)| && PlannedConjuncts(query)[i].InList? ==>
         Distinct(PlannedConjuncts(query)[i].values)
  }

  lemma {:induction false} IndexedIsGramFree(cat: Catalog, node: Node)
    requires NodeIndexed(cat, node) && forall e :: e in cat.exprs ==> !e.Trigram?
    ensures GramFreeNode(node)
  {
    match node {
      case Leaf(p) =>
      case Intersection(children) =>
        forall i | 0 <= i < |children| ensures GramFreeNode(children[i]) { IndexedIsGramFree(cat, children[i]); }
      case Union(children) =>
        forall i | 0 <= i < |children| ensures GramFreeNode(children[i]) { IndexedIsGramFree(cat, children[i]); }
    }
  }

  lemma ListPath(
      cat: Catalog, p: Predicate, kind: Kind, column: string, expr: Option<IndexExpression>, values: seq<Value>)
    requires Eligible(cat, p, kind) && PathFor(p, kind) == HashIn(column, expr, values)
    ensures p.InList? && p.values == values
  {
    assert kind.ByList?;
  }

  /** Then no plan of the query returns a row twice. */
  lemma PlansAreRepeatFree(cat: Catalog, query: Predicate, plan: Plan)
    requires Emits(cat, query, plan) && PathIndexed(cat, plan.path) && NoRepeatSource(cat, query)
    ensures RepeatFree(plan.path)
  {
    hide PlannedConjuncts, Named;
    match plan.path {
      case IntersectPath(children) =>
        forall i | 0 <= i < |children| ensures GramFreeNode(children[i]) { IndexedIsGramFree(cat, children[i]); }
      case UnionPath(children) =>
        forall i | 0 <= i < |children| ensures GramFreeNode(children[i]) { IndexedIsGramFree(cat, children[i]); }
      case HashIn(column, expr, values) =>
        var ps := PlannedConjuncts(query);
        assert ConjunctOf(cat, ps, plan);
        var i, kind :| 0 <= i < |ps| && Eligible(cat, ps[i], kind) && plan.path == PathFor(ps[i], kind);
        ListPath(cat, ps[i], kind, column, expr, values);
      case _ =>
    }
  }

  // ----- More than once --------------------------------------------------------------------------

  /** An equality-OR on one indexed column becomes an IN list that keeps repeated
      values: `a = 1 OR a = 1` returns its rows twice. */
  lemma RepeatedValueRepeatsRows()
    ensures
      var wher := Or(Column("a", Eq, 1), Column("a", Eq, 1));
      var plan := Plan(PathFor(Folded(wher), ByList), None, None);
      var row := [Int(1), Null, Null, Null];
      Eligible(AB, Folded(wher), ByList) && Clean(AB, wher) && PlanTimes(Four(), plan, Some(wher), row) == 2
  {
    var one := Column("a", Eq, 1);
    var wher := Or(one, one);
    var row := [Int(1), Null, Null, Null];
    FourCells(row);
    assert Disjuncts(one) == [one] && Disjuncts(wher) == [one, one];
    assert Folded(wher) == InList("a", None, [Int(1), Int(1)]);
    ListOnce(Four(), "a", None, [Int(1), Int(1)], row);
    assert Times([Int(1), Int(1)], Int(1)) == 2;
  }

  /** The gram `aaa` occurs twice in `aaaa`, so LIKE '%aaa%' returns that row twice. */
  lemma RepeatedGramRepeatsRows()
    ensures
      var cat := Catalog({}, {Trigram("a")}, []);
      var wher := Like("a", "%aaa%");
      var grams := GramNodes("a", Grams("aaa"));
      var plan := Plan(PathFor(wher, ByTrigrams(grams)), Some(wher), None);
      var row := [Str("aaaa"), Null, Null, Null];
      Eligible(cat, wher, ByTrigrams(grams)) && Clean(cat, wher)
      && Eval(Four(), wher, row) && PlanTimes(Four(), plan, Some(wher), row) == 2
  {
    hide Four;
    var wher := Like("a", "%aaa%");
    var row := [Str("aaaa"), Null, Null, Null];
    FourCells(row);
    GramsOfA();
    var grams := GramNodes("a", Grams("aaa"));
    assert |grams| == 1 && grams[0] == Leaf(Probe("a", Some(Trigram("a")), Str("aaa")));
    assert Times(["aaa", "aaa"], "aaa") == 2;
    assert NodeTimes(Four(), grams[0], row) == 2;
  }

  lemma GramsOfA()
    ensures Grams("aaa") == ["aaa"] && Grams("aaaa") == ["aaa", "aaa"]
    ensures ContainsLiteral("%aaa%") == Some("aaa") && PrefixLiteral("%aaa%") == None
    ensures Matches("aaaa", "%aaa%")
  {
    var text, pattern := "aaaa", "%aaa%";
    assert text[0..3] == "aaa" && text[1..4] == "aaa" && text[..3][0..3] == "aaa";
    assert pattern[1..|pattern| - 1] == "aaa";
    assert OccursAt("aaa", "aaaa", 0);
    ContainsFilter("aaaa", pattern);
  }
}
