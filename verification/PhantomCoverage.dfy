/** What a scan records for serializability, and why no row that belongs to its
    result can be inserted behind its back. */
module PhantomCoverage {
  import opened Values
  import opened LikePatterns
  import opened Serializability
  import opened Predicates
  import opened Plans
  import opened Planner

  function Membership(relation: string): SsiPredicate {
    SsiPredicate(relation, "", None, None, None)
  }

  function OnColumn(relation: string, column: string, op: CompareOp, value: Value): SsiPredicate {
    SsiPredicate(relation, column, Some(op), Some(value), None)
  }

  /** Trees whose every leaf can be recorded column by column. */
  predicate ByColumns(p: Predicate) {
    match p
    case Comparison(_, expr, _, _, rhs) => rhs.None? && expr.None?
    case InList(_, expr, _) => expr.None?
    case Like(_, _) => true
    case Other(_) => false
    case And(left, right) => ByColumns(left) && ByColumns(right)
    case Or(left, right) => ByColumns(left) && ByColumns(right)
  }

  function ListReads(relation: string, column: string, values: seq<Value>): seq<SsiPredicate> {
    seq(|values|, i requires 0 <= i < |values| => OnColumn(relation, column, Eq, values[i]))
  }

  /** `recordSsiPredicateFromTree`. */
  function TreeReads(relation: string, p: Predicate): seq<SsiPredicate> {
    match p
    case Comparison(column, expr, op, value, rhs) =>
      if rhs.Some? || expr.Some? then [Membership(relation)] else [OnColumn(relation, column, op, value)]
    case InList(column, expr, values) =>
      if expr.Some? then [Membership(relation)] else ListReads(relation, column, values)
    case Like(column, pattern) => [SsiPredicate(relation, column, None, None, Some(pattern))]
    case Other(_) => [Membership(relation)]
    case And(left, right) => TreeReads(relation, left) + TreeReads(relation, right)
    case Or(left, right) =>
      if !ByColumns(p) then [Membership(relation)] else TreeReads(relation, left) + TreeReads(relation, right)
  }

  function ProbeReads(relation: string, p: Probe): seq<SsiPredicate> {
    if p.expr.Some? then [Membership(relation)] else [OnColumn(relation, p.column, Eq, p.value)]
  }

  function NodeReads(relation: string, node: Node): seq<SsiPredicate>
    decreases node, 1
  {
    match node
    case Leaf(p) => ProbeReads(relation, p)
    case Intersection(children) => NodesReads(relation, children)
    case Union(children) => NodesReads(relation, children)
  }

  function NodesReads(relation: string, nodes: seq<Node>): seq<SsiPredicate>
    decreases nodes, 0
  {
    if nodes == [] then [] else NodeReads(relation, nodes[0]) + NodesReads(relation, nodes[1..])
  }

  function PathReads(relation: string, path: Path, wher: Predicate): seq<SsiPredicate> {
    match path
    case FullScan => TreeReads(relation, wher)
    case HashEq(column, expr, value) => ProbeReads(relation, Probe(column, expr, value))
    case CompositeEq(columns, values) =>
      seq(if |columns| <= |values| then |columns| else |values|,
          i requires 0 <= i < |columns| && i < |values| => OnColumn(relation, columns[i], Eq, values[i]))
    case OrderedRange(column, expr, op, value) =>
      if expr.Some? then [Membership(relation)] else [OnColumn(relation, column, op, value)]
    case HashIn(column, expr, values) =>
      if expr.Some? then [Membership(relation)] else ListReads(relation, column, values)
    case PrefixLike(_, _) => []
    case IntersectPath(children) => NodesReads(relation, children)
    case UnionPath(children) => NodesReads(relation, children)
  }

  /** `recordSsiScanPredicates`: the path, then the residual, then the complement. */
  function ScanReads(relation: string, plan: Plan, wher: Predicate): seq<SsiPredicate> {
    PathReads(relation, plan.path, wher)
    + (if plan.residual.Some? then TreeReads(relation, plan.residual.value) else [])
    + (if plan.complement.Some? then TreeReads(relation, plan.complement.value) else [])
  }

  // ----- Row images ----------------------------------------------------------------------

  /** The column belongs to the relation and the image holds the row's value. */
  ghost predicate Pictured(env: Env, image: SsiInsert, row: Row, column: string) {
    column != "" && exists k :: FirstNamed(image.columns, column, k) && image.columns[k].1 == env.cell(row, column)
  }

  /** The image of the row, as far as the given unqualified columns go. */
  ghost predicate Pictures(env: Env, image: SsiInsert, row: Row, names: set<string>) {
    forall c :: c in names ==> Pictured(env, image, row, c)
  }

  ghost predicate Caught(reads_: seq<SsiPredicate>, image: SsiInsert) {
    exists i :: 0 <= i < |reads_| && ImageMatches(image, reads_[i])
  }

  lemma CaughtConcat(a: seq<SsiPredicate>, b: seq<SsiPredicate>, image: SsiInsert)
    ensures Caught(a + b, image) <==> Caught(a, image) || Caught(b, image)
  {
    if i :| 0 <= i < |a| && ImageMatches(image, a[i]) { assert (a + b)[i] == a[i]; }
    if i :| 0 <= i < |b| && ImageMatches(image, b[i]) { assert (a + b)[|a| + i] == b[i]; }
  }

  lemma CaughtOne(p: SsiPredicate, image: SsiInsert)
    ensures Caught([p], image) <==> ImageMatches(image, p)
  {
    assert [p][0] == p;
  }

  lemma ColumnCaught(env: Env, image: SsiInsert, row: Row, p: SsiPredicate)
    requires p.column != "" && Pictured(env, image, row, p.column) && image.relation == p.relation
    ensures ImageMatches(image, p) <==> CellMatches(env.cell(row, p.column), p)
  {
    var k :| FirstNamed(image.columns, p.column, k) && image.columns[k].1 == env.cell(row, p.column);
    assert forall j :: FirstNamed(image.columns, p.column, j) ==> j == k;
  }

  /** A row that satisfies a tree is caught by what is recorded for the tree. */
  lemma {:induction false} TreeCatches(env: Env, relation: string, p: Predicate, image: SsiInsert, row: Row)
    requires image.relation == relation && Pictures(env, image, row, Names(p)) && Eval(env, p, row)
    ensures Caught(TreeReads(relation, p), image)
  {
    match p {
      case Comparison(column, expr, op, value, rhs) =>
        if rhs.Some? || expr.Some? {
          CaughtOne(Membership(relation), image);
        } else {
          ColumnCaught(env, image, row, OnColumn(relation, column, op, value));
          CaughtOne(OnColumn(relation, column, op, value), image);
        }
      case InList(column, expr, values) =>
        if expr.Some? {
          CaughtOne(Membership(relation), image);
        } else {
          ListCatches(env, relation, column, values, image, row);
        }
      case Like(column, pattern) =>
        var q := SsiPredicate(relation, column, None, None, Some(pattern));
        ColumnCaught(env, image, row, q);
        CaughtOne(q, image);
      case Other(_) => CaughtOne(Membership(relation), image);
      case And(left, right) =>
        TreeCatches(env, relation, left, image, row);
        CaughtConcat(TreeReads(relation, left), TreeReads(relation, right), image);
      case Or(left, right) =>
        if !ByColumns(p) {
          CaughtOne(Membership(relation), image);
        } else {
          TreeCatches(env, relation, if Eval(env, left, row) then left else right, image, row);
          CaughtConcat(TreeReads(relation, left), TreeReads(relation, right), image);
        }
    }
  }

  lemma ListCatches(env: Env, relation: string, column: string, values: seq<Value>, image: SsiInsert, row: Row)
    requires image.relation == relation && Pictured(env, image, row, column) && env.cell(row, column) in values
    ensures Caught(ListReads(relation, column, values), image)
  {
    var i :| 0 <= i < |values| && values[i] == env.cell(row, column);
    ColumnCaught(env, image, row, OnColumn(relation, column, Eq, values[i]));
    assert ImageMatches(image, ListReads(relation, column, values)[i]);
  }

  // ----- Plans ------------------------------------------------------------------------------

  /** A probe made from an equality catches every row that satisfies it. */
  lemma ProbeCatches(env: Env, relation: string, p: Predicate, image: SsiInsert, row: Row)
    requires IsEquality(p) && image.relation == relation && Pictures(env, image, row, Names(p)) && Eval(env, p, row)
    ensures Caught(ProbeReads(relation, ProbeOf(p)), image)
  {
    if p.expr.Some? {
      CaughtOne(Membership(relation), image);
    } else {
      ColumnCaught(env, image, row, OnColumn(relation, p.column, Eq, p.value));
      CaughtOne(OnColumn(relation, p.column, Eq, p.value), image);
    }
  }

  lemma {:induction false} NodesCatch(relation: string, nodes: seq<Node>, i: nat, image: SsiInsert)
    requires i < |nodes| && Caught(NodeReads(relation, nodes[i]), image)
    ensures Caught(NodesReads(relation, nodes), image)
  {
    CaughtConcat(NodeReads(relation, nodes[0]), NodesReads(relation, nodes[1..]), image);
    if i > 0 {
      NodesCatch(relation, nodes[1..], i - 1, image);
    }
  }

  lemma {:induction false} ArmsCatch(env: Env, cat: Catalog, relation: string, ps: seq<Predicate>, image: SsiInsert,
                                     row: Row)
    requires image.relation == relation && AnyHolds(env, ps, row)
    requires forall i :: 0 <= i < |ps| ==> Pictures(env, image, row, Names(ps[i]))
    ensures Caught(NodesReads(relation, Probes(cat, ps)), image) || AnyHolds(env, Unindexed(cat, ps), row)
  {
    var rest := ps[1..];
    assert ps == [ps[0]] + rest;
    AnyHoldsConcat(env, [ps[0]], rest, row);
    assert AnyHolds(env, [ps[0]], row) <==> Eval(env, ps[0], row) by { assert [ps[0]][0] == ps[0]; }
    if Eval(env, ps[0], row) {
      if IsProbe(cat, ps[0]) {
        ProbeCatches(env, relation, ps[0], image, row);
        NodesCatch(relation, Probes(cat, ps), 0, image);
      } else {
        assert Unindexed(cat, ps)[0] == ps[0];
      }
    } else {
      ArmsCatch(env, cat, relation, rest, image, row);
      if IsProbe(cat, ps[0]) {
        var nodes := Probes(cat, ps);
        assert nodes[1..] == Probes(cat, rest);
        CaughtConcat(NodeReads(relation, nodes[0]), NodesReads(relation, nodes[1..]), image);
      } else {
        AnyHoldsConcat(env, [ps[0]], Unindexed(cat, rest), row);
      }
    }
  }

  lemma UnionCatches(env: Env, cat: Catalog, relation: string, p: Predicate, image: SsiInsert, row: Row)
    requires p.Or? && image.relation == relation && Pictures(env, image, row, Names(p)) && Eval(env, p, row)
    ensures Caught(NodesReads(relation, Probes(cat, Disjuncts(p))), image) ||
      AnyHolds(env, Unindexed(cat, Disjuncts(p)), row)
  {
    DisjunctsMean(env, p, row);
    PartsNamed(p, Names(p));
    ArmsCatch(env, cat, relation, Disjuncts(p), image, row);
  }

  /** The path of a conjunct that holds catches the row, but for a prefix probe,
      which records nothing itself. */
  lemma ConjunctCatches(env: Env, cat: Catalog, relation: string, p: Predicate, kind: Kind, query: Predicate,
                        image: SsiInsert, row: Row)
    requires Eligible(cat, p, kind) && !kind.ByPrefix?
    requires image.relation == relation && Pictures(env, image, row, Names(p)) && Eval(env, p, row)
    ensures Caught(PathReads(relation, PathFor(p, kind), query), image)
  {
    match kind {
      case ByEquality => ProbeCatches(env, relation, p, image, row);
      case ByRange => TreeCatches(env, relation, p, image, row);
      case ByList => TreeCatches(env, relation, p, image, row);
      case ByTrigrams(grams) =>
        CaughtOne(Membership(relation), image);
        NodesCatch(relation, grams, 0, image);
      case ByUnion(probes) =>
        UnionCatches(env, cat, relation, p, image, row);
    }
  }

  lemma CompositeCatches(env: Env, relation: string, ps: seq<Predicate>, path: Path, query: Predicate, image: SsiInsert,
                         row: Row)
    requires CompositeOf(ps, path) && AllHold(env, ps, row)
    requires image.relation == relation && forall i :: 0 <= i < |ps| ==> Pictures(env, image, row, Names(ps[i]))
    ensures Caught(PathReads(relation, path, query), image)
  {
    var k :| 0 <= k < |ps| && PlainEquality(ps[k]) && ps[k].column == path.columns[0] && ps[k].value == path.values[0];
    assert Eval(env, ps[k], row);
    var q := OnColumn(relation, path.columns[0], Eq, path.values[0]);
    ColumnCaught(env, image, row, q);
    assert PathReads(relation, path, query)[0] == q;
  }

  /** A row of the query that no probe of the intersection catches is on the scan
      side of every absorbed OR. */
  lemma {:induction false} SortedCatch(env: Env, cat: Catalog, relation: string, ps: seq<Predicate>, image: SsiInsert,
                                       row: Row)
    requires AllHold(env, ps, row)
    requires image.relation == relation && forall i :: 0 <= i < |ps| ==> Pictures(env, image, row, Names(ps[i]))
    ensures var s := SortAll(cat, ps);
      && AllHold(env, s.residual, row) && AllHold(env, s.equalities, row)
      && (Caught(NodesReads(relation, s.children), image) || AllAbsorbed(env, s.ors, row))
      && (s.children == [] || Caught(NodesReads(relation, s.children), image) ||
          exists i :: 0 <= i < |s.ors| && s.ors[i].rest != [])
  {
    if ps != [] {
      var n := |ps| - 1;
      var p, s := ps[n], SortAll(cat, ps[..n]);
      SortedCatch(env, cat, relation, ps[..n], image, row);
      var t := Place(cat, s, p);
      if t.children != s.children {
        var node := t.children[|s.children|];
        NodesAppend(relation, s.children, node, image);
        if IsProbe(cat, p) {
          ProbeCatches(env, relation, p, image, row);
          AllHoldAppend(env, s.equalities, p, row);
        } else {
          UnionCatches(env, cat, relation, p, image, row);
          var a := Absorbed(p, Unindexed(cat, Disjuncts(p)));
          AllAbsorbedAppend(env, s.ors, a, row);
          assert t.ors[|s.ors|] == a;
          assert a.rest == [] ==> !AnyHolds(env, a.rest, row);
        }
      } else {
        AllHoldAppend(env, s.residual, p, row);
      }
    }
  }

  lemma NodesAppend(relation: string, nodes: seq<Node>, node: Node, image: SsiInsert)
    ensures Caught(NodesReads(relation, nodes + [node]), image) <==>
      Caught(NodesReads(relation, nodes), image) || Caught(NodeReads(relation, node), image)
    decreases |nodes|
  {
    var all := nodes + [node];
    CaughtConcat(NodeReads(relation, all[0]), NodesReads(relation, all[1..]), image);
    if nodes == [] {
      assert all[1..] == [];
    } else {
      assert all[1..] == nodes[1..] + [node];
      NodesAppend(relation, nodes[1..], node, image);
      CaughtConcat(NodeReads(relation, nodes[0]), NodesReads(relation, nodes[1..]), image);
    }
  }

  /** Every row image that satisfies the WHERE clause matches a predicate recorded
      for the scan, for every plan the planner can produce. */
  lemma EveryPlanCatches(env: Env, cat: Catalog, relation: string, query: Predicate, plan: Plan, image: SsiInsert,
                         row: Row)
    requires Emits(cat, query, plan) && image.relation == relation
    requires Pictures(env, image, row, Names(query)) && Eval(env, query, row)
    ensures Caught(ScanReads(relation, plan, query), image)
  {
    hide Eval, Caught, AllHold, Pictures, UnionOf, IntersectOf, CompositeOf, ConjunctOf, TreeReads;
    var ps := PlannedConjuncts(query);
    PlannedMeans(env, query, row);
    PlannedNamed(query);
    PicturesAll(env, image, row, ps, Names(query));
    SplitReads(relation, plan, query, image);
    if plan.path.FullScan? {
      TreeCatches(env, relation, query, image, row);
    } else if Adds(env, plan.residual, row) {
      PicturesLess(env, image, row, Names(plan.residual.value), Names(query));
      TreeCatches(env, relation, plan.residual.value, image, row);
    } else if Adds(env, plan.complement, row) {
      PicturesLess(env, image, row, Names(plan.complement.value), Names(query));
      TreeCatches(env, relation, plan.complement.value, image, row);
    } else {
      PathCatches(env, cat, relation, query, plan, image, row);
    }
  }

  lemma PathCatches(env: Env, cat: Catalog, relation: string, query: Predicate, plan: Plan, image: SsiInsert, row: Row)
    requires Emits(cat, query, plan) && image.relation == relation && !plan.path.FullScan?
    requires Pictures(env, image, row, Names(query)) && Eval(env, query, row)
    requires AllHold(env, PlannedConjuncts(query), row)
    requires forall i ::
      0 <= i < |PlannedConjuncts(query)| ==> Pictures(env, image, row, Names(PlannedConjuncts(query)[i]))
    requires !Adds(env, plan.residual, row) && !Adds(env, plan.complement, row)
    ensures Caught(PathReads(relation, plan.path, query), image)
  {
    hide Caught, PlannedConjuncts, Pictures;
    var ps := PlannedConjuncts(query);
    if UnionOf(cat, query, plan) {
      UnionCatches(env, cat, relation, query, image, row);
    } else if CompositeOf(ps, plan.path) {
      CompositeCatches(env, relation, ps, plan.path, query, image, row);
    } else if IntersectOf(cat, ps, plan) {
      SortedCatch(env, cat, relation, ps, image, row);
    } else {
      var i, kind :|
        && 0 <= i < |ps| && Eligible(cat, ps[i], kind) && plan.path == PathFor(ps[i], kind)
        && (kind.ByPrefix? ==> forall env: Env, row :: AllHold(env, ps, row) ==> Adds(env, plan.residual, row));
      ConjunctCatches(env, cat, relation, ps[i], kind, query, image, row);
    }
  }

  lemma PicturesAll(env: Env, image: SsiInsert, row: Row, ps: seq<Predicate>, names: set<string>)
    requires AllNamed(ps, names) && Pictures(env, image, row, names)
    ensures forall i :: 0 <= i < |ps| ==> Pictures(env, image, row, Names(ps[i]))
  {
  }

  lemma PicturesLess(env: Env, image: SsiInsert, row: Row, few: set<string>, names: set<string>)
    requires few <= names && Pictures(env, image, row, names)
    ensures Pictures(env, image, row, few)
  {
  }

  lemma SplitReads(relation: string, plan: Plan, query: Predicate, image: SsiInsert)
    ensures Caught(ScanReads(relation, plan, query), image) <==>
      || Caught(PathReads(relation, plan.path, query), image)
      || (plan.residual.Some? && Caught(TreeReads(relation, plan.residual.value), image))
      || (plan.complement.Some? && Caught(TreeReads(relation, plan.complement.value), image))
  {
    hide PathReads, TreeReads, ImageMatches;
    var a := PathReads(relation, plan.path, query);
    var b := if plan.residual.Some? then TreeReads(relation, plan.residual.value) else [];
    var c := if plan.complement.Some? then TreeReads(relation, plan.complement.value) else [];
    CaughtConcat(a + b, c, image);
    CaughtConcat(a, b, image);
  }

  /** A commit after the reader's snapshot that put a row into the scan's result
      makes the reader's own commit fail. */
  lemma PhantomForcesFailure(
      h: History, f: Footprint, i: nat, k: nat, env: Env, cat: Catalog,
      relation: string, query: Predicate, plan: Plan, row: Row)
    requires i < |h| && f.snapshot <= i && k < |h[i].inserts|
    requires Emits(cat, query, plan) && Eval(env, query, row)
    requires h[i].inserts[k].relation == relation && Pictures(env, h[i].inserts[k], row, Names(query))
    requires forall p :: p in ScanReads(relation, plan, query) ==> p in f.preds
    ensures Conflicted(h, f)
  {
    hide Eval, Emits, Pictures, ScanReads, ImageMatches;
    var image := h[i].inserts[k];
    EveryPlanCatches(env, cat, relation, query, plan, image, row);
    var recorded := ScanReads(relation, plan, query);
    var a :| 0 <= a < |recorded| && ImageMatches(image, recorded[a]);
    assert recorded[a] in recorded;
    var b :| 0 <= b < |f.preds| && f.preds[b] == recorded[a];
    assert ImageMatches(h[i].inserts[k], f.preds[b]);
    assert Phantom(f.preds, h[i].inserts);
    assert Clash(h[i], f);
  }

  /** A scan by a transaction that committed after the writer's snapshot makes the
      writer's commit fail, if the writer puts a row into the scan's result. */
  lemma LateWriterFails(
      h: History, f: Footprint, i: nat, k: nat, env: Env, cat: Catalog,
      relation: string, query: Predicate, plan: Plan, row: Row)
    requires i < |h| && f.snapshot <= i && k < |f.inserts|
    requires Emits(cat, query, plan) && Eval(env, query, row)
    requires f.inserts[k].relation == relation && Pictures(env, f.inserts[k], row, Names(query))
    requires forall p :: p in ScanReads(relation, plan, query) ==> p in h[i].preds
    ensures Conflicted(h, f)
  {
    hide Eval, Emits, Pictures, ScanReads, ImageMatches;
    var image := f.inserts[k];
    EveryPlanCatches(env, cat, relation, query, plan, image, row);
    var recorded := ScanReads(relation, plan, query);
    var a :| 0 <= a < |recorded| && ImageMatches(image, recorded[a]);
    assert recorded[a] in recorded;
    var b :| 0 <= b < |h[i].preds| && h[i].preds[b] == recorded[a];
    assert ImageMatches(f.inserts[k], h[i].preds[b]);
    assert Phantom(h[i].preds, f.inserts);
    assert Clash(h[i], f);
  }
}
