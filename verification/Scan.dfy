/** The scan executor: index lookups, sorted row-id lists, residual filters and
    complementary scans over the rows a snapshot shows. */
module Scans {
  import opened Values
  import opened LikePatterns
  import opened Predicates
  import opened Plans
  import opened Planner
  import opened Repeats

  /** Index lookups; None when there is no such index. */
  datatype Indexes = Indexes(
    find: (string, Option<IndexExpression>, Value) -> Option<seq<RowId>>,
    findAll: (seq<string>, seq<Value>) -> Option<seq<RowId>>,
    range: (string, Option<IndexExpression>, CompareOp, Value) -> Option<seq<RowId>>)

  type Visible = map<RowId, Row>

  /** Among the visible rows each index lists exactly those that carry the key, once
      for every time they carry it. */
  ghost predicate Faithful(env: Env, cat: Catalog, idx: Indexes, rows: Visible) {
    && (forall c, e, v :: HasIndex(cat, c, e) ==> idx.find(c, e, v).Some?)
    && (forall c, e, v, id :: HasIndex(cat, c, e) && id in rows ==>
         Times(idx.find(c, e, v).value, id) == ProbeTimes(env, Probe(c, e, v), rows[id]))
    && (forall c, e, op, v :: HasIndex(cat, c, e) ==> idx.range(c, e, op, v).Some?)
    && (forall c, e, op, v, id :: HasIndex(cat, c, e) && id in rows ==>
         Times(idx.range(c, e, op, v).value, id) == Once(RangeHolds(env, c, e, op, v, rows[id])))
    && (forall cs, vs :: cs in cat.composites && |cs| >= 2 ==> idx.findAll(cs, vs).Some?)
    && (forall cs, vs, id :: cs in cat.composites && |cs| >= 2 && id in rows ==>
         Times(idx.findAll(cs, vs).value, id) == Once(CompositeHolds(env, cs, vs, rows[id])))
  }

  // ----- Predicates on one row --------------------------------------------------------

  method EvalPredicate(env: Env, p: Predicate, row: Row) returns (b: bool)
    ensures b <==> Eval(env, p, row)
  {
    match p {
      case Comparison(column, expr, op, value, rhs) =>
        var right := if rhs.Some? then env.cell(row, rhs.value) else value;
        return Compare(Operand(env, column, expr, row), op, right);
      case InList(column, expr, values) =>
        var left := Operand(env, column, expr, row);
        for i := 0 to |values|
          invariant left !in values[..i]
        {
          if left == values[i] {
            return true;
          }
        }
        assert values[..|values|] == values;
        return false;
      case Like(column, pattern) =>
        var left := env.cell(row, column);
        if !left.Str? {
          return false;
        }
        b := MatchLike(left.s, pattern);
      case Other(tag) =>
        return env.other(tag, row);
      case And(left, right) =>
        b := EvalPredicate(env, left, row);
        if b {
          b := EvalPredicate(env, right, row);
        }
      case Or(left, right) =>
        b := EvalPredicate(env, left, row);
        if !b {
          b := EvalPredicate(env, right, row);
        }
    }
  }

  // ----- Sorted row-id lists -------------------------------------------------------------

  predicate Ascending(s: seq<RowId>) {
    forall i, j :: 0 <= i < j < |s| ==> s[i] <= s[j]
  }

  /** `std::sort`: repetitions stay. */
  method SortIds(s: seq<RowId>) returns (r: seq<RowId>)
    ensures Ascending(r) && multiset(r) == multiset(s)
  {
    r := [];
    for i := 0 to |s|
      invariant Ascending(r)
      invariant multiset(r) == multiset(s[..i])
    {
      assert s[..i + 1] == s[..i] + [s[i]];
      var k := |r|;
      while k > 0 && s[i] < r[k - 1]
        invariant 0 <= k <= |r|
        invariant forall j :: k <= j < |r| ==> s[i] < r[j]
      {
        k := k - 1;
      }
      InsertedAt(r, k, s[i]);
      r := r[..k] + [s[i]] + r[k..];
    }
    assert s[..|s|] == s;
  }

  lemma InsertedAt(r: seq<RowId>, k: nat, x: RowId)
    requires Ascending(r) && k <= |r|
    requires (k > 0 ==> r[k - 1] <= x) && forall j :: k <= j < |r| ==> x < r[j]
    ensures Ascending(r[..k] + [x] + r[k..]) && multiset(r[..k] + [x] + r[k..]) == multiset(r) + multiset{x}
  {
    InsertedOrder(r, k, x);
    InsertCounts(r, k, x);
  }

  lemma InsertedOrder(r: seq<RowId>, k: nat, x: RowId)
    requires Ascending(r) && k <= |r|
    requires (k > 0 ==> r[k - 1] <= x) && forall j :: k <= j < |r| ==> x < r[j]
    ensures Ascending(r[..k] + [x] + r[k..])
  {
    var t := r[..k] + [x] + r[k..];
    forall i, j | 0 <= i < j < |t| ensures t[i] <= t[j] {
      assert t[i] == if i < k then r[i] else if i == k then x else r[i - 1];
      assert t[j] == if j < k then r[j] else if j == k then x else r[j - 1];
    }
  }

  lemma AscendingAppend(r: seq<RowId>, x: RowId)
    requires Ascending(r) && forall y :: y in r ==> y <= x
    ensures Ascending(r + [x])
  {
    assert forall i :: 0 <= i < |r| ==> r[i] in r;
  }

  /** The rest of an ascending list: its head, and no smaller element. */
  lemma Heads(a: seq<RowId>, i: nat)
    requires i < |a| && Ascending(a)
    ensures forall x :: Times(a[i..], x) == Times(a[i + 1..], x) + if x == a[i] then 1 else 0
    ensures forall x :: x < a[i] ==> Times(a[i..], x) == 0
  {
    assert a[i..] == [a[i]] + a[i + 1..];
    forall x | x < a[i] ensures Times(a[i..], x) == 0 {
      TimesIn(a[i..], x);
    }
  }

  lemma NothingLeft(a: seq<RowId>)
    ensures forall x :: Times(a[|a|..], x) == 0
  {
  }

  ghost predicate AtMost(r: seq<RowId>, a: seq<RowId>, i: nat) {
    forall x, k :: x in r && i <= k < |a| ==> x <= a[k]
  }

  /** `std::set_intersection` on ascending lists. */
  method IntersectSorted(a: seq<RowId>, b: seq<RowId>) returns (r: seq<RowId>)
    requires Ascending(a) && Ascending(b)
    ensures Ascending(r) && forall x :: Times(r, x) == Least(Times(a, x), Times(b, x))
  {
    hide Times;
    r := [];
    var i, j := 0, 0;
    assert a[0..] == a && b[0..] == b;
    NothingYet();
    while i < |a| && j < |b|
      invariant 0 <= i <= |a| && 0 <= j <= |b| && Ascending(r) && AtMost(r, a, i) && AtMost(r, b, j)
      invariant forall x :: Times(r, x) + Least(Times(a[i..], x), Times(b[j..], x)) == Least(Times(a, x), Times(b, x))
      decreases |a| - i + |b| - j
    {
      Heads(a, i);
      Heads(b, j);
      if a[i] < b[j] {
        i := i + 1;
      } else if b[j] < a[i] {
        j := j + 1;
      } else {
        AscendingAppend(r, a[i]);
        AppendCounts(r, a[i]);
        r := r + [a[i]];
        i, j := i + 1, j + 1;
      }
    }
    NothingLeft(a);
    NothingLeft(b);
  }

  lemma NothingYet()
    ensures forall x: RowId :: Times([], x) == 0
  {
  }

  lemma AppendCounts(r: seq<RowId>, y: RowId)
    ensures forall x :: Times(r + [y], x) == Times(r, x) + if x == y then 1 else 0
  {
  }

  /** `std::set_union` on ascending lists. */
  method UniteSorted(a: seq<RowId>, b: seq<RowId>) returns (r: seq<RowId>)
    requires Ascending(a) && Ascending(b)
    ensures Ascending(r) && forall x :: Times(r, x) == Most(Times(a, x), Times(b, x))
  {
    hide Times;
    r := [];
    var i, j := 0, 0;
    assert a[0..] == a && b[0..] == b;
    NothingYet();
    NothingLeft(a);
    NothingLeft(b);
    while i < |a| || j < |b|
      invariant 0 <= i <= |a| && 0 <= j <= |b| && Ascending(r) && AtMost(r, a, i) && AtMost(r, b, j)
      invariant forall x :: Times(r, x) + Most(Times(a[i..], x), Times(b[j..], x)) == Most(Times(a, x), Times(b, x))
      decreases |a| - i + |b| - j
    {
      if i < |a| {
        Heads(a, i);
      }
      if j < |b| {
        Heads(b, j);
      }
      if j == |b| || (i < |a| && a[i] < b[j]) {
        AscendingAppend(r, a[i]);
        AppendCounts(r, a[i]);
        r := r + [a[i]];
        i := i + 1;
      } else if i == |a| || b[j] < a[i] {
        AscendingAppend(r, b[j]);
        AppendCounts(r, b[j]);
        r := r + [b[j]];
        j := j + 1;
      } else {
        AscendingAppend(r, a[i]);
        AppendCounts(r, a[i]);
        r := r + [a[i]];
        i, j := i + 1, j + 1;
      }
    }
  }

  // ----- Bitmap trees -----------------------------------------------------------------------

  /** Each visible row is listed as often as the node finds it; other ids may be
      listed too. */
  ghost predicate Finds(env: Env, node: Node, rows: Visible, ids: seq<RowId>) {
    forall id :: id in rows ==> Times(ids, id) == NodeTimes(env, node, rows[id])
  }

  method EvalNode(env: Env, cat: Catalog, idx: Indexes, node: Node, ghost rows: Visible) returns (ids: seq<RowId>)
    requires Faithful(env, cat, idx, rows) && NodeIndexed(cat, node)
    ensures Ascending(ids) && Finds(env, node, rows, ids)
    decreases node, 0
  {
    hide ProbeTimes, LeastTimes, MostTimes;
    match node {
      case Leaf(p) =>
        var hits := idx.find(p.column, p.expr, p.value);
        ids := SortIds(hits.value);
        assert p == Probe(p.column, p.expr, p.value);
      case Intersection(children) =>
        ids := EvalIntersection(env, cat, idx, children, rows, node);
      case Union(children) =>
        ids := EvalUnion(env, cat, idx, children, rows, node);
    }
  }

  ghost predicate LeastFound(env: Env, nodes: seq<Node>, rows: Visible, ids: seq<RowId>) {
    forall id :: id in rows ==> Times(ids, id) == LeastTimes(env, nodes, rows[id])
  }

  ghost predicate MostFound(env: Env, nodes: seq<Node>, rows: Visible, ids: seq<RowId>) {
    forall id :: id in rows ==> Times(ids, id) == MostTimes(env, nodes, rows[id])
  }

  lemma LeastNext(env: Env, nodes: seq<Node>, i: nat, row: Row)
    requires i < |nodes|
    ensures LeastTimes(env, nodes[..i + 1], row) ==
      if i == 0 then NodeTimes(env, nodes[0], row)
      else Least(LeastTimes(env, nodes[..i], row), NodeTimes(env, nodes[i], row))
  {
    hide NodeTimes;
    assert nodes[..i + 1][..i] == nodes[..i];
  }

  lemma MostNext(env: Env, nodes: seq<Node>, i: nat, row: Row)
    requires i < |nodes|
    ensures MostTimes(env, nodes[..i + 1], row) == Most(MostTimes(env, nodes[..i], row), NodeTimes(env, nodes[i], row))
  {
    hide NodeTimes;
    assert nodes[..i + 1][..i] == nodes[..i];
  }

  /** Once no row is left, further children add none. */
  lemma {:induction false} LeastStaysZero(env: Env, nodes: seq<Node>, i: nat, row: Row)
    requires 0 < i <= |nodes| && LeastTimes(env, nodes[..i], row) == 0
    ensures LeastTimes(env, nodes, row) == 0
    decreases |nodes| - i
  {
    hide NodeTimes, LeastTimes;
    if i < |nodes| {
      LeastNext(env, nodes, i, row);
      LeastStaysZero(env, nodes, i + 1, row);
    } else {
      assert nodes[..i] == nodes;
    }
  }

  lemma NoneLeft(env: Env, nodes: seq<Node>, i: nat, rows: Visible)
    requires 0 < i <= |nodes| && LeastFound(env, nodes[..i], rows, [])
    ensures LeastFound(env, nodes, rows, [])
  {
    hide LeastTimes, Times;
    forall id | id in rows ensures Times([], id) == LeastTimes(env, nodes, rows[id]) {
      NothingYet();
      LeastStaysZero(env, nodes, i, rows[id]);
    }
  }

  method EvalIntersection(env: Env, cat: Catalog, idx: Indexes, children: seq<Node>, ghost rows: Visible,
                          ghost node: Node)
    returns (ids: seq<RowId>)
    requires Faithful(env, cat, idx, rows) && forall i :: 0 <= i < |children| ==> NodeIndexed(cat, children[i])
    requires node == Intersection(children)
    ensures Ascending(ids) && LeastFound(env, children, rows, ids)
    decreases node, 0, 0
  {
    hide Faithful, NodeTimes, NodeIndexed, LeastTimes, Times;
    NothingYet();
    ids := [];
    if children == [] {
      assert forall row :: LeastTimes(env, [], row) == 0 by { NoNodes(env); }
      return;
    }
    for i := 0 to |children|
      invariant Ascending(ids)
      invariant i > 0 ==> LeastFound(env, children[..i], rows, ids)
    {
      var child := EvalNode(env, cat, idx, children[i], rows);
      forall row { LeastNext(env, children, i, row); }
      if child == [] {
        assert LeastFound(env, children[..i + 1], rows, []);
        NoneLeft(env, children, i + 1, rows);
        return [];
      }
      if i == 0 {
        ids := child;
      } else {
        ids := IntersectSorted(ids, child);
        if ids == [] {
          assert LeastFound(env, children[..i + 1], rows, []);
          NoneLeft(env, children, i + 1, rows);
          return [];
        }
      }
    }
    assert children[..|children|] == children;
  }

  lemma NoNodes(env: Env)
    ensures forall row {:trigger LeastTimes(env, [], row)} :: LeastTimes(env, [], row) == 0
    ensures forall row {:trigger MostTimes(env, [], row)} :: MostTimes(env, [], row) == 0
  {
  }

  method EvalUnion(env: Env, cat: Catalog, idx: Indexes, children: seq<Node>, ghost rows: Visible, ghost node: Node)
    returns (ids: seq<RowId>)
    requires Faithful(env, cat, idx, rows) && forall i :: 0 <= i < |children| ==> NodeIndexed(cat, children[i])
    requires node == Union(children)
    ensures Ascending(ids) && MostFound(env, children, rows, ids)
    decreases node, 0, 0
  {
    hide Faithful, NodeTimes, NodeIndexed, MostTimes, Times;
    ids := [];
    NothingYet();
    NoNodes(env);
    for i := 0 to |children|
      invariant Ascending(ids)
      invariant MostFound(env, children[..i], rows, ids)
    {
      var child := EvalNode(env, cat, idx, children[i], rows);
      forall row { MostNext(env, children, i, row); }
      ids := UniteSorted(ids, child);
    }
    assert children[..|children|] == children;
  }

  // ----- Collecting rows ------------------------------------------------------------------------

  type Entries = seq<(RowId, Row)>

  function IdList(out: Entries): seq<RowId> {
    seq(|out|, i requires 0 <= i < |out| => out[i].0)
  }

  /** Every entry is a visible row under its id. */
  ghost predicate FromRows(out: Entries, rows: Visible) {
    forall i :: 0 <= i < |out| ==> out[i].0 in rows && rows[out[i].0] == out[i].1
  }

  /** How often a row id is returned. */
  ghost function Returned(out: Entries, id: RowId): nat {
    Times(IdList(out), id)
  }

  lemma ReturnedNext(out: Entries, e: (RowId, Row))
    ensures forall id :: Returned(out + [e], id) == Returned(out, id) + if id == e.0 then 1 else 0
  {
    assert IdList(out + [e]) == IdList(out) + [e.0];
  }

  lemma NoneReturned()
    ensures forall id :: Returned([], id) == 0
  {
  }

  /** `entriesById`: ids that are not visible are skipped. */
  method EntriesById(rows: Visible, ids: seq<RowId>) returns (out: Entries)
    ensures FromRows(out, rows)
    ensures forall id :: Returned(out, id) == if id in rows then Times(ids, id) else 0
  {
    hide Returned, Times;
    out := [];
    NoneReturned();
    NothingYet();
    for i := 0 to |ids|
      invariant FromRows(out, rows)
      invariant forall id :: Returned(out, id) == if id in rows then Times(ids[..i], id) else 0
    {
      assert ids[..i + 1] == ids[..i] + [ids[i]];
      AppendCounts(ids[..i], ids[i]);
      if ids[i] in rows {
        ReturnedNext(out, (ids[i], rows[ids[i]]));
        out := out + [(ids[i], rows[ids[i]])];
      }
    }
    assert ids[..|ids|] == ids;
  }

  method ApplyResidual(env: Env, residual: Option<Predicate>, entries: Entries, ghost rows: Visible)
    returns (out: Entries)
    requires FromRows(entries, rows)
    ensures FromRows(out, rows)
    ensures forall id ::
      Returned(out, id) == if id in rows && Passes(env, residual, rows[id]) then Returned(entries, id) else 0
  {
    hide Returned, Times;
    if residual.None? {
      OnlyVisible(entries, rows);
      return entries;
    }
    out := [];
    NoneReturned();
    for i := 0 to |entries|
      invariant FromRows(out, rows)
      invariant forall id ::
        Returned(out, id) == if id in rows && Passes(env, residual, rows[id]) then Returned(entries[..i], id) else 0
    {
      assert entries[..i + 1] == entries[..i] + [entries[i]];
      ReturnedNext(entries[..i], entries[i]);
      var keep := EvalPredicate(env, residual.value, entries[i].1);
      if keep {
        ReturnedNext(out, entries[i]);
        out := out + [entries[i]];
      }
    }
    assert entries[..|entries|] == entries;
  }

  lemma OnlyVisible(out: Entries, rows: Visible)
    requires FromRows(out, rows)
    ensures forall id :: id !in rows ==> Returned(out, id) == 0
  {
    forall id | id !in rows ensures Returned(out, id) == 0 {
      TimesIn(IdList(out), id);
    }
  }

  ghost function Topped(n: nat, more: bool): nat {
    if n > 0 then n else Once(more)
  }

  /** Adds, once each, the visible rows that satisfy the predicate and are not there
      yet. */
  method AddScanned(env: Env, p: Option<Predicate>, rows: Visible, seen: set<RowId>, entries: Entries)
    returns (out: Entries)
    requires FromRows(entries, rows) && (forall id :: id in rows ==> (id in seen <==> Returned(entries, id) > 0))
    ensures FromRows(out, rows)
    ensures forall id :: id in rows ==> Returned(out, id) == Topped(Returned(entries, id), Passes(env, p, rows[id]))
  {
    hide Returned, Times;
    out := entries;
    var rest := rows.Keys;
    while rest != {}
      invariant rest <= rows.Keys && FromRows(out, rows)
      invariant forall id ::
        id in rows ==> Returned(out, id) == Topped(Returned(entries, id), id !in rest && Passes(env, p, rows[id]))
      decreases |rest|
    {
      var id := Pick(rest);
      rest := rest - {id};
      if id !in seen {
        var keep := true;
        if p.Some? {
          keep := EvalPredicate(env, p.value, rows[id]);
        }
        if keep {
          ReturnedNext(out, (id, rows[id]));
          out := out + [(id, rows[id])];
        }
      }
    }
  }

  ghost predicate Locates(env: Env, path: Path, rows: Visible, ids: seq<RowId>) {
    forall id :: id in rows ==> Times(ids, id) == PathTimes(env, path, rows[id])
  }

  /** The row ids an index path finds, with repetitions. */
  method LookUp(env: Env, cat: Catalog, idx: Indexes, path: Path, ghost rows: Visible) returns (ids: seq<RowId>)
    requires Faithful(env, cat, idx, rows) && PathIndexed(cat, path) && !path.FullScan?
    ensures Locates(env, path, rows, ids)
  {
    hide Times, ProbeTimes, ListTimes, LeastTimes, MostTimes, RangeHolds, CompositeHolds;
    match path {
      case HashEq(column, expr, value) =>
        var hits := idx.find(column, expr, value);
        ids := hits.value;
      case CompositeEq(columns, values) =>
        var hits := idx.findAll(columns, values);
        ids := hits.value;
      case OrderedRange(column, expr, op, value) =>
        var hits := idx.range(column, expr, op, value);
        ids := hits.value;
      case HashIn(column, expr, values) =>
        ids := LookUpList(env, cat, idx, column, expr, values, rows);
      case PrefixLike(column, prefix) =>
        ids := LookUpPrefix(env, cat, idx, column, prefix, rows);
      case IntersectPath(children) =>
        ids := EvalIntersection(env, cat, idx, children, rows, Intersection(children));
      case UnionPath(children) =>
        ids := EvalUnion(env, cat, idx, children, rows, Union(children));
    }
  }

  lemma ListNext(env: Env, column: string, expr: Option<IndexExpression>, values: seq<Value>, i: nat, row: Row)
    requires i < |values|
    ensures ListTimes(env, column, expr, values[..i + 1], row) ==
      ListTimes(env, column, expr, values[..i], row) + ProbeTimes(env, Probe(column, expr, values[i]), row)
  {
    hide ProbeTimes;
    assert values[..i + 1][..i] == values[..i];
  }

  lemma ConcatCounts(a: seq<RowId>, b: seq<RowId>)
    ensures forall x :: Times(a + b, x) == Times(a, x) + Times(b, x)
  {
  }

  method LookUpList(env: Env, cat: Catalog, idx: Indexes, column: string, expr: Option<IndexExpression>,
      values: seq<Value>, ghost rows: Visible) returns (ids: seq<RowId>)
    requires Faithful(env, cat, idx, rows) && HasIndex(cat, column, expr)
    ensures Locates(env, HashIn(column, expr, values), rows, ids)
  {
    hide ProbeTimes, Times;
    ids := [];
    NothingYet();
    for i := 0 to |values|
      invariant forall id :: id in rows ==> Times(ids, id) == ListTimes(env, column, expr, values[..i], rows[id])
    {
      var hits := idx.find(column, expr, values[i]);
      forall row { ListNext(env, column, expr, values, i, row); }
      ConcatCounts(ids, hits.value);
      ids := ids + hits.value;
    }
    assert values[..|values|] == values;
  }

  method LookUpPrefix(env: Env, cat: Catalog, idx: Indexes, column: string, prefix: string, ghost rows: Visible)
    returns (ids: seq<RowId>)
    requires Faithful(env, cat, idx, rows) && column in cat.columns
    ensures Locates(env, PrefixLike(column, prefix), rows, ids)
  {
    hide Times, Less;
    var exact := idx.find(column, None, Str(prefix));
    var greater := idx.range(column, None, Gt, Str(prefix));
    ids := exact.value + greater.value;
    ConcatCounts(exact.value, greater.value);
    forall id | id in rows ensures Times(ids, id) == PathTimes(env, PrefixLike(column, prefix), rows[id]) {
      LessOrder(Str(prefix), Str(prefix), Str(prefix));
      assert Times(exact.value, id) == ProbeTimes(env, Probe(column, None, Str(prefix)), rows[id]);
      assert Times(greater.value, id) == Once(RangeHolds(env, column, None, Gt, Str(prefix), rows[id]));
    }
  }

  /** The executor returns each visible row as often as the plan says. */
  method CollectVisibleEntries(env: Env, cat: Catalog, idx: Indexes, rows: Visible, plan: Plan, wher: Option<Predicate>)
    returns (out: Entries)
    requires Faithful(env, cat, idx, rows) && PathIndexed(cat, plan.path)
    ensures FromRows(out, rows)
    ensures forall id :: id in rows ==> Returned(out, id) == PlanTimes(env, plan, wher, rows[id])
  {
    hide Faithful, PathIndexed, PathTimes, Returned, Times;
    NoneReturned();
    if plan.path.FullScan? {
      out := AddScanned(env, wher, rows, {}, []);
      return;
    }
    var ids := LookUp(env, cat, idx, plan.path, rows);
    var hits := EntriesById(rows, ids);
    if plan.path.UnionPath? {
      if plan.residual.None? {
        return hits;
      }
      SeenIds(ids);
      out := AddScanned(env, plan.residual, rows, (set id | id in ids), hits);
      return;
    }
    out := ApplyResidual(env, plan.residual, hits, rows);
    if plan.path.IntersectPath? && plan.complement.Some? {
      var filtered := out;
      SeenEntries(filtered);
      out := AddScanned(env, plan.complement, rows, (set id | id in IdList(filtered)), filtered);
    }
  }

  lemma SeenIds(ids: seq<RowId>)
    ensures forall id :: id in ids <==> Times(ids, id) > 0
  {
    forall id ensures id in ids <==> Times(ids, id) > 0 {
      TimesIn(ids, id);
    }
  }

  lemma SeenEntries(out: Entries)
    ensures forall id :: id in IdList(out) <==> Returned(out, id) > 0
  {
    SeenIds(IdList(out));
  }

  /** Planning and executing a WHERE clause returns the rows that filtering every
      visible row would, whatever the costs, if the query is well read; and each of
      them once, unless there is a trigram index or an IN list with a repeated value.
      For other queries the plan tells which rows are added or lost. */
  method Select(env: Env, cat: Catalog, idx: Indexes, rows: Visible, query: Predicate)
    returns (plan: Plan, out: Entries)
    requires Faithful(env, cat, idx, rows)
    ensures FromRows(out, rows)
    ensures Clean(cat, query) && (WellRead(cat, query) || !Misread(cat, query, plan)) ==>
      forall id :: id in rows ==> (Returned(out, id) > 0 <==> Eval(env, query, rows[id]))
    ensures Clean(cat, query) && (WellRead(cat, query) || !Misread(cat, query, plan)) && RepeatFree(plan.path) ==>
      forall id :: id in rows ==> Returned(out, id) == Once(Eval(env, query, rows[id]))
    ensures Clean(cat, query) && WellRead(cat, query) && NoRepeatSource(cat, query) ==>
      forall id :: id in rows ==> Returned(out, id) == Once(Eval(env, query, rows[id]))
    ensures Clean(cat, query) && MixedUnion(query, plan) ==>
      exists i :: MixesAt(cat, PlannedConjuncts(query), plan, i) &&
        forall id :: id in rows ==> (Returned(out, id) > 0 <==> EitherHolds(env, PlannedConjuncts(query), i, rows[id]))
    ensures Clean(cat, query) && plan.path.IntersectPath? ==>
      || (forall id :: id in rows ==> (Returned(out, id) > 0 <==> Eval(env, query, rows[id])))
      || (forall id :: id in rows ==>
           (Returned(out, id) > 0 <==>
             Eval(env, query, rows[id]) && !Torn(env, cat, PlannedConjuncts(query), rows[id])))
  {
    hide Faithful, Clean, WellRead, Misread, MixedUnion, Eval, Selects, Returned, RepeatFree, PlanTimes;
    hide EitherHolds, Torn, ProbeOr, AllHold, PlannedConjuncts, PathIndexed, Emits, NoRepeatSource;
    plan := PlanSelect(cat, Some(query));
    out := CollectVisibleEntries(env, cat, idx, rows, plan, Some(query));
    forall row { SelectedAtLeastOnce(env, plan, Some(query), row); }
    if NoRepeatSource(cat, query) {
      PlansAreRepeatFree(cat, query, plan);
    }
    if RepeatFree(plan.path) {
      forall row { ReturnedOnce(env, plan, Some(query), row); }
    }
    if Clean(cat, query) {
      PlannedClean(cat, query);
    }
    forall row { PlannedMeans(env, query, row); }
    if Clean(cat, query) && MixedUnion(query, plan) {
      ghost var i :| MixesAt(cat, PlannedConjuncts(query), plan, i);
      assert forall id :: id in rows ==>
        (Returned(out, id) > 0 <==> EitherHolds(env, PlannedConjuncts(query), i, rows[id]));
    }
  }
}
