/** WITH RECURSIVE: the iteration over deltas against the least fixpoint. */
module Fixpoint {
  import opened Values
  import opened SetOps

  type Tables = seq<seq<Row>>

  /** How the recursive arm of each member reads the tables bound to the group. */
  type Arms = (nat, Tables) -> seq<Row>

  ghost predicate Joins(x: Tables, y: Tables, z: Tables) {
    |x| == |y| == |z| && forall j :: 0 <= j < |z| ==> Rows(z[j]) == Rows(x[j]) + Rows(y[j])
  }

  /** Each arm distributes over union and maps empty tables to an empty one. */
  ghost predicate Linear(arms: Arms, n: nat) {
    && (forall i: nat, x, y, z :: i < n && |z| == n && Joins(x, y, z) ==>
         Rows(arms(i, z)) == Rows(arms(i, x)) + Rows(arms(i, y)))
    && (forall i: nat, x: Tables ::
         i < n && |x| == n && (forall j :: 0 <= j < n ==> x[j] == []) ==> Rows(arms(i, x)) == {})
  }

  ghost predicate Below(a: Tables, b: Tables) {
    |a| == |b| && forall j :: 0 <= j < |b| ==> Rows(a[j]) <= Rows(b[j])
  }

  /** Holds the anchors and everything the arms derive from it. */
  ghost predicate Closed(arms: Arms, anchors: Tables, s: Tables) {
    Below(anchors, s) && forall i: nat :: i < |s| ==> Rows(arms(i, s)) <= Rows(s[i])
  }

  ghost predicate LeastFixpoint(arms: Arms, anchors: Tables, r: Tables) {
    Closed(arms, anchors, r) && forall s :: Closed(arms, anchors, s) ==> Below(r, s)
  }

  lemma ArmsMonotone(arms: Arms, n: nat, x: Tables, z: Tables, i: nat)
    requires Linear(arms, n) && |z| == n && i < n && Below(x, z)
    ensures Rows(arms(i, x)) <= Rows(arms(i, z))
  {
    assert Joins(x, z, z);
  }

  /** A member of the group: whether its name binds the rows so far or only the
      newest ones. */
  datatype Member = Member(anchor: seq<Row>, bindsAll: bool)

  /** What the loop maintains: everything derived from an earlier state `was` is
      present, the deltas make up the difference, and nothing is superfluous. */
  ghost predicate Progress(arms: Arms, anchors: Tables, was: Tables, result: Tables, delta: Tables) {
    && |anchors| == |was| == |result| == |delta|
    && Joins(was, delta, result)
    && Below(anchors, result)
    && (forall i: nat :: i < |result| ==> Rows(arms(i, was)) <= Rows(result[i]))
    && (forall s :: Closed(arms, anchors, s) ==> Below(result, s))
    && (forall i :: 0 <= i < |result| ==> Distinct(result[i]))
  }

  /** One round: the arms are applied to tables between the deltas and the
      results, and the rows not seen before become the next deltas. */
  lemma ProgressStep(
      arms: Arms, anchors: Tables, was: Tables, result: Tables, delta: Tables,
      bound: Tables, added: Tables, next: Tables)
    requires Linear(arms, |anchors|) && Progress(arms, anchors, was, result, delta)
    requires Below(delta, bound) && Below(bound, result) && |added| == |next| == |anchors|
    requires forall i: nat :: i < |anchors| ==> Distinct(next[i])
    requires forall i: nat :: i < |anchors| ==> Rows(added[i]) == Rows(arms(i, bound)) - Rows(result[i])
    requires forall i: nat :: i < |anchors| ==> Rows(next[i]) == Rows(result[i]) + Rows(added[i])
    ensures Progress(arms, anchors, result, next, added)
  {
    var n := |anchors|;
    assert Joins(was, bound, result) by {
      forall j | 0 <= j < n ensures Rows(result[j]) == Rows(was[j]) + Rows(bound[j]) {
        assert Rows(delta[j]) <= Rows(bound[j]) <= Rows(result[j]);
      }
    }
    forall i: nat | i < n ensures Rows(arms(i, result)) <= Rows(next[i]) {
      assert Rows(arms(i, result)) == Rows(arms(i, was)) + Rows(arms(i, bound));
    }
    forall s | Closed(arms, anchors, s) ensures Below(next, s) {
      assert Below(result, s);
      forall i: nat | i < n ensures Rows(next[i]) <= Rows(s[i]) {
        assert Below(bound, s);
        ArmsMonotone(arms, n, bound, s, i);
      }
    }
  }

  lemma ProgressEnds(arms: Arms, anchors: Tables, was: Tables, result: Tables, delta: Tables)
    requires Linear(arms, |anchors|) && Progress(arms, anchors, was, result, delta)
    requires forall i :: 0 <= i < |delta| ==> delta[i] == []
    ensures LeastFixpoint(arms, anchors, result)
  {
    var n := |anchors|;
    assert Joins(was, was, result);
    forall i: nat | i < n ensures Rows(arms(i, result)) <= Rows(result[i]) {
      assert Rows(arms(i, result)) == Rows(arms(i, was)) + Rows(arms(i, was));
    }
  }

  /** The rows a member has not seen yet, once each. */
  method FilterSeen(rows: seq<Row>, seen: set<Row>) returns (added: seq<Row>, after: set<Row>)
    ensures Distinct(added) && Rows(added) == Rows(rows) - seen && after == seen + Rows(added)
  {
    added, after := [], seen;
    for i := 0 to |rows|
      invariant Distinct(added) && Rows(added) == Rows(rows[..i]) - seen && after == seen + Rows(added)
    {
      assert rows[..i + 1] == rows[..i] + [rows[i]];
      RowsAppend(rows[..i], rows[i]);
      if rows[i] !in after {
        RowsAppend(added, rows[i]);
        assert forall j :: 0 <= j < |added| ==> added[j] in Rows(added);
        added := added + [rows[i]];
        after := after + {rows[i]};
      }
    }
    assert rows[..|rows|] == rows;
  }

  lemma AppendNew(a: seq<Row>, b: seq<Row>)
    requires Distinct(a) && Distinct(b) && Rows(a) * Rows(b) == {}
    ensures Distinct(a + b) && Rows(a + b) == Rows(a) + Rows(b)
  {
    RowsConcat(a, b);
    forall i, j | 0 <= i < |a| && 0 <= j < |b| ensures a[i] != b[j] {
      var x := a[i];
      assert x in Rows(a) && b[j] in Rows(b);
      assert x !in Rows(a) * Rows(b);
    }
  }

  datatype Outcome = Finished(tables: Tables) | TooManyRows | TooManyIterations

  predicate AnyRows(tables: Tables) {
    exists i :: 0 <= i < |tables| && tables[i] != []
  }

  function Anchors(group: seq<Member>): Tables {
    seq(|group|, i requires 0 <= i < |group| => group[i].anchor)
  }

  function CountRows(tables: Tables): nat {
    if tables == [] then 0 else |tables[0]| + CountRows(tables[1..])
  }

  method Start(group: seq<Member>) returns (result: Tables, seen: seq<set<Row>>)
    ensures |result| == |group| == |seen|
    ensures forall i :: 0 <= i < |group| ==> Distinct(result[i]) && Rows(result[i]) == seen[i] == Rows(group[i].anchor)
  {
    result, seen := [], [];
    for i := 0 to |group|
      invariant |result| == i == |seen|
      invariant forall k :: 0 <= k < i ==> Distinct(result[k]) && Rows(result[k]) == seen[k] == Rows(group[k].anchor)
    {
      var rows := DeduplicateRows(group[i].anchor);
      result := result + [rows];
      seen := seen + [Rows(rows)];
    }
  }

  method Bind(group: seq<Member>, result: Tables, delta: Tables) returns (bound: Tables)
    requires |result| == |delta| == |group| && Below(delta, result)
    ensures |bound| == |group| && Below(delta, bound) && Below(bound, result)
  {
    bound := [];
    for i := 0 to |group|
      invariant |bound| == i
      invariant forall k :: 0 <= k < i ==> Rows(delta[k]) <= Rows(bound[k]) <= Rows(result[k])
    {
      bound := bound + [if group[i].bindsAll then result[i] else delta[i]];
    }
  }

  /** The arms on the bound tables, without the rows already seen. */
  method Step(arms: Arms, bound: Tables, seen: seq<set<Row>>) returns (added: Tables, after: seq<set<Row>>)
    requires |bound| == |seen|
    ensures |added| == |after| == |bound|
    ensures forall i: nat :: i < |bound| ==> Distinct(added[i])
    ensures forall i: nat :: i < |bound| ==> Rows(added[i]) == Rows(arms(i, bound)) - seen[i]
    ensures forall i: nat :: i < |bound| ==> after[i] == seen[i] + Rows(added[i])
  {
    added, after := [], [];
    for i := 0 to |bound|
      invariant |added| == i == |after|
      invariant forall k: nat :: k < i ==> Distinct(added[k])
      invariant forall k: nat :: k < i ==> Rows(added[k]) == Rows(arms(k, bound)) - seen[k]
      invariant forall k: nat :: k < i ==> after[k] == seen[k] + Rows(added[k])
    {
      var rows, known := FilterSeen(arms(i, bound), seen[i]);
      added := added + [rows];
      after := after + [known];
    }
  }

  method Extend(result: Tables, added: Tables) returns (next: Tables)
    requires |added| == |result|
    requires forall i ::
      0 <= i < |result| ==> Distinct(result[i]) && Distinct(added[i]) && Rows(result[i]) * Rows(added[i]) == {}
    ensures |next| == |result|
    ensures forall i: nat :: i < |result| ==> Distinct(next[i])
    ensures forall i: nat :: i < |result| ==> Rows(next[i]) == Rows(result[i]) + Rows(added[i])
    ensures forall i: nat :: i < |result| ==> |next[i]| == |result[i]| + |added[i]|
  {
    next := [];
    for i := 0 to |result|
      invariant |next| == i
      invariant forall k: nat :: k < i ==> Distinct(next[k])
      invariant forall k: nat :: k < i ==> Rows(next[k]) == Rows(result[k]) + Rows(added[k])
      invariant forall k: nat :: k < i ==> |next[k]| == |result[k]| + |added[k]|
    {
      AppendNew(result[i], added[i]);
      next := next + [result[i] + added[i]];
    }
  }

  // ----- The limits ------------------------------------------------------------------------

  /** The number of different rows. */
  ghost function Total(tables: Tables): nat {
    if tables == [] then 0 else |Rows(tables[0])| + Total(tables[1..])
  }

  lemma {:induction false} DistinctCount(rows: seq<Row>)
    requires Distinct(rows)
    ensures |rows| == |Rows(rows)|
  {
    if rows != [] {
      var front, last := rows[..|rows| - 1], rows[|rows| - 1];
      assert rows == front + [last];
      DistinctCount(front);
      RowsAppend(front, last);
      assert last !in Rows(front);
    }
  }

  lemma {:induction false} SubsetCount(a: set<Row>, b: set<Row>)
    requires a <= b
    ensures |a| <= |b|
    decreases a
  {
    if a != {} {
      var x :| x in a;
      SubsetCount(a - {x}, b - {x});
    }
  }

  /** New rows on top of old ones, both among the rows of `s`. */
  lemma {:induction false} CountWithin(result: Tables, added: Tables, s: Tables)
    requires |result| == |added| == |s|
    requires forall i :: 0 <= i < |s| ==> Distinct(result[i]) && Distinct(added[i])
    requires forall i :: 0 <= i < |s| ==> Rows(result[i]) !! Rows(added[i])
    requires forall i :: 0 <= i < |s| ==> Rows(result[i]) + Rows(added[i]) <= Rows(s[i])
    ensures CountRows(result) + CountRows(added) <= Total(s)
    decreases |s|
  {
    if s != [] {
      DistinctCount(result[0]);
      DistinctCount(added[0]);
      SubsetCount(Rows(result[0]) + Rows(added[0]), Rows(s[0]));
      CountWithin(result[1..], added[1..], s[1..]);
    }
  }

  lemma {:induction false} SomeRows(tables: Tables)
    ensures AnyRows(tables) <==> CountRows(tables) > 0
  {
    if tables != [] {
      SomeRows(tables[1..]);
      if AnyRows(tables) {
        var i :| 0 <= i < |tables| && tables[i] != [];
        if i > 0 {
          assert tables[1..][i - 1] != [];
        }
      }
      if AnyRows(tables[1..]) {
        var i :| 0 <= i < |tables[1..]| && tables[1..][i] != [];
        assert tables[i + 1] != [];
      }
    }
  }

  lemma {:induction false} CountGrows(result: Tables, added: Tables, next: Tables)
    requires |result| == |added| == |next|
    requires forall i :: 0 <= i < |next| ==> |next[i]| == |result[i]| + |added[i]|
    ensures CountRows(next) == CountRows(result) + CountRows(added)
    decreases |next|
  {
    if next != [] {
      CountGrows(result[1..], added[1..], next[1..]);
    }
  }

  /** Every table set that holds the anchors and what the arms derive has more rows. */
  ghost predicate Overflows(arms: Arms, anchors: Tables, n: nat) {
    forall s :: Closed(arms, anchors, s) ==> Total(s) > n
  }

  lemma RoundOverflows(
      arms: Arms, anchors: Tables, was: Tables, result: Tables, delta: Tables, bound: Tables, added: Tables, n: nat)
    requires Linear(arms, |anchors|) && Progress(arms, anchors, was, result, delta)
    requires Below(bound, result) && |added| == |anchors|
    requires forall i: nat :: i < |anchors| ==> Distinct(added[i])
    requires forall i: nat :: i < |anchors| ==> Rows(added[i]) == Rows(arms(i, bound)) - Rows(result[i])
    requires CountRows(result) + CountRows(added) > n
    ensures Overflows(arms, anchors, n)
  {
    hide Linear, CountRows, Total;
    forall s | Closed(arms, anchors, s) ensures Total(s) > n {
      assert Below(result, s);
      forall i: nat | i < |anchors| ensures Rows(result[i]) + Rows(added[i]) <= Rows(s[i]) {
        assert Below(bound, s);
        ArmsMonotone(arms, |anchors|, bound, s, i);
      }
      CountWithin(result, added, s);
    }
  }

  lemma StateOverflows(arms: Arms, anchors: Tables, was: Tables, result: Tables, delta: Tables, n: nat)
    requires Progress(arms, anchors, was, result, delta) && CountRows(result) > n
    ensures Overflows(arms, anchors, n)
  {
    hide CountRows, Total;
    var none: Tables := seq(|result|, _ => []);
    NoRows(none);
    forall s | Closed(arms, anchors, s) ensures Total(s) > n {
      assert Below(result, s);
      CountWithin(result, none, s);
    }
  }

  lemma {:induction false} NoRows(tables: Tables)
    requires forall i :: 0 <= i < |tables| ==> tables[i] == []
    ensures CountRows(tables) == 0
  {
    if tables != [] {
      NoRows(tables[1..]);
    }
  }

  /** A UNION group that ends within its limits returns the simultaneous least
      fixpoint of its anchors under its arms, without repeated rows, whichever of
      its names bind the accumulated rows.  It fails only if every table set that holds the
      anchors and is closed under the arms has more rows than the limit that is named. */
  method MaterializeGroup(group: seq<Member>, arms: Arms, maxIterations: nat, maxRows: nat) returns (out: Outcome)
    requires Linear(arms, |group|)
    ensures out.Finished? && maxIterations > 0 ==> LeastFixpoint(arms, Anchors(group), out.tables)
    ensures out.Finished? ==> forall i :: 0 <= i < |out.tables| ==> Distinct(out.tables[i])
    ensures maxIterations == 0 ==>
      && out.Finished? && |out.tables| == |group|
      && forall i :: 0 <= i < |group| ==> Rows(out.tables[i]) == Rows(group[i].anchor)
    ensures out.TooManyRows? ==> Overflows(arms, Anchors(group), maxRows)
    ensures out.TooManyIterations? ==> Overflows(arms, Anchors(group), maxIterations)
  {
    hide Linear, LeastFixpoint, Overflows, CountRows, AnyRows;
    ghost var anchors := Anchors(group);
    var result, seen := Start(group);
    var delta := result;
    ghost var was: Tables := seq(|group|, _ => []);
    StartProgress(arms, anchors, was, result);
    SomeRows(delta);
    for iter := 0 to maxIterations
      invariant |seen| == |result| == |delta| == |group|
      invariant Progress(arms, anchors, was, result, delta)
      invariant forall i :: 0 <= i < |group| ==> seen[i] == Rows(result[i])
      invariant iter == maxIterations > 0 ==> !AnyRows(delta)
      invariant AnyRows(delta) ==> CountRows(result) > iter
      invariant maxIterations == 0 ==> forall i :: 0 <= i < |group| ==> Rows(result[i]) == Rows(group[i].anchor)
    {
      if !AnyRows(delta) {
        NothingNew(delta);
        ProgressEnds(arms, anchors, was, result, delta);
        return Finished(result);
      }
      var bound := Bind(group, result, delta);
      var added, after := Step(arms, bound, seen);
      if CountRows(result) + CountRows(added) > maxRows {
        RoundOverflows(arms, anchors, was, result, delta, bound, added, maxRows);
        return TooManyRows;
      }
      var next := Extend(result, added);
      ProgressStep(arms, anchors, was, result, delta, bound, added, next);
      CountGrows(result, added, next);
      SomeRows(added);
      was, result, delta, seen := result, next, added, after;
      if iter + 1 == maxIterations && AnyRows(delta) {
        StateOverflows(arms, anchors, was, result, delta, maxIterations);
        return TooManyIterations;
      }
    }
    if maxIterations > 0 {
      NothingNew(delta);
      ProgressEnds(arms, anchors, was, result, delta);
    }
    return Finished(result);
  }

  lemma StartProgress(arms: Arms, anchors: Tables, was: Tables, result: Tables)
    requires Linear(arms, |anchors|) && |was| == |result| == |anchors|
    requires forall i :: 0 <= i < |was| ==> was[i] == []
    requires forall i :: 0 <= i < |result| ==> Distinct(result[i]) && Rows(result[i]) == Rows(anchors[i])
    ensures Progress(arms, anchors, was, result, result)
  {
  }

  lemma NothingNew(delta: Tables)
    requires !AnyRows(delta)
    ensures forall i :: 0 <= i < |delta| ==> delta[i] == []
  {
  }
}
