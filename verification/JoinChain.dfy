/** Column resolution, the choice of a join algorithm, and left-deep chains of
    joins. */
module JoinChains {
  import opened Values
  import opened JoinRows
  import opened JoinKinds
  import opened Joins

  datatype JoinClause = JoinClause(
    table: string, alias: Option<string>, leftColumn: string, rightColumn: string, kind: JoinKind, op: CompareOp)

  // ----- Column names ---------------------------------------------------------------------

  function Qualified(table: string, columns: seq<string>): seq<string> {
    seq(|columns|, i requires 0 <= i < |columns| => table + "." + columns[i])
  }

  predicate EndsWith(s: string, suffix: string) {
    |s| >= |suffix| && s[|s| - |suffix|..] == suffix
  }

  /** A position, no such column, or an ambiguous name. */
  datatype Resolution = At(position: nat) | Unknown | Ambiguous

  function Suffixed(columns: seq<string>, requested: string): Resolution {
    if columns == [] then Unknown
    else
      var before := Suffixed(columns[..|columns| - 1], requested);
      if !EndsWith(columns[|columns| - 1], "." + requested) then before
      else if before == Unknown then At(|columns| - 1)
      else Ambiguous
  }

  /** A full match wins; otherwise the name must be the end of exactly one column. */
  function Resolve(columns: seq<string>, requested: string): Resolution {
    var exact := Position(columns, requested);
    if exact.Some? then At(exact.value) else Suffixed(columns, requested)
  }

  method ResolveResultColumn(columns: seq<string>, requested: string) returns (r: Resolution)
    ensures r == Resolve(columns, requested)
  {
    for i := 0 to |columns|
      invariant requested !in columns[..i]
    {
      if columns[i] == requested {
        FirstPosition(columns, requested, i);
        return At(i);
      }
    }
    assert columns[..|columns|] == columns;
    PositionIs(columns, requested);
    r := Unknown;
    for i := 0 to |columns|
      invariant r == Suffixed(columns[..i], requested) && !r.Ambiguous?
    {
      assert columns[..i + 1][..i] == columns[..i];
      if EndsWith(columns[i], "." + requested) {
        if r.At? {
          StaysAmbiguous(columns, requested, i + 1);
          return Ambiguous;
        }
        r := At(i);
      }
    }
  }

  lemma {:induction false} FirstPosition(columns: seq<string>, name: string, i: nat)
    requires i < |columns| && columns[i] == name && name !in columns[..i]
    ensures Position(columns, name) == Some(i)
  {
    if i > 0 {
      assert columns[0] in columns[..i];
      assert columns[1..][..i - 1] == columns[..i][1..];
      FirstPosition(columns[1..], name, i - 1);
    }
  }

  lemma {:induction false} StaysAmbiguous(columns: seq<string>, requested: string, i: nat)
    requires i <= |columns| && Suffixed(columns[..i], requested) == Ambiguous
    ensures Suffixed(columns, requested) == Ambiguous
    decreases |columns|
  {
    if i == |columns| {
      assert columns[..i] == columns;
    } else {
      assert columns[..|columns| - 1][..i] == columns[..i];
      StaysAmbiguous(columns[..|columns| - 1], requested, i);
    }
  }

  /** The column is the requested one with a qualifier in front. */
  ghost predicate Qualifies(column: string, requested: string) {
    exists qualifier: string :: column == qualifier + "." + requested
  }

  lemma Joined3(a: string, b: string, c: string)
    ensures a + b + c == a + (b + c)
  {
  }

  lemma EndsWithIs(column: string, requested: string)
    ensures EndsWith(column, "." + requested) <==> Qualifies(column, requested)
  {
    var suffix := "." + requested;
    if EndsWith(column, suffix) {
      var front := column[..|column| - |suffix|];
      Joined3(front, ".", requested);
      assert column == front + suffix;
    }
    if qualifier: string :| column == qualifier + "." + requested {
      Joined3(qualifier, ".", requested);
      assert column[|qualifier|..] == suffix;
    }
  }

  lemma {:induction false} SuffixedIs(columns: seq<string>, requested: string)
    ensures Suffixed(columns, requested) == Unknown <==>
      forall i :: 0 <= i < |columns| ==> !EndsWith(columns[i], "." + requested)
    ensures forall p: nat :: Suffixed(columns, requested) == At(p) <==>
      p < |columns| && forall i :: 0 <= i < |columns| ==> (EndsWith(columns[i], "." + requested) <==> i == p)
  {
    hide EndsWith;
    if columns != [] {
      var n := |columns| - 1;
      SuffixedIs(columns[..n], requested);
      assert forall i :: 0 <= i < n ==> columns[..n][i] == columns[i];
    }
  }

  /** A name is found at its first exact occurrence; otherwise at the only column that it
      qualifies, if there is exactly one. */
  lemma ResolveExactly(columns: seq<string>, requested: string, p: nat)
    ensures Resolve(columns, requested) == At(p) <==>
      && p < |columns|
      && if requested in columns then columns[p] == requested && requested !in columns[..p]
         else forall i :: 0 <= i < |columns| ==> (Qualifies(columns[i], requested) <==> i == p)
    ensures Resolve(columns, requested) == Unknown <==>
      requested !in columns && forall i :: 0 <= i < |columns| ==> !Qualifies(columns[i], requested)
  {
    hide EndsWith, Qualifies;
    forall i | 0 <= i < |columns| ensures EndsWith(columns[i], "." + requested) <==> Qualifies(columns[i], requested) {
      EndsWithIs(columns[i], requested);
    }
    SuffixedIs(columns, requested);
    PositionIs(columns, requested);
    if p < |columns| && columns[p] == requested && requested !in columns[..p] {
      FirstPosition(columns, requested, p);
    }
    PositionFirst(columns, requested);
  }

  lemma {:induction false} PositionFirst(columns: seq<string>, name: string)
    ensures Position(columns, name).Some? ==>
      Position(columns, name).value < |columns| && name !in columns[..Position(columns, name).value]
  {
    if columns != [] {
      PositionFirst(columns[1..], name);
      var p := Position(columns[1..], name);
      if p.Some? {
        assert columns[..p.value + 1] == [columns[0]] + columns[1..][..p.value];
      }
    }
  }

  /** The part after the last dot. */
  function Unqualified(name: string): string {
    if name == [] then []
    else if name[|name| - 1] == '.' then []
    else Unqualified(name[..|name| - 1]) + [name[|name| - 1]]
  }

  lemma {:induction false} UndottedStays(name: string)
    requires Undotted(name)
    ensures Unqualified(name) == name
  {
    if name != [] {
      assert name == name[..|name| - 1] + [name[|name| - 1]];
      UndottedStays(name[..|name| - 1]);
    }
  }

  function Strip(qualifier: string, requested: string): Option<string> {
    var prefix := qualifier + ".";
    if |requested| >= |prefix| && requested[..|prefix|] == prefix then Some(requested[|prefix|..]) else None
  }

  /** `resolveTableColumn`. */
  function RightColumn(t: Relation, join: JoinClause): Option<nat> {
    var byTable := Strip(join.table, join.rightColumn);
    var byAlias := if join.alias.Some? then Strip(join.alias.value, join.rightColumn) else None;
    Position(t.columns, if byTable.Some? then byTable.value
                        else if byAlias.Some? then byAlias.value else join.rightColumn)
  }

  lemma StrippedHasDot(qualifier: string, requested: string)
    ensures Strip(qualifier, requested).Some? ==> '.' in requested
  {
    var prefix := qualifier + ".";
    assert prefix[|qualifier|] == '.';
    if Strip(qualifier, requested).Some? {
      assert requested[..|prefix|][|qualifier|] == '.';
    }
  }

  /** An indexed column name is the column that the join condition compares. */
  lemma IndexedRightColumn(t: Relation, join: JoinClause)
    requires RelationOk(t) && join.rightColumn in t.indexed
    ensures RightColumn(t, join) == Some(PositionOr(t.columns, join.rightColumn))
    ensures Unqualified(join.rightColumn) == join.rightColumn
  {
    IndexedUndotted(t, join.rightColumn);
    StrippedHasDot(join.table, join.rightColumn);
    if join.alias.Some? {
      StrippedHasDot(join.alias.value, join.rightColumn);
    }
    PositionIs(t.columns, join.rightColumn);
    UndottedStays(join.rightColumn);
  }

  lemma IndexedUndotted(t: Relation, c: string)
    requires RelationOk(t) && c in t.indexed
    ensures c in t.columns && Undotted(c)
  {
  }

  lemma IndexedLeftColumn(t: Relation, table: string, c: string)
    requires RelationOk(t) && c in t.indexed
    ensures Resolve(Qualified(table, t.columns), c) == At(PositionOr(t.columns, c))
    ensures Unqualified(c) == c
  {
    IndexedUndotted(t, c);
    UndottedStays(c);
    PositionIs(t.columns, c);
    var q := Qualified(table, t.columns);
    forall i | 0 <= i < |q| ensures q[i] != c && (EndsWith(q[i], "." + c) <==> t.columns[i] == c) {
      assert q[i][|table|] == '.';
      EndOfQualified(table, t.columns[i], c);
    }
    PositionIs(q, c);
    SuffixUnique(q, c, PositionOr(t.columns, c));
  }

  lemma EndOfQualified(table: string, column: string, c: string)
    requires Undotted(column) && Undotted(c)
    ensures EndsWith(table + "." + column, "." + c) <==> column == c
  {
    var s := table + "." + column;
    UnqualifiedIs(table, column);
    assert s[|table|..] == "." + column;
    if EndsWith(s, "." + c) {
      var front := s[..|s| - |c| - 1];
      assert s == front + "." + c;
      UnqualifiedIs(front, c);
    }
  }

  lemma {:induction false} UnqualifiedIs(table: string, column: string)
    requires Undotted(column)
    ensures Unqualified(table + "." + column) == column
    decreases |column|
  {
    var s := table + "." + column;
    if column == [] {
      assert s[|s| - 1] == '.';
    } else {
      var front, last := column[..|column| - 1], column[|column| - 1];
      assert column == front + [last];
      assert s[..|s| - 1] == table + "." + front;
      UnqualifiedIs(table, front);
    }
  }

  lemma {:induction false} SuffixUnique(columns: seq<string>, requested: string, p: nat)
    requires forall i :: 0 <= i < |columns| ==> (EndsWith(columns[i], "." + requested) <==> i == p)
    ensures Suffixed(columns, requested) == if p < |columns| then At(p) else Unknown
  {
    hide EndsWith;
    if columns != [] {
      SuffixUnique(columns[..|columns| - 1], requested, p);
    }
  }

  // ----- The planner ------------------------------------------------------------------------

  datatype JoinAlgorithm = NestedLoopIndexProbe | HashJoining

  datatype JoinPlan = JoinPlan(algorithm: JoinAlgorithm, outerIsLeft: bool, probeColumn: string)

  predicate Outer(kind: JoinKind) {
    kind != Inner
  }

  /** What the executor relies on: a hash join only for inner equi-joins, a probe
      only of a column with an index. */
  ghost predicate PlanOk(plan: JoinPlan, left: Option<Relation>, right: Relation, join: JoinClause) {
    && (plan.algorithm == HashJoining ==> join.kind == Inner && join.op == Eq)
    && (plan.algorithm == NestedLoopIndexProbe && plan.outerIsLeft && plan.probeColumn != "" ==>
         join.rightColumn in right.indexed)
    && (!plan.outerIsLeft ==> left.Some? && join.leftColumn in left.value.indexed)
  }

  /** The costs are estimates and only choose between sound plans. */
  method PlanJoin(left: Relation, right: Relation, join: JoinClause) returns (plan: JoinPlan)
    ensures PlanOk(plan, Some(left), right, join)
  {
    if join.kind == Cross {
      return JoinPlan(NestedLoopIndexProbe, true, "");
    }
    if join.op != Eq || Outer(join.kind) {
      if join.op == Eq && join.kind != RightOuter && join.rightColumn in right.indexed {
        return JoinPlan(NestedLoopIndexProbe, true, join.rightColumn);
      }
      if join.op == Eq && join.kind == RightOuter && join.leftColumn in left.indexed {
        return JoinPlan(NestedLoopIndexProbe, false, join.leftColumn);
      }
      return JoinPlan(NestedLoopIndexProbe, true, "");
    }
    plan := JoinPlan(HashJoining, true, "");
    var cheaper: bool := *;
    if join.rightColumn in right.indexed && cheaper {
      plan := JoinPlan(NestedLoopIndexProbe, true, join.rightColumn);
    }
    cheaper := *;
    if join.leftColumn in left.indexed && cheaper {
      plan := JoinPlan(NestedLoopIndexProbe, false, join.leftColumn);
    }
  }

  method PlanJoinAgainstRows(right: Relation, join: JoinClause) returns (plan: JoinPlan)
    ensures PlanOk(plan, None, right, join)
  {
    if join.kind == Cross {
      return JoinPlan(NestedLoopIndexProbe, true, "");
    }
    if join.op != Eq || Outer(join.kind) {
      if join.op == Eq && join.kind != RightOuter && join.rightColumn in right.indexed {
        return JoinPlan(NestedLoopIndexProbe, true, join.rightColumn);
      }
      return JoinPlan(NestedLoopIndexProbe, true, "");
    }
    plan := JoinPlan(HashJoining, true, "");
    var cheaper: bool := *;
    if join.rightColumn in right.indexed && cheaper {
      plan := JoinPlan(NestedLoopIndexProbe, true, join.rightColumn);
    }
  }

  // ----- Join steps ---------------------------------------------------------------------------

  /** The join condition, or nothing when a column cannot be resolved. */
  function OnFor(columns: seq<string>, t: Relation, join: JoinClause): Option<On> {
    if join.kind == Cross then Some(Always)
    else
      var l := Resolve(columns, join.leftColumn);
      var r := RightColumn(t, join);
      if l.At? && r.Some? then Some(On(join.op, l.position, r.value)) else None
  }

  /** One step of `collectJoinRows`.  `left` is the first table when the step is the
      first one. */
  method JoinStep(columns: seq<string>, rows: seq<Row>, left: Option<Relation>, ghost table: string, t: Relation,
                  join: JoinClause, plan: JoinPlan)
    returns (out: Option<seq<Row>>)
    requires RelationOk(t) && PlanOk(plan, left, t, join)
    requires left.Some? ==>
      RelationOk(left.value) && rows == Scan(left.value) && columns == Qualified(table, left.value.columns)
    ensures var on := OnFor(columns, t, join);
      && (out.Some? <==> on.Some?)
      && (out.Some? ==>
           multiset(out.value) == multiset(Joined(join.kind, on.value, rows, Scan(t), |columns|, |t.columns|)))
      && (out.Some? && Wide(rows, |columns|) ==>
           Counts(join.kind, on.value, rows, Scan(t), |columns|, |t.columns|, out.value))
  {
    hide RelationOk, Scan, Joined, Resolve, RightColumn, PositionOr, Unqualified, Counts, Wide;
    var right := RowsById(t, t.ids);
    assert right == Scan(t) by { ScanIs(t); }
    if join.kind == Cross {
      var all := NestedLoop(Cross, Always, rows, right, |columns|, |t.columns|);
      StepCounts(Cross, Always, rows, t, |columns|, all);
      return Some(all);
    }
    var leftAt := ResolveResultColumn(columns, join.leftColumn);
    var rightAt := RightColumn(t, join);
    if !leftAt.At? || rightAt.None? {
      return None;
    }
    var on := On(join.op, leftAt.position, rightAt.value);
    var equi := join.op == Eq;
    var result;
    if equi && plan.algorithm == NestedLoopIndexProbe && plan.outerIsLeft && plan.probeColumn != ""
       && !PadRight(join.kind)
    {
      IndexedRightColumn(t, join);
      result := ProbeRight(join.kind, on, rows, t, Unqualified(join.rightColumn), |columns|);
    } else if equi && plan.algorithm == NestedLoopIndexProbe && !plan.outerIsLeft && left.Some? && !PadLeft(join.kind) {
      IndexedLeftColumn(left.value, table, join.leftColumn);
      assert |columns| == |left.value.columns|;
      result := ProbeLeft(join.kind, on, left.value, Unqualified(join.leftColumn), right, |t.columns|);
    } else if equi && plan.algorithm == HashJoining && !PadRight(join.kind) {
      result := HashJoin(join.kind, on, rows, right, |columns|, |t.columns|);
    } else {
      result := NestedLoop(join.kind, on, rows, right, |columns|, |t.columns|);
    }
    StepCounts(join.kind, on, rows, t, |columns|, result);
    out := Some(result);
  }

  lemma StepCounts(kind: JoinKind, on: On, rows: seq<Row>, t: Relation, width: nat, out: seq<Row>)
    requires RelationOk(t) && multiset(out) == multiset(Joined(kind, on, rows, Scan(t), width, |t.columns|))
    ensures Wide(rows, width) ==> Counts(kind, on, rows, Scan(t), width, |t.columns|, out)
  {
    hide Joined, Counts;
    if Wide(rows, width) {
      ImageWidths(t.ids, t.rows, |t.columns|);
      JoinedCounts(kind, on, rows, Scan(t), width, |t.columns|);
      SameCounts(kind, on, rows, Scan(t), width, |t.columns|, Joined(kind, on, rows, Scan(t), width, |t.columns|), out);
    }
  }

  lemma ScanIs(t: Relation)
    ensures Scan(t) == Image(t.ids, t.rows)
  {
  }

  // ----- Chains ---------------------------------------------------------------------------------

  datatype Step = Step(join: JoinClause, table: Relation)

  datatype Result = Result(columns: seq<string>, rows: seq<Row>)

  /** The textbook result of a left-deep chain. */
  function Chain(columns: seq<string>, rows: seq<Row>, steps: seq<Step>): Option<Result>
    decreases |steps|
  {
    if steps == [] then Some(Result(columns, rows))
    else
      var t, join := steps[0].table, steps[0].join;
      var on := OnFor(columns, t, join);
      if on.None? then None
      else Chain(columns + Qualified(join.table, t.columns),
        Joined(join.kind, on.value, rows, Scan(t), |columns|, |t.columns|), steps[1..])
  }

  /** Every row of the result has a cell for every column. */
  lemma {:induction false} ChainWide(columns: seq<string>, rows: seq<Row>, steps: seq<Step>)
    requires Wide(rows, |columns|) && forall i :: 0 <= i < |steps| ==> RelationOk(steps[i].table)
    ensures Chain(columns, rows, steps).Some? ==>
      Wide(Chain(columns, rows, steps).value.rows, |Chain(columns, rows, steps).value.columns|)
    decreases |steps|
  {
    hide OnFor, Joined;
    if steps != [] {
      var t, join := steps[0].table, steps[0].join;
      var on := OnFor(columns, t, join);
      if on.Some? {
        ImageWidths(t.ids, t.rows, |t.columns|);
        JoinedWide(join.kind, on.value, rows, Scan(t), |columns|, |t.columns|);
        ChainWide(columns + Qualified(join.table, t.columns),
                  Joined(join.kind, on.value, rows, Scan(t), |columns|, |t.columns|), steps[1..]);
      }
    }
  }

  /** The chain spelled out: step by step, each row as often as the kind of join says. */
  ghost predicate Spells(columns: seq<string>, rows: seq<Row>, steps: seq<Step>, r: Result)
    decreases |steps|
  {
    if steps == [] then r.columns == columns && multiset(r.rows) == multiset(rows)
    else
      var t, join := steps[0].table, steps[0].join;
      var on := OnFor(columns, t, join);
      && on.Some?
      && exists mid ::
           && Counts(join.kind, on.value, rows, Scan(t), |columns|, |t.columns|, mid)
           && Spells(columns + Qualified(join.table, t.columns), mid, steps[1..], r)
  }

  /** What is spelled from the rows after a step is spelled from those before it. */
  lemma SpellsOn(columns: seq<string>, rows: seq<Row>, steps: seq<Step>, mid: seq<Row>)
    requires steps != []
    requires var t, join := steps[0].table, steps[0].join; var on := OnFor(columns, t, join);
      on.Some? && Counts(join.kind, on.value, rows, Scan(t), |columns|, |t.columns|, mid)
    ensures var columns' := columns + Qualified(steps[0].join.table, steps[0].table.columns);
      forall r :: Spells(columns', mid, steps[1..], r) ==> Spells(columns, rows, steps, r)
  {
    hide Counts, OnFor;
  }

  /** Whatever algorithms the planner picks, the chain yields the textbook rows. */
  method CollectJoinRows(table: string, left: Relation, steps: seq<Step>) returns (r: Option<Result>)
    requires RelationOk(left) && forall i :: 0 <= i < |steps| ==> RelationOk(steps[i].table)
    ensures var expected := Chain(Qualified(table, left.columns), Scan(left), steps);
      if steps == [] || expected.None? then r.None?
      else
        && r.Some? && r.value.columns == expected.value.columns
        && multiset(r.value.rows) == multiset(expected.value.rows)
        && Spells(Qualified(table, left.columns), Scan(left), steps, r.value)
  {
    hide RelationOk, Scan, Joined, OnFor, Counts, Spells;
    if steps == [] {
      return None;
    }
    var columns := Qualified(table, left.columns);
    var rows := RowsById(left, left.ids);
    assert rows == Scan(left) by { ScanIs(left); }
    ghost var textbook := rows;
    ScanWide(left);
    assert steps[0..] == steps;
    for i := 0 to |steps|
      invariant i == 0 ==> rows == Scan(left) && columns == Qualified(table, left.columns)
      invariant multiset(rows) == multiset(textbook)
      invariant Chain(columns, textbook, steps[i..]) == Chain(Qualified(table, left.columns), Scan(left), steps)
      invariant Wide(rows, |columns|)
      invariant forall r :: Spells(columns, rows, steps[i..], r) ==>
        Spells(Qualified(table, left.columns), Scan(left), steps, r)
    {
      var t, join := steps[i].table, steps[i].join;
      assert steps[i..][1..] == steps[i + 1..];
      var plan;
      if i == 0 {
        plan := PlanJoin(left, t, join);
      } else {
        plan := PlanJoinAgainstRows(t, join);
      }
      var out := JoinStep(columns, rows, if i == 0 then Some(left) else None, table, t, join, plan);
      if out.None? {
        return None;
      }
      ghost var on := OnFor(columns, t, join).value;
      JoinedPermuted(join.kind, on, rows, textbook, Scan(t), |columns|, |t.columns|);
      textbook := Joined(join.kind, on, textbook, Scan(t), |columns|, |t.columns|);
      SpellsOn(columns, rows, steps[i..], out.value);
      CountsWide(join.kind, on, rows, Scan(t), |columns|, |t.columns|, out.value);
      columns := columns + Qualified(join.table, t.columns);
      rows := out.value;
    }
    SpellsEnd(columns, rows);
    assert steps[|steps|..] == [];
    return Some(Result(columns, rows));
  }

  lemma SpellsEnd(columns: seq<string>, rows: seq<Row>)
    ensures Spells(columns, rows, [], Result(columns, rows))
  {
  }

  lemma ScanWide(t: Relation)
    requires RelationOk(t)
    ensures Wide(Scan(t), |t.columns|)
  {
    ImageWidths(t.ids, t.rows, |t.columns|);
  }

  lemma CountsWide(
      kind: JoinKind, on: On, left: seq<Row>, right: seq<Row>, leftWidth: nat, rightWidth: nat, out: seq<Row>)
    requires Counts(kind, on, left, right, leftWidth, rightWidth, out)
    ensures Wide(out, leftWidth + rightWidth)
  {
  }
}
