/** Recursive arms that read the recursive table once, through inner and cross
    joins, distribute over union, as the iteration over deltas needs. */
module JoinArms {
  import opened Values
  import opened JoinRows
  import Joins
  import JC = JoinChains
  import opened SetOps
  import Fixpoint

  predicate Plain(kind: JoinKind) {
    kind == Inner || kind == Cross
  }

  ghost predicate AllPlain(steps: seq<JC.Step>) {
    forall i :: 0 <= i < |steps| ==> Plain(steps[i].join.kind)
  }

  // ----- One step ------------------------------------------------------------------------

  lemma {:induction false} FlatHas<T>(s: seq<T>, f: T -> seq<Row>, row: Row)
    ensures row in Flat(s, f) <==> exists x :: x in s && row in f(x)
  {
    if s != [] {
      FlatHas(s[..|s| - 1], f, row);
      assert s == s[..|s| - 1] + [s[|s| - 1]];
    }
  }

  ghost predicate Pairs(on: On, left: seq<Row>, right: seq<Row>, row: Row) {
    exists l, r :: l in left && r in right && JoinRows.Joins(on, l, r) && row == l + r
  }

  /** An inner join as a set: the pairs that join. */
  lemma InnerHas(on: On, left: seq<Row>, right: seq<Row>, row: Row)
    ensures row in InnerRows(on, left, right) <==> Pairs(on, left, right, row)
  {
    hide JoinRows.Joins, Flat;
    FlatHas(left, l => PairsOf(on, l, right), row);
    forall l ensures row in PairsOf(on, l, right) <==> exists r :: r in right && row in One(on, l, r) {
      FlatHas(right, r => One(on, l, r), row);
    }
  }

  lemma RowsHas(rows: seq<Row>)
    ensures forall row :: row in Rows(rows) <==> row in rows
  {
  }

  /** `z` holds the rows of `x` and those of `y`. */
  ghost predicate Union(x: seq<Row>, y: seq<Row>, z: seq<Row>) {
    forall row :: row in z <==> row in x || row in y
  }

  lemma StepLeft(kind: JoinKind, on: On, x: seq<Row>, y: seq<Row>, z: seq<Row>, right: seq<Row>, lw: nat, rw: nat)
    requires Plain(kind) && Union(x, y, z)
    ensures Union(Joined(kind, on, x, right, lw, rw), Joined(kind, on, y, right, lw, rw),
                  Joined(kind, on, z, right, lw, rw))
    ensures Joined(kind, on, [], right, lw, rw) == []
  {
    hide JoinRows.Joins, InnerRows, LeftPads, RightPads;
    forall row ensures row in Joined(kind, on, z, right, lw, rw) <==>
      row in Joined(kind, on, x, right, lw, rw) || row in Joined(kind, on, y, right, lw, rw)
    {
      InnerHas(on, x, right, row);
      InnerHas(on, y, right, row);
      InnerHas(on, z, right, row);
    }
    assert InnerRows(on, [], right) == [] by { NoLeft(on, right); }
  }

  lemma NoLeft(on: On, right: seq<Row>)
    ensures InnerRows(on, [], right) == []
  {
  }

  lemma StepRight(kind: JoinKind, on: On, left: seq<Row>, x: seq<Row>, y: seq<Row>, z: seq<Row>, lw: nat, rw: nat)
    requires Plain(kind) && Union(x, y, z)
    ensures Union(Joined(kind, on, left, x, lw, rw), Joined(kind, on, left, y, lw, rw),
                  Joined(kind, on, left, z, lw, rw))
    ensures Joined(kind, on, left, [], lw, rw) == []
  {
    hide JoinRows.Joins, InnerRows, LeftPads, RightPads;
    forall row ensures row in Joined(kind, on, left, z, lw, rw) <==>
      row in Joined(kind, on, left, x, lw, rw) || row in Joined(kind, on, left, y, lw, rw)
    {
      InnerHas(on, left, x, row);
      InnerHas(on, left, y, row);
      InnerHas(on, left, z, row);
    }
    assert InnerRows(on, left, []) == [] by { NoRight(on, left); }
  }

  lemma NoRight(on: On, left: seq<Row>)
    ensures InnerRows(on, left, []) == []
  {
    FlatEmpty(left, l => PairsOf(on, l, []));
  }

  // ----- Chains ----------------------------------------------------------------------------

  function ChainRows(columns: seq<string>, rows: seq<Row>, steps: seq<JC.Step>): seq<Row> {
    var r := JC.Chain(columns, rows, steps);
    if r.Some? then r.value.rows else []
  }

  lemma {:induction false} ChainLinear(
      columns: seq<string>, x: seq<Row>, y: seq<Row>, z: seq<Row>, steps: seq<JC.Step>)
    requires AllPlain(steps) && Union(x, y, z)
    ensures Union(ChainRows(columns, x, steps), ChainRows(columns, y, steps), ChainRows(columns, z, steps))
    ensures ChainRows(columns, [], steps) == []
    decreases |steps|
  {
    hide Joined, JC.OnFor;
    if steps != [] {
      var t, join := steps[0].table, steps[0].join;
      var on := JC.OnFor(columns, t, join);
      if on.Some? {
        var lw, rw := |columns|, |t.columns|;
        StepLeft(join.kind, on.value, x, y, z, Joins.Scan(t), lw, rw);
        ChainLinear(columns + JC.Qualified(join.table, t.columns),
          Joined(join.kind, on.value, x, Joins.Scan(t), lw, rw), Joined(join.kind, on.value, y, Joins.Scan(t), lw, rw),
          Joined(join.kind, on.value, z, Joins.Scan(t), lw, rw), steps[1..]);
      }
    }
  }

  /** A table without indexes that holds the given rows. */
  function TableOf(name: string, columns: seq<string>, rows: seq<Row>): Joins.Relation {
    Joins.Relation(name, columns, seq(|rows|, i => i), map i | 0 <= i < |rows| :: rows[i], {}, (_, _) => [])
  }

  lemma {:induction false} ImageOfAll(rows: seq<Row>, m: map<RowId, Row>, n: nat)
    requires n <= |rows| && forall i :: 0 <= i < |rows| ==> i in m && m[i] == rows[i]
    ensures Joins.Image(seq(n, i => i), m) == rows[..n]
  {
    if n > 0 {
      ImageOfAll(rows, m, n - 1);
      assert seq(n, i => i)[..n - 1] == seq(n - 1, i => i);
      assert rows[..n] == rows[..n - 1] + [rows[n - 1]];
    }
  }

  lemma ScanOf(name: string, columns: seq<string>, rows: seq<Row>)
    ensures Joins.Scan(TableOf(name, columns, rows)) == rows
  {
    ImageOfAll(rows, TableOf(name, columns, rows).rows, |rows|);
    assert rows[..|rows|] == rows;
  }

  /** A recursive arm: the recursive table stands first, or is joined at some step to
      rows that do not depend on it. */
  datatype Arm =
    | First(source: nat, columns: seq<string>, after: seq<JC.Step>)
    | At(source: nat, columns: seq<string>, rows: seq<Row>, join: JC.JoinClause, names: seq<string>,
         after: seq<JC.Step>)

  function ArmRows(arm: Arm, rows: seq<Row>): seq<Row> {
    match arm
    case First(_, columns, after) => ChainRows(columns, rows, after)
    case At(_, columns, left, join, names, after) =>
      ChainRows(columns, left, [JC.Step(join, TableOf(join.table, names, rows))] + after)
  }

  ghost predicate ArmOk(arm: Arm) {
    AllPlain(arm.after) && (arm.At? ==> Plain(arm.join.kind))
  }

  /** The step at the recursive table, and the rest of the chain. */
  lemma ArmAt(arm: Arm, rows: seq<Row>)
    requires arm.At?
    ensures var t := TableOf(arm.join.table, arm.names, []);
      var on := JC.OnFor(arm.columns, t, arm.join);
      ArmRows(arm, rows) == if on.None? then [] else
        ChainRows(arm.columns + JC.Qualified(arm.join.table, arm.names),
          Joined(arm.join.kind, on.value, arm.rows, rows, |arm.columns|, |arm.names|), arm.after)
  {
    hide Joined;
    var t := TableOf(arm.join.table, arm.names, rows);
    ScanOf(arm.join.table, arm.names, rows);
    var steps := [JC.Step(arm.join, t)] + arm.after;
    assert steps[1..] == arm.after;
    assert JC.OnFor(arm.columns, t, arm.join) ==
      JC.OnFor(arm.columns, TableOf(arm.join.table, arm.names, []), arm.join);
  }

  lemma ArmLinear(arm: Arm, x: seq<Row>, y: seq<Row>, z: seq<Row>)
    requires ArmOk(arm) && Union(x, y, z)
    ensures Union(ArmRows(arm, x), ArmRows(arm, y), ArmRows(arm, z)) && ArmRows(arm, []) == []
  {
    hide ChainRows, Joined, JC.OnFor, Union;
    if arm.First? {
      ChainLinear(arm.columns, x, y, z, arm.after);
    } else {
      ArmAt(arm, x);
      ArmAt(arm, y);
      ArmAt(arm, z);
      ArmAt(arm, []);
      var on := JC.OnFor(arm.columns, TableOf(arm.join.table, arm.names, []), arm.join);
      if on.None? {
        assert Union([], [], []) by { NothingJoins(); }
      } else {
        var lw, rw, kind := |arm.columns|, |arm.names|, arm.join.kind;
        StepRight(kind, on.value, arm.rows, x, y, z, lw, rw);
        ChainLinear(arm.columns + JC.Qualified(arm.join.table, arm.names),
          Joined(kind, on.value, arm.rows, x, lw, rw), Joined(kind, on.value, arm.rows, y, lw, rw),
          Joined(kind, on.value, arm.rows, z, lw, rw), arm.after);
      }
    }
  }

  lemma NothingJoins()
    ensures Union([], [], [])
  {
  }

  function ArmOr(arms: seq<Arm>, i: nat, tables: Fixpoint.Tables): seq<Row> {
    if i < |arms| && arms[i].source < |tables| then ArmRows(arms[i], tables[arms[i].source]) else []
  }

  /** The arms of a group, one for each member. */
  function Group(arms: seq<Arm>): Fixpoint.Arms {
    (i: nat, tables: Fixpoint.Tables) => ArmOr(arms, i, tables)
  }

  /** Such arms are linear, so the iteration over deltas computes their fixpoint. */
  lemma JoinArmsAreLinear(arms: seq<Arm>)
    requires forall i :: 0 <= i < |arms| ==> ArmOk(arms[i]) && arms[i].source < |arms|
    ensures Fixpoint.Linear(Group(arms), |arms|)
  {
    hide ArmRows, ArmOk;
    var n := |arms|;
    forall i: nat, x, y, z | i < n && |z| == n && Fixpoint.Joins(x, y, z)
      ensures Rows(Group(arms)(i, z)) == Rows(Group(arms)(i, x)) + Rows(Group(arms)(i, y))
    {
      var j := arms[i].source;
      assert Rows(z[j]) == Rows(x[j]) + Rows(y[j]);
      RowsHas(x[j]); RowsHas(y[j]); RowsHas(z[j]);
      ArmLinear(arms[i], x[j], y[j], z[j]);
      RowsHas(ArmRows(arms[i], x[j])); RowsHas(ArmRows(arms[i], y[j])); RowsHas(ArmRows(arms[i], z[j]));
    }
    forall i: nat, x: Fixpoint.Tables | i < n && |x| == n && (forall j :: 0 <= j < n ==> x[j] == [])
      ensures Rows(Group(arms)(i, x)) == {}
    {
      NothingJoins();
      ArmLinear(arms[i], [], [], []);
    }
  }
}
