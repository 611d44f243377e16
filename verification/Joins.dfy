/** The join executor: four physical branches, the planner that chooses between
    them, and left-deep chains of joins. */
module Joins {
  import opened Values
  import opened JoinRows

  /** A table as one reader sees it, with its single-column indexes. */
  datatype Relation = Relation(
    name: string,
    columns: seq<string>,
    ids: seq<RowId>,
    rows: map<RowId, Row>,
    indexed: set<string>,
    find: (string, Value) -> seq<RowId>)

  predicate Undotted(s: string) {
    '.' !in s
  }

  function Position(columns: seq<string>, name: string): Option<nat> {
    if columns == [] then None
    else if columns[0] == name then Some(0)
    else
      var p := Position(columns[1..], name);
      if p.None? then None else Some(p.value + 1)
  }

  lemma {:induction false} PositionIs(columns: seq<string>, name: string)
    ensures Position(columns, name).None? <==> name !in columns
    ensures Position(columns, name).Some? ==>
      Position(columns, name).value < |columns| && columns[Position(columns, name).value] == name
  {
    if columns != [] {
      PositionIs(columns[1..], name);
      assert columns == [columns[0]] + columns[1..];
    }
  }

  /** Each posting list holds an id once, and among the visible rows exactly those
      that carry the key. */
  ghost predicate IndexOk(t: Relation, c: string) {
    forall v ::
      && Distinct(t.find(c, v))
      && forall id :: id in t.rows ==>
           (id in t.find(c, v) <==> CellAt(t.rows[id], PositionOr(t.columns, c)) == v)
  }

  function PositionOr(columns: seq<string>, name: string): nat {
    var p := Position(columns, name);
    if p.Some? then p.value else 0
  }

  ghost predicate RelationOk(t: Relation) {
    && Distinct(t.columns) && (forall i :: 0 <= i < |t.columns| ==> Undotted(t.columns[i]))
    && Distinct(t.ids) && (forall id :: id in t.ids <==> id in t.rows)
    && (forall id :: id in t.rows ==> |t.rows[id]| == |t.columns|)
    && (forall c :: c in t.indexed ==> c in t.columns && IndexOk(t, c))
  }

  function Image(ids: seq<RowId>, rows: map<RowId, Row>): seq<Row> {
    if ids == [] then []
    else Image(ids[..|ids| - 1], rows) + if ids[|ids| - 1] in rows then [rows[ids[|ids| - 1]]] else []
  }

  function Scan(t: Relation): seq<Row> {
    Image(t.ids, t.rows)
  }

  lemma {:induction false} ImageWidths(ids: seq<RowId>, rows: map<RowId, Row>, width: nat)
    requires forall id :: id in rows ==> |rows[id]| == width
    ensures forall r :: r in Image(ids, rows) ==> |r| == width
  {
    if ids != [] {
      ImageWidths(ids[..|ids| - 1], rows, width);
    }
  }

  // ----- An index probe finds the joining rows ------------------------------------------

  function OneId(rows: map<RowId, Row>, f: Row -> seq<Row>, id: RowId): seq<Row> {
    if id in rows then f(rows[id]) else []
  }

  lemma {:induction false} ImageFlat(ids: seq<RowId>, rows: map<RowId, Row>, f: Row -> seq<Row>)
    ensures Flat(Image(ids, rows), f) == Flat(ids, id => OneId(rows, f, id))
  {
    if ids != [] {
      var front, id := ids[..|ids| - 1], ids[|ids| - 1];
      ImageFlat(front, rows, f);
      var last := if id in rows then [rows[id]] else [];
      FlatConcat(Image(front, rows), last, f);
      if id in rows {
        FlatOne(rows[id], f);
      }
      assert Flat(last, f) == OneId(rows, f, id);
    }
  }

  ghost predicate SameWhere(a: seq<RowId>, b: seq<RowId>, f: RowId -> seq<Row>) {
    forall id :: id in a || id in b ==> f(id) == [] || (id in a && id in b)
  }

  lemma {:induction false} FlatDistinct(a: seq<RowId>, b: seq<RowId>, f: RowId -> seq<Row>)
    requires Distinct(a) && Distinct(b) && SameWhere(a, b, f)
    ensures multiset(Flat(a, f)) == multiset(Flat(b, f))
    decreases |a|
  {
    if a == [] {
      forall id | id in b ensures f(id) == [] {
        assert id !in a;
      }
      FlatEmpty(b, f);
    } else {
      var front, x := a[..|a| - 1], a[|a| - 1];
      FrontDistinct(a);
      if x in b {
        var k :| 0 <= k < |b| && b[k] == x;
        RestDistinct(b, k);
        FlatDistinct(front, b[..k] + b[k + 1..], f);
        FlatTakeOut(b, k, f);
      } else {
        assert x in a;
        FlatDistinct(front, b, f);
      }
    }
  }

  lemma FrontDistinct(a: seq<RowId>)
    requires Distinct(a) && a != []
    ensures Distinct(a[..|a| - 1])
    ensures forall id :: id in a[..|a| - 1] <==> id in a && id != a[|a| - 1]
  {
    assert a == a[..|a| - 1] + [a[|a| - 1]];
  }

  lemma RestDistinct(b: seq<RowId>, k: nat)
    requires k < |b| && Distinct(b)
    ensures Distinct(b[..k] + b[k + 1..])
    ensures forall id :: id in b[..k] + b[k + 1..] <==> id in b && id != b[k]
  {
    var rest := b[..k] + b[k + 1..];
    forall id ensures id in rest <==> id in b && id != b[k] {
      if id in b && id != b[k] {
        var i :| 0 <= i < |b| && b[i] == id;
        assert rest[if i < k then i else i - 1] == id;
      }
    }
  }

  /** The joined rows of a probe are those of a scan, whatever is done with them, as
      long as rows with another key contribute nothing. */
  lemma ProbeIsScan(t: Relation, c: string, v: Value, f: Row -> seq<Row>)
    requires RelationOk(t) && c in t.indexed
    requires forall r :: CellAt(r, PositionOr(t.columns, c)) != v ==> f(r) == []
    ensures multiset(Flat(Image(t.find(c, v), t.rows), f)) == multiset(Flat(Scan(t), f))
  {
    hide PositionOr, Flat, Image;
    ImageFlat(t.find(c, v), t.rows, f);
    ImageFlat(t.ids, t.rows, f);
    assert IndexOk(t, c);
    FlatDistinct(t.find(c, v), t.ids, id => OneId(t.rows, f, id));
  }

  // ----- The physical branches --------------------------------------------------------------

  /** `rowsByIdForRead`: ids that are not visible are skipped. */
  method RowsById(t: Relation, ids: seq<RowId>) returns (rows: seq<Row>)
    ensures rows == Image(ids, t.rows)
  {
    rows := [];
    for i := 0 to |ids|
      invariant rows == Image(ids[..i], t.rows)
    {
      assert ids[..i + 1][..i] == ids[..i];
      if ids[i] in t.rows {
        rows := rows + [t.rows[ids[i]]];
      }
    }
    assert ids[..|ids|] == ids;
  }

  /** One left row against every right row, marking those that match. */
  method MatchRow(on: On, l: Row, right: seq<Row>, flags: seq<bool>) returns (pairs: seq<Row>, rightMatched: seq<bool>)
    requires |flags| == |right|
    ensures pairs == PairsOf(on, l, right)
    ensures |rightMatched| == |right|
    ensures forall k :: 0 <= k < |right| ==> (rightMatched[k] <==> flags[k] || Joins(on, l, right[k]))
  {
    hide Joins;
    pairs, rightMatched := [], flags;
    for j := 0 to |right|
      invariant |rightMatched| == |right|
      invariant forall k :: 0 <= k < |right| ==> (rightMatched[k] <==> flags[k] || (k < j && Joins(on, l, right[k])))
      invariant pairs == PairsOf(on, l, right[..j])
    {
      assert right[..j + 1][..j] == right[..j];
      if Joins(on, l, right[j]) {
        pairs := pairs + [l + right[j]];
        rightMatched := rightMatched[j := true];
      }
    }
    assert right[..|right|] == right;
  }

  method PadUnmatched(on: On, ghost left: seq<Row>, right: seq<Row>, rightMatched: seq<bool>, leftWidth: nat)
    returns (pads: seq<Row>)
    requires |rightMatched| == |right|
    requires forall j :: 0 <= j < |right| ==> (rightMatched[j] <==> !RightAlone(on, left, right[j]))
    ensures pads == RightPads(on, left, right, leftWidth)
  {
    hide RightAlone, Nulls;
    pads := [];
    for j := 0 to |right|
      invariant pads == RightPads(on, left, right[..j], leftWidth)
    {
      assert right[..j + 1][..j] == right[..j];
      if !rightMatched[j] {
        pads := pads + [Nulls(leftWidth) + right[j]];
      }
    }
    assert right[..|right|] == right;
  }

  /** Nested-loop compare with padding on either side. */
  method NestedLoop(kind: JoinKind, on: On, left: seq<Row>, right: seq<Row>, leftWidth: nat, rightWidth: nat)
    returns (out: seq<Row>)
    ensures multiset(out) == multiset(Joined(kind, on, left, right, leftWidth, rightWidth))
  {
    hide Joins, Nulls, PairsOf, LeftAlone, LeftPart, RightPads;
    out := [];
    var rightMatched := seq(|right|, _ => false);
    LeftPartEmpty(kind, on, right, rightWidth);
    for i := 0 to |left|
      invariant |rightMatched| == |right|
      invariant forall j :: 0 <= j < |right| ==> (rightMatched[j] <==> !RightAlone(on, left[..i], right[j]))
      invariant multiset(out) == multiset(LeftPart(kind, on, left[..i], right, rightWidth))
    {
      var pairs;
      pairs, rightMatched := MatchRow(on, left[i], right, rightMatched);
      NoPairs(on, left[i], right);
      assert left[..i + 1] == left[..i] + [left[i]];
      out := out + pairs;
      if PadLeft(kind) && pairs == [] {
        out := out + [left[i] + Nulls(rightWidth)];
      }
      LeftPartNext(kind, on, left[..i], left[i], right, rightWidth);
    }
    assert left[..|left|] == left;
    LeftPartIs(kind, on, left, right, leftWidth, rightWidth);
    if PadRight(kind) {
      var pads := PadUnmatched(on, left, right, rightMatched, leftWidth);
      out := out + pads;
    }
  }

  lemma LeftPartEmpty(kind: JoinKind, on: On, right: seq<Row>, rightWidth: nat)
    ensures LeftPart(kind, on, [], right, rightWidth) == []
  {
  }

  lemma LeftPartIs(kind: JoinKind, on: On, left: seq<Row>, right: seq<Row>, leftWidth: nat, rightWidth: nat)
    ensures Joined(kind, on, left, right, leftWidth, rightWidth)
      == LeftPart(kind, on, left, right, rightWidth) +
         if PadRight(kind) then RightPads(on, left, right, leftWidth) else []
  {
  }

  /** What the loop over the left rows has produced. */
  function LeftPart(kind: JoinKind, on: On, left: seq<Row>, right: seq<Row>, rightWidth: nat): seq<Row> {
    InnerRows(on, left, right) + if PadLeft(kind) then LeftPads(on, left, right, rightWidth) else []
  }

  lemma FlatNext(left: seq<Row>, l: Row, f: Row -> seq<Row>)
    ensures Flat(left + [l], f) == Flat(left, f) + f(l)
  {
    assert (left + [l])[..|left|] == left;
  }

  lemma LeftPartNext(kind: JoinKind, on: On, left: seq<Row>, l: Row, right: seq<Row>, rightWidth: nat)
    ensures multiset(LeftPart(kind, on, left + [l], right, rightWidth)) ==
      multiset(LeftPart(kind, on, left, right, rightWidth)) + multiset(PairsOf(on, l, right))
      + if PadLeft(kind) && LeftAlone(on, l, right) then multiset{l + Nulls(rightWidth)} else multiset{}
  {
    hide Joins, Nulls, LeftAlone, PairsOf, Flat;
    FlatNext(left, l, l => PairsOf(on, l, right));
    FlatNext(left, l, l => if LeftAlone(on, l, right) then [l + Nulls(rightWidth)] else []);
  }

  function PairAll(l: Row, found: seq<Row>): seq<Row> {
    seq(|found|, k requires 0 <= k < |found| => l + found[k])
  }

  method AppendAll(l: Row, found: seq<Row>) returns (pairs: seq<Row>)
    ensures pairs == PairAll(l, found)
  {
    pairs := [];
    for j := 0 to |found|
      invariant pairs == PairAll(l, found[..j])
    {
      pairs := pairs + [l + found[j]];
    }
    assert found[..|found|] == found;
  }

  /** INNER or LEFT equi-join by probing an index of the right table. */
  method ProbeRight(kind: JoinKind, on: On, left: seq<Row>, t: Relation, c: string, leftWidth: nat)
    returns (out: seq<Row>)
    requires RelationOk(t) && c in t.indexed && !PadRight(kind)
    requires on.On? && on.op == Eq && on.right == PositionOr(t.columns, c)
    ensures multiset(out) == multiset(Joined(kind, on, left, Scan(t), leftWidth, |t.columns|))
  {
    hide RelationOk, PositionOr, Nulls, Joined, LeftPart, PairsOf, LeftAlone, PairAll, Scan;
    out := [];
    LeftPartEmpty(kind, on, Scan(t), |t.columns|);
    for i := 0 to |left|
      invariant multiset(out) == multiset(LeftPart(kind, on, left[..i], Scan(t), |t.columns|))
    {
      var found := RowsById(t, t.find(c, CellAt(left[i], on.left)));
      var pairs := AppendAll(left[i], found);
      ProbedPairs(on, left[i], t, c, found);
      NoPairs(on, left[i], Scan(t));
      SameEmpty(pairs, PairsOf(on, left[i], Scan(t)));
      assert left[..i + 1] == left[..i] + [left[i]];
      out := out + pairs;
      if PadLeft(kind) && pairs == [] {
        out := out + [left[i] + Nulls(|t.columns|)];
      }
      LeftPartNext(kind, on, left[..i], left[i], Scan(t), |t.columns|);
    }
    assert left[..|left|] == left;
    LeftPartIs(kind, on, left, Scan(t), leftWidth, |t.columns|);
  }

  lemma SameEmpty(a: seq<Row>, b: seq<Row>)
    requires multiset(a) == multiset(b)
    ensures a == [] <==> b == []
  {
    assert |multiset(a)| == |a| && |multiset(b)| == |b|;
  }

  lemma ProbedPairs(on: On, l: Row, t: Relation, c: string, found: seq<Row>)
    requires RelationOk(t) && c in t.indexed && on.On? && on.op == Eq && on.right == PositionOr(t.columns, c)
    requires found == Image(t.find(c, CellAt(l, on.left)), t.rows)
    ensures multiset(PairAll(l, found)) == multiset(PairsOf(on, l, Scan(t)))
  {
    hide RelationOk, PositionOr, Image;
    var f := r => One(on, l, r);
    ProbeIsScan(t, c, CellAt(l, on.left), f);
    FoundJoin(on, l, t, c);
    AllPairs(found, f, l);
  }

  lemma FoundJoin(on: On, l: Row, t: Relation, c: string)
    requires RelationOk(t) && c in t.indexed && on.On? && on.op == Eq && on.right == PositionOr(t.columns, c)
    ensures forall r :: r in Image(t.find(c, CellAt(l, on.left)), t.rows) ==> One(on, l, r) == [l + r]
  {
    hide PositionOr;
    var v := CellAt(l, on.left);
    assert IndexOk(t, c);
    ImageHas(t.find(c, v), t.rows);
  }

  lemma {:induction false} ImageHas(ids: seq<RowId>, rows: map<RowId, Row>)
    ensures forall r :: r in Image(ids, rows) ==> exists id :: id in ids && id in rows && rows[id] == r
  {
    if ids != [] {
      var front, last := ids[..|ids| - 1], ids[|ids| - 1];
      ImageHas(front, rows);
      assert forall id :: id in front ==> id in ids;
      assert last in ids;
    }
  }

  lemma {:induction false} AllPairs(found: seq<Row>, f: Row -> seq<Row>, l: Row)
    requires forall r :: r in found ==> f(r) == [l + r]
    ensures Flat(found, f) == PairAll(l, found)
  {
    if found != [] {
      assert found[|found| - 1] in found;
      AllPairs(found[..|found| - 1], f, l);
    }
  }

  function PairAllRight(found: seq<Row>, r: Row): seq<Row> {
    seq(|found|, k requires 0 <= k < |found| => found[k] + r)
  }

  method AppendAllRight(found: seq<Row>, r: Row) returns (pairs: seq<Row>)
    ensures pairs == PairAllRight(found, r)
  {
    pairs := [];
    for j := 0 to |found|
      invariant pairs == PairAllRight(found[..j], r)
    {
      pairs := pairs + [found[j] + r];
    }
    assert found[..|found|] == found;
  }

  /** INNER or RIGHT equi-join that scans the right rows and probes an index of the
      left table. */
  method ProbeLeft(kind: JoinKind, on: On, t: Relation, c: string, right: seq<Row>, rightWidth: nat)
    returns (out: seq<Row>)
    requires RelationOk(t) && c in t.indexed && !PadLeft(kind)
    requires on.On? && on.op == Eq && on.left == PositionOr(t.columns, c)
    ensures multiset(out) == multiset(Joined(kind, on, Scan(t), right, |t.columns|, rightWidth))
  {
    hide RelationOk, PositionOr, Nulls, Joined, RightPart, PairsFor, RightAlone, Scan, PairAllRight;
    out := [];
    RightPartEmpty(kind, on, Scan(t), |t.columns|);
    for j := 0 to |right|
      invariant multiset(out) == multiset(RightPart(kind, on, Scan(t), right[..j], |t.columns|))
    {
      var r := right[j];
      var found := RowsById(t, t.find(c, CellAt(r, on.right)));
      var pairs := AppendAllRight(found, r);
      ProbedPairsRight(on, t, c, found, r);
      NoPairsRight(on, Scan(t), r);
      SameEmpty(pairs, PairsFor(on, Scan(t), r));
      out := out + pairs;
      assert right[..j + 1] == right[..j] + [r];
      if PadRight(kind) && pairs == [] {
        out := out + [Nulls(|t.columns|) + r];
      }
      RightPartNext(kind, on, Scan(t), right[..j], r, |t.columns|);
    }
    assert right[..|right|] == right;
    RightPartIs(kind, on, Scan(t), right, |t.columns|, rightWidth);
  }

  function RightPart(kind: JoinKind, on: On, left: seq<Row>, right: seq<Row>, leftWidth: nat): seq<Row> {
    Flat(right, r => PairsFor(on, left, r)) + if PadRight(kind) then RightPads(on, left, right, leftWidth) else []
  }

  lemma RightPartEmpty(kind: JoinKind, on: On, left: seq<Row>, leftWidth: nat)
    ensures RightPart(kind, on, left, [], leftWidth) == []
  {
  }

  lemma RightPartNext(kind: JoinKind, on: On, left: seq<Row>, right: seq<Row>, r: Row, leftWidth: nat)
    ensures multiset(RightPart(kind, on, left, right + [r], leftWidth)) ==
      multiset(RightPart(kind, on, left, right, leftWidth)) + multiset(PairsFor(on, left, r))
      + if PadRight(kind) && RightAlone(on, left, r) then multiset{Nulls(leftWidth) + r} else multiset{}
  {
    hide Joins, Nulls, RightAlone, PairsFor, Flat;
    FlatNext(right, r, r => PairsFor(on, left, r));
    FlatNext(right, r, r => if RightAlone(on, left, r) then [Nulls(leftWidth) + r] else []);
  }

  lemma RightPartIs(kind: JoinKind, on: On, left: seq<Row>, right: seq<Row>, leftWidth: nat, rightWidth: nat)
    requires !PadLeft(kind)
    ensures multiset(Joined(kind, on, left, right, leftWidth, rightWidth)) ==
      multiset(RightPart(kind, on, left, right, leftWidth))
  {
    hide InnerRows, PairsFor, RightPads;
    FromTheRight(on, left, right);
  }

  lemma ProbedPairsRight(on: On, t: Relation, c: string, found: seq<Row>, r: Row)
    requires RelationOk(t) && c in t.indexed && on.On? && on.op == Eq && on.left == PositionOr(t.columns, c)
    requires found == Image(t.find(c, CellAt(r, on.right)), t.rows)
    ensures multiset(PairAllRight(found, r)) == multiset(PairsFor(on, Scan(t), r))
  {
    hide PositionOr, Image;
    var v := CellAt(r, on.right);
    var f := l => One(on, l, r);
    ProbeIsScan(t, c, v, f);
    assert IndexOk(t, c);
    ImageHas(t.find(c, v), t.rows);
    AllPairsRight(found, f, r);
  }

  lemma {:induction false} AllPairsRight(found: seq<Row>, f: Row -> seq<Row>, r: Row)
    requires forall l :: l in found ==> f(l) == [l + r]
    ensures Flat(found, f) == PairAllRight(found, r)
  {
    if found != [] {
      assert found[|found| - 1] in found;
      AllPairsRight(found[..|found| - 1], f, r);
    }
  }

  // ----- The hash join --------------------------------------------------------------------------

  /** The right rows with a given key, in scan order. */
  function Bucket(right: seq<Row>, column: nat, v: Value): seq<Row> {
    if right == [] then []
    else
      var last := right[|right| - 1];
      Bucket(right[..|right| - 1], column, v) + if CellAt(last, column) == v then [last] else []
  }

  method BuildBuckets(right: seq<Row>, column: nat) returns (buckets: map<Value, seq<Row>>)
    ensures forall v :: Bucket(right, column, v) == if v in buckets then buckets[v] else []
    ensures forall v :: v in buckets ==> buckets[v] != []
  {
    buckets := map[];
    for j := 0 to |right|
      invariant forall v :: Bucket(right[..j], column, v) == if v in buckets then buckets[v] else []
      invariant forall v :: v in buckets ==> buckets[v] != []
    {
      assert right[..j + 1][..j] == right[..j];
      var key := CellAt(right[j], column);
      buckets := buckets[key := (if key in buckets then buckets[key] else []) + [right[j]]];
    }
    assert right[..|right|] == right;
  }

  lemma {:induction false} BucketPairs(on: On, l: Row, right: seq<Row>)
    requires on.On? && on.op == Eq
    ensures PairAll(l, Bucket(right, on.right, CellAt(l, on.left))) == PairsOf(on, l, right)
  {
    if right != [] {
      BucketPairs(on, l, right[..|right| - 1]);
    }
  }

  method HashJoin(kind: JoinKind, on: On, left: seq<Row>, right: seq<Row>, leftWidth: nat, rightWidth: nat)
    returns (out: seq<Row>)
    requires on.On? && on.op == Eq && !PadRight(kind)
    ensures multiset(out) == multiset(Joined(kind, on, left, right, leftWidth, rightWidth))
  {
    hide Nulls, Joined, LeftPart, PairsOf, LeftAlone;
    var buckets := BuildBuckets(right, on.right);
    out := [];
    LeftPartEmpty(kind, on, right, rightWidth);
    for i := 0 to |left|
      invariant multiset(out) == multiset(LeftPart(kind, on, left[..i], right, rightWidth))
    {
      assert left[..i + 1] == left[..i] + [left[i]];
      BucketPairs(on, left[i], right);
      NoPairs(on, left[i], right);
      LeftPartNext(kind, on, left[..i], left[i], right, rightWidth);
      var key := CellAt(left[i], on.left);
      if key !in buckets {
        if PadLeft(kind) {
          out := out + [left[i] + Nulls(rightWidth)];
        }
      } else {
        var pairs := AppendAll(left[i], buckets[key]);
        out := out + pairs;
      }
    }
    assert left[..|left|] == left;
    LeftPartIs(kind, on, left, right, leftWidth, rightWidth);
  }
}
