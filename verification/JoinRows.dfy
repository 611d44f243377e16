/** The textbook meaning of a join step on sequences of rows, and why it does not
    depend on the order of either side.  One thing is not as in the SQL standard: the
    program compares NULL like any other value, so NULL joins NULL. */
module JoinRows {
  import opened Values

  datatype JoinKind = Inner | LeftOuter | RightOuter | FullOuter | Cross

  /** The join condition, with the two columns as positions. */
  datatype On = Always | On(op: CompareOp, left: nat, right: nat)

  function CellAt(row: Row, i: nat): Value {
    if i < |row| then row[i] else Null
  }

  predicate Joins(on: On, l: Row, r: Row) {
    on.Always? || Compare(CellAt(l, on.left), on.op, CellAt(r, on.right))
  }

  predicate PadLeft(kind: JoinKind) {
    kind == LeftOuter || kind == FullOuter
  }

  predicate PadRight(kind: JoinKind) {
    kind == RightOuter || kind == FullOuter
  }

  function Nulls(n: nat): Row {
    seq(n, _ => Null)
  }

  // ----- Sums over the rows of one side ------------------------------------------------

  function Flat<T>(s: seq<T>, f: T -> seq<Row>): seq<Row> {
    if s == [] then [] else Flat(s[..|s| - 1], f) + f(s[|s| - 1])
  }

  function One(on: On, l: Row, r: Row): seq<Row> {
    if Joins(on, l, r) then [l + r] else []
  }

  /** The joined rows of one left row. */
  function PairsOf(on: On, l: Row, right: seq<Row>): seq<Row> {
    Flat(right, r => One(on, l, r))
  }

  /** The joined rows of one right row. */
  function PairsFor(on: On, left: seq<Row>, r: Row): seq<Row> {
    Flat(left, l => One(on, l, r))
  }

  predicate LeftAlone(on: On, l: Row, right: seq<Row>) {
    forall j :: 0 <= j < |right| ==> !Joins(on, l, right[j])
  }

  predicate RightAlone(on: On, left: seq<Row>, r: Row) {
    forall i :: 0 <= i < |left| ==> !Joins(on, left[i], r)
  }

  function InnerRows(on: On, left: seq<Row>, right: seq<Row>): seq<Row> {
    Flat(left, l => PairsOf(on, l, right))
  }

  /** Left rows without a partner, padded with NULLs on the right. */
  function LeftPads(on: On, left: seq<Row>, right: seq<Row>, width: nat): seq<Row> {
    Flat(left, l => if LeftAlone(on, l, right) then [l + Nulls(width)] else [])
  }

  /** Right rows without a partner, padded with NULLs on the left. */
  function RightPads(on: On, left: seq<Row>, right: seq<Row>, width: nat): seq<Row> {
    Flat(right, r => if RightAlone(on, left, r) then [Nulls(width) + r] else [])
  }

  /** The textbook result of a join step. */
  function Joined(kind: JoinKind, on: On, left: seq<Row>, right: seq<Row>, leftWidth: nat, rightWidth: nat): seq<Row> {
    InnerRows(on, left, right)
    + (if PadLeft(kind) then LeftPads(on, left, right, rightWidth) else [])
    + (if PadRight(kind) then RightPads(on, left, right, leftWidth) else [])
  }

  lemma {:induction false} FlatAdd<T>(s: seq<T>, f: T -> seq<Row>, g: T -> seq<Row>, h: T -> seq<Row>)
    requires forall x :: x in s ==> h(x) == f(x) + g(x)
    ensures multiset(Flat(s, h)) == multiset(Flat(s, f)) + multiset(Flat(s, g))
  {
    if s != [] {
      FlatAdd(s[..|s| - 1], f, g, h);
      assert s[|s| - 1] in s;
    }
  }

  lemma {:induction false} FlatSame<T>(s: seq<T>, f: T -> seq<Row>, g: T -> seq<Row>)
    requires forall x :: x in s ==> f(x) == g(x)
    ensures Flat(s, f) == Flat(s, g)
  {
    if s != [] {
      FlatSame(s[..|s| - 1], f, g);
      assert s[|s| - 1] in s;
    }
  }

  lemma {:induction false} FlatConcat<T>(a: seq<T>, b: seq<T>, f: T -> seq<Row>)
    ensures Flat(a + b, f) == Flat(a, f) + Flat(b, f)
  {
    if b == [] {
      assert a + b == a;
    } else {
      var front := b[..|b| - 1];
      assert (a + b)[..|a + b| - 1] == a + front;
      FlatConcat(a, front, f);
    }
  }

  lemma FlatOne<T>(x: T, f: T -> seq<Row>)
    ensures Flat([x], f) == f(x)
  {
    assert [x][..0] == [];
  }

  lemma TakeOut<T>(s: seq<T>, k: nat)
    requires k < |s|
    ensures s == s[..k] + ([s[k]] + s[k + 1..])
    ensures multiset(s[..k] + s[k + 1..]) == multiset(s) - multiset{s[k]}
  {
    assert s == s[..k] + ([s[k]] + s[k + 1..]);
    assert multiset(s) == multiset(s[..k]) + multiset{s[k]} + multiset(s[k + 1..]);
  }

  lemma FlatTakeOut<T>(b: seq<T>, k: nat, f: T -> seq<Row>)
    requires k < |b|
    ensures multiset(Flat(b, f)) == multiset(Flat(b[..k] + b[k + 1..], f)) + multiset(f(b[k]))
  {
    hide Flat;
    TakeOut(b, k);
    FlatConcat(b[..k], [b[k]] + b[k + 1..], f);
    FlatConcat([b[k]], b[k + 1..], f);
    FlatConcat(b[..k], b[k + 1..], f);
    FlatOne(b[k], f);
  }

  /** The order of the summed rows does not matter. */
  lemma {:induction false} FlatPermuted<T>(a: seq<T>, b: seq<T>, f: T -> seq<Row>)
    requires multiset(a) == multiset(b)
    ensures multiset(Flat(a, f)) == multiset(Flat(b, f))
    decreases |a|
  {
    assert |multiset(a)| == |a| && |multiset(b)| == |b|;
    if a == [] {
      assert b == [];
    } else {
      hide Flat;
      var last := |a| - 1;
      assert a[last] in multiset(b);
      var k :| 0 <= k < |b| && b[k] == a[last];
      TakeOut(a, last);
      TakeOut(b, k);
      FlatPermuted(a[..last] + a[last + 1..], b[..k] + b[k + 1..], f);
      FlatTakeOut(a, last, f);
      FlatTakeOut(b, k, f);
    }
  }

  /** Summing row by row from the left or from the right gives the same rows. */
  lemma {:induction false} FromTheRight(on: On, left: seq<Row>, right: seq<Row>)
    ensures multiset(InnerRows(on, left, right)) == multiset(Flat(right, r => PairsFor(on, left, r)))
  {
    hide Joins;
    if left == [] {
      FlatEmpty(right, r => PairsFor(on, left, r));
    } else {
      var front, x := left[..|left| - 1], left[|left| - 1];
      FromTheRight(on, front, right);
      FlatAdd(right, r => PairsFor(on, front, r), r => One(on, x, r), r => PairsFor(on, left, r));
      assert InnerRows(on, left, right) == InnerRows(on, front, right) + PairsOf(on, x, right);
    }
  }

  lemma {:induction false} FlatEmpty<T>(s: seq<T>, f: T -> seq<Row>)
    requires forall x :: x in s ==> f(x) == []
    ensures Flat(s, f) == []
  {
    if s != [] {
      FlatEmpty(s[..|s| - 1], f);
      assert s[|s| - 1] in s;
    }
  }

  lemma {:induction false} NoPairs(on: On, l: Row, right: seq<Row>)
    ensures PairsOf(on, l, right) == [] <==> LeftAlone(on, l, right)
  {
    hide Joins;
    if right != [] {
      NoPairs(on, l, right[..|right| - 1]);
      assert right == right[..|right| - 1] + [right[|right| - 1]];
    }
  }

  lemma {:induction false} NoPairsRight(on: On, left: seq<Row>, r: Row)
    ensures PairsFor(on, left, r) == [] <==> RightAlone(on, left, r)
  {
    hide Joins;
    if left != [] {
      NoPairsRight(on, left[..|left| - 1], r);
      assert left == left[..|left| - 1] + [left[|left| - 1]];
    }
  }

  lemma RightPadsPermuted(on: On, a: seq<Row>, b: seq<Row>, right: seq<Row>, width: nat)
    requires multiset(a) == multiset(b)
    ensures RightPads(on, a, right, width) == RightPads(on, b, right, width)
  {
    hide Joins, Flat, Nulls;
    SameMembers(a, b);
    forall r ensures RightAlone(on, a, r) <==> RightAlone(on, b, r) {
      AloneMembers(on, a, r);
      AloneMembers(on, b, r);
    }
    hide RightAlone;
    FlatSame(right, r => if RightAlone(on, a, r) then [Nulls(width) + r] else [],
      r => if RightAlone(on, b, r) then [Nulls(width) + r] else []);
  }

  /** A join step depends on its left rows only up to their order. */
  lemma JoinedPermuted(kind: JoinKind, on: On, a: seq<Row>, b: seq<Row>, right: seq<Row>, leftWidth: nat,
                       rightWidth: nat)
    requires multiset(a) == multiset(b)
    ensures multiset(Joined(kind, on, a, right, leftWidth, rightWidth)) ==
      multiset(Joined(kind, on, b, right, leftWidth, rightWidth))
  {
    hide Joins, Flat, Nulls, LeftAlone, RightAlone, RightPads;
    FlatPermuted(a, b, l => PairsOf(on, l, right));
    FlatPermuted(a, b, l => if LeftAlone(on, l, right) then [l + Nulls(rightWidth)] else []);
    RightPadsPermuted(on, a, b, right, leftWidth);
  }

  lemma SameMembers(a: seq<Row>, b: seq<Row>)
    requires multiset(a) == multiset(b)
    ensures forall x :: x in a <==> x in b
  {
    forall x ensures x in a <==> x in b {
      assert x in multiset(a) <==> x in multiset(b);
    }
  }

  lemma AloneMembers(on: On, left: seq<Row>, r: Row)
    ensures RightAlone(on, left, r) <==> forall l :: l in left ==> !Joins(on, l, r)
  {
  }

  ghost predicate Wide(rows: seq<Row>, width: nat) {
    forall r :: r in rows ==> |r| == width
  }

  lemma {:induction false} FlatWide<T>(s: seq<T>, f: T -> seq<Row>, width: nat)
    requires forall x :: x in s ==> Wide(f(x), width)
    ensures Wide(Flat(s, f), width)
  {
    if s != [] {
      FlatWide(s[..|s| - 1], f, width);
      assert s[|s| - 1] in s;
      assert Wide(f(s[|s| - 1]), width);
    }
  }

  /** A join step adds the right table's columns to every row, also to padded ones. */
  lemma JoinedWide(kind: JoinKind, on: On, left: seq<Row>, right: seq<Row>, leftWidth: nat, rightWidth: nat)
    requires Wide(left, leftWidth) && Wide(right, rightWidth)
    ensures Wide(Joined(kind, on, left, right, leftWidth, rightWidth), leftWidth + rightWidth)
  {
    hide Flat, Joins, LeftAlone, RightAlone;
    var width := leftWidth + rightWidth;
    forall l | l in left ensures Wide(PairsOf(on, l, right), width) {
      FlatWide(right, r => One(on, l, r), width);
    }
    FlatWide(left, l => PairsOf(on, l, right), width);
    FlatWide(left, l => if LeftAlone(on, l, right) then [l + Nulls(rightWidth)] else [], width);
    FlatWide(right, r => if RightAlone(on, left, r) then [Nulls(leftWidth) + r] else [], width);
  }
}
