/** How often each row stands in the result of a join, kind by kind: the pairs that meet
    the condition, and the rows without a partner that an outer join keeps. */
module JoinKinds {
  import opened Values
  import opened JoinRows

  /** The condition, by what the order of values is. */
  ghost predicate Meets(on: On, a: Row, b: Row) {
    match on
    case Always => true
    case On(op, left, right) =>
      match op
      case Eq => CellAt(a, left) == CellAt(b, right)
      case Gt => ComesBefore(CellAt(b, right), CellAt(a, left))
      case Lt => ComesBefore(CellAt(a, left), CellAt(b, right))
  }

  ghost predicate AllNull(row: Row) {
    forall i :: 0 <= i < |row| ==> row[i] == Null
  }

  /** The pair as often as its two rows occur together. */
  ghost function Pairs(on: On, left: seq<Row>, right: seq<Row>, a: Row, b: Row): nat {
    if Meets(on, a, b) then multiset(left)[a] * multiset(right)[b] else 0
  }

  /** A left row without a partner as often as it occurs, beside NULLs. */
  ghost function LoneLeft(on: On, left: seq<Row>, right: seq<Row>, a: Row, b: Row): nat {
    if AllNull(b) && forall r :: r in right ==> !Meets(on, a, r) then multiset(left)[a] else 0
  }

  ghost function LoneRight(on: On, left: seq<Row>, right: seq<Row>, a: Row, b: Row): nat {
    if AllNull(a) && forall l :: l in left ==> !Meets(on, l, b) then multiset(right)[b] else 0
  }

  /** How often the row `a + b` stands in the result. */
  ghost function Occurs(kind: JoinKind, on: On, left: seq<Row>, right: seq<Row>, a: Row, b: Row): nat {
    match kind
    case Inner => Pairs(on, left, right, a, b)
    case Cross => Pairs(on, left, right, a, b)
    case LeftOuter => Pairs(on, left, right, a, b) + LoneLeft(on, left, right, a, b)
    case RightOuter => Pairs(on, left, right, a, b) + LoneRight(on, left, right, a, b)
    case FullOuter => Pairs(on, left, right, a, b) + LoneLeft(on, left, right, a, b) + LoneRight(on, left, right, a, b)
  }

  /** The rows have the width of both sides, and each stands there that often. */
  ghost predicate Counts(
      kind: JoinKind, on: On, left: seq<Row>, right: seq<Row>, leftWidth: nat, rightWidth: nat, out: seq<Row>) {
    && Wide(out, leftWidth + rightWidth)
    && forall a: Row, b: Row | |a| == leftWidth && |b| == rightWidth ::
         multiset(out)[a + b] == Occurs(kind, on, left, right, a, b)
  }

  lemma MeetsIs(on: On, a: Row, b: Row)
    ensures Joins(on, a, b) <==> Meets(on, a, b)
  {
    if on.On? {
      ComparisonIs(CellAt(a, on.left), on.op, CellAt(b, on.right));
    }
  }

  lemma NullsAre(row: Row)
    ensures AllNull(row) <==> row == Nulls(|row|)
  {
  }

  lemma SidesApart(a: Row, b: Row, c: Row, d: Row)
    requires |a| == |c| || |b| == |d|
    ensures a + b == c + d <==> a == c && b == d
  {
    if a + b == c + d {
      assert |a| == |c|;
      assert a == (a + b)[..|a|] && c == (c + d)[..|a|];
      assert b == (a + b)[|a|..] && d == (c + d)[|a|..];
    }
  }

  lemma {:induction false} PairsOfCount(on: On, l: Row, right: seq<Row>, a: Row, b: Row)
    requires |l| == |a| && Wide(right, |b|)
    ensures multiset(PairsOf(on, l, right))[a + b] == if l == a && Joins(on, a, b) then multiset(right)[b] else 0
  {
    hide Joins;
    if right != [] {
      var front, r := right[..|right| - 1], right[|right| - 1];
      assert right == front + [r];
      assert r in right;
      PairsOfCount(on, l, front, a, b);
      SidesApart(l, r, a, b);
      assert PairsOf(on, l, right) == PairsOf(on, l, front) + One(on, l, r);
    }
  }

  lemma NextTimes(n: nat, m: nat)
    ensures (n + 1) * m == n * m + m
  {
  }

  lemma {:induction false} InnerCount(on: On, left: seq<Row>, right: seq<Row>, a: Row, b: Row)
    requires Wide(left, |a|) && Wide(right, |b|)
    ensures multiset(InnerRows(on, left, right))[a + b] ==
      if Joins(on, a, b) then multiset(left)[a] * multiset(right)[b] else 0
  {
    hide Joins, PairsOf;
    if left != [] {
      var front, l := left[..|left| - 1], left[|left| - 1];
      assert left == front + [l];
      assert l in left;
      InnerCount(on, front, right, a, b);
      PairsOfCount(on, l, right, a, b);
      NextTimes(multiset(front)[a], multiset(right)[b]);
      assert InnerRows(on, left, right) == InnerRows(on, front, right) + PairsOf(on, l, right);
    }
  }

  lemma {:induction false} LeftPadCount(on: On, left: seq<Row>, right: seq<Row>, a: Row, b: Row)
    requires Wide(left, |a|)
    ensures multiset(LeftPads(on, left, right, |b|))[a + b] ==
      if b == Nulls(|b|) && LeftAlone(on, a, right) then multiset(left)[a] else 0
  {
    hide Joins, LeftAlone, Nulls;
    if left != [] {
      var front, l := left[..|left| - 1], left[|left| - 1];
      assert left == front + [l];
      assert l in left;
      LeftPadCount(on, front, right, a, b);
      SidesApart(l, Nulls(|b|), a, b);
      assert LeftPads(on, left, right, |b|) ==
        LeftPads(on, front, right, |b|) + if LeftAlone(on, l, right) then [l + Nulls(|b|)] else [];
    }
  }

  lemma {:induction false} RightPadCount(on: On, left: seq<Row>, right: seq<Row>, a: Row, b: Row)
    requires Wide(right, |b|)
    ensures multiset(RightPads(on, left, right, |a|))[a + b] ==
      if a == Nulls(|a|) && RightAlone(on, left, b) then multiset(right)[b] else 0
  {
    hide Joins, RightAlone, Nulls;
    if right != [] {
      var front, r := right[..|right| - 1], right[|right| - 1];
      assert right == front + [r];
      assert r in right;
      RightPadCount(on, left, front, a, b);
      SidesApart(Nulls(|a|), r, a, b);
      assert RightPads(on, left, right, |a|) ==
        RightPads(on, left, front, |a|) + if RightAlone(on, left, r) then [Nulls(|a|) + r] else [];
    }
  }

  lemma AloneIs(on: On, left: seq<Row>, right: seq<Row>, a: Row, b: Row)
    ensures LeftAlone(on, a, right) <==> forall r :: r in right ==> !Meets(on, a, r)
    ensures RightAlone(on, left, b) <==> forall l :: l in left ==> !Meets(on, l, b)
  {
    hide Joins, Meets;
    forall r ensures Joins(on, a, r) <==> Meets(on, a, r) { MeetsIs(on, a, r); }
    forall l ensures Joins(on, l, b) <==> Meets(on, l, b) { MeetsIs(on, l, b); }
  }

  lemma RowCounts(kind: JoinKind, on: On, left: seq<Row>, right: seq<Row>, a: Row, b: Row)
    requires Wide(left, |a|) && Wide(right, |b|)
    ensures multiset(Joined(kind, on, left, right, |a|, |b|))[a + b] == Occurs(kind, on, left, right, a, b)
  {
    hide Joins, Meets, LeftAlone, RightAlone, InnerRows, LeftPads, RightPads, Nulls, AllNull, Wide;
    InnerCount(on, left, right, a, b);
    LeftPadCount(on, left, right, a, b);
    RightPadCount(on, left, right, a, b);
    MeetsIs(on, a, b);
    AloneIs(on, left, right, a, b);
    NullsAre(a);
    NullsAre(b);
  }

  /** Each kind of join returns exactly its pairs and its rows without a partner. */
  lemma JoinedCounts(kind: JoinKind, on: On, left: seq<Row>, right: seq<Row>, leftWidth: nat, rightWidth: nat)
    requires Wide(left, leftWidth) && Wide(right, rightWidth)
    ensures Counts(kind, on, left, right, leftWidth, rightWidth, Joined(kind, on, left, right, leftWidth, rightWidth))
  {
    hide Joined, Occurs, Wide;
    JoinedWide(kind, on, left, right, leftWidth, rightWidth);
    forall a: Row, b: Row | |a| == leftWidth && |b| == rightWidth
      ensures multiset(Joined(kind, on, left, right, leftWidth, rightWidth))[a + b] ==
        Occurs(kind, on, left, right, a, b)
    {
      RowCounts(kind, on, left, right, a, b);
    }
  }

  /** So does any list of the same rows. */
  lemma SameCounts(
      kind: JoinKind, on: On, left: seq<Row>, right: seq<Row>, leftWidth: nat, rightWidth: nat,
      out: seq<Row>, other: seq<Row>)
    requires Counts(kind, on, left, right, leftWidth, rightWidth, out) && multiset(out) == multiset(other)
    ensures Counts(kind, on, left, right, leftWidth, rightWidth, other)
  {
    hide Occurs;
    SameMembers(out, other);
  }

  // ----- Exchanging the sides -----------------------------------------------------------

  function Mirrored(kind: JoinKind): JoinKind {
    match kind
    case LeftOuter => RightOuter
    case RightOuter => LeftOuter
    case _ => kind
  }

  function Flipped(on: On): On {
    match on
    case Always => Always
    case On(op, left, right) => On(match op case Eq => Eq case Gt => Lt case Lt => Gt, right, left)
  }

  /** FULL, INNER and CROSS joins are symmetric, and LEFT and RIGHT mirror each other: with
      the sides exchanged each row stands in the result, columns exchanged, as often. */
  lemma SidesExchange(
      kind: JoinKind, on: On, left: seq<Row>, right: seq<Row>, leftWidth: nat, rightWidth: nat, a: Row, b: Row)
    requires Wide(left, leftWidth) && Wide(right, rightWidth) && |a| == leftWidth && |b| == rightWidth
    ensures multiset(Joined(kind, on, left, right, leftWidth, rightWidth))[a + b] ==
      multiset(Joined(Mirrored(kind), Flipped(on), right, left, rightWidth, leftWidth))[b + a]
  {
    hide Joined, Meets, ComesBefore;
    JoinedCounts(kind, on, left, right, leftWidth, rightWidth);
    JoinedCounts(Mirrored(kind), Flipped(on), right, left, rightWidth, leftWidth);
    forall x: Row, y: Row ensures Meets(on, x, y) <==> Meets(Flipped(on), y, x) { MeetsFlipped(on, x, y); }
    assert Pairs(on, left, right, a, b) == Pairs(Flipped(on), right, left, b, a);
    assert LoneLeft(on, left, right, a, b) == LoneRight(Flipped(on), right, left, b, a);
    assert LoneRight(on, left, right, a, b) == LoneLeft(Flipped(on), right, left, b, a);
  }

  lemma MeetsFlipped(on: On, x: Row, y: Row)
    ensures Meets(on, x, y) <==> Meets(Flipped(on), y, x)
  {
  }
}
