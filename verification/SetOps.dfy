/** SQL set operations on row lists. */
module SetOps {
  import opened Values

  function Rows(rows: seq<Row>): set<Row> {
    set i | 0 <= i < |rows| :: rows[i]
  }

  lemma RowsAppend(rows: seq<Row>, row: Row)
    ensures Rows(rows + [row]) == Rows(rows) + {row}
  {
    var all := rows + [row];
    assert all[|rows|] == row;
    forall x | x in Rows(rows) ensures x in Rows(all) {
      var i :| 0 <= i < |rows| && rows[i] == x;
      assert all[i] == x;
    }
  }

  lemma RowsConcat(a: seq<Row>, b: seq<Row>)
    ensures Rows(a + b) == Rows(a) + Rows(b)
  {
    forall x | x in Rows(a) ensures x in Rows(a + b) {
      var i :| 0 <= i < |a| && a[i] == x;
      assert (a + b)[i] == x;
    }
    forall x | x in Rows(b) ensures x in Rows(a + b) {
      var i :| 0 <= i < |b| && b[i] == x;
      assert (a + b)[|a| + i] == x;
    }
  }

  method DeduplicateRows(rows: seq<Row>) returns (unique: seq<Row>)
    ensures Distinct(unique) && Rows(unique) == Rows(rows)
  {
    unique := [];
    var seen: set<Row> := {};
    for i := 0 to |rows|
      invariant Distinct(unique) && Rows(unique) == seen == Rows(rows[..i])
    {
      assert rows[..i + 1] == rows[..i] + [rows[i]];
      RowsAppend(rows[..i], rows[i]);
      if rows[i] !in seen {
        RowsAppend(unique, rows[i]);
        assert forall j :: 0 <= j < |unique| ==> unique[j] in Rows(unique);
        seen := seen + {rows[i]};
        unique := unique + [rows[i]];
      }
    }
    assert rows[..|rows|] == rows;
  }

  datatype SetOp = UnionAll | Union | Intersect | IntersectAll | Except | ExceptAll

  /** The rows of one list that are, or are not, in the other, once each. */
  method KeepOnce(left: seq<Row>, right: seq<Row>, wanted: bool) returns (r: seq<Row>)
    ensures Distinct(r)
    ensures forall x :: x in Rows(r) <==> x in Rows(left) && (x in Rows(right) <==> wanted)
  {
    var rightSet := Rows(right);
    var emitted: set<Row> := {};
    r := [];
    for i := 0 to |left|
      invariant Distinct(r) && Rows(r) == emitted
      invariant forall x :: x in Rows(r) <==> x in Rows(left[..i]) && (x in rightSet <==> wanted)
    {
      assert left[..i + 1] == left[..i] + [left[i]];
      RowsAppend(left[..i], left[i]);
      if (left[i] in rightSet) == wanted && left[i] !in emitted {
        RowsAppend(r, left[i]);
        assert forall j :: 0 <= j < |r| ==> r[j] in Rows(r);
        emitted := emitted + {left[i]};
        r := r + [left[i]];
      }
    }
    assert left[..|left|] == left;
  }

  lemma TakeMatched(l: multiset<Row>, r: multiset<Row>, x: Row)
    requires (r - l)[x] > 0
    ensures (l + multiset{x}) * r == l * r + multiset{x}
    ensures (l + multiset{x}) - r == l - r
    ensures r - (l + multiset{x}) == (r - l) - multiset{x}
  {
  }

  lemma TakeOther(l: multiset<Row>, r: multiset<Row>, x: Row)
    requires (r - l)[x] == 0
    ensures (l + multiset{x}) * r == l * r
    ensures (l + multiset{x}) - r == l - r + multiset{x}
    ensures r - (l + multiset{x}) == r - l
  {
  }

  /** Matches each left row with one right row while there are any; the matched
      rows are the multiset intersection, the others the multiset difference. */
  method MatchCounts(left: seq<Row>, right: seq<Row>) returns (matched: seq<Row>, others: seq<Row>)
    ensures multiset(matched) == multiset(left) * multiset(right)
    ensures multiset(others) == multiset(left) - multiset(right)
  {
    var counts := multiset(right);
    matched, others := [], [];
    for i := 0 to |left|
      invariant multiset(matched) == multiset(left[..i]) * multiset(right)
      invariant multiset(others) == multiset(left[..i]) - multiset(right)
      invariant counts == multiset(right) - multiset(left[..i])
    {
      assert multiset(left[..i + 1]) == multiset(left[..i]) + multiset{left[i]} by {
        assert left[..i + 1] == left[..i] + [left[i]];
      }
      if counts[left[i]] > 0 {
        TakeMatched(multiset(left[..i]), multiset(right), left[i]);
        counts := counts - multiset{left[i]};
        matched := matched + [left[i]];
      } else {
        TakeOther(multiset(left[..i]), multiset(right), left[i]);
        others := others + [left[i]];
      }
    }
    assert left[..|left|] == left;
  }

  method ApplySetOperation(op: SetOp, left: seq<Row>, right: seq<Row>) returns (r: seq<Row>)
    ensures match op
      case UnionAll => multiset(r) == multiset(left) + multiset(right)
      case Union => Distinct(r) && Rows(r) == Rows(left) + Rows(right)
      case Intersect => Distinct(r) && Rows(r) == Rows(left) * Rows(right)
      case IntersectAll => multiset(r) == multiset(left) * multiset(right)
      case Except => Distinct(r) && Rows(r) == Rows(left) - Rows(right)
      case ExceptAll => multiset(r) == multiset(left) - multiset(right)
  {
    match op {
      case UnionAll => r := left + right;
      case Union =>
        RowsConcat(left, right);
        r := DeduplicateRows(left + right);
      case Intersect => r := KeepOnce(left, right, true);
      case IntersectAll =>
        var matched, _ := MatchCounts(left, right);
        r := matched;
      case Except => r := KeepOnce(left, right, false);
      case ExceptAll =>
        var _, others := MatchCounts(left, right);
        r := others;
    }
  }
}
