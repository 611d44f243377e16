/** Equi-height histograms over sorted column values, and how far their range
    estimates can be from the truth. */
module Histograms {
  import opened Arithmetic
  import opened Values

  datatype Bucket = Bucket(lower: Value, upper: Value, rowCount: nat, distinctCount: nat)

  datatype Histogram = Histogram(rowCount: nat, distinctCount: nat, buckets: seq<Bucket>)

  ghost predicate Sorted(s: seq<Value>) {
    forall i, j :: 0 <= i <= j < |s| ==> LessEq(s[i], s[j])
  }

  // ----- Building ------------------------------------------------------------------------

  function BucketCount(n: nat, maxBuckets: nat): nat {
    var m := if maxBuckets < n then maxBuckets else n;
    if m > 1 then m else 1
  }

  /** The position at which bucket `k` of `count` starts. */
  function Bound(n: nat, count: nat, k: nat): nat
    requires count > 0
  {
    k * n / count
  }

  function Ceiling(n: nat, count: nat): nat
    requires count > 0
  {
    (n + count - 1) / count
  }

  /** Bucket sizes differ by at most one and no bucket is empty. */
  lemma BoundStep(n: nat, count: nat, k: nat)
    requires 0 < count <= n && k < count
    ensures 1 <= Bound(n, count, k + 1) - Bound(n, count, k) <= Ceiling(n, count)
    ensures n / count <= Bound(n, count, k + 1) - Bound(n, count, k)
    ensures Bound(n, count, k + 1) <= n
  {
    var q, r := k * n / count, k * n % count;
    assert k * n == q * count + r;
    assert (k + 1) * n == k * n + n;
    DivShift(q, count, r + n);
    DivMonotone(r + n, n + count - 1, count);
    DivMonotone(n, r + n, count);
    DivMonotone(count, n, count);
    assert count / count == 1 by { DivShift(1, count, 0); }
    BoundLast(n, count);
    assert (k + 1) * n <= count * n by { MulMonotone(k + 1, count, n); }
    DivMonotone((k + 1) * n, count * n, count);
  }

  lemma BoundLast(n: nat, count: nat)
    requires count > 0
    ensures Bound(n, count, count) == n && Bound(n, count, 0) == 0
  {
    assert count * n == n * count + 0;
    DivShift(n, count, 0);
    assert 0 * n == 0;
    DivShift(0, count, 0);
  }

  lemma DivShift(q: nat, d: nat, r: nat)
    requires d > 0
    ensures (q * d + r) / d == q + r / d
  {
    var a := r / d;
    var m := r % d;
    assert r == a * d + m;
    assert q * d + r == (q + a) * d + m;
    DivUnique((q + a) * d + m, d, q + a, m);
  }

  lemma DivMonotone(a: nat, b: nat, d: nat)
    requires d > 0 && a <= b
    ensures a / d <= b / d
  {
    DivShift(a / d, d, b - (a / d) * d);
    assert (a / d) * d + (b - (a / d) * d) == b;
  }

  function Members(s: seq<Value>): set<Value> {
    set v | v in s
  }

  /** The number of different values of a sorted run. */
  method DistinctInRange(s: seq<Value>, begin: nat, end: nat) returns (distinct: nat)
    requires Sorted(s) && end <= |s|
    ensures distinct == if begin >= end then 0 else |Members(s[begin..end])|
  {
    if begin >= end {
      return 0;
    }
    distinct := 1;
    assert s[begin..begin + 1] == [s[begin]];
    assert Members(s[begin..begin + 1]) == {s[begin]};
    for i := begin + 1 to end
      invariant distinct == |Members(s[begin..i])|
    {
      NextDistinct(s, begin, i);
      if s[i] != s[i - 1] {
        distinct := distinct + 1;
      }
    }
  }

  lemma NextDistinct(s: seq<Value>, begin: nat, i: nat)
    requires Sorted(s) && begin < i < |s|
    ensures |Members(s[begin..i + 1])| == |Members(s[begin..i])| + if s[i] != s[i - 1] then 1 else 0
  {
    var run := s[begin..i];
    assert s[begin..i + 1] == run + [s[i]];
    assert Members(run + [s[i]]) == Members(run) + {s[i]};
    assert run[|run| - 1] == s[i - 1];
    if s[i] in run {
      var j :| 0 <= j < |run| && run[j] == s[i];
      assert s[begin + j] == s[i];
      LessOrder(s[i], s[i - 1], s[i]);
    }
  }

  ghost predicate BucketOf(s: seq<Value>, b: Bucket, begin: nat, end: nat) {
    && begin < end <= |s|
    && b.lower == s[begin] && b.upper == s[end - 1]
    && b.rowCount == end - begin && b.distinctCount == |Members(s[begin..end])|
  }

  /** The buckets cut the values into consecutive runs of nearly equal length. */
  ghost predicate HistogramOf(h: Histogram, s: seq<Value>) {
    && h.rowCount == |s| && h.distinctCount == |Members(s)|
    && |h.buckets| <= |s| && (h.buckets == [] ==> s == [])
    && forall k ::
       0 <= k < |h.buckets| ==> BucketOf(s, h.buckets[k], Bound(|s|, |h.buckets|, k), Bound(|s|, |h.buckets|, k + 1))
  }

  method BuildEquiHeightHistogram(s: seq<Value>, maxBuckets: nat) returns (h: Histogram)
    requires Sorted(s)
    ensures HistogramOf(h, s)
    ensures s != [] ==> |h.buckets| == BucketCount(|s|, maxBuckets)
  {
    hide Bound;
    if s == [] {
      assert Members(s) == {};
      return Histogram(0, 0, []);
    }
    var distinct := DistinctInRange(s, 0, |s|);
    assert s[0..|s|] == s;
    var count := BucketCount(|s|, maxBuckets);
    var buckets := [];
    for k := 0 to count
      invariant |buckets| == k
      invariant forall i :: 0 <= i < k ==> BucketOf(s, buckets[i], Bound(|s|, count, i), Bound(|s|, count, i + 1))
    {
      BoundStep(|s|, count, k);
      var begin, end := Bound(|s|, count, k), Bound(|s|, count, k + 1);
      var inBucket := DistinctInRange(s, begin, end);
      buckets := buckets + [Bucket(s[begin], s[end - 1], end - begin, inBucket)];
    }
    h := Histogram(|s|, distinct, buckets);
  }

  function RowTotal(buckets: seq<Bucket>): nat {
    if buckets == [] then 0 else RowTotal(buckets[..|buckets| - 1]) + buckets[|buckets| - 1].rowCount
  }

  /** Bucket counts add up to the number of rows, and none exceeds the ceiling. */
  lemma BucketsPartition(h: Histogram, s: seq<Value>)
    requires HistogramOf(h, s)
    ensures RowTotal(h.buckets) == |s|
    ensures forall k :: 0 <= k < |h.buckets| ==> 1 <= h.buckets[k].rowCount <= Ceiling(|s|, |h.buckets|)
  {
    if s != [] {
      forall k | 0 <= k < |h.buckets| ensures 1 <= h.buckets[k].rowCount <= Ceiling(|s|, |h.buckets|) {
        BoundStep(|s|, |h.buckets|, k);
        assert BucketOf(s, h.buckets[k], Bound(|s|, |h.buckets|, k), Bound(|s|, |h.buckets|, k + 1));
      }
      TotalTo(h, s, |h.buckets|);
      assert h.buckets[..|h.buckets|] == h.buckets;
      BoundLast(|s|, |h.buckets|);
    }
  }

  lemma {:induction false} TotalTo(h: Histogram, s: seq<Value>, k: nat)
    requires HistogramOf(h, s) && s != [] && k <= |h.buckets|
    ensures RowTotal(h.buckets[..k]) == Bound(|s|, |h.buckets|, k)
  {
    hide Bound;
    if k == 0 {
      BoundLast(|s|, |h.buckets|);
    } else {
      TotalTo(h, s, k - 1);
      assert h.buckets[..k][..k - 1] == h.buckets[..k - 1];
      assert BucketOf(s, h.buckets[k - 1], Bound(|s|, |h.buckets|, k - 1), Bound(|s|, |h.buckets|, k));
    }
  }

  // ----- Estimating -------------------------------------------------------------------------

  function Clamp(x: real): real {
    if x < 0.0 then 0.0 else if x > 1.0 then 1.0 else x
  }

  /** `llround` of a number that is not negative. */
  function Round(x: real): int {
    (x + 0.5).Floor
  }

  predicate Numeric(v: Value) {
    v.Int? || v.Dbl?
  }

  function AsReal(v: Value): real
    requires Numeric(v)
  {
    if v.Int? then v.n as real else v.r
  }

  predicate SameNumbers(b: Bucket, v: Value) {
    Numeric(v) && Numeric(b.lower) && Numeric(b.upper) && v.Int? == b.lower.Int? == b.upper.Int?
  }

  function Interpolated(b: Bucket, part: real, whole: real): (r: nat)
    requires whole > 0.0
    ensures r <= b.rowCount
  {
    var x := Clamp(part / whole) * b.rowCount as real;
    ClampTimes(part / whole, b.rowCount);
    Round(x)
  }

  lemma ClampTimes(f: real, n: nat)
    ensures 0 <= Round(Clamp(f) * n as real) <= n
  {
    var x := Clamp(f) * n as real;
    var c := Clamp(f);
    assert 0.0 <= c <= 1.0;
    assert 0.0 <= c * n as real;
    assert (1.0 - c) * n as real >= 0.0;
    assert x <= n as real;
  }

  function Half(b: Bucket): nat {
    if b.rowCount / 2 > 1 then b.rowCount / 2 else 1
  }

  function RowsGreater(b: Bucket, v: Value): nat {
    if !Less(v, b.upper) then 0
    else if Less(v, b.lower) then b.rowCount
    else if b.distinctCount <= 1 then b.rowCount
    else if SameNumbers(b, v) then
      var lo, hi, x := AsReal(b.lower), AsReal(b.upper), AsReal(v);
      if hi <= lo then b.rowCount else Interpolated(b, hi - x, hi - lo)
    else Half(b)
  }

  function RowsLess(b: Bucket, v: Value): nat {
    if !Less(b.lower, v) then 0
    else if Less(b.upper, v) then b.rowCount
    else if b.distinctCount <= 1 then b.rowCount
    else if SameNumbers(b, v) then
      var lo, hi, x := AsReal(b.lower), AsReal(b.upper), AsReal(v);
      if hi <= lo then b.rowCount else Interpolated(b, x - lo, hi - lo)
    else Half(b)
  }

  function Estimate(b: Bucket, op: CompareOp, v: Value): nat {
    match op
    case Gt => RowsGreater(b, v)
    case Lt => RowsLess(b, v)
    case Eq => 0
  }

  function Count(s: seq<Value>, op: CompareOp, v: Value): nat {
    if s == [] then 0 else Count(s[..|s| - 1], op, v) + if Compare(s[|s| - 1], op, v) then 1 else 0
  }

  lemma {:induction false} CountConcat(a: seq<Value>, b: seq<Value>, op: CompareOp, v: Value)
    ensures Count(a + b, op, v) == Count(a, op, v) + Count(b, op, v)
  {
    hide Compare;
    if b == [] {
      assert a + b == a;
    } else {
      assert (a + b)[..|a + b| - 1] == a + b[..|b| - 1];
      CountConcat(a, b[..|b| - 1], op, v);
    }
  }

  ghost predicate Everywhere(s: seq<Value>, op: CompareOp, v: Value, holds: bool) {
    forall i :: 0 <= i < |s| ==> Compare(s[i], op, v) == holds
  }

  lemma {:induction false} CountUniform(s: seq<Value>, op: CompareOp, v: Value, holds: bool)
    requires Everywhere(s, op, v, holds)
    ensures Count(s, op, v) == if holds then |s| else 0
  {
    hide Compare;
    if s != [] {
      CountUniform(s[..|s| - 1], op, v, holds);
    }
  }

  lemma {:induction false} CountAtMost(s: seq<Value>, op: CompareOp, v: Value)
    ensures Count(s, op, v) <= |s|
  {
    hide Compare;
    if s != [] {
      CountAtMost(s[..|s| - 1], op, v);
    }
  }

  lemma CountSplit(s: seq<Value>, op: CompareOp, v: Value, i: nat)
    requires i < |s|
    ensures Compare(s[i], op, v) ==> Count(s, op, v) >= 1
    ensures !Compare(s[i], op, v) ==> Count(s, op, v) < |s|
  {
    hide Compare;
    assert s == s[..i] + ([s[i]] + s[i + 1..]);
    CountConcat(s[..i], [s[i]] + s[i + 1..], op, v);
    CountConcat([s[i]], s[i + 1..], op, v);
    CountAtMost(s[..i], op, v);
    CountAtMost(s[i + 1..], op, v);
    assert [s[i]][..0] == [];
    assert Count([s[i]], op, v) == if Compare(s[i], op, v) then 1 else 0;
  }

  /** The bound lies inside the bucket: some of its rows satisfy the comparison and
      some do not. */
  predicate Straddles(b: Bucket, op: CompareOp, v: Value) {
    match op
    case Gt => !Less(v, b.lower) && Less(v, b.upper)
    case Lt => Less(b.lower, v) && !Less(b.upper, v)
    case Eq => false
  }

  ghost predicate ErrorWithin(estimate: int, truth: int, bound: int) {
    -bound < estimate - truth < bound
  }

  /** A value between the ends of the bucket is decided like the end that matters. */
  lemma Between(b: Bucket, x: Value, op: CompareOp, v: Value)
    requires LessEq(b.lower, x) && LessEq(x, b.upper) && op != Eq && !Straddles(b, op, v)
    ensures Compare(x, op, v) == Compare(b.lower, op, v) == Compare(b.upper, op, v)
  {
    LessOrder(v, b.lower, x);
    LessOrder(v, x, b.upper);
    LessOrder(b.lower, x, v);
    LessOrder(x, b.upper, v);
    LessOrder(b.lower, b.upper, v);
    LessOrder(b.lower, x, b.upper);
    LessOrder(v, b.lower, b.upper);
  }

  lemma BucketExact(s: seq<Value>, b: Bucket, begin: nat, end: nat, op: CompareOp, v: Value)
    requires Sorted(s) && BucketOf(s, b, begin, end) && op != Eq && !Straddles(b, op, v)
    ensures Estimate(b, op, v) == Count(s[begin..end], op, v)
  {
    hide Members, Less;
    var run := s[begin..end];
    var holds := Compare(b.lower, op, v);
    Between(b, b.lower, op, v) by { assert LessEq(s[begin], s[end - 1]); }
    forall i | 0 <= i < |run| ensures Compare(run[i], op, v) == holds {
      assert LessEq(s[begin], s[begin + i]) && LessEq(s[begin + i], s[end - 1]);
      Between(b, run[i], op, v);
    }
    CountUniform(run, op, v, holds);
  }

  lemma BucketInside(s: seq<Value>, b: Bucket, begin: nat, end: nat, op: CompareOp, v: Value)
    requires BucketOf(s, b, begin, end) && op != Eq && Straddles(b, op, v)
    ensures ErrorWithin(Estimate(b, op, v), Count(s[begin..end], op, v), b.rowCount)
  {
    hide Members, Interpolated, SameNumbers, Less;
    var run := s[begin..end];
    assert run[0] == b.lower && run[|run| - 1] == b.upper;
    CountSplit(run, op, v, 0);
    CountSplit(run, op, v, |run| - 1);
    assert Estimate(b, op, v) <= b.rowCount;
  }

  /** Outside the straddling bucket the estimate is exact; inside it is off by less
      than the size of the bucket. */
  lemma BucketEstimate(s: seq<Value>, b: Bucket, begin: nat, end: nat, op: CompareOp, v: Value)
    requires Sorted(s) && BucketOf(s, b, begin, end) && op != Eq
    ensures ErrorWithin(Estimate(b, op, v), Count(s[begin..end], op, v), if Straddles(b, op, v) then b.rowCount else 1)
  {
    if Straddles(b, op, v) {
      BucketInside(s, b, begin, end, op, v);
    } else {
      BucketExact(s, b, begin, end, op, v);
    }
  }

  /** At most one bucket straddles a bound. */
  lemma OneStraddles(h: Histogram, s: seq<Value>, op: CompareOp, v: Value, i: nat, j: nat)
    requires Sorted(s) && HistogramOf(h, s) && i < j < |h.buckets|
    requires Straddles(h.buckets[i], op, v)
    ensures !Straddles(h.buckets[j], op, v)
  {
    hide Bound, Members;
    BoundsOrdered(|s|, |h.buckets|, i + 1, j);
    assert BucketOf(s, h.buckets[i], Bound(|s|, |h.buckets|, i), Bound(|s|, |h.buckets|, i + 1));
    assert BucketOf(s, h.buckets[j], Bound(|s|, |h.buckets|, j), Bound(|s|, |h.buckets|, j + 1));
    assert LessEq(h.buckets[i].upper, h.buckets[j].lower);
    LessTransitive();
  }

  lemma {:induction false} BoundsOrdered(n: nat, count: nat, i: nat, j: nat)
    requires 0 < count <= n && i <= j <= count
    ensures Bound(n, count, i) <= Bound(n, count, j)
    decreases j - i
  {
    hide Bound;
    if i < j {
      BoundStep(n, count, i);
      BoundsOrdered(n, count, i + 1, j);
    }
  }

  lemma CountNext(h: Histogram, s: seq<Value>, op: CompareOp, v: Value, k: nat)
    requires HistogramOf(h, s) && k < |h.buckets|
    ensures BucketOf(s, h.buckets[k], Bound(|s|, |h.buckets|, k), Bound(|s|, |h.buckets|, k + 1))
    ensures Bound(|s|, |h.buckets|, k) <= Bound(|s|, |h.buckets|, k + 1) <= |s|
    ensures Count(s[..Bound(|s|, |h.buckets|, k + 1)], op, v) ==
      Count(s[..Bound(|s|, |h.buckets|, k)], op, v) +
        Count(s[Bound(|s|, |h.buckets|, k)..Bound(|s|, |h.buckets|, k + 1)], op, v)
  {
    hide Bound, Members, Count;
    var begin, end := Bound(|s|, |h.buckets|, k), Bound(|s|, |h.buckets|, k + 1);
    assert BucketOf(s, h.buckets[k], begin, end);
    assert s[..end] == s[..begin] + s[begin..end];
    CountConcat(s[..begin], s[begin..end], op, v);
  }

  method EstimateRows(h: Histogram, ghost s: seq<Value>, op: CompareOp, v: Value) returns (matching: nat)
    requires Sorted(s) && HistogramOf(h, s) && h.buckets != []
    ensures op == Eq ==> matching == 0
    ensures op != Eq ==> ErrorWithin(matching, Count(s, op, v), Ceiling(|s|, |h.buckets|))
  {
    hide HistogramOf, BucketOf, Bound, Straddles, Estimate, Sorted, Count, Ceiling;
    matching := 0;
    ghost var straddled := false;
    Ends(h, s, op, v);
    BucketsPartition(h, s);
    for k := 0 to |h.buckets|
      invariant Bound(|s|, |h.buckets|, k) <= |s|
      invariant op == Eq ==> matching == 0
      invariant op != Eq ==>
        ErrorWithin(matching, Count(s[..Bound(|s|, |h.buckets|, k)], op, v),
                    if straddled then Ceiling(|s|, |h.buckets|) else 1)
      invariant straddled ==> exists i :: 0 <= i < k && Straddles(h.buckets[i], op, v)
      invariant !straddled ==> forall i :: 0 <= i < k ==> !Straddles(h.buckets[i], op, v)
    {
      CountNext(h, s, op, v, k);
      assert op == Eq ==> Estimate(h.buckets[k], op, v) == 0 by { EqualityUnknown(h.buckets[k], v); }
      if op != Eq {
        BucketEstimate(s, h.buckets[k], Bound(|s|, |h.buckets|, k), Bound(|s|, |h.buckets|, k + 1), op, v);
      }
      if straddled {
        ghost var i :| 0 <= i < k && Straddles(h.buckets[i], op, v);
        OneStraddles(h, s, op, v, i, k);
      }
      straddled := straddled || Straddles(h.buckets[k], op, v);
      matching := matching + Estimate(h.buckets[k], op, v);
    }
  }

  lemma EqualityUnknown(b: Bucket, v: Value)
    ensures Estimate(b, Eq, v) == 0
  {
  }

  lemma Ends(h: Histogram, s: seq<Value>, op: CompareOp, v: Value)
    requires HistogramOf(h, s) && h.buckets != []
    ensures Bound(|s|, |h.buckets|, 0) == 0 && s[..0] == [] && Count([], op, v) == 0
    ensures Bound(|s|, |h.buckets|, |h.buckets|) == |s| && s[..|s|] == s
    ensures Ceiling(|s|, |h.buckets|) >= 1
  {
    BoundLast(|s|, |h.buckets|);
    BoundStep(|s|, |h.buckets|, 0);
  }

  /** The fraction of rows expected to satisfy the comparison.  For a range the
      number of rows it stands for is off by less than the largest bucket. */
  method HistogramRangeSelectivity(h: Histogram, ghost s: seq<Value>, op: CompareOp, v: Value) returns (r: real)
    requires Sorted(s) && HistogramOf(h, s)
    ensures 0.0 <= r <= 1.0 && (op == Eq || s == [] ==> r == 0.0)
    ensures op != Eq && s != [] ==>
      -(Ceiling(|s|, |h.buckets|) as real)
        < r * |s| as real - Count(s, op, v) as real < Ceiling(|s|, |h.buckets|) as real
  {
    hide Members, Bound, Sorted, Count, Ceiling, BucketOf;
    if h.rowCount == 0 || h.buckets == [] {
      return 0.0;
    }
    var matching := EstimateRows(h, s, op, v);
    CountAtMost(s, op, v);
    if h.rowCount < matching {
      matching := h.rowCount;
    }
    Fraction(matching, h.rowCount);
    r := Clamp(matching as real / h.rowCount as real);
  }

  lemma Fraction(m: nat, n: nat)
    requires m <= n && n > 0
    ensures 0.0 <= m as real / n as real <= 1.0 && (m as real / n as real) * n as real == m as real
  {
  }
}
