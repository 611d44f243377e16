/** Typed SQL values and the order that index keys, range predicates and
    histograms share.  Parameter slots and NaN are not part of the model. */
module Values {

  /** The order of the constructors is the order of the variant's alternatives. */
  datatype Value =
    | Null
    | Int(n: int)
    | Dbl(r: real)
    | Str(s: string)
    | Composite(parts: seq<Value>)

  type RowId = int
  type PageId = int
  type Row = seq<Value>

  datatype Option<+T> = None | Some(value: T)

  datatype CompareOp = Eq | Gt | Lt

  /** No element occurs twice. */
  predicate Distinct<T(==)>(s: seq<T>) {
    forall i, j :: 0 <= i < j < |s| ==> s[i] != s[j]
  }

  /** Any element of a set that a loop still has to visit. */
  method Pick<T>(rest: set<T>) returns (x: T)
    requires rest != {}
    ensures x in rest
  {
    x :| x in rest;
  }

  function Rank(v: Value): nat {
    match v
    case Null => 0
    case Int(_) => 1
    case Dbl(_) => 2
    case Str(_) => 3
    case Composite(_) => 5
  }

  /** `operator<` on values. */
  predicate Less(a: Value, b: Value)
    decreases a, 1
  {
    match (a, b)
    case (Int(x), Int(y)) => x < y
    case (Dbl(x), Dbl(y)) => x < y
    case (Str(x), Str(y)) => StringLess(x, y)
    case (Composite(x), Composite(y)) => PartsLess(x, y)
    case _ => Rank(a) < Rank(b)
  }

  /** Lexicographic order on the parts of two composite keys. */
  predicate PartsLess(x: seq<Value>, y: seq<Value>)
    decreases x, 0
  {
    if y == [] then false
    else if x == [] then true
    else if Less(x[0], y[0]) then true
    else if x[0] != y[0] then false
    else PartsLess(x[1..], y[1..])
  }

  predicate StringLess(x: string, y: string) {
    if y == [] then false
    else if x == [] then true
    else if x[0] < y[0] then true
    else if x[0] != y[0] then false
    else StringLess(x[1..], y[1..])
  }

  predicate LessEq(a: Value, b: Value) {
    a == b || Less(a, b)
  }

  /** The meaning of a comparison `left op right`. */
  predicate Compare(left: Value, op: CompareOp, right: Value) {
    match op
    case Eq => left == right
    case Gt => Less(right, left)
    case Lt => Less(left, right)
  }

  lemma {:induction false} StringLessOrder(x: string, y: string, z: string)
    ensures !StringLess(x, x)
    ensures StringLess(x, y) && StringLess(y, z) ==> StringLess(x, z)
    ensures StringLess(x, y) || x == y || StringLess(y, x)
  {
    if x != [] {
      StringLessOrder(x[1..], if y != [] then y[1..] else [], if z != [] then z[1..] else []);
      if y != [] && x[0] == y[0] && x[1..] == y[1..] {
        assert x == [x[0]] + x[1..] == y;
      }
    }
  }

  lemma {:induction false} PartsLessOrder(x: seq<Value>, y: seq<Value>, z: seq<Value>)
    ensures !PartsLess(x, x)
    ensures PartsLess(x, y) && PartsLess(y, z) ==> PartsLess(x, z)
    ensures PartsLess(x, y) || x == y || PartsLess(y, x)
    decreases x, 0
  {
    if x != [] && y != [] {
      LessOrder(x[0], y[0], if z != [] then z[0] else Null);
      PartsLessOrder(x[1..], y[1..], if z != [] then z[1..] else []);
      if x[0] == y[0] && x[1..] == y[1..] {
        assert x == [x[0]] + x[1..] == y;
      }
    } else if x != [] {
      LessOrder(x[0], x[0], Null);
      PartsLessOrder(x[1..], [], []);
    }
  }

  /** `operator<` is a strict total order that agrees with `operator==`. */
  lemma {:induction false} LessOrder(a: Value, b: Value, c: Value)
    ensures !Less(a, a)
    ensures Less(a, b) && Less(b, c) ==> Less(a, c)
    ensures Less(a, b) || a == b || Less(b, a)
    decreases a, 1
  {
    match a {
      case Str(s) =>
        StringLessOrder(s, if b.Str? then b.s else [], if c.Str? then c.s else []);
      case Composite(p) =>
        PartsLessOrder(p, if b.Composite? then b.parts else [], if c.Composite? then c.parts else []);
      case _ =>
    }
  }

  lemma LessTransitive()
    ensures forall a, b, c {:trigger Less(a, b), Less(b, c)} :: Less(a, b) && Less(b, c) ==> Less(a, c)
    ensures forall a {:trigger Less(a, a)} :: !Less(a, a)
    ensures forall a, b {:trigger Less(a, b)} :: Less(a, b) || a == b || Less(b, a)
  {
    forall a, b, c | Less(a, b) && Less(b, c) ensures Less(a, c) { LessOrder(a, b, c); }
    forall a ensures !Less(a, a) { LessOrder(a, a, a); }
    forall a, b ensures Less(a, b) || a == b || Less(b, a) { LessOrder(a, b, a); }
  }

  // ----- What the order is, kind by kind ---------------------------------------------

  /** The first `k` elements are the same. */
  ghost predicate SameUpTo<T>(x: seq<T>, y: seq<T>, k: int) {
    0 <= k <= |x| && k <= |y| && forall i :: 0 <= i < k ==> x[i] == y[i]
  }

  /** Texts compare at the first place where they differ; a proper prefix is smaller. */
  ghost predicate TextBefore(x: string, y: string) {
    exists k :: SameUpTo(x, y, k) && k < |y| && (k < |x| ==> x[k] < y[k])
  }

  /** NULL comes first, then integers, doubles, texts and composite keys; within a kind
      numbers compare as numbers, and composite keys part by part. */
  ghost predicate ComesBefore(a: Value, b: Value)
    decreases a
  {
    match b
    case Null => false
    case Int(y) => a.Null? || (a.Int? && a.n < y)
    case Dbl(y) => a.Null? || a.Int? || (a.Dbl? && a.r < y)
    case Str(y) => a.Null? || a.Int? || a.Dbl? || (a.Str? && TextBefore(a.s, y))
    case Composite(y) =>
      a.Composite? ==>
        exists k :: SameUpTo(a.parts, y, k) && k < |y| && (k < |a.parts| ==> ComesBefore(a.parts[k], y[k]))
  }

  lemma {:induction false} TextOrder(x: string, y: string)
    ensures StringLess(x, y) <==> TextBefore(x, y)
  {
    if x == [] || y == [] {
      assert y != [] ==> SameUpTo(x, y, 0);
    } else if x[0] != y[0] {
      assert SameUpTo(x, y, 0);
      assert forall k :: SameUpTo(x, y, k) ==> k == 0;
    } else {
      TextOrder(x[1..], y[1..]);
      if k :| SameUpTo(x[1..], y[1..], k) && k < |y[1..]| && (k < |x[1..]| ==> x[1..][k] < y[1..][k]) {
        assert SameUpTo(x, y, k + 1);
      }
      if k :| SameUpTo(x, y, k) && k < |y| && (k < |x| ==> x[k] < y[k]) {
        assert SameUpTo(x[1..], y[1..], k - 1);
      }
    }
  }

  lemma {:induction false} PartsOrder(x: seq<Value>, y: seq<Value>)
    ensures PartsLess(x, y) <==>
      exists k :: SameUpTo(x, y, k) && k < |y| && (k < |x| ==> ComesBefore(x[k], y[k]))
    decreases x, 0
  {
    if x == [] || y == [] {
      assert y != [] ==> SameUpTo(x, y, 0);
    } else if x[0] != y[0] {
      OrderIs(x[0], y[0]);
      assert SameUpTo(x, y, 0);
      assert forall k :: SameUpTo(x, y, k) ==> k == 0;
    } else {
      LessOrder(x[0], y[0], x[0]);
      OrderIs(x[0], y[0]);
      PartsOrder(x[1..], y[1..]);
      if k :| SameUpTo(x[1..], y[1..], k) && k < |y[1..]| && (k < |x[1..]| ==> ComesBefore(x[1..][k], y[1..][k])) {
        assert SameUpTo(x, y, k + 1);
      }
      if k :| SameUpTo(x, y, k) && k < |y| && (k < |x| ==> ComesBefore(x[k], y[k])) {
        assert SameUpTo(x[1..], y[1..], k - 1);
      }
    }
  }

  /** `operator<` is that order. */
  lemma {:induction false} OrderIs(a: Value, b: Value)
    ensures Less(a, b) <==> ComesBefore(a, b)
    decreases a, 1
  {
    match (a, b) {
      case (Str(x), Str(y)) => TextOrder(x, y);
      case (Composite(x), Composite(y)) => PartsOrder(x, y);
      case _ =>
    }
  }

  /** The meaning of a comparison, by that order. */
  lemma ComparisonIs(left: Value, op: CompareOp, right: Value)
    ensures Compare(left, op, right) <==>
      match op
      case Eq => left == right
      case Gt => ComesBefore(right, left)
      case Lt => ComesBefore(left, right)
  {
    OrderIs(left, right);
    OrderIs(right, left);
  }
}
