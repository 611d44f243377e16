/** Reading and writing fixed-width fields, counted lists and byte strings. */
module ByteStreams {
  import opened Arithmetic

  /** Bytes are numbers; a writer only produces 0 to 255. */
  type Bytes = seq<int>

  const TWO64 := 0x1_0000_0000_0000_0000

  function Pow256(k: nat): (p: int)
    ensures p >= 1
  {
    if k == 0 then 1 else 256 * Pow256(k - 1)
  }

  /** The k low-order bytes of a number, least significant first. */
  function LE(n: int, k: nat): (b: Bytes)
    ensures |b| == k
    decreases k
  {
    if k == 0 then [] else [n % 256] + LE(n / 256, k - 1)
  }

  function FromLE(b: Bytes): int {
    if b == [] then 0 else b[0] + 256 * FromLE(b[1..])
  }

  lemma DivideTwice(n: int, p: int)
    requires p >= 1
    ensures n / 256 / p == n / (256 * p)
  {
    var a := n / 256;
    var q, r := a / p, a % p;
    assert a == q * p + r && 0 <= r < p;
    assert n == 256 * a + n % 256;
    assert n == q * (256 * p) + (256 * r + n % 256);
    assert 0 <= 256 * r + n % 256 < 256 * p;
    DivUnique(n, 256 * p, q, 256 * r + n % 256);
  }

  /** The bytes of a field, the least significant first. */
  lemma {:induction false} LeastFirst(n: int, k: nat, i: nat)
    requires i < k
    ensures LE(n, k)[i] == n / Pow256(i) % 256
    decreases k
  {
    if i > 0 {
      LeastFirst(n / 256, k - 1, i - 1);
      DivideTwice(n, Pow256(i - 1));
    }
  }

  lemma {:induction false} FixedRoundTrip(n: int, k: nat)
    requires 0 <= n < Pow256(k)
    ensures FromLE(LE(n, k)) == n
    decreases k
  {
    if k > 0 {
      FixedRoundTrip(n / 256, k - 1);
      assert LE(n, k)[1..] == LE(n / 256, k - 1);
    }
  }

  lemma Widths()
    ensures Pow256(1) == 256 && Pow256(4) == 0x1_0000_0000 && Pow256(8) == TWO64
  {
    assert Pow256(2) == 65536;
    assert Pow256(4) == 256 * (256 * Pow256(2));
    assert Pow256(6) == 256 * (256 * Pow256(4));
  }

  // ----- Readers -----------------------------------------------------------------------

  /** A value and the bytes after it, or a truncated or malformed input. */
  datatype Parsed<+T> = Bad | Got(value: T, rest: Bytes)

  type Reader<T> = Bytes -> Parsed<T>

  /** The reader takes exactly this encoding off the front of any input, and
      rejects every input that ends inside it. */
  ghost predicate Reads<T(!new)>(read: Reader<T>, enc: Bytes, v: T) {
    && (forall rest: Bytes :: read(enc + rest) == Got(v, rest))
    && (forall cut: Bytes :: cut <= enc && cut != enc ==> read(cut) == Bad)
  }

  function Pure<T>(v: T): Reader<T> {
    b => Got(v, b)
  }

  function Reject<T>(): Reader<T> {
    b => Bad
  }

  /** k raw bytes. */
  function Raw(k: int): Reader<Bytes> {
    b => if 0 <= k <= |b| then Got(b[..k], b[k..]) else Bad
  }

  /** An unsigned field of k bytes. */
  function Fixed(k: nat): Reader<int> {
    b => if k <= |b| then Got(FromLE(b[..k]), b[k..]) else Bad
  }

  function Bind<A, B>(read: Reader<A>, next: A -> Reader<B>): Reader<B> {
    b => match read(b)
         case Bad => Bad
         case Got(v, rest) => next(v)(rest)
  }

  function Many<T>(read: Reader<T>, n: int): Reader<seq<T>>
    decreases n
  {
    if n <= 0 then Pure([])
    else Bind(read, (x: T) => Bind(Many(read, n - 1), (xs: seq<T>) => Pure([x] + xs)))
  }

  function Pair<A, B>(first: Reader<A>, second: Reader<B>): Reader<(A, B)> {
    b => match first(b)
         case Bad => Bad
         case Got(x, rest) =>
           match second(rest)
           case Bad => Bad
           case Got(y, end) => Got((x, y), end)
  }

  function Map<A, B>(read: Reader<A>, make: A -> B): Reader<B> {
    b => match read(b)
         case Bad => Bad
         case Got(v, rest) => Got(make(v), rest)
  }

  /** A count followed by that many items. */
  function Counted<T>(read: Reader<T>): Reader<seq<T>> {
    Bind(Fixed(8), n => Many(read, n))
  }

  /** A length followed by that many bytes. */
  function Text(): Reader<Bytes> {
    Bind(Fixed(8), n => Raw(n))
  }

  // ----- What the readers invert -----------------------------------------------------------

  lemma PureReads<T(!new)>(v: T)
    ensures Reads(Pure(v), [], v)
  {
    forall rest: Bytes ensures Pure(v)([] + rest) == Got(v, rest) {
      assert [] + rest == rest;
    }
  }

  lemma RawReads(bytes: Bytes)
    ensures Reads(Raw(|bytes|), bytes, bytes)
  {
  }

  lemma FixedReads(n: int, k: nat)
    requires 0 <= n < Pow256(k)
    ensures Reads(Fixed(k), LE(n, k), n)
  {
    FixedRoundTrip(n, k);
    forall rest: Bytes ensures Fixed(k)(LE(n, k) + rest) == Got(n, rest) {
      assert (LE(n, k) + rest)[..k] == LE(n, k);
    }
  }

  lemma BindReads<A(!new), B(!new)>(read: Reader<A>, next: A -> Reader<B>, ea: Bytes, a: A, eb: Bytes, b: B)
    requires Reads(read, ea, a) && Reads(next(a), eb, b)
    ensures Reads(Bind(read, next), ea + eb, b)
  {
    var all := Bind(read, next);
    forall rest: Bytes ensures all((ea + eb) + rest) == Got(b, rest) {
      assert (ea + eb) + rest == ea + (eb + rest);
      assert read(ea + (eb + rest)) == Got(a, eb + rest);
    }
    forall cut: Bytes | cut <= ea + eb && cut != ea + eb ensures all(cut) == Bad {
      if |cut| < |ea| {
        assert cut <= ea && cut != ea;
      } else {
        var tail := cut[|ea|..];
        assert cut == ea + tail;
        assert tail <= eb && tail != eb;
        assert read(ea + tail) == Got(a, tail);
      }
    }
  }

  lemma PairReads<A(!new), B(!new)>(first: Reader<A>, second: Reader<B>, ea: Bytes, a: A, eb: Bytes, b: B)
    requires Reads(first, ea, a) && Reads(second, eb, b)
    ensures Reads(Pair(first, second), ea + eb, (a, b))
  {
    var all := Pair(first, second);
    forall rest: Bytes ensures all((ea + eb) + rest) == Got((a, b), rest) {
      assert (ea + eb) + rest == ea + (eb + rest);
      assert first(ea + (eb + rest)) == Got(a, eb + rest);
    }
    forall cut: Bytes | cut <= ea + eb && cut != ea + eb ensures all(cut) == Bad {
      if |cut| < |ea| {
        assert cut <= ea && cut != ea;
      } else {
        var tail := cut[|ea|..];
        assert cut == ea + tail;
        assert tail <= eb && tail != eb;
        assert first(ea + tail) == Got(a, tail);
      }
    }
  }

  lemma MapReads<A(!new), B(!new)>(read: Reader<A>, make: A -> B, enc: Bytes, a: A)
    requires Reads(read, enc, a)
    ensures Reads(Map(read, make), enc, make(a))
  {
  }

  lemma SameReads<T(!new)>(f: Reader<T>, g: Reader<T>, enc: Bytes, v: T)
    requires Reads(f, enc, v) && forall b: Bytes :: f(b) == g(b)
    ensures Reads(g, enc, v)
  {
  }

  function Concat(parts: seq<Bytes>): Bytes {
    if parts == [] then [] else parts[0] + Concat(parts[1..])
  }

  lemma {:induction false} ManyReads<T(!new)>(read: Reader<T>, encs: seq<Bytes>, vs: seq<T>)
    requires |encs| == |vs| && forall i :: 0 <= i < |vs| ==> Reads(read, encs[i], vs[i])
    ensures Reads(Many(read, |vs|), Concat(encs), vs)
    decreases |vs|
  {
    hide Reads;
    if vs == [] {
      PureReads<seq<T>>([]);
    } else {
      var x, xs := vs[0], vs[1..];
      ManyReads(read, encs[1..], xs);
      PureReads([x] + xs);
      var last := (ys: seq<T>) => Pure([x] + ys);
      BindReads(Many(read, |xs|), last, Concat(encs[1..]), xs, [], [x] + xs);
      assert Concat(encs[1..]) + [] == Concat(encs[1..]);
      var next := (y: T) => Bind(Many(read, |vs| - 1), (ys: seq<T>) => Pure([y] + ys));
      assert Reads(next(x), Concat(encs[1..]), [x] + xs);
      BindReads(read, next, encs[0], x, Concat(encs[1..]), [x] + xs);
      assert [x] + xs == vs;
    }
  }

  lemma CountedReads<T(!new)>(read: Reader<T>, encs: seq<Bytes>, vs: seq<T>)
    requires |encs| == |vs| < TWO64 && forall i :: 0 <= i < |vs| ==> Reads(read, encs[i], vs[i])
    ensures Reads(Counted(read), LE(|vs|, 8) + Concat(encs), vs)
  {
    hide LE, Pow256, FromLE;
    Widths();
    FixedReads(|vs|, 8);
    ManyReads(read, encs, vs);
    BindReads(Fixed(8), n => Many(read, n), LE(|vs|, 8), |vs|, Concat(encs), vs);
  }

  lemma TextReads(bytes: Bytes)
    requires |bytes| < TWO64
    ensures Reads(Text(), LE(|bytes|, 8) + bytes, bytes)
  {
    hide LE, Pow256, FromLE;
    Widths();
    FixedReads(|bytes|, 8);
    RawReads(bytes);
    BindReads(Fixed(8), n => Raw(n), LE(|bytes|, 8), |bytes|, bytes, bytes);
  }

  /** A signed field of eight bytes, in two's complement. */
  function Signed(u: int): int {
    if u >= TWO64 / 2 then u - TWO64 else u
  }

  lemma {:induction false} WrapAround(n: int, k: nat)
    ensures LE(n, k) == LE(n + Pow256(k), k)
    decreases k
  {
    if k > 0 {
      WrapAround(n / 256, k - 1);
      assert n + Pow256(k) == n + 256 * Pow256(k - 1);
      assert (n + 256 * Pow256(k - 1)) / 256 == n / 256 + Pow256(k - 1);
      assert (n + 256 * Pow256(k - 1)) % 256 == n % 256;
    }
  }
}
