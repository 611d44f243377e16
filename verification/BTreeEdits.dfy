/** How the edits of one or two leaves change an ordered, linked fringe. */
module BTreeEdits {
  import opened Values
  import opened BTreeShape
  import opened BTreeOrder

  /** The separators passed on the way down bracket the key. */
  ghost predicate Fits(c: Ctx, key: Value) {
    c.In? ==>
      && (c.lkeys != [] ==> LessEq(c.lkeys[|c.lkeys| - 1], key))
      && (c.rkeys != [] ==> Less(key, c.rkeys[0]))
      && Fits(c.outer, key)
  }

  lemma {:induction false} FlatLEnd(kids: seq<Tree>, keys: seq<Value>)
    requires |kids| == |keys| && keys != []
    ensures FlatL(kids, keys) != []
    ensures FlatL(kids, keys)[|FlatL(kids, keys)| - 1] == SepTok(keys[|keys| - 1])
    decreases |keys|
  {
    if |keys| > 1 { FlatLEnd(kids[1..], keys[1..]); }
  }

  lemma BelowLast(a: seq<Token>, s: Value, key: Value)
    requires Ordered(a) && a != [] && a[|a| - 1] == SepTok(s) && LessEq(s, key)
    ensures Brackets(a, key, [])
  {
    forall i | 0 <= i < |a|
      ensures if a[i].LeafTok? then forall k :: k in a[i].keys ==> Less(k, key) else LessEq(a[i].sep, key)
    {
      if i < |a| - 1 {
        assert Precedes(a[i], a[|a| - 1]);
        if a[i].LeafTok? {
          forall k | k in a[i].keys ensures Less(k, key) { LessOrder(k, s, key); }
        } else {
          LessOrder(a[i].sep, s, key);
        }
      }
    }
  }

  lemma AboveFirst(b: seq<Token>, s: Value, key: Value)
    requires Ordered(b) && b != [] && b[0] == SepTok(s) && Less(key, s)
    ensures Brackets([], key, b)
  {
    forall i | 0 <= i < |b|
      ensures if b[i].LeafTok? then forall k :: k in b[i].keys ==> Less(key, k) else Less(key, b[i].sep)
    {
      if i > 0 {
        assert Precedes(b[0], b[i]);
        if b[i].LeafTok? {
          forall k | k in b[i].keys ensures Less(key, k) { LessOrder(key, s, k); }
        } else {
          LessOrder(key, s, b[i].sep);
        }
      }
    }
  }

  lemma {:induction false} PreBelow(c: Ctx, h: nat, key: Value)
    requires CtxShaped(c, h) && Fits(c, key) && Ordered(Pre(c))
    ensures Brackets(Pre(c), key, [])
    decreases c
  {
    if c.In? {
      if c.lkeys == [] {
        assert Pre(c) == Pre(c.outer);
        PreBelow(c.outer, h + 1, key);
      } else {
        FlatLEnd(c.left, c.lkeys);
        BelowLast(Pre(c), c.lkeys[|c.lkeys| - 1], key);
      }
    }
  }

  lemma {:induction false} PostAbove(c: Ctx, h: nat, key: Value)
    requires CtxShaped(c, h) && Fits(c, key) && Ordered(Post(c))
    ensures Brackets([], key, Post(c))
    decreases c
  {
    if c.In? {
      if c.rkeys == [] {
        assert Post(c) == Post(c.outer);
        PostAbove(c.outer, h + 1, key);
      } else {
        AboveFirst(Post(c), c.rkeys[0], key);
      }
    }
  }

  /** All keys outside the leaf on the search path lie on the expected side of the key. */
  lemma FitsBrackets(c: Ctx, h: nat, m: seq<Token>, key: Value)
    requires CtxShaped(c, h) && Fits(c, key) && Ordered(Pre(c) + m + Post(c))
    ensures Brackets(Pre(c), key, Post(c))
  {
    OrderedParts(Pre(c), m, Post(c));
    PreBelow(c, h, key);
    PostAbove(c, h, key);
  }

  // ------------------------------------------------------------- order edits

  ghost predicate Subkeys(y: Token, x: Token) {
    y.LeafTok? && x.LeafTok? && forall k :: k in y.keys ==> k in x.keys
  }

  /** A leaf with fewer keys, or the same keys and other postings, fits where the old one did. */
  lemma OrderedShrink(a: seq<Token>, x: Token, y: Token, b: seq<Token>)
    requires Ordered(a + [x] + b) && Subkeys(y, x) && GoodToken(y)
    ensures Ordered(a + [y] + b)
  {
    OrderedParts(a, [x], b);
    forall i | 0 <= i < |a| ensures Precedes(a[i], y) { assert Precedes(a[i], [x][0]); }
    forall i | 0 <= i < |b| ensures Precedes(y, b[i]) { assert Precedes([x][0], b[i]); }
    OrderedJoin(a, [y], b);
  }

  lemma OrderedGrow(a: seq<Token>, x: Token, y: Token, key: Value, b: seq<Token>)
    requires Ordered(a + [x] + b) && Brackets(a, key, b) && x.LeafTok? && y.LeafTok? && GoodToken(y)
    requires forall k :: k in y.keys ==> k in x.keys || k == key
    ensures Ordered(a + [y] + b)
  {
    OrderedParts(a, [x], b);
    forall i | 0 <= i < |a| ensures Precedes(a[i], y) { assert Precedes(a[i], [x][0]); }
    forall i | 0 <= i < |b| ensures Precedes(y, b[i]) { assert Precedes([x][0], b[i]); }
    OrderedJoin(a, [y], b);
  }

  lemma SortedInsert(keys: seq<Value>, i: nat, key: Value)
    requires i <= |keys| && SortedKeys(keys)
    requires forall j :: 0 <= j < i ==> Less(keys[j], key)
    requires forall j :: i <= j < |keys| ==> Less(key, keys[j])
    ensures SortedKeys(keys[..i] + [key] + keys[i..])
  {
  }

  lemma SortedRemove(keys: seq<Value>, i: nat)
    requires i < |keys| && SortedKeys(keys)
    ensures SortedKeys(keys[..i] + keys[i + 1..])
  {
  }

  /** Two neighbouring leaves hold the keys of one leaf, cut in two. */
  ghost predicate Halves(x: Token, l: Token, s: Value, r: Token) {
    && x.LeafTok? && l.LeafTok? && r.LeafTok?
    && x.keys == l.keys + r.keys && x.rowIds == l.rowIds + r.rowIds
    && |l.rowIds| == |l.keys| && |r.rowIds| == |r.keys|
    && x.id == l.id && l.nextLeaf == Some(r.id) && x.nextLeaf == r.nextLeaf
  }

  lemma EntriesHalves(x: Token, l: Token, s: Value, r: Token)
    requires Halves(x, l, s, r)
    ensures Entries([l, SepTok(s), r]) == Entries([x])
  {
    assert [l, SepTok(s), r] == [l] + ([SepTok(s)] + [r]);
    EntriesConcat([l], [SepTok(s)] + [r]);
    EntriesConcat([SepTok(s)], [r]);
    assert Entries([SepTok(s)]) == [];
    assert Entries([l]) == LeafEntries(l.keys, l.rowIds) && Entries([r]) == LeafEntries(r.keys, r.rowIds);
  }

  lemma OrderedSplit(a: seq<Token>, x: Token, l: Token, s: Value, r: Token, b: seq<Token>)
    requires Ordered(a + [x] + b) && Halves(x, l, s, r)
    requires l.keys != [] && r.keys != [] && s == r.keys[0]
    ensures Ordered(a + [l, SepTok(s), r] + b)
  {
    OrderedParts(a, [x], b);
    var m := [l, SepTok(s), r];
    assert GoodToken([x][0]);
    SplitInside(x, l, s, r);
    assert x.keys[0] in x.keys && s in x.keys && Less(x.keys[0], s) by {
      assert x.keys[|l.keys|] == s;
    }
    forall i, j | 0 <= i < |a| && 0 <= j < |m| ensures Precedes(a[i], m[j]) {
      assert Precedes(a[i], [x][0]);
      if a[i].SepTok? { LessOrder(a[i].sep, x.keys[0], s); }
    }
    forall i, j | 0 <= i < |m| && 0 <= j < |b| ensures Precedes(m[i], b[j]) {
      assert Precedes([x][0], b[j]);
    }
    OrderedJoin(a, m, b);
  }

  lemma SortedHalves(lk: seq<Value>, rk: seq<Value>)
    requires SortedKeys(lk + rk)
    ensures SortedKeys(lk) && SortedKeys(rk)
  {
    var keys := lk + rk;
    forall i, j | 0 <= i < j < |lk| ensures Less(lk[i], lk[j]) {
      assert keys[i] == lk[i] && keys[j] == lk[j];
    }
    forall i, j | 0 <= i < j < |rk| ensures Less(rk[i], rk[j]) {
      assert keys[|lk| + i] == rk[i] && keys[|lk| + j] == rk[j];
    }
  }

  lemma HalvesGood(x: Token, l: Token, s: Value, r: Token)
    requires GoodToken(x) && Halves(x, l, s, r)
    ensures GoodToken(l) && GoodToken(r)
  {
    SortedHalves(l.keys, r.keys);
  }

  lemma HalvesApart(keys: seq<Value>, lk: seq<Value>, rk: seq<Value>, k: Value, k': Value)
    requires SortedKeys(keys) && keys == lk + rk && k in lk && k' in rk
    ensures Less(k, k')
  {
    var i :| 0 <= i < |lk| && lk[i] == k;
    var j :| 0 <= j < |rk| && rk[j] == k';
    assert keys[i] == k && keys[|lk| + j] == k';
  }

  lemma FirstIsLeast(keys: seq<Value>, k: Value)
    requires SortedKeys(keys) && k in keys
    ensures LessEq(keys[0], k)
  {
    var j :| 0 <= j < |keys| && keys[j] == k;
    if j > 0 { assert Less(keys[0], keys[j]); }
  }

  lemma OrderedTriple(l: Token, m: Token, r: Token)
    requires GoodToken(l) && GoodToken(m) && GoodToken(r)
    requires Precedes(l, m) && Precedes(m, r) && Precedes(l, r)
    ensures Ordered([l, m, r])
  {
  }

  lemma SplitInside(x: Token, l: Token, s: Value, r: Token)
    requires GoodToken(x) && Halves(x, l, s, r)
    requires l.keys != [] && r.keys != [] && s == r.keys[0]
    ensures Ordered([l, SepTok(s), r])
  {
    HalvesGood(x, l, s, r);
    forall k, k' | k in l.keys && k' in r.keys ensures Less(k, k') {
      HalvesApart(x.keys, l.keys, r.keys, k, k');
    }
    forall k | k in r.keys ensures LessEq(s, k) { FirstIsLeast(r.keys, k); }
    assert s in r.keys;
    OrderedTriple(l, SepTok(s), r);
  }

  lemma OrderedMerge(a: seq<Token>, l: Token, s: Value, r: Token, x: Token, b: seq<Token>)
    requires Ordered(a + [l, SepTok(s), r] + b) && Halves(x, l, s, r)
    ensures Ordered(a + [x] + b)
  {
    var m := [l, SepTok(s), r];
    OrderedParts(a, m, b);
    assert m[0] == l && m[2] == r;
    assert Precedes(m[0], m[2]) && GoodToken(m[0]) && GoodToken(m[2]);
    assert GoodToken(x) by {
      assert forall i :: 0 <= i < |x.keys| ==>
        x.keys[i] == (if i < |l.keys| then l.keys[i] else r.keys[i - |l.keys|]);
    }
    assert forall k :: k in x.keys ==> k in l.keys || k in r.keys;
    forall i | 0 <= i < |a| ensures Precedes(a[i], x) {
      assert Precedes(a[i], m[0]) && Precedes(a[i], m[2]);
    }
    forall i | 0 <= i < |b| ensures Precedes(x, b[i]) {
      assert Precedes(m[0], b[i]) && Precedes(m[2], b[i]);
    }
    OrderedJoin(a, [x], b);
  }

  /** Raising a separator to the first key of the leaf behind it keeps the order. */
  lemma OrderedRaise(a: seq<Token>, s: Value, x: Token, b: seq<Token>)
    requires Ordered(a + [SepTok(s), x] + b) && x.LeafTok? && x.keys != []
    ensures Ordered(a + [SepTok(x.keys[0]), x] + b)
  {
    var m, m' := [SepTok(s), x], [SepTok(x.keys[0]), x];
    OrderedParts(a, m, b);
    assert Precedes(m[0], m[1]) && GoodToken(m[1]);
    assert x.keys[0] in x.keys && LessEq(s, x.keys[0]);
    forall i, j | 0 <= i < |a| && 0 <= j < |m'| ensures Precedes(a[i], m'[j]) {
      assert Precedes(a[i], m[0]) && Precedes(a[i], m[1]);
      if a[i].SepTok? { LessOrder(a[i].sep, s, x.keys[0]); }
    }
    forall i, j | 0 <= i < |m'| && 0 <= j < |b| ensures Precedes(m'[i], b[j]) {
      assert Precedes(m[1], b[j]);
    }
    OrderedJoin(a, m', b);
  }
}
