/** What the fringe of a B+ tree must satisfy, and how the leaf-level edits of
    insertion and deletion change it. */
module BTreeOrder {
  import opened Values
  import opened BTreeShape

  type Entry = (Value, seq<RowId>)

  ghost predicate SortedKeys(keys: seq<Value>) {
    forall i, j :: 0 <= i < j < |keys| ==> Less(keys[i], keys[j])
  }

  /** Keys left of a separator are smaller, keys right of it are not. */
  ghost predicate Precedes(a: Token, b: Token) {
    match (a, b)
    case (LeafTok(_, ka, _, _), LeafTok(_, kb, _, _)) => forall k, l :: k in ka && l in kb ==> Less(k, l)
    case (LeafTok(_, ka, _, _), SepTok(s)) => forall k :: k in ka ==> Less(k, s)
    case (SepTok(s), LeafTok(_, kb, _, _)) => forall l :: l in kb ==> LessEq(s, l)
    case (SepTok(s), SepTok(s')) => Less(s, s')
  }

  /** A leaf's keys are sorted and each carries at least one row id. */
  ghost predicate GoodToken(t: Token) {
    t.LeafTok? ==>
      SortedKeys(t.keys) && |t.rowIds| == |t.keys| && [] !in t.rowIds
  }

  ghost predicate Cross(a: seq<Token>, b: seq<Token>) {
    forall i, j :: 0 <= i < |a| && 0 <= j < |b| ==> Precedes(a[i], b[j])
  }

  ghost predicate Ordered(ts: seq<Token>) {
    && (forall i :: 0 <= i < |ts| ==> GoodToken(ts[i]))
    && (forall i, j :: 0 <= i < j < |ts| ==> Precedes(ts[i], ts[j]))
  }

  ghost predicate Alternates(ts: seq<Token>) {
    && ts != [] && ts[0].LeafTok? && ts[|ts| - 1].LeafTok?
    && forall i, j :: 0 <= i < |ts| && j == i + 1 < |ts| ==> ts[i].LeafTok? != ts[j].LeafTok?
  }

  /** Following `nextLeaf` visits the leaves from left to right. */
  ghost predicate Linked(ts: seq<Token>) {
    && Alternates(ts)
    && (ts[|ts| - 1].nextLeaf == None)
    && forall i, j :: 0 <= i < |ts| && j == i + 2 < |ts| && ts[i].LeafTok? ==>
         ts[j].LeafTok? && ts[i].nextLeaf == Some(ts[j].id)
  }

  ghost function LeafEntries(keys: seq<Value>, rowIds: seq<seq<RowId>>): (e: seq<Entry>)
    requires |rowIds| == |keys|
    ensures |e| == |keys| && forall i :: 0 <= i < |e| ==> e[i] == (keys[i], rowIds[i])
  {
    seq(|keys|, i requires 0 <= i < |keys| => (keys[i], rowIds[i]))
  }

  /** The key/posting-list pairs of a fringe, from left to right. */
  ghost function Entries(ts: seq<Token>): seq<Entry> {
    if ts == [] then []
    else (if ts[0].LeafTok? && |ts[0].rowIds| == |ts[0].keys| then LeafEntries(ts[0].keys, ts[0].rowIds) else [])
         + Entries(ts[1..])
  }

  ghost function MapOf(e: seq<Entry>): map<Value, seq<RowId>> {
    if e == [] then map[] else map[e[0].0 := e[0].1] + MapOf(e[1..])
  }

  ghost predicate SortedEntries(e: seq<Entry>) {
    forall i, j :: 0 <= i < j < |e| ==> Less(e[i].0, e[j].0)
  }

  /** The row ids of all entries whose key satisfies `key op bound`, in key order. */
  ghost function RowsWhere(e: seq<Entry>, op: CompareOp, bound: Value): seq<RowId> {
    if e == [] then []
    else (if Compare(e[0].0, op, bound) then e[0].1 else []) + RowsWhere(e[1..], op, bound)
  }

  ghost predicate Brackets(a: seq<Token>, key: Value, b: seq<Token>) {
    && (forall i :: 0 <= i < |a| ==>
          if a[i].LeafTok? then forall k :: k in a[i].keys ==> Less(k, key) else LessEq(a[i].sep, key))
    && (forall i :: 0 <= i < |b| ==>
          if b[i].LeafTok? then forall k :: k in b[i].keys ==> Less(key, k) else Less(key, b[i].sep))
  }

  // ------------------------------------------------------------- list lemmas

  lemma {:induction false} EntriesConcat(a: seq<Token>, b: seq<Token>)
    ensures Entries(a + b) == Entries(a) + Entries(b)
    decreases |a|
  {
    if a == [] {
      assert a + b == b;
    } else {
      assert (a + b)[1..] == a[1..] + b;
      EntriesConcat(a[1..], b);
    }
  }

  lemma MapAssoc(x: map<Value, seq<RowId>>, y: map<Value, seq<RowId>>, z: map<Value, seq<RowId>>)
    ensures x + (y + z) == x + y + z
  {
  }

  lemma {:induction false} MapOfConcat(a: seq<Entry>, b: seq<Entry>)
    ensures MapOf(a + b) == MapOf(a) + MapOf(b)
    decreases |a|
  {
    if a == [] {
      assert a + b == b;
    } else {
      assert (a + b)[1..] == a[1..] + b;
      MapOfConcat(a[1..], b);
      MapAssoc(map[a[0].0 := a[0].1], MapOf(a[1..]), MapOf(b));
    }
  }

  lemma {:induction false} RowsWhereConcat(a: seq<Entry>, b: seq<Entry>, op: CompareOp, k: Value)
    ensures RowsWhere(a + b, op, k) == RowsWhere(a, op, k) + RowsWhere(b, op, k)
    decreases |a|
  {
    if a == [] {
      assert a + b == b;
    } else {
      assert (a + b)[1..] == a[1..] + b;
      RowsWhereConcat(a[1..], b, op, k);
    }
  }

  lemma {:induction false} RowsWhereNone(e: seq<Entry>, op: CompareOp, k: Value)
    requires forall i :: 0 <= i < |e| ==> !Compare(e[i].0, op, k)
    ensures RowsWhere(e, op, k) == []
    decreases |e|
  {
    if e != [] { RowsWhereNone(e[1..], op, k); }
  }

  lemma {:induction false} MapOfKeys(e: seq<Entry>, k: Value)
    ensures k in MapOf(e) <==> exists i :: 0 <= i < |e| && e[i].0 == k
    decreases |e|
  {
    if e != [] {
      MapOfKeys(e[1..], k);
      if i :| 0 <= i < |e| && e[i].0 == k {
        if i > 0 { assert e[1..][i - 1].0 == k; }
      }
      if k in MapOf(e) && k != e[0].0 {
        var j :| 0 <= j < |e[1..]| && e[1..][j].0 == k;
        assert e[j + 1].0 == k;
      }
    }
  }

  /** A sorted enumeration and the finite map it stands for answer lookups alike. */
  lemma {:induction false} SortedLookup(e: seq<Entry>, k: Value)
    requires SortedEntries(e)
    ensures RowsWhere(e, Eq, k) == if k in MapOf(e) then MapOf(e)[k] else []
    ensures |MapOf(e)| == |e|
    decreases |e|
  {
    if e != [] {
      SortedLookup(e[1..], k);
      LessOrder(e[0].0, e[0].0, e[0].0);
      MapOfKeys(e[1..], e[0].0);
      assert e[0].0 !in MapOf(e[1..]);
      assert MapOf(e).Keys == {e[0].0} + MapOf(e[1..]).Keys;
      assert |MapOf(e).Keys| == |MapOf(e)|;
      assert |MapOf(e[1..]).Keys| == |MapOf(e[1..])|;
      if k == e[0].0 {
        RowsWhereNone(e[1..], Eq, k);
      }
    }
  }

  /** The rows of a range lookup are those filed under a key in the range. */
  lemma {:induction false} FiledUnder(e: seq<Entry>, op: CompareOp, bound: Value, row: RowId)
    requires SortedEntries(e)
    ensures row in RowsWhere(e, op, bound) <==>
      exists k :: k in MapOf(e) && row in MapOf(e)[k] && Compare(k, op, bound)
    decreases |e|
  {
    hide Compare;
    if e != [] {
      FiledUnder(e[1..], op, bound, row);
      SortedLookup(e, e[0].0);
      LessOrder(e[0].0, e[0].0, e[0].0);
      MapOfKeys(e[1..], e[0].0);
      assert e[0].0 !in MapOf(e[1..]);
      assert e[0].0 in MapOf(e) && MapOf(e)[e[0].0] == e[0].1;
      assert forall k :: k in MapOf(e[1..]) ==> k in MapOf(e) && MapOf(e)[k] == MapOf(e[1..])[k];
    }
  }

  /** The rows below a bound, and above it, by what the order of keys is. */
  lemma RangeFiles(e: seq<Entry>, bound: Value, row: RowId)
    requires SortedEntries(e)
    ensures row in RowsWhere(e, Lt, bound) <==> FiledBelow(MapOf(e), bound, row)
    ensures row in RowsWhere(e, Gt, bound) <==> FiledAbove(MapOf(e), bound, row)
  {
    hide SortedEntries, MapOf, RowsWhere, Compare, ComesBefore;
    FiledUnder(e, Lt, bound, row);
    FiledUnder(e, Gt, bound, row);
    forall k ensures Compare(k, Lt, bound) <==> ComesBefore(k, bound) { ComparisonIs(k, Lt, bound); }
    forall k ensures Compare(k, Gt, bound) <==> ComesBefore(bound, k) { ComparisonIs(k, Gt, bound); }
  }

  /** The row is filed under a key that precedes the bound. */
  ghost predicate FiledBelow(m: map<Value, seq<RowId>>, bound: Value, row: RowId) {
    exists k :: k in m && row in m[k] && ComesBefore(k, bound)
  }

  ghost predicate FiledAbove(m: map<Value, seq<RowId>>, bound: Value, row: RowId) {
    exists k :: k in m && row in m[k] && ComesBefore(bound, k)
  }

  lemma MapOfEmpty(e: seq<Entry>)
    ensures MapOf(e) == map[] <==> e == []
  {
    if e != [] { assert e[0].0 in MapOf(e); }
  }

  /** A finite map has only one sorted enumeration. */
  lemma {:induction false} SortedEnumerationUnique(e: seq<Entry>, f: seq<Entry>)
    requires SortedEntries(e) && SortedEntries(f) && MapOf(e) == MapOf(f)
    ensures e == f
    decreases |e|
  {
    MapOfEmpty(e);
    MapOfEmpty(f);
    if e != [] {
      MapOfKeys(e, e[0].0); MapOfKeys(f, e[0].0);
      MapOfKeys(e, f[0].0); MapOfKeys(f, f[0].0);
      var i :| 0 <= i < |f| && f[i].0 == e[0].0;
      var j :| 0 <= j < |e| && e[j].0 == f[0].0;
      LessOrder(e[0].0, f[0].0, e[0].0);
      assert i == 0 && j == 0;
      HeadRest(e);
      HeadRest(f);
      SortedEnumerationUnique(e[1..], f[1..]);
      assert e == [e[0]] + e[1..] && f == [f[0]] + f[1..];
    }
  }

  lemma HeadRest(e: seq<Entry>)
    requires e != [] && SortedEntries(e)
    ensures e[0].0 in MapOf(e) && MapOf(e)[e[0].0] == e[0].1
    ensures MapOf(e[1..]) == MapOf(e) - {e[0].0}
  {
    MapOfKeys(e[1..], e[0].0);
    LessOrder(e[0].0, e[0].0, e[0].0);
    assert e[0].0 !in MapOf(e[1..]);
  }

  // ------------------------------------------------------------ order lemmas

  lemma OrderedParts(a: seq<Token>, m: seq<Token>, b: seq<Token>)
    requires Ordered(a + m + b)
    ensures Ordered(a) && Ordered(m) && Ordered(b)
    ensures Cross(a, m) && Cross(m, b) && Cross(a, b)
  {
    var ts := a + m + b;
    assert forall i :: 0 <= i < |a| ==> ts[i] == a[i];
    assert forall i :: 0 <= i < |m| ==> ts[|a| + i] == m[i];
    assert forall i :: 0 <= i < |b| ==> ts[|a| + |m| + i] == b[i];
  }

  lemma OrderedJoin(a: seq<Token>, m: seq<Token>, b: seq<Token>)
    requires Ordered(a) && Ordered(m) && Ordered(b)
    requires Cross(a, m) && Cross(m, b) && Cross(a, b)
    ensures Ordered(a + m + b)
  {
    var ts := a + m + b;
    assert forall i :: 0 <= i < |ts| ==>
      ts[i] == if i < |a| then a[i] else if i < |a| + |m| then m[i - |a|] else b[i - |a| - |m|];
  }

  /** The entries of an ordered fringe are sorted by key. */
  lemma {:induction false} EntriesSorted(ts: seq<Token>)
    requires Ordered(ts)
    ensures SortedEntries(Entries(ts))
    decreases |ts|
  {
    if ts != [] {
      assert ts == [] + [ts[0]] + ts[1..];
      OrderedParts([], [ts[0]], ts[1..]);
      EntriesSorted(ts[1..]);
      if ts[0].LeafTok? {
        var keys := ts[0].keys;
        forall i, j | 0 <= i < |keys| && 0 <= j < |Entries(ts[1..])|
          ensures Less(keys[i], Entries(ts[1..])[j].0)
        {
          EntryAbove([ts[0]], ts[1..], keys[i], j);
        }
      }
    }
  }

  /** Every entry of a fringe sits in one of its leaves. */
  lemma {:induction false} EntryOrigin(ts: seq<Token>, j: nat) returns (p: nat, q: nat)
    requires j < |Entries(ts)|
    ensures p < |ts| && ts[p].LeafTok? && |ts[p].rowIds| == |ts[p].keys| && q < |ts[p].keys|
    ensures Entries(ts)[j] == (ts[p].keys[q], ts[p].rowIds[q])
    decreases |ts|
  {
    var n := if ts[0].LeafTok? && |ts[0].rowIds| == |ts[0].keys| then |ts[0].keys| else 0;
    if j < n {
      p, q := 0, j;
    } else {
      p, q := EntryOrigin(ts[1..], j - n);
      p := p + 1;
    }
  }

  lemma EntryAbove(a: seq<Token>, b: seq<Token>, k: Value, j: nat)
    requires Cross(a, b) && |a| == 1 && a[0].LeafTok? && k in a[0].keys
    requires j < |Entries(b)|
    ensures Less(k, Entries(b)[j].0)
  {
    var p, q := EntryOrigin(b, j);
    assert Precedes(a[0], b[p]);
  }

  /** Every entry left of the bracket is below the key, every entry right of it above. */
  lemma BracketEntries(a: seq<Token>, key: Value, b: seq<Token>)
    requires Brackets(a, key, b)
    ensures forall i :: 0 <= i < |Entries(a)| ==> Less(Entries(a)[i].0, key)
    ensures forall i :: 0 <= i < |Entries(b)| ==> Less(key, Entries(b)[i].0)
  {
    forall i | 0 <= i < |Entries(a)| ensures Less(Entries(a)[i].0, key) {
      var p, q := EntryOrigin(a, i);
    }
    forall i | 0 <= i < |Entries(b)| ensures Less(key, Entries(b)[i].0) {
      var p, q := EntryOrigin(b, i);
    }
  }

  // ----------------------------------------------------------- alternation

  lemma {:induction false} FlatAlternates(t: Tree, h: nat)
    requires Shaped(t, h)
    ensures Alternates(Flat(t))
    decreases t, 1
  {
    if t.Node? {
      FlatAlternates(t.kids[0], h - 1);
      FlatRAlternates(Flat(t.kids[0]), t.keys, t.kids[1..], h - 1);
    }
  }

  lemma {:induction false} FlatRAlternates(a: seq<Token>, keys: seq<Value>, kids: seq<Tree>, h: nat)
    requires |keys| == |kids| && forall i :: 0 <= i < |kids| ==> Shaped(kids[i], h)
    requires Alternates(a)
    ensures Alternates(a + FlatR(keys, kids))
    decreases kids, 0
  {
    if kids == [] {
      assert a + FlatR(keys, kids) == a;
    } else {
      FlatAlternates(kids[0], h);
      var a' := a + [SepTok(keys[0])] + Flat(kids[0]);
      assert Alternates(a') by {
        assert forall i :: 0 <= i < |a'| ==>
          a'[i] == if i < |a| then a[i] else if i == |a| then SepTok(keys[0]) else Flat(kids[0])[i - |a| - 1];
      }
      FlatRAlternates(a', keys[1..], kids[1..], h);
      assert a + FlatR(keys, kids) == a' + FlatR(keys[1..], kids[1..]);
    }
  }

  /** Every leaf token of a stored tree shows what its page holds. */
  lemma {:induction false} StoredTokens(m: PageMap, t: Tree, i: nat)
    requires Stored(m, t) && i < |Flat(t)| && Flat(t)[i].LeafTok?
    ensures var tok := Flat(t)[i];
            tok.id in m && m[tok.id] == LeafPage(tok.keys, tok.rowIds, tok.nextLeaf)
    decreases t, 1
  {
    if t.Node? {
      var n := |Flat(t.kids[0])|;
      if i < n {
        assert Flat(t)[i] == Flat(t.kids[0])[i];
        StoredTokens(m, t.kids[0], i);
      } else {
        assert Flat(t)[i] == FlatR(t.keys, t.kids[1..])[i - n];
        StoredTokensR(m, t.keys, t.kids[1..], i - n);
      }
    }
  }

  lemma {:induction false} StoredTokensR(m: PageMap, keys: seq<Value>, kids: seq<Tree>, i: nat)
    requires forall j :: 0 <= j < |kids| ==> Stored(m, kids[j])
    requires i < |FlatR(keys, kids)| && FlatR(keys, kids)[i].LeafTok?
    ensures var tok := FlatR(keys, kids)[i];
            tok.id in m && m[tok.id] == LeafPage(tok.keys, tok.rowIds, tok.nextLeaf)
    decreases kids, 0
  {
    var n := |Flat(kids[0])|;
    if i - 1 < n { StoredTokens(m, kids[0], i - 1); }
    else { StoredTokensR(m, keys[1..], kids[1..], i - 1 - n); }
  }

  // ------------------------------------------------------ leaf-level edits

  ghost function Tok(t: Tree): Token
    requires t.Leaf?
  {
    LeafTok(t.id, t.keys, t.rowIds, t.nextLeaf)
  }

  /** Replacing a leaf by one with the same identity and successor keeps the chain. */
  lemma LinkedReplace(a: seq<Token>, x: Token, y: Token, b: seq<Token>)
    requires Linked(a + [x] + b) && x.LeafTok? && y.LeafTok? && y.id == x.id && y.nextLeaf == x.nextLeaf
    ensures Linked(a + [y] + b)
  {
    var s, s' := a + [x] + b, a + [y] + b;
    assert s[|a|] == x;
    assert forall i :: 0 <= i < |s| ==> s'[i] == if i == |a| then y else s[i];
  }

  /** Replacing a separator does not touch the chain. */
  lemma LinkedSep(a: seq<Token>, x: Value, y: Value, b: seq<Token>)
    requires Linked(a + [SepTok(x)] + b)
    ensures Linked(a + [SepTok(y)] + b)
  {
    var s, s' := a + [SepTok(x)] + b, a + [SepTok(y)] + b;
    assert s[|a|] == SepTok(x);
    assert forall i :: 0 <= i < |s| ==> s'[i] == if i == |a| then SepTok(y) else s[i];
  }

  /** Splitting a leaf links the new right half in behind the left half. */
  lemma LinkedSplit(a: seq<Token>, x: Token, l: Token, s: Value, r: Token, b: seq<Token>)
    requires Linked(a + [x] + b) && x.LeafTok? && l.LeafTok? && r.LeafTok?
    requires l.id == x.id && l.nextLeaf == Some(r.id) && r.nextLeaf == x.nextLeaf
    ensures Linked(a + [l, SepTok(s), r] + b)
  {
    var u, v := a + [x] + b, a + [l, SepTok(s), r] + b;
    var n := |a|;
    assert u[n] == x;
    assert forall i :: 0 <= i < |v| ==>
      v[i] == if i < n then u[i] else if i == n then l else if i == n + 1 then SepTok(s)
              else if i == n + 2 then r else u[i - 2];
    forall i, j | 0 <= i < |v| && j == i + 1 < |v| ensures v[i].LeafTok? != v[j].LeafTok? {
      if i >= n + 2 { assert u[i - 2].LeafTok? != u[j - 2].LeafTok?; }
      else if j <= n { assert u[i].LeafTok? != u[j].LeafTok?; }
    }
    forall i, j | 0 <= i < |v| && j == i + 2 < |v| && v[i].LeafTok?
      ensures v[j].LeafTok? && v[i].nextLeaf == Some(v[j].id)
    {
      if i >= n + 2 { assert u[i - 2].LeafTok? && u[j - 2].LeafTok?; }
      else if i < n {
        assert u[i].LeafTok? != u[i + 1].LeafTok?;
        if i + 1 < n { assert u[j].LeafTok?; }
      }
    }
  }

  /** Merging two neighbouring leaves bridges the chain over the right one. */
  lemma LinkedMerge(a: seq<Token>, l: Token, s: Value, r: Token, x: Token, b: seq<Token>)
    requires Linked(a + [l, SepTok(s), r] + b) && l.LeafTok? && r.LeafTok? && x.LeafTok?
    requires x.id == l.id && x.nextLeaf == r.nextLeaf
    ensures Linked(a + [x] + b)
  {
    var u, v := a + [l, SepTok(s), r] + b, a + [x] + b;
    var n := |a|;
    assert u[n] == l && u[n + 1] == SepTok(s) && u[n + 2] == r;
    assert forall i :: 0 <= i < |v| ==> v[i] == if i < n then u[i] else if i == n then x else u[i + 2];
    forall i, j | 0 <= i < |v| && j == i + 1 < |v| ensures v[i].LeafTok? != v[j].LeafTok? {
      if i >= n { assert u[i + 2].LeafTok? != u[j + 2].LeafTok?; }
      else { assert u[i].LeafTok? != u[j].LeafTok?; }
    }
    forall i, j | 0 <= i < |v| && j == i + 2 < |v| && v[i].LeafTok?
      ensures v[j].LeafTok? && v[i].nextLeaf == Some(v[j].id)
    {
      if i >= n { assert u[i + 2].LeafTok? && u[j + 2].LeafTok?; }
      else {
        assert u[i].LeafTok? != u[i + 1].LeafTok?;
        assert u[j].LeafTok?;
      }
    }
  }
}
