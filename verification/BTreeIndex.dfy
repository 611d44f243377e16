/** The ordered index: a B+ tree kept in a map from page ids to nodes. */
module BTreeIndexing {
  import opened Values
  import opened BTreeShape
  import opened BTreeOrder
  import opened BTreeEdits
  import opened BTreePages

  // ------------------------------------------------------------- specification

  function Postings(m: map<Value, seq<RowId>>, key: Value): seq<RowId> {
    if key in m then m[key] else []
  }

  /** A posting list without any occurrence of `rowId`. */
  function Without(rows: seq<RowId>, rowId: RowId): (r: seq<RowId>)
    ensures rowId !in r
    ensures forall x :: x != rowId ==> multiset(r)[x] == multiset(rows)[x]
  {
    if rows == [] then []
    else
      assert rows == [rows[0]] + rows[1..];
      if rows[0] == rowId then Without(rows[1..], rowId)
      else [rows[0]] + Without(rows[1..], rowId)
  }

  function Inserted(m: map<Value, seq<RowId>>, key: Value, rowId: RowId): map<Value, seq<RowId>> {
    m[key := Postings(m, key) + [rowId]]
  }

  function Removed(m: map<Value, seq<RowId>>, key: Value, rowId: RowId): map<Value, seq<RowId>> {
    if key !in m then m
    else if Without(m[key], rowId) == [] then m - {key}
    else m[key := Without(m[key], rowId)]
  }

  /** The page ids handed out so far. */
  ghost function Range(next: PageId): (s: set<PageId>)
    ensures forall i :: i in s <==> 1 <= i < next
    decreases next
  {
    if next <= 1 then {} else Range(next - 1) + {next - 1}
  }

  /** Every page id handed out is either a live node or on the free list, never both. */
  ghost predicate Conserved(live: set<PageId>, free: seq<PageId>, next: PageId) {
    multiset(live) + multiset(free) == multiset(Range(next)) && 1 <= next
  }

  ghost predicate Good(ts: seq<Token>, count: nat) {
    Ordered(ts) && Linked(ts) && count == |Entries(ts)|
  }

  // ------------------------------------------------------------- proof helpers

  lemma DescendFilled(c: Ctx, p: Tree, i: nat, lo: nat, hi: nat)
    requires p.Node? && |p.kids| == |p.keys| + 1 && i < |p.kids| && CtxFilled(c, lo, hi)
    requires if c.Top? then RootFilled(p, lo, hi) else Filled(p, lo, hi)
    ensures CtxFilled(Frame(c, p, i), lo, hi) && Filled(p.kids[i], lo, hi)
  {
  }

  /** Every node but possibly `t`, in the hole of `c`, is filled as it should be. */
  ghost predicate Loose(m: PageMap, root: PageId, count: nat, lo: nat, hi: nat, c: Ctx, t: Tree, h: nat) {
    && Focus(m, c, t, h)
    && RootId(c, t.id) == root
    && CtxFilled(c, lo, hi) && KidsFilled(t, lo, hi)
    && Good(Fringe(c, t), count)
  }

  /** The page map holds a well-formed B+ tree. */
  ghost predicate Whole(m: PageMap, root: PageId, count: nat, lo: nat, hi: nat, t: Tree, h: nat) {
    && Focus(m, Top, t, h)
    && t.id == root
    && RootFilled(t, lo, hi)
    && Good(Flat(t), count)
  }

  /** The node in the hole of `c` was split; the parent does not know the right half yet. */
  ghost predicate Halved(m: PageMap, root: PageId, count: nat, lo: nat, hi: nat,
                         c: Ctx, l: Tree, sep: Value, r: Tree, h: nat) {
    && Pending(m, c, l, r, h)
    && RootId(c, l.id) == root
    && CtxFilled(c, lo, hi) && Filled(l, lo, hi) && Filled(r, lo, hi)
    && Good(PairFringe(c, l, sep, r), count)
  }

  ghost predicate FilledAt(c: Ctx, t: Tree, lo: nat, hi: nat) {
    if c.Top? then RootFilled(t, lo, hi) else Filled(t, lo, hi)
  }

  lemma OpenUp(m: PageMap, root: PageId, count: nat, lo: nat, hi: nat, t: Tree, h: nat)
    requires Whole(m, root, count, lo, hi, t, h)
    ensures Loose(m, root, count, lo, hi, Top, t, h) && FilledAt(Top, t, lo, hi)
    ensures Fringe(Top, t) == Flat(t)
  {
    hide Ordered, Linked, Entries, Flat;
    assert Fringe(Top, t) == Flat(t);
    assert Good(Fringe(Top, t), count);
  }

  lemma CloseUp(m: PageMap, root: PageId, count: nat, lo: nat, hi: nat, c: Ctx, t: Tree, h: nat)
    requires Loose(m, root, count, lo, hi, c, t, h) && FilledAt(c, t, lo, hi) && 1 <= lo
    ensures Whole(m, root, count, lo, hi, Plug(c, t), h + Depth(c))
    ensures Flat(Plug(c, t)) == Fringe(c, t)
  {
    hide Stored, Ids, Shaped, Ordered, Linked, Entries, Filled, CtxFilled;
    PlugStored(m, c, t);
    PlugIds(c, t);
    PlugShaped(c, t, h);
    PlugFilled(c, t, lo, hi);
    PlugFlat(c, t, h);
    PlugRoot(c, t);
  }

  /** One step of the search for `key`. */
  lemma DescendLoose(m: PageMap, root: PageId, count: nat, lo: nat, hi: nat, c: Ctx, t: Tree, h: nat, i: nat,
                     key: Value)
    requires Loose(m, root, count, lo, hi, c, t, h) && FilledAt(c, t, lo, hi) && Fits(c, key)
    requires t.Node? && i <= |t.keys|
    requires forall j :: 0 <= j < i ==> !Less(key, t.keys[j])
    requires i < |t.keys| ==> Less(key, t.keys[i])
    ensures Loose(m, root, count, lo, hi, Frame(c, t, i), t.kids[i], h - 1)
    ensures FilledAt(Frame(c, t, i), t.kids[i], lo, hi) && Fits(Frame(c, t, i), key)
    ensures Fringe(Frame(c, t, i), t.kids[i]) == Fringe(c, t)
  {
    hide Stored, CtxStored, Ids, CtxIds, Ordered, Linked, Entries, Flat, Pre, Post;
    Descend(m, c, t, h, i);
    DescendFilled(c, t, i, lo, hi);
    if i > 0 { LessOrder(key, t.keys[i - 1], key); }
    assert Good(Fringe(Frame(c, t, i), t.kids[i]), count);
  }

  lemma KeyOnce(pre: seq<Entry>, k: Value, v: seq<RowId>, post: seq<Entry>)
    requires SortedEntries(pre + [(k, v)] + post)
    ensures k !in MapOf(pre) && k !in MapOf(post)
  {
    var e := pre + [(k, v)] + post;
    assert e[|pre|] == (k, v);
    LessOrder(k, k, k);
    forall i | 0 <= i < |pre| ensures pre[i].0 != k { assert e[i] == pre[i]; }
    forall i | 0 <= i < |post| ensures post[i].0 != k { assert e[|pre| + 1 + i] == post[i]; }
    MapOfKeys(pre, k);
    MapOfKeys(post, k);
  }

  lemma PutBetween(a: map<Value, seq<RowId>>, k: Value, v: seq<RowId>, b: map<Value, seq<RowId>>)
    requires k !in b
    ensures a + map[k := v] + b == (a + b)[k := v]
  {
  }

  /** Storing `v` at a key that occurs once in a sorted enumeration. */
  lemma MapPut(pre: seq<Entry>, k: Value, v: seq<RowId>, post: seq<Entry>)
    requires SortedEntries(pre + [(k, v)] + post)
    ensures k !in MapOf(pre + post) && MapOf(pre + [(k, v)] + post) == MapOf(pre + post)[k := v]
  {
    KeyOnce(pre, k, v, post);
    MapOfConcat(pre, post);
    MapOfConcat(pre + [(k, v)], post);
    MapOfConcat(pre, [(k, v)]);
    assert MapOf([(k, v)]) == map[k := v] + MapOf([(k, v)][1..]) == map[k := v];
    PutBetween(MapOf(pre), k, v, MapOf(post));
  }

  lemma Flatten(ea: seq<Entry>, l1: seq<Entry>, m: seq<Entry>, l2: seq<Entry>, eb: seq<Entry>)
    ensures ea + (l1 + m + l2) + eb == (ea + l1) + m + (l2 + eb)
  {
  }

  lemma EntriesAround(a: seq<Token>, x: Token, b: seq<Token>)
    requires x.LeafTok? && |x.rowIds| == |x.keys|
    ensures Entries(a + [x] + b) == Entries(a) + LeafEntries(x.keys, x.rowIds) + Entries(b)
  {
    EntriesConcat(a + [x], b);
    EntriesConcat(a, [x]);
    assert Entries([x]) == LeafEntries(x.keys, x.rowIds) + Entries([x][1..]);
  }

  lemma PutGood(a: seq<Token>, x: Token, i: nat, rows: seq<RowId>, b: seq<Token>)
    requires Ordered(a + [x] + b) && x.LeafTok? && |x.rowIds| == |x.keys| && i < |x.keys| && rows != []
    ensures Ordered(a + [x.(rowIds := x.rowIds[i := rows])] + b)
  {
    OrderedParts(a, [x], b);
    assert GoodToken([x][0]);
    OrderedShrink(a, x, x.(rowIds := x.rowIds[i := rows]), b);
  }

  /** Replacing the posting list of one key of a leaf. */
  lemma PutPosting(a: seq<Token>, x: Token, i: nat, rows: seq<RowId>, b: seq<Token>)
    requires Ordered(a + [x] + b) && x.LeafTok? && |x.rowIds| == |x.keys| && i < |x.keys| && rows != []
    ensures var y := x.(rowIds := x.rowIds[i := rows]);
            && Ordered(a + [y] + b)
            && |Entries(a + [y] + b)| == |Entries(a + [x] + b)|
            && x.keys[i] in MapOf(Entries(a + [x] + b))
            && MapOf(Entries(a + [x] + b))[x.keys[i]] == x.rowIds[i]
            && MapOf(Entries(a + [y] + b)) == MapOf(Entries(a + [x] + b))[x.keys[i] := rows]
  {
    hide Ordered, GoodToken, Precedes, Entries, MapOf, SortedEntries;
    var y := x.(rowIds := x.rowIds[i := rows]);
    PutGood(a, x, i, rows, b);
    EntriesAround(a, x, b);
    EntriesAround(a, y, b);
    EntriesSorted(a + [x] + b);
    EntriesSorted(a + [y] + b);
    var le := LeafEntries(x.keys, x.rowIds);
    var pre, post := Entries(a) + le[..i], le[i + 1..] + Entries(b);
    assert le == le[..i] + [(x.keys[i], x.rowIds[i])] + le[i + 1..];
    assert LeafEntries(y.keys, y.rowIds) == le[..i] + [(x.keys[i], rows)] + le[i + 1..];
    Flatten(Entries(a), le[..i], [(x.keys[i], x.rowIds[i])], le[i + 1..], Entries(b));
    Flatten(Entries(a), le[..i], [(x.keys[i], rows)], le[i + 1..], Entries(b));
    MapPut(pre, x.keys[i], x.rowIds[i], post);
    MapPut(pre, x.keys[i], rows, post);
  }

  ghost function WithKey(x: Token, i: nat, key: Value, rows: seq<RowId>): Token
    requires x.LeafTok? && i <= |x.keys| && |x.rowIds| == |x.keys|
  {
    LeafTok(x.id, x.keys[..i] + [key] + x.keys[i..], x.rowIds[..i] + [rows] + x.rowIds[i..], x.nextLeaf)
  }

  lemma WithKeyEntries(x: Token, i: nat, key: Value, rows: seq<RowId>)
    requires x.LeafTok? && i <= |x.keys| && |x.rowIds| == |x.keys|
    ensures var y := WithKey(x, i, key, rows); var le := LeafEntries(x.keys, x.rowIds);
            LeafEntries(y.keys, y.rowIds) == le[..i] + [(key, rows)] + le[i..]
  {
  }

  /** Adding a key to a leaf, or (read from right to left) removing one. */
  lemma KeyAdded(a: seq<Token>, x: Token, i: nat, key: Value, rows: seq<RowId>, b: seq<Token>)
    requires x.LeafTok? && |x.rowIds| == |x.keys| && i <= |x.keys|
    requires Ordered(a + [WithKey(x, i, key, rows)] + b)
    ensures var e, e' := Entries(a + [x] + b), Entries(a + [WithKey(x, i, key, rows)] + b);
            |e'| == |e| + 1 && key !in MapOf(e) && MapOf(e') == MapOf(e)[key := rows]
  {
    var y := WithKey(x, i, key, rows);
    EntriesAround(a, x, b);
    EntriesAround(a, y, b);
    EntriesSorted(a + [y] + b);
    WithKeyEntries(x, i, key, rows);
    var le := LeafEntries(x.keys, x.rowIds);
    var pre, post := Entries(a) + le[..i], le[i..] + Entries(b);
    assert le == le[..i] + [] + le[i..] && pre + [] == pre;
    Flatten(Entries(a), le[..i], [], le[i..], Entries(b));
    Flatten(Entries(a), le[..i], [(key, rows)], le[i..], Entries(b));
    MapPut(pre, key, rows, post);
  }

  lemma OrderedWithKey(a: seq<Token>, x: Token, i: nat, key: Value, rows: seq<RowId>, b: seq<Token>)
    requires Ordered(a + [x] + b) && x.LeafTok? && |x.rowIds| == |x.keys| && i <= |x.keys| && rows != []
    requires Brackets(a, key, b)
    requires forall j :: 0 <= j < i ==> Less(x.keys[j], key)
    requires forall j :: i <= j < |x.keys| ==> Less(key, x.keys[j])
    ensures Ordered(a + [WithKey(x, i, key, rows)] + b)
  {
    OrderedParts(a, [x], b);
    assert GoodToken([x][0]);
    SortedInsert(x.keys, i, key);
    OrderedGrow(a, x, WithKey(x, i, key, rows), key, b);
  }

  /** A key outside the bracketed leaf is not in the index at all. */
  lemma NotElsewhere(a: seq<Token>, x: Token, b: seq<Token>, key: Value)
    requires x.LeafTok? && |x.rowIds| == |x.keys| && Brackets(a, key, b) && key !in x.keys
    ensures key !in MapOf(Entries(a + [x] + b))
  {
    EntriesAround(a, x, b);
    BracketEntries(a, key, b);
    LessOrder(key, key, key);
    var le := LeafEntries(x.keys, x.rowIds);
    forall i | 0 <= i < |le| ensures le[i].0 != key { assert x.keys[i] in x.keys; }
    MapOfKeys(Entries(a + [x] + b), key);
  }

  lemma {:induction false} FlatLHas(kids: seq<Tree>, keys: seq<Value>, j: nat) returns (q: nat)
    requires |kids| == |keys| && j < |keys|
    ensures q < |FlatL(kids, keys)| && FlatL(kids, keys)[q] == SepTok(keys[j])
    decreases j
  {
    if j == 0 {
      q := |Flat(kids[0])|;
    } else {
      q := FlatLHas(kids[1..], keys[1..], j - 1);
      q := q + |Flat(kids[0])| + 1;
    }
  }

  /** A promoted separator lies strictly between the separators around its hole. */
  lemma SepPlace(c: Ctx, h: nat, l: Tree, sep: Value, r: Tree)
    requires c.In? && CtxShaped(c, h) && Ordered(PairFringe(c, l, sep, r))
    ensures forall j :: 0 <= j < |c.lkeys| ==> Less(c.lkeys[j], sep)
    ensures c.rkeys != [] ==> Less(sep, c.rkeys[0])
  {
    var m := Flat(l) + [SepTok(sep)] + Flat(r);
    OrderedParts(Pre(c), m, Post(c));
    assert m[|Flat(l)|] == SepTok(sep);
    forall j | 0 <= j < |c.lkeys| ensures Less(c.lkeys[j], sep) {
      var q := FlatLHas(c.left, c.lkeys, j);
      assert Pre(c)[|Pre(c.outer)| + q] == SepTok(c.lkeys[j]);
      assert Precedes(Pre(c)[|Pre(c.outer)| + q], m[|Flat(l)|]);
    }
    if c.rkeys != [] {
      assert Post(c)[0] == SepTok(c.rkeys[0]);
      assert Precedes(m[|Flat(l)|], Post(c)[0]);
    }
  }

  lemma SplitFilled(t: Tree, i: nat, rid: PageId, lo: nat, hi: nat)
    requires t.Node? && |t.kids| == |t.keys| + 1 && i < |t.keys| && KidsFilled(t, lo, hi)
    requires lo <= i <= hi && lo <= |t.keys| - i - 1 <= hi
    ensures Filled(Node(t.id, t.keys[..i], t.kids[..i + 1]), lo, hi)
    ensures Filled(Node(rid, t.keys[i + 1..], t.kids[i + 1..]), lo, hi)
  {
  }

  lemma PairKidsFilled(c: Ctx, l: Tree, sep: Value, r: Tree, lo: nat, hi: nat)
    requires c.In? && CtxFilled(c, lo, hi) && Filled(l, lo, hi) && Filled(r, lo, hi)
    ensures KidsFilled(Pair(c, l, sep, r), lo, hi)
  {
    var p := Pair(c, l, sep, r);
    forall i | 0 <= i < |p.kids| ensures Filled(p.kids[i], lo, hi) {
      if i >= |c.left| + 2 { assert p.kids[i] == c.right[i - |c.left| - 2]; }
    }
  }

  // ------------------------------------------------------------- insertion

  lemma LooseLeaf(m: PageMap, root: PageId, count: nat, lo: nat, hi: nat, c: Ctx, t: Tree, key: Value)
    requires Loose(m, root, count, lo, hi, c, t, 0) && Fits(c, key)
    ensures t.Leaf? && Ordered(Pre(c) + [Tok(t)] + Post(c)) && Linked(Pre(c) + [Tok(t)] + Post(c))
    ensures GoodToken(Tok(t)) && SortedKeys(t.keys) && Brackets(Pre(c), key, Post(c))
    ensures Fringe(c, t) == Pre(c) + [Tok(t)] + Post(c)
    ensures t.id in m && m[t.id] == LeafPage(t.keys, t.rowIds, t.nextLeaf) && |t.rowIds| == |t.keys|
  {
    OrderedParts(Pre(c), [Tok(t)], Post(c));
    assert GoodToken([Tok(t)][0]);
    FitsBrackets(c, 0, Flat(t), key);
  }

  /** Appending to or shrinking the posting list of a key that is present. */
  lemma PutPostingStep(m: PageMap, root: PageId, count: nat, lo: nat, hi: nat, c: Ctx, t: Tree, key: Value, i: nat,
                       rows: seq<RowId>)
    requires Loose(m, root, count, lo, hi, c, t, 0) && FilledAt(c, t, lo, hi) && Fits(c, key)
    requires t.Leaf? && i < |t.keys| && t.keys[i] == key && |t.rowIds| == |t.keys| && rows != []
    ensures var t' := t.(rowIds := t.rowIds[i := rows]); var e := MapOf(Entries(Fringe(c, t)));
            && Loose(m[t.id := Image(t')], root, count, lo, hi, c, t', 0) && FilledAt(c, t', lo, hi)
            && key in e && e[key] == t.rowIds[i]
            && MapOf(Entries(Fringe(c, t'))) == e[key := rows]
  {
    var t' := t.(rowIds := t.rowIds[i := rows]);
    LooseLeaf(m, root, count, lo, hi, c, t, key);
    ReplaceLeaf(m, c, t, t', 0);
    PutPosting(Pre(c), Tok(t), i, rows, Post(c));
    LinkedReplace(Pre(c), Tok(t), Tok(t'), Post(c));
  }

  ghost function LeafWith(t: Tree, i: nat, key: Value, rows: seq<RowId>): Tree
    requires t.Leaf? && i <= |t.keys| && |t.rowIds| == |t.keys|
  {
    Leaf(t.id, t.keys[..i] + [key] + t.keys[i..], t.rowIds[..i] + [rows] + t.rowIds[i..], t.nextLeaf)
  }

  lemma AddKeyStep(m: PageMap, root: PageId, count: nat, lo: nat, hi: nat, c: Ctx, t: Tree, key: Value, i: nat,
                   rows: seq<RowId>)
    requires Loose(m, root, count, lo, hi, c, t, 0) && Fits(c, key)
    requires t.Leaf? && i <= |t.keys| && |t.rowIds| == |t.keys| && rows != [] && (i < |t.keys| ==> t.keys[i] != key)
    requires forall j :: 0 <= j < i ==> Less(t.keys[j], key)
    requires forall j :: i <= j < |t.keys| ==> !Less(t.keys[j], key)
    ensures var t' := LeafWith(t, i, key, rows); var e := MapOf(Entries(Fringe(c, t)));
            && Loose(m[t.id := Image(t')], root, count + 1, lo, hi, c, t', 0)
            && key !in e && MapOf(Entries(Fringe(c, t'))) == e[key := rows]
  {
    var t' := LeafWith(t, i, key, rows);
    LooseLeaf(m, root, count, lo, hi, c, t, key);
    forall j | i <= j < |t.keys| ensures Less(key, t.keys[j]) {
      LessOrder(key, t.keys[i], t.keys[j]);
    }
    assert Tok(t') == WithKey(Tok(t), i, key, rows);
    ReplaceLeaf(m, c, t, t', 0);
    OrderedWithKey(Pre(c), Tok(t), i, key, rows, Post(c));
    KeyAdded(Pre(c), Tok(t), i, key, rows, Post(c));
    LinkedReplace(Pre(c), Tok(t), Tok(t'), Post(c));
  }

  lemma SameEntries(a: seq<Token>, m: seq<Token>, m': seq<Token>, b: seq<Token>)
    requires Entries(m) == Entries(m')
    ensures Entries(a + m + b) == Entries(a + m' + b)
  {
    EntriesConcat(a + m, b);
    EntriesConcat(a + m', b);
    EntriesConcat(a, m);
    EntriesConcat(a, m');
  }

  lemma LooseNode(m: PageMap, root: PageId, count: nat, lo: nat, hi: nat, c: Ctx, t: Tree, h: nat)
    requires Loose(m, root, count, lo, hi, c, t, h)
    ensures t.id in m && m[t.id] == Image(t) && (t.Leaf? <==> h == 0) && KidsFilled(t, lo, hi)
    ensures t.Leaf? ==> |t.rowIds| == |t.keys|
    ensures t.Node? ==> |t.kids| == |t.keys| + 1
  {
  }

  lemma SplitLeafStep(m: PageMap, root: PageId, count: nat, lo: nat, hi: nat, c: Ctx, t: Tree, mid: nat, rid: PageId)
    requires Loose(m, root, count, lo, hi, c, t, 0) && t.Leaf? && rid !in m && |t.rowIds| == |t.keys|
    requires 1 <= lo <= mid <= hi && lo <= |t.keys| - mid <= hi
    ensures var l, r :=
      Leaf(t.id, t.keys[..mid], t.rowIds[..mid], Some(rid)), Leaf(rid, t.keys[mid..], t.rowIds[mid..], t.nextLeaf);
            && Halved(m[t.id := Image(l)][rid := Image(r)], root, count, lo, hi, c, l, t.keys[mid], r, 0)
            && Entries(PairFringe(c, l, t.keys[mid], r)) == Entries(Fringe(c, t))
  {
    hide Ordered, Linked, Entries;
    var l, r :=
      Leaf(t.id, t.keys[..mid], t.rowIds[..mid], Some(rid)), Leaf(rid, t.keys[mid..], t.rowIds[mid..], t.nextLeaf);
    assert t.keys == l.keys + r.keys && t.rowIds == l.rowIds + r.rowIds;
    assert Pending(m[t.id := Image(l)][rid := Image(r)], c, l, r, 0) by { SplitLeafPage(m, c, t, l, r, 0); }
    assert r.keys[0] == t.keys[mid];
    SplitLeafGood(Pre(c), t, l, r, Post(c), count);
    assert |l.keys| == mid && |r.keys| == |t.keys| - mid;
    assert Filled(l, lo, hi) && Filled(r, lo, hi);
    assert Good(PairFringe(c, l, t.keys[mid], r), count);
  }

  lemma SplitLeafGood(a: seq<Token>, t: Tree, l: Tree, r: Tree, b: seq<Token>, count: nat)
    requires t.Leaf? && l.Leaf? && r.Leaf? && Good(a + Flat(t) + b, count)
    requires l.keys != [] && r.keys != [] && Halves(Tok(t), Tok(l), r.keys[0], Tok(r))
    ensures var ts := a + (Flat(l) + [SepTok(r.keys[0])] + Flat(r)) + b;
            Good(ts, count) && Entries(ts) == Entries(a + Flat(t) + b)
  {
    var s := r.keys[0];
    OrderedSplit(a, Tok(t), Tok(l), s, Tok(r), b);
    LinkedSplit(a, Tok(t), Tok(l), s, Tok(r), b);
    EntriesHalves(Tok(t), Tok(l), s, Tok(r));
    SameEntries(a, [Tok(t)], [Tok(l), SepTok(s), Tok(r)], b);
    assert Flat(l) + [SepTok(s)] + Flat(r) == [Tok(l), SepTok(s), Tok(r)];
  }

  lemma SplitInnerStep(m: PageMap, root: PageId, count: nat, lo: nat, hi: nat, c: Ctx, t: Tree, h: nat, mid: nat,
                       rid: PageId)
    requires Loose(m, root, count, lo, hi, c, t, h) && t.Node? && rid !in m && mid < |t.keys|
    requires lo <= mid <= hi && lo <= |t.keys| - mid - 1 <= hi
    ensures var l, r := Node(t.id, t.keys[..mid], t.kids[..mid + 1]), Node(rid, t.keys[mid + 1..], t.kids[mid + 1..]);
            && Halved(m[t.id := Image(l)][rid := Image(r)], root, count, lo, hi, c, l, t.keys[mid], r, h)
            && PairFringe(c, l, t.keys[mid], r) == Fringe(c, t)
  {
    SplitInnerPage(m, c, t, mid, rid, h);
    SplitFilled(t, mid, rid, lo, hi);
  }

  lemma AttachStep(m: PageMap, root: PageId, count: nat, lo: nat, hi: nat, c: Ctx, l: Tree, sep: Value, r: Tree, h: nat)
    requires Halved(m, root, count, lo, hi, c, l, sep, r, h) && c.In?
    ensures Loose(m[c.id := Image(Pair(c, l, sep, r))], root, count, lo, hi, c.outer, Pair(c, l, sep, r), h + 1)
    ensures Fringe(c.outer, Pair(c, l, sep, r)) == PairFringe(c, l, sep, r)
  {
    AttachSibling(m, c, l, sep, r, h);
    PairKidsFilled(c, l, sep, r, lo, hi);
  }

  lemma ParentPage(m: PageMap, root: PageId, count: nat, lo: nat, hi: nat, c: Ctx, l: Tree, sep: Value, r: Tree, h: nat)
    requires Halved(m, root, count, lo, hi, c, l, sep, r, h) && c.In?
    ensures c.id in m && m[c.id].InnerPage? && |m[c.id].children| == |m[c.id].keys| + 1
  {
  }

  /** The parent's page after the separator and the new sibling have been inserted. */
  lemma ParentWith(m: PageMap, root: PageId, count: nat, lo: nat, hi: nat, c: Ctx, l: Tree, sep: Value, r: Tree, h: nat,
                   index: nat)
    requires Halved(m, root, count, lo, hi, c, l, sep, r, h) && c.In?
    requires c.id in m && m[c.id].InnerPage? && index <= |m[c.id].keys|
    requires forall j :: 0 <= j < index ==> !Less(sep, m[c.id].keys[j])
    requires index < |m[c.id].keys| ==> Less(sep, m[c.id].keys[index])
    ensures var page := m[c.id]; var p := Pair(c, l, sep, r);
            && |page.children| == |page.keys| + 1
            && Image(p) == InnerPage(page.keys[..index] + [sep] + page.keys[index..],
                                     page.children[..index + 1] + [r.id] + page.children[index + 1..])
  {
    hide Ordered, Linked, Stored, Shaped, CtxFilled, Filled, Entries;
    assert |c.lkeys| == |c.left| && m[c.id] == InnerPage(c.lkeys + c.rkeys, Roots(c.left) + [l.id] + Roots(c.right));
    SepPlace(c, h, l, sep, r);
    IndexAt(c.lkeys, c.rkeys, sep, index);
    PairImage(c, l, sep, r, m[c.id], index);
  }

  lemma PairImage(c: Ctx, l: Tree, sep: Value, r: Tree, page: Page, index: nat)
    requires c.In? && |c.lkeys| == |c.left| && index == |c.left| && |c.rkeys| == |c.right|
    requires page == InnerPage(c.lkeys + c.rkeys, Roots(c.left) + [l.id] + Roots(c.right))
    ensures Image(Pair(c, l, sep, r))
         == InnerPage(page.keys[..index] + [sep] + page.keys[index..],
                      page.children[..index + 1] + [r.id] + page.children[index + 1..])
  {
    hide Stored, Flat;
    assert page.keys[..index] == c.lkeys && page.keys[index..] == c.rkeys;
    assert page.children[..index + 1] == Roots(c.left) + [l.id] && page.children[index + 1..] == Roots(c.right);
    assert Roots(Pair(c, l, sep, r).kids) == Roots(c.left) + [l.id] + [r.id] + Roots(c.right);
  }

  lemma ParentFilled(m: PageMap, root: PageId, count: nat, lo: nat, hi: nat, c: Ctx, l: Tree, sep: Value, r: Tree,
                     h: nat)
    requires Halved(m, root, count, lo, hi, c, l, sep, r, h) && c.In? && 1 <= lo
    ensures var p := Pair(c, l, sep, r);
            |p.keys| <= hi + 1 && (|p.keys| <= hi ==> FilledAt(c.outer, p, lo, hi))
  {
    PairKidsFilled(c, l, sep, r, lo, hi);
  }

  lemma IndexAt(lkeys: seq<Value>, rkeys: seq<Value>, sep: Value, index: nat)
    requires forall j :: 0 <= j < |lkeys| ==> Less(lkeys[j], sep)
    requires rkeys != [] ==> Less(sep, rkeys[0])
    requires index <= |lkeys + rkeys|
    requires forall j :: 0 <= j < index ==> !Less(sep, (lkeys + rkeys)[j])
    requires index < |lkeys + rkeys| ==> Less(sep, (lkeys + rkeys)[index])
    ensures index == |lkeys|
  {
    var keys := lkeys + rkeys;
    assert index < |lkeys| ==> keys[index] == lkeys[index];
    assert |lkeys| < |keys| ==> keys[|lkeys|] == rkeys[0];
    LessOrder(sep, if index < |keys| then keys[index] else sep, sep);
  }

  lemma NewRootStep(m: PageMap, root: PageId, count: nat, lo: nat, hi: nat, l: Tree, sep: Value, r: Tree, id: PageId,
                    h: nat)
    requires Halved(m, root, count, lo, hi, Top, l, sep, r, h) && id !in m && 1 <= hi
    ensures var t := Node(id, [sep], [l, r]);
            && Whole(m[id := Image(t)], id, count, lo, hi, t, h + 1) && Flat(t) == PairFringe(Top, l, sep, r)
            && Image(t) == InnerPage([sep], [root, r.id])
  {
    hide Focus, Pending, Good;
    var t := Node(id, [sep], [l, r]);
    NodeFlatPair(id, [sep], [l, r], 0);
    assert FlatL([], []) == [] && FlatR([sep][1..], [l, r][2..]) == [];
    RootStored(m, l, sep, r, id, h);
  }

  lemma RootStored(m: PageMap, l: Tree, sep: Value, r: Tree, id: PageId, h: nat)
    requires Pending(m, Top, l, r, h) && id !in m
    ensures Focus(m[id := Image(Node(id, [sep], [l, r]))], Top, Node(id, [sep], [l, r]), h + 1)
  {
    hide Ids;
    var t := Node(id, [sep], [l, r]);
    var m' := m[id := Image(t)];
    PutKeys(m, id, Image(t));
    RootIds(id, sep, l, r);
    assert Stored(m', l) && Stored(m', r) by {
      forall x | x in Ids(l) || x in Ids(r) ensures x in m { Once(m.Keys, Ids(l), Ids(r), x); }
      StoredFrame(m, m', l);
      StoredFrame(m, m', r);
    }
    assert t.kids[0] == l && t.kids[1] == r;
  }

  lemma RootIds(id: PageId, sep: Value, l: Tree, r: Tree)
    ensures Ids(Node(id, [sep], [l, r])) == Ids(l) + Ids(r) + multiset{id}
  {
    IdsAllPair([l, r], 0);
    assert IdsAll([]) == multiset{} && [l, r][..0] == [] && [l, r][2..] == [];
  }

  // ------------------------------------------------------------- searching

  /** First position whose key is not below `key`. */
  method LowerBound(keys: seq<Value>, key: Value) returns (lo: nat)
    requires SortedKeys(keys)
    ensures lo <= |keys|
    ensures forall j :: 0 <= j < lo ==> Less(keys[j], key)
    ensures forall j :: lo <= j < |keys| ==> !Less(keys[j], key)
  {
    lo := 0;
    var hi := |keys|;
    while lo < hi
      invariant lo <= hi <= |keys|
      invariant forall j :: 0 <= j < lo ==> Less(keys[j], key)
      invariant forall j :: hi <= j < |keys| ==> !Less(keys[j], key)
    {
      var mid := lo + (hi - lo) / 2;
      if Less(keys[mid], key) {
        forall j | 0 <= j < mid ensures Less(keys[j], key) { LessOrder(keys[j], keys[mid], key); }
        lo := mid + 1;
      } else {
        forall j | mid <= j < |keys| ensures !Less(keys[j], key) {
          if j > mid { LessOrder(keys[mid], keys[j], key); }
        }
        hi := mid;
      }
    }
  }

  /** The child to follow for `key`: the first separator above it. */
  method ChildIndex(keys: seq<Value>, key: Value) returns (index: nat)
    ensures index <= |keys|
    ensures forall j :: 0 <= j < index ==> !Less(key, keys[j])
    ensures index < |keys| ==> Less(key, keys[index])
  {
    index := 0;
    while index < |keys| && !Less(key, keys[index])
      invariant index <= |keys|
      invariant forall j :: 0 <= j < index ==> !Less(key, keys[j])
    {
      index := index + 1;
    }
  }
}
