/** Deletion from a B+ tree: dropping a key, refreshing a separator, and
    repairing an underfull node by borrowing from or merging with a sibling. */
module BTreeRebalance {
  import opened Values
  import opened BTreeShape
  import opened BTreeOrder
  import opened BTreeEdits
  import opened BTreePages
  import opened BTreeIndexing

  // ------------------------------------------------------------ dropping a key

  lemma DropKeyStep(m: PageMap, root: PageId, count: nat, lo: nat, hi: nat, c: Ctx, t: Tree, key: Value, i: nat)
    requires Loose(m, root, count, lo, hi, c, t, 0) && Fits(c, key)
    requires t.Leaf? && i < |t.keys| && t.keys[i] == key && |t.rowIds| == |t.keys|
    ensures var t' := Leaf(t.id, t.keys[..i] + t.keys[i + 1..], t.rowIds[..i] + t.rowIds[i + 1..], t.nextLeaf);
            var e := MapOf(Entries(Fringe(c, t)));
            && 1 <= count && Loose(m[t.id := Image(t')], root, count - 1, lo, hi, c, t', 0)
            && key in e && e[key] == t.rowIds[i]
            && MapOf(Entries(Fringe(c, t'))) == e - {key}
  {
    hide Ordered, Linked, Entries, MapOf, Focus, Fits, Brackets, Pre, Post, CtxFilled;
    var t' := Leaf(t.id, t.keys[..i] + t.keys[i + 1..], t.rowIds[..i] + t.rowIds[i + 1..], t.nextLeaf);
    LooseLeaf(m, root, count, lo, hi, c, t, key);
    ReplaceLeaf(m, c, t, t', 0);
    SortedRemove(t.keys, i);
    OrderedShrink(Pre(c), Tok(t), Tok(t'), Post(c));
    assert Tok(t) == WithKey(Tok(t'), i, key, t.rowIds[i]);
    KeyAdded(Pre(c), Tok(t'), i, key, t.rowIds[i], Post(c));
    LinkedReplace(Pre(c), Tok(t), Tok(t'), Post(c));
    assert Good(Fringe(c, t'), count - 1);
    DropPut(MapOf(Entries(Fringe(c, t'))), key, t.rowIds[i]);
  }

  lemma DropPut(m: map<Value, seq<RowId>>, k: Value, v: seq<RowId>)
    requires k !in m
    ensures m[k := v] - {k} == m
  {
  }

  /** The search position of `key` in the parent is the position of the hole. */
  lemma FitsIndex(c: Ctx, h: nat, m: seq<Token>, key: Value, index: nat)
    requires c.In? && CtxShaped(c, h) && Fits(c, key) && Ordered(Pre(c) + m + Post(c))
    requires index <= |c.lkeys + c.rkeys|
    requires forall j :: 0 <= j < index ==> !Less(key, (c.lkeys + c.rkeys)[j])
    requires index < |c.lkeys + c.rkeys| ==> Less(key, (c.lkeys + c.rkeys)[index])
    ensures index == |c.lkeys|
  {
    hide Ordered, Flat, FlatL, FlatR;
    var keys := c.lkeys + c.rkeys;
    FitsBrackets(c, h, m, key);
    forall j | 0 <= j < |c.lkeys| ensures LessEq(keys[j], key) {
      SepBelow(c, key, j);
      assert keys[j] == c.lkeys[j];
    }
    LessOrder(key, if index < |keys| then keys[index] else key, key);
    assert |c.lkeys| < |keys| ==> keys[|c.lkeys|] == c.rkeys[0];
  }

  lemma SepBelow(c: Ctx, key: Value, j: nat)
    requires c.In? && |c.left| == |c.lkeys| && j < |c.lkeys| && Brackets(Pre(c), key, Post(c))
    ensures LessEq(c.lkeys[j], key)
  {
    var q := FlatLHas(c.left, c.lkeys, j);
    assert Pre(c)[|Pre(c.outer)| + q] == SepTok(c.lkeys[j]);
  }

  lemma {:induction false} FlatLSnoc(kids: seq<Tree>, keys: seq<Value>, t: Tree, key: Value)
    requires |keys| == |kids|
    ensures FlatL(kids + [t], keys + [key]) == FlatL(kids, keys) + Flat(t) + [SepTok(key)]
    decreases |kids|
  {
    if kids == [] {
      assert (kids + [t])[1..] == [] && (keys + [key])[1..] == [];
    } else {
      assert (kids + [t])[1..] == kids[1..] + [t] && (keys + [key])[1..] == keys[1..] + [key];
      FlatLSnoc(kids[1..], keys[1..], t, key);
    }
  }

  ghost function Raised(c: Ctx, key: Value): Ctx
    requires c.In? && c.lkeys != []
  {
    c.(lkeys := c.lkeys[|c.lkeys| - 1 := key])
  }

  lemma RaisedPre(c: Ctx, h: nat, key: Value)
    requires c.In? && c.lkeys != [] && CtxShaped(c, h)
    ensures var n := |c.lkeys| - 1; var a := Pre(c.outer) + (FlatL(c.left[..n], c.lkeys[..n]) + Flat(c.left[n]));
            Pre(c) == a + [SepTok(c.lkeys[n])] && Pre(Raised(c, key)) == a + [SepTok(key)]
  {
    hide Flat, FlatL;
    var n, c' := |c.lkeys| - 1, Raised(c, key);
    FlatLSnoc(c.left[..n], c.lkeys[..n], c.left[n], c.lkeys[n]);
    FlatLSnoc(c.left[..n], c.lkeys[..n], c.left[n], key);
    assert c.left == c.left[..n] + [c.left[n]] && c.lkeys == c.lkeys[..n] + [c.lkeys[n]];
    assert c'.lkeys == c.lkeys[..n] + [key];
  }

  lemma FocusShaped(m: PageMap, c: Ctx, t: Tree, h: nat)
    requires Focus(m, c, t, h)
    ensures CtxShaped(c, h)
  {
  }

  /** Setting the separator in front of a leaf to the leaf's first key. */
  lemma RaiseStep(m: PageMap, root: PageId, count: nat, lo: nat, hi: nat, c: Ctx, t: Tree)
    requires Loose(m, root, count, lo, hi, c, t, 0) && t.Leaf? && t.keys != [] && c.In? && c.lkeys != []
    ensures var c' := Raised(c, t.keys[0]);
            && c.id in m && m[c.id].InnerPage? && m[c.id].keys == c.lkeys + c.rkeys
            && Loose(m[c.id := InnerPage(c'.lkeys + c'.rkeys, m[c.id].children)], root, count, lo, hi, c', t, 0)
            && Entries(Fringe(c', t)) == Entries(Fringe(c, t))
  {
    hide Ordered, Linked, Entries, Flat, FlatL, FlatR, Focus;
    var c', s, n := Raised(c, t.keys[0]), c.lkeys[|c.lkeys| - 1], |c.lkeys| - 1;
    assert CtxShaped(c, 0) by { FocusShaped(m, c, t, 0); }
    RaiseStored(m, c, t, t.keys[0]);
    var a := Pre(c.outer) + (FlatL(c.left[..n], c.lkeys[..n]) + Flat(c.left[n]));
    RaisedPre(c, 0, t.keys[0]);
    RaiseGood(a, s, t, Post(c), count);
  }

  lemma RaiseGood(a: seq<Token>, s: Value, t: Tree, b: seq<Token>, count: nat)
    requires t.Leaf? && t.keys != [] && Good((a + [SepTok(s)]) + Flat(t) + b, count)
    ensures var ts, ts' := (a + [SepTok(s)]) + Flat(t) + b, (a + [SepTok(t.keys[0])]) + Flat(t) + b;
            Good(ts', count) && Entries(ts') == Entries(ts)
  {
    var s' := t.keys[0];
    assert (a + [SepTok(s)]) + Flat(t) + b == a + [SepTok(s), Tok(t)] + b == a + [SepTok(s)] + ([Tok(t)] + b);
    assert (a + [SepTok(s')]) + Flat(t) + b == a + [SepTok(s'), Tok(t)] + b == a + [SepTok(s')] + ([Tok(t)] + b);
    OrderedRaise(a, s, Tok(t), b);
    LinkedSep(a, s, s', [Tok(t)] + b);
    assert Entries([SepTok(s)]) == Entries([SepTok(s)][1..]) == [];
    assert Entries([SepTok(s')]) == Entries([SepTok(s')][1..]) == [];
    SameEntries(a, [SepTok(s)], [SepTok(s')], [Tok(t)] + b);
  }

  lemma RaisedPut(m: PageMap, c: Ctx, t: Tree, key: Value)
    requires Focus(m, c, t, 0) && c.In? && c.lkeys != []
    ensures c.id in m && m[c.id].InnerPage? && m[c.id].keys == c.lkeys + c.rkeys
    ensures Image(Fill(Raised(c, key), t)) == InnerPage(Raised(c, key).lkeys + c.rkeys, m[c.id].children)
    ensures Focus(m[c.id := Image(Fill(Raised(c, key), t))], c.outer, Fill(Raised(c, key), t), 1)
  {
    hide Flat, IdsAll, Fringe;
    var c' := Raised(c, key);
    Ascend(m, c, t, 0);
    FillIds(c', t);
    PutNode(m, c.outer, Fill(c', t), 1);
  }

  lemma RaisedFrame(c: Ctx, t: Tree, key: Value)
    requires c.In? && c.lkeys != [] && |c.left| == |c.lkeys| && |c.right| == |c.rkeys|
    ensures var p := Fill(Raised(c, key), t);
      && |c.left| < |p.kids| == |p.keys| + 1 && p.kids[|c.left|] == t
      && Frame(c.outer, p, |c.left|) == Raised(c, key)
  {
    var c' := Raised(c, key);
    var p, n := Fill(c', t), |c.left|;
    assert p.kids[n] == t && p.kids[..n] == c.left && p.kids[n + 1..] == c.right;
    assert p.keys[..n] == c'.lkeys && p.keys[n..] == c'.rkeys;
  }

  lemma RaiseStored(m: PageMap, c: Ctx, t: Tree, key: Value)
    requires Focus(m, c, t, 0) && c.In? && c.lkeys != []
    ensures c.id in m && m[c.id].InnerPage? && m[c.id].keys == c.lkeys + c.rkeys
    ensures Focus(m[c.id := InnerPage(Raised(c, key).lkeys + c.rkeys, m[c.id].children)], Raised(c, key), t, 0)
  {
    RaisedPut(m, c, t, key);
    RaisedFrame(c, t, key);
    hide Flat, IdsAll, Fringe, Focus, Fill, Raised, Frame, Image;
    Descend(m[c.id := Image(Fill(Raised(c, key), t))], c.outer, Fill(Raised(c, key), t), 1, |c.left|);
  }

  // ------------------------------------------------------------ sibling pairs

  /** Children `i` and `i + 1` of `p` may be underfull, everything else is fine. */
  ghost predicate Sagging(m: PageMap, root: PageId, count: nat, lo: nat, hi: nat, c: Ctx, p: Tree, h: nat, i: nat) {
    && Focus(m, c, p, h)
    && RootId(c, p.id) == root
    && CtxFilled(c, lo, hi)
    && p.Node? && i < |p.keys|
    && (if c.Top? then 1 else lo) <= |p.keys| <= hi
    && (forall j :: 0 <= j < |p.kids| && j != i && j != i + 1 ==> Filled(p.kids[j], lo, hi))
    && KidsFilled(p.kids[i], lo, hi) && KidsFilled(p.kids[i + 1], lo, hi)
    && Good(Fringe(c, p), count)
  }

  lemma Sag(m: PageMap, root: PageId, count: nat, lo: nat, hi: nat, c: Ctx, t: Tree, h: nat)
    requires Loose(m, root, count, lo, hi, c, t, h) && c.In?
    ensures Fringe(c.outer, Fill(c, t)) == Fringe(c, t)
    ensures c.left != [] ==> Sagging(m, root, count, lo, hi, c.outer, Fill(c, t), h + 1, |c.left| - 1)
    ensures c.right != [] ==> Sagging(m, root, count, lo, hi, c.outer, Fill(c, t), h + 1, |c.left|)
  {
    hide Flat, Ordered, Linked, Entries;
    var p := Fill(c, t);
    Ascend(m, c, t, h);
    assert Good(Fringe(c.outer, p), count);
    assert p.kids[|c.left|] == t;
    forall j | 0 <= j < |p.kids| && j != |c.left| ensures Filled(p.kids[j], lo, hi) {
      if j > |c.left| { assert p.kids[j] == c.right[j - |c.left| - 1]; } else { assert p.kids[j] == c.left[j]; }
    }
  }

  lemma SagPages(m: PageMap, root: PageId, count: nat, lo: nat, hi: nat, c: Ctx, p: Tree, h: nat, i: nat)
    requires Sagging(m, root, count, lo, hi, c, p, h, i)
    ensures p.Node? && i < |p.keys| <= hi && |p.kids| == |p.keys| + 1 && p.id in m && m[p.id] == Image(p)
    ensures forall j :: 0 <= j < |p.kids| ==> p.kids[j].id in m && m[p.kids[j].id] == Image(p.kids[j])
    ensures p.kids[i].Leaf? <==> p.kids[i + 1].Leaf?
    ensures p.kids[i].Leaf? ==> |p.kids[i].rowIds| == |p.kids[i].keys|
    ensures p.kids[i + 1].Leaf? ==> |p.kids[i + 1].rowIds| == |p.kids[i + 1].keys|
    ensures p.kids[i].Node? ==> |p.kids[i].kids| == |p.kids[i].keys| + 1
    ensures p.kids[i + 1].Node? ==> |p.kids[i + 1].kids| == |p.kids[i + 1].keys| + 1
  {
    assert Shaped(p.kids[i], h - 1) && Shaped(p.kids[i + 1], h - 1);
    forall j | 0 <= j < |p.kids| ensures p.kids[j].id in m && m[p.kids[j].id] == Image(p.kids[j]) {
      assert Stored(m, p.kids[j]);
    }
  }

  /** Rearranging two siblings so that both are filled repairs the tree below `p`. */
  lemma PairStep(m: PageMap, root: PageId, count: nat, lo: nat, hi: nat, c: Ctx, p: Tree, h: nat, i: nat, l: Tree,
                 sep: Value, r: Tree)
    requires Sagging(m, root, count, lo, hi, c, p, h, i) && 1 <= lo
    requires l.id == p.kids[i].id && r.id == p.kids[i + 1].id
    requires Shaped(l, h - 1) && Shaped(r, h - 1) && Filled(l, lo, hi) && Filled(r, lo, hi)
    requires l.Node? ==> forall a :: 0 <= a < |l.kids| ==> Grandkid(p, i, l.kids[a])
    requires r.Node? ==> forall a :: 0 <= a < |r.kids| ==> Grandkid(p, i, r.kids[a])
    requires Ids(l) + Ids(r) == Ids(p.kids[i]) + Ids(p.kids[i + 1])
    requires Good(Fringe(c, WithPair(p, i, l, sep, r)), count)
    ensures var q := WithPair(p, i, l, sep, r);
            && Loose(m[l.id := Image(l)][r.id := Image(r)][p.id := Image(q)], root, count, lo, hi, c, q, h)
            && FilledAt(c, q, lo, hi)
  {
    hide Focus, Good, Ids, Shaped, CtxFilled;
    SagPages(m, root, count, lo, hi, c, p, h, i);
    RewritePair(m, c, p, h, i, l, sep, r);
  }

  lemma MergeStep(m: PageMap, root: PageId, count: nat, lo: nat, hi: nat, c: Ctx, p: Tree, h: nat, i: nat, x: Tree)
    requires Sagging(m, root, count, lo, hi, c, p, h, i)
    requires x.id == p.kids[i].id && Shaped(x, h - 1) && Filled(x, lo, hi)
    requires x.Node? ==> forall a :: 0 <= a < |x.kids| ==> Grandkid(p, i, x.kids[a])
    requires Ids(x) + multiset{p.kids[i + 1].id} == Ids(p.kids[i]) + Ids(p.kids[i + 1])
    requires Good(Fringe(c, WithMerged(p, i, x)), count)
    ensures var q := WithMerged(p, i, x);
            Loose(m[x.id := Image(x)][p.id := Image(q)] - {p.kids[i + 1].id}, root, count, lo, hi, c, q, h)
  {
    hide Focus, Good, Ids, Shaped, CtxFilled;
    SagPages(m, root, count, lo, hi, c, p, h, i);
    RewriteMerge(m, c, p, h, i, x);
    var q := WithMerged(p, i, x);
    forall j | 0 <= j < |q.kids| ensures Filled(q.kids[j], lo, hi) {
      if j < i { assert q.kids[j] == p.kids[j]; } else if j > i { assert q.kids[j] == p.kids[j + 1]; }
    }
  }

  // ------------------------------------------------------------ fringe of a pair

  ghost function Triple(l: Tree, s: Value, r: Tree): seq<Token> {
    Flat(l) + [SepTok(s)] + Flat(r)
  }

  ghost function JoinKeys(l: seq<Value>, s: Value, r: seq<Value>): seq<Value> {
    l + [s] + r
  }

  lemma LinkedNext(a: seq<Token>, l: Token, s: Value, r: Token, b: seq<Token>)
    requires Linked(a + [l, SepTok(s), r] + b) && l.LeafTok? && r.LeafTok?
    ensures l.nextLeaf == Some(r.id)
  {
    var ts := a + [l, SepTok(s), r] + b;
    assert ts[|a|] == l && ts[|a| + 2] == r;
  }

  /** Two neighbouring leaves fuse into one without changing what the fringe holds. */
  lemma LeavesMerge(a: seq<Token>, l: Tree, s: Value, r: Tree, b: seq<Token>, count: nat)
    requires l.Leaf? && r.Leaf? && |l.rowIds| == |l.keys| && |r.rowIds| == |r.keys|
    requires Good(a + Triple(l, s, r) + b, count)
    ensures var x := Leaf(l.id, l.keys + r.keys, l.rowIds + r.rowIds, r.nextLeaf);
            && l.nextLeaf == Some(r.id)
            && Good(a + Flat(x) + b, count)
            && Entries(a + Flat(x) + b) == Entries(a + Triple(l, s, r) + b)
  {
    var x := Leaf(l.id, l.keys + r.keys, l.rowIds + r.rowIds, r.nextLeaf);
    assert Triple(l, s, r) == [Tok(l), SepTok(s), Tok(r)];
    LinkedNext(a, Tok(l), s, Tok(r), b);
    OrderedMerge(a, Tok(l), s, Tok(r), Tok(x), b);
    LinkedMerge(a, Tok(l), s, Tok(r), Tok(x), b);
    EntriesHalves(Tok(x), Tok(l), s, Tok(r));
    SameEntries(a, [Tok(x)], [Tok(l), SepTok(s), Tok(r)], b);
  }

  /** Shifting entries between two neighbouring leaves. */
  lemma LeavesShift(a: seq<Token>, l: Tree, s: Value, r: Tree, l': Tree, r': Tree, b: seq<Token>, count: nat)
    requires l.Leaf? && r.Leaf? && |l.rowIds| == |l.keys| && |r.rowIds| == |r.keys|
    requires l'.Leaf? && r'.Leaf? && |l'.rowIds| == |l'.keys| && |r'.rowIds| == |r'.keys|
    requires l'.keys != [] && r'.keys != []
    requires l'.keys + r'.keys == l.keys + r.keys && l'.rowIds + r'.rowIds == l.rowIds + r.rowIds
    requires l'.id == l.id && r'.id == r.id && l'.nextLeaf == l.nextLeaf && r'.nextLeaf == r.nextLeaf
    requires Good(a + Triple(l, s, r) + b, count)
    ensures var ts' := a + Triple(l', r'.keys[0], r') + b;
            Good(ts', count) && Entries(ts') == Entries(a + Triple(l, s, r) + b)
  {
    LeavesMerge(a, l, s, r, b, count);
    SplitLeafGood(a, Leaf(l.id, l.keys + r.keys, l.rowIds + r.rowIds, r.nextLeaf), l', r', b, count);
  }

  /** Shifting subtrees between two neighbouring inner nodes. */
  lemma InnersShift(l: Tree, s: Value, r: Tree, l': Tree, s': Value, r': Tree)
    requires l.Node? && r.Node? && l'.Node? && r'.Node?
    requires |l.kids| == |l.keys| + 1 && |r.kids| == |r.keys| + 1
    requires |l'.kids| == |l'.keys| + 1 && |r'.kids| == |r'.keys| + 1
    requires JoinKeys(l.keys, s, r.keys) == JoinKeys(l'.keys, s', r'.keys) && l.kids + r.kids == l'.kids + r'.kids
    ensures Triple(l, s, r) == Triple(l', s', r')
  {
    InnersJoin(0, l, s, r);
    InnersJoin(0, l', s', r');
  }

  lemma InnersJoin(id: PageId, l: Tree, s: Value, r: Tree)
    requires l.Node? && r.Node? && |l.kids| == |l.keys| + 1 && |r.kids| == |r.keys| + 1
    ensures Flat(Node(id, JoinKeys(l.keys, s, r.keys), l.kids + r.kids)) == Triple(l, s, r)
  {
    var keys, kids, n := JoinKeys(l.keys, s, r.keys), l.kids + r.kids, |l.keys|;
    NodeFlatSplit(id, r.id, keys, kids, n);
    assert keys[..n] == l.keys && keys[n] == s && keys[n + 1..] == r.keys;
    assert kids[..n + 1] == l.kids && kids[n + 1..] == r.kids;
    FlatSansId(id, l);
  }

  lemma FlatSansId(id: PageId, t: Tree)
    requires t.Node?
    ensures Flat(Node(id, t.keys, t.kids)) == Flat(t)
  {
  }

  // ------------------------------------------------------------ borrow and merge

  ghost predicate SameLeaves(l: Tree, r: Tree, l': Tree, r': Tree) {
    && l.Leaf? && r.Leaf? && l'.Leaf? && r'.Leaf?
    && |l'.rowIds| == |l'.keys| && |r'.rowIds| == |r'.keys|
    && l'.keys + r'.keys == l.keys + r.keys && l'.rowIds + r'.rowIds == l.rowIds + r.rowIds
    && l'.id == l.id && r'.id == r.id && l'.nextLeaf == l.nextLeaf && r'.nextLeaf == r.nextLeaf
  }

  /** Moving an entry between two leaves so that both are filled. */
  lemma LeafPairStep(m: PageMap, root: PageId, count: nat, lo: nat, hi: nat, c: Ctx, p: Tree, h: nat, i: nat, l: Tree,
                     r: Tree)
    requires Sagging(m, root, count, lo, hi, c, p, h, i) && 1 <= lo
    requires SameLeaves(p.kids[i], p.kids[i + 1], l, r)
    requires lo <= |l.keys| <= hi && lo <= |r.keys| <= hi
    ensures var q := WithPair(p, i, l, r.keys[0], r);
            && Loose(m[l.id := Image(l)][r.id := Image(r)][p.id := Image(q)], root, count, lo, hi, c, q, h)
            && FilledAt(c, q, lo, hi)
            && Entries(Fringe(c, q)) == Entries(Fringe(c, p))
  {
    hide Ordered, Linked, Entries, Focus;
    SagPages(m, root, count, lo, hi, c, p, h, i);
    var a, b := Pre(c) + FlatL(p.kids[..i], p.keys[..i]), FlatR(p.keys[i + 1..], p.kids[i + 2..]) + Post(c);
    var q := WithPair(p, i, l, r.keys[0], r);
    SamePair(p, i);
    WithPairFringe(c, p, i, p.kids[i], p.keys[i], p.kids[i + 1]);
    WithPairFringe(c, p, i, l, r.keys[0], r);
    LeavesShift(a, p.kids[i], p.keys[i], p.kids[i + 1], l, r, b, count);
    LeafHeight(m, c, p, h, i, l, r);
    PairStep(m, root, count, lo, hi, c, p, h, i, l, r.keys[0], r);
  }

  lemma LeafHeight(m: PageMap, c: Ctx, p: Tree, h: nat, i: nat, l: Tree, r: Tree)
    requires Focus(m, c, p, h) && p.Node? && i < |p.keys|
    requires SameLeaves(p.kids[i], p.kids[i + 1], l, r)
    ensures Shaped(l, h - 1) && Shaped(r, h - 1)
    ensures Ids(l) + Ids(r) == Ids(p.kids[i]) + Ids(p.kids[i + 1])
  {
    assert Shaped(p.kids[i], h - 1);
  }

  lemma SamePair(p: Tree, i: nat)
    requires p.Node? && |p.kids| == |p.keys| + 1 && i < |p.keys|
    ensures WithPair(p, i, p.kids[i], p.keys[i], p.kids[i + 1]) == p
  {
    assert p.keys[i := p.keys[i]] == p.keys;
    assert p.kids[i := p.kids[i]][i + 1 := p.kids[i + 1]] == p.kids;
  }

  ghost predicate SameInners(l: Tree, s: Value, r: Tree, l': Tree, s': Value, r': Tree) {
    && l.Node? && r.Node? && l'.Node? && r'.Node?
    && |l'.kids| == |l'.keys| + 1 && |r'.kids| == |r'.keys| + 1
    && JoinKeys(l.keys, s, r.keys) == JoinKeys(l'.keys, s', r'.keys) && l.kids + r.kids == l'.kids + r'.kids
    && l'.id == l.id && r'.id == r.id
  }

  /** Subtrees that moved between siblings are still well shaped, filled and accounted for. */
  lemma InnerMoved(m: PageMap, root: PageId, count: nat, lo: nat, hi: nat, c: Ctx, p: Tree, h: nat, i: nat, s': Value,
                   l: Tree, r: Tree)
    requires Sagging(m, root, count, lo, hi, c, p, h, i)
    requires SameInners(p.kids[i], p.keys[i], p.kids[i + 1], l, s', r)
    ensures Shaped(l, h - 1) && Shaped(r, h - 1) && KidsFilled(l, lo, hi) && KidsFilled(r, lo, hi)
    ensures forall a :: 0 <= a < |l.kids| ==> Grandkid(p, i, l.kids[a])
    ensures forall a :: 0 <= a < |r.kids| ==> Grandkid(p, i, r.kids[a])
    ensures Ids(l) + Ids(r) == Ids(p.kids[i]) + Ids(p.kids[i + 1])
  {
    hide Good, Stored, CtxStored, CtxShaped, CtxFilled, Ids;
    InnerIds(p.kids[i], p.keys[i], p.kids[i + 1], l, s', r);
    var x, y := p.kids[i], p.kids[i + 1];
    assert Shaped(x, h - 1) && Shaped(y, h - 1);
    forall t | t in x.kids + y.kids ensures h >= 2 && Shaped(t, h - 2) && Filled(t, lo, hi) && Grandkid(p, i, t) {
    }
    forall a | 0 <= a < |l.kids|
      ensures Shaped(l.kids[a], h - 2) && Filled(l.kids[a], lo, hi) && Grandkid(p, i, l.kids[a])
    {
      assert l.kids[a] == (l.kids + r.kids)[a];
    }
    forall a | 0 <= a < |r.kids|
      ensures Shaped(r.kids[a], h - 2) && Filled(r.kids[a], lo, hi) && Grandkid(p, i, r.kids[a])
    {
      assert r.kids[a] == (l.kids + r.kids)[|l.kids| + a];
    }
  }

  lemma InnerIds(x: Tree, s: Value, y: Tree, l: Tree, s': Value, r: Tree)
    requires SameInners(x, s, y, l, s', r)
    ensures Ids(l) + Ids(r) == Ids(x) + Ids(y)
  {
    IdsAllConcat(l.kids, r.kids);
    IdsAllConcat(x.kids, y.kids);
    TwoRoots(multiset{x.id}, IdsAll(x.kids), multiset{y.id}, IdsAll(y.kids), IdsAll(l.kids), IdsAll(r.kids));
  }

  lemma TwoRoots(i: multiset<PageId>, x: multiset<PageId>, j: multiset<PageId>, y: multiset<PageId>,
                 l: multiset<PageId>, r: multiset<PageId>)
    requires x + y == l + r
    ensures (i + l) + (j + r) == (i + x) + (j + y)
  {
    assert (i + l) + (j + r) == i + j + (l + r);
    assert (i + x) + (j + y) == i + j + (x + y);
  }

  /** Moving a subtree between two inner nodes so that both are filled. */
  lemma InnerPairStep(m: PageMap, root: PageId, count: nat, lo: nat, hi: nat, c: Ctx, p: Tree, h: nat, i: nat, l: Tree,
                      s: Value, r: Tree)
    requires Sagging(m, root, count, lo, hi, c, p, h, i) && 1 <= lo
    requires SameInners(p.kids[i], p.keys[i], p.kids[i + 1], l, s, r)
    requires lo <= |l.keys| <= hi && lo <= |r.keys| <= hi
    ensures var q := WithPair(p, i, l, s, r);
            && Loose(m[l.id := Image(l)][r.id := Image(r)][p.id := Image(q)], root, count, lo, hi, c, q, h)
            && FilledAt(c, q, lo, hi)
            && Fringe(c, q) == Fringe(c, p)
  {
    hide Ordered, Linked, Entries, Flat;
    SagPages(m, root, count, lo, hi, c, p, h, i);
    InnerMoved(m, root, count, lo, hi, c, p, h, i, s, l, r);
    SamePair(p, i);
    WithPairFringe(c, p, i, p.kids[i], p.keys[i], p.kids[i + 1]);
    WithPairFringe(c, p, i, l, s, r);
    InnersShift(p.kids[i], p.keys[i], p.kids[i + 1], l, s, r);
    PairStep(m, root, count, lo, hi, c, p, h, i, l, s, r);
  }

  ghost function MergedLeaf(l: Tree, r: Tree): Tree
    requires l.Leaf? && r.Leaf?
  {
    Leaf(l.id, l.keys + r.keys, l.rowIds + r.rowIds, r.nextLeaf)
  }

  ghost function MergedInner(l: Tree, s: Value, r: Tree): Tree
    requires l.Node? && r.Node?
  {
    Node(l.id, l.keys + [s] + r.keys, l.kids + r.kids)
  }

  lemma LeafMergeStep(m: PageMap, root: PageId, count: nat, lo: nat, hi: nat, c: Ctx, p: Tree, h: nat, i: nat)
    requires Sagging(m, root, count, lo, hi, c, p, h, i) && p.kids[i].Leaf? && p.kids[i + 1].Leaf?
    requires lo <= |p.kids[i].keys| + |p.kids[i + 1].keys| <= hi
    ensures var x := MergedLeaf(p.kids[i], p.kids[i + 1]); var q := WithMerged(p, i, x);
            && Loose(m[x.id := Image(x)][p.id := Image(q)] - {p.kids[i + 1].id}, root, count, lo, hi, c, q, h)
            && Entries(Fringe(c, q)) == Entries(Fringe(c, p))
  {
    hide Ordered, Linked, Entries, Focus;
    SagPages(m, root, count, lo, hi, c, p, h, i);
    var l, r := p.kids[i], p.kids[i + 1];
    var x := MergedLeaf(l, r);
    var a, b := Pre(c) + FlatL(p.kids[..i], p.keys[..i]), FlatR(p.keys[i + 1..], p.kids[i + 2..]) + Post(c);
    SamePair(p, i);
    WithPairFringe(c, p, i, l, p.keys[i], r);
    WithMergedFringe(c, p, i, x);
    LeavesMerge(a, l, p.keys[i], r, b, count);
    LeafHeight(m, c, p, h, i, l, r);
    MergeStep(m, root, count, lo, hi, c, p, h, i, x);
  }

  lemma InnerMergeStep(m: PageMap, root: PageId, count: nat, lo: nat, hi: nat, c: Ctx, p: Tree, h: nat, i: nat)
    requires Sagging(m, root, count, lo, hi, c, p, h, i) && p.kids[i].Node? && p.kids[i + 1].Node?
    requires lo <= |p.kids[i].keys| + 1 + |p.kids[i + 1].keys| <= hi
    ensures var x := MergedInner(p.kids[i], p.keys[i], p.kids[i + 1]); var q := WithMerged(p, i, x);
            && Loose(m[x.id := Image(x)][p.id := Image(q)] - {p.kids[i + 1].id}, root, count, lo, hi, c, q, h)
            && Fringe(c, q) == Fringe(c, p)
  {
    hide Ordered, Linked, Entries, Flat;
    SagPages(m, root, count, lo, hi, c, p, h, i);
    var l, r := p.kids[i], p.kids[i + 1];
    var x := MergedInner(l, p.keys[i], r);
    InnerMoved(m, root, count, lo, hi, c, p, h, i, p.keys[i], l, r);
    MergedInnerOk(p, h, i, lo, hi);
    SamePair(p, i);
    WithPairFringe(c, p, i, l, p.keys[i], r);
    WithMergedFringe(c, p, i, x);
    InnersJoin(l.id, l, p.keys[i], r);
    MergeStep(m, root, count, lo, hi, c, p, h, i, x);
  }

  lemma MergedInnerOk(p: Tree, h: nat, i: nat, lo: nat, hi: nat)
    requires p.Node? && |p.kids| == |p.keys| + 1 && i < |p.keys| && h >= 1
    requires p.kids[i].Node? && p.kids[i + 1].Node?
    requires Shaped(p.kids[i], h - 1) && Shaped(p.kids[i + 1], h - 1)
    requires KidsFilled(p.kids[i], lo, hi) && KidsFilled(p.kids[i + 1], lo, hi)
    ensures var x := MergedInner(p.kids[i], p.keys[i], p.kids[i + 1]);
            && Shaped(x, h - 1) && KidsFilled(x, lo, hi)
            && (forall a :: 0 <= a < |x.kids| ==> Grandkid(p, i, x.kids[a]))
            && Ids(x) + multiset{p.kids[i + 1].id} == Ids(p.kids[i]) + Ids(p.kids[i + 1])
  {
    var l, r := p.kids[i], p.kids[i + 1];
    IdsAllConcat(l.kids, r.kids);
  }

  // ------------------------------------------------------------ around one leaf

  lemma PathLength(c: Ctx)
    ensures |PathIds(c)| == Depth(c)
    ensures c.In? ==>
      |PathIds(c)| >= 1 && PathIds(c)[|PathIds(c)| - 1] == c.id && PathIds(c)[..|PathIds(c)| - 1] == PathIds(c.outer)
  {
  }

  lemma AbsentKey(m: PageMap, root: PageId, count: nat, lo: nat, hi: nat, c: Ctx, t: Tree, key: Value, i: nat)
    requires Loose(m, root, count, lo, hi, c, t, 0) && Fits(c, key)
    requires t.Leaf? && i <= |t.keys| && (i < |t.keys| ==> t.keys[i] != key)
    requires forall j :: 0 <= j < i ==> Less(t.keys[j], key)
    requires forall j :: i <= j < |t.keys| ==> !Less(t.keys[j], key)
    ensures key !in MapOf(Entries(Fringe(c, t)))
  {
    LooseLeaf(m, root, count, lo, hi, c, t, key);
    forall j | 0 <= j < |t.keys| ensures t.keys[j] != key {
      LessOrder(key, key, key);
      if j > i { LessOrder(t.keys[i], t.keys[j], key); }
    }
    NotElsewhere(Pre(c), Tok(t), Post(c), key);
  }

  lemma LooseParent(m: PageMap, root: PageId, count: nat, lo: nat, hi: nat, c: Ctx, t: Tree, h: nat)
    requires Loose(m, root, count, lo, hi, c, t, h) && c.In?
    ensures c.id in m && m[c.id] == InnerPage(c.lkeys + c.rkeys, Roots(c.left) + [t.id] + Roots(c.right))
    ensures |c.lkeys| == |c.left| && |c.rkeys| == |c.right|
  {
  }

  lemma LooseIndex(m: PageMap, root: PageId, count: nat, lo: nat, hi: nat, c: Ctx, t: Tree, key: Value, index: nat)
    requires Loose(m, root, count, lo, hi, c, t, 0) && c.In? && Fits(c, key)
    requires index <= |c.lkeys + c.rkeys|
    requires forall j :: 0 <= j < index ==> !Less(key, (c.lkeys + c.rkeys)[j])
    requires index < |c.lkeys + c.rkeys| ==> Less(key, (c.lkeys + c.rkeys)[index])
    ensures index == |c.lkeys|
  {
    FitsIndex(c, 0, Flat(t), key, index);
  }

  lemma RaisedKeys(c: Ctx, key: Value)
    requires c.In? && c.lkeys != []
    ensures Raised(c, key).lkeys + c.rkeys == (c.lkeys + c.rkeys)[|c.lkeys| - 1 := key]
    ensures PathIds(Raised(c, key)) == PathIds(c)
  {
  }

  /** What the parent frame says about the siblings of the hole. */
  lemma Siblings(m: PageMap, root: PageId, count: nat, lo: nat, hi: nat, c: Ctx, t: Tree, h: nat)
    requires Loose(m, root, count, lo, hi, c, t, h) && c.In? && 1 <= lo
    ensures forall j ::
      0 <= j < |c.left| ==> c.left[j].id != t.id && c.left[j].id in m && m[c.left[j].id] == Image(c.left[j])
    ensures forall j :: 0 <= j < |c.right| ==> c.right[j].id in m && m[c.right[j].id] == Image(c.right[j])
    ensures forall j :: 0 <= j < |c.left| ==> (c.left[j].Leaf? <==> t.Leaf?) && lo <= |c.left[j].keys| <= hi
    ensures forall j :: 0 <= j < |c.right| ==> (c.right[j].Leaf? <==> t.Leaf?) && lo <= |c.right[j].keys| <= hi
    ensures 1 <= |c.lkeys| + |c.rkeys| <= hi && (c.outer.In? ==> lo <= |c.lkeys| + |c.rkeys|)
    ensures Fill(c, t).id == c.id && |Fill(c, t).keys| == |c.lkeys| + |c.rkeys| && Fill(c, t).kids[|c.left|] == t
    ensures forall j :: 0 <= j < |c.left| ==> Fill(c, t).kids[j] == c.left[j]
    ensures forall j :: 0 <= j < |c.right| ==> Fill(c, t).kids[|c.left| + 1 + j] == c.right[j]
  {
    hide Ordered, Linked, Entries, Flat;
    forall j | 0 <= j < |c.left|
      ensures c.left[j].id != t.id && c.left[j].id in m && m[c.left[j].id] == Image(c.left[j])
      ensures (c.left[j].Leaf? <==> t.Leaf?) && lo <= |c.left[j].keys| <= hi
    {
      assert Stored(m, c.left[j]) && Shaped(c.left[j], h) && Filled(c.left[j], lo, hi);
      RootInIds(c.left[j]);
      IdsAllMember(c.left, j);
      Once(m.Keys, CtxIds(c), Ids(t), c.left[j].id);
    }
    forall j | 0 <= j < |c.right|
      ensures c.right[j].id in m && m[c.right[j].id] == Image(c.right[j])
      ensures (c.right[j].Leaf? <==> t.Leaf?) && lo <= |c.right[j].keys| <= hi
    {
      assert Stored(m, c.right[j]) && Shaped(c.right[j], h) && Filled(c.right[j], lo, hi);
    }
  }

  lemma Neighbours(c: Ctx, id: PageId)
    requires c.In?
    ensures var ids, n := Roots(c.left) + [id] + Roots(c.right), |c.left|;
            && |ids| == n + 1 + |c.right|
            && (n > 0 ==> ids[n - 1] == c.left[n - 1].id)
            && (c.right != [] ==> ids[n + 1] == c.right[0].id)
  {
  }

  lemma HoleIndex(c: Ctx, id: PageId, index: nat)
    requires c.In? && forall j :: 0 <= j < |c.left| ==> c.left[j].id != id
    requires var ids := Roots(c.left) + [id] + Roots(c.right);
             index <= |ids| && (index < |ids| ==> ids[index] == id) && id !in ids[..index]
    ensures index == |c.left|
  {
    var ids := Roots(c.left) + [id] + Roots(c.right);
    assert ids[|c.left|] == id;
    assert forall j :: 0 <= j < |c.left| ==> ids[j] == c.left[j].id;
    assert forall j :: 0 <= j < index ==> ids[j] in ids[..index];
  }

  lemma MergedRoots(p: Tree, i: nat, x: Tree)
    requires p.Node? && |p.kids| == |p.keys| + 1 && i < |p.keys| && x.id == p.kids[i].id
    ensures Roots(WithMerged(p, i, x).kids) == Roots(p.kids)[..i + 1] + Roots(p.kids)[i + 2..]
  {
  }

  /** Once the focus is filled, or is itself the root, only the root may still be too small. */
  lemma Settle(m: PageMap, root: PageId, count: nat, lo: nat, hi: nat, c: Ctx, t: Tree, h: nat)
    requires Loose(m, root, count, lo, hi, c, t, h) && 1 <= lo && |t.keys| <= hi
    requires c.In? ==> FilledAt(c, t, lo, hi)
    ensures Loose(m, root, count, lo, hi, Top, Plug(c, t), h + Depth(c)) && |Plug(c, t).keys| <= hi
    ensures Fringe(Top, Plug(c, t)) == Fringe(c, t)
  {
    hide Ordered, Linked, Entries, Flat, Focus, Loose;
    if c.In? {
      CloseUp(m, root, count, lo, hi, c, t, h);
      OpenUp(m, root, count, lo, hi, Plug(c, t), h + Depth(c));
    }
  }

  lemma RootOfLoose(m: PageMap, root: PageId, count: nat, lo: nat, hi: nat, t: Tree, h: nat)
    requires Loose(m, root, count, lo, hi, Top, t, h)
    ensures t.id == root && KidsFilled(t, lo, hi)
  {
  }

  /** A root with a single child gives way to that child. */
  lemma CollapseStep(m: PageMap, root: PageId, count: nat, lo: nat, hi: nat, t: Tree, h: nat)
    requires Loose(m, root, count, lo, hi, Top, t, h) && t.Node? && |t.kids| == 1 && 1 <= lo
    ensures Whole(m - {root}, t.kids[0].id, count, lo, hi, t.kids[0], h - 1)
    ensures Flat(t.kids[0]) == Fringe(Top, t)
  {
    hide Ordered, Linked, Entries;
    var k := t.kids[0];
    assert Flat(t) == Flat(k) + FlatR(t.keys, t.kids[1..]);
    assert Fringe(Top, t) == Flat(k);
    CollapseStored(m, t, h);
    assert Filled(k, lo, hi);
    assert Good(Flat(k), count);
  }

  lemma CollapseStored(m: PageMap, t: Tree, h: nat)
    requires Focus(m, Top, t, h) && t.Node? && |t.kids| == 1
    ensures Focus(m - {t.id}, Top, t.kids[0], h - 1)
  {
    var k := t.kids[0];
    assert IdsAll(t.kids) == Ids(k) + IdsAll(t.kids[1..]) && t.kids[1..] == [];
    assert Ids(t) == multiset{t.id} + Ids(k);
    forall id | id in Ids(k) ensures id in m && id != t.id { Once(m.Keys, multiset{t.id}, Ids(k), id); }
    StoredFrame(m, m - {t.id}, k);
    DropKey(m, t.id);
    DropOne(multiset{}, Ids(k), multiset{t.id}, multiset((m - {t.id}).Keys));
  }
}
