/** The page-map rewrites of a B+ tree: replacing a leaf, splitting a node,
    moving entries between siblings, merging siblings. */
module BTreePages {
  import opened Values
  import opened BTreeShape

  /** `t`, at height `h`, sits in the hole of `c`, and the page map holds exactly that tree. */
  ghost predicate Focus(m: PageMap, c: Ctx, t: Tree, h: nat) {
    && CtxStored(m, c, t.id) && Stored(m, t)
    && CtxShaped(c, h) && Shaped(t, h)
    && CtxIds(c) + Ids(t) == multiset(m.Keys)
  }

  /** As `Focus`, with a new right sibling `r` of `l` that no parent refers to yet. */
  ghost predicate Pending(m: PageMap, c: Ctx, l: Tree, r: Tree, h: nat) {
    && CtxStored(m, c, l.id) && Stored(m, l) && Stored(m, r)
    && CtxShaped(c, h) && Shaped(l, h) && Shaped(r, h)
    && CtxIds(c) + Ids(l) + Ids(r) == multiset(m.Keys)
  }

  ghost function Fringe(c: Ctx, t: Tree): seq<Token> {
    Pre(c) + Flat(t) + Post(c)
  }

  ghost function PairFringe(c: Ctx, l: Tree, sep: Value, r: Tree): seq<Token> {
    Pre(c) + (Flat(l) + [SepTok(sep)] + Flat(r)) + Post(c)
  }

  lemma Once(keys: set<PageId>, a: multiset<PageId>, b: multiset<PageId>, id: PageId)
    requires a + b == multiset(keys)
    ensures a[id] + b[id] <= 1
    ensures id in a || id in b <==> id in keys
  {
    assert (a + b)[id] == multiset(keys)[id];
    assert multiset(keys)[id] <= 1;
  }

  /** No page is reachable through two different children. */
  lemma {:induction false} KidsDisjoint(ts: seq<Tree>, i: nat, j: nat, id: PageId)
    requires i < j < |ts| && id in Ids(ts[i]) && id in Ids(ts[j])
    ensures IdsAll(ts)[id] >= 2
    decreases i
  {
    assert IdsAll(ts)[id] == Ids(ts[0])[id] + IdsAll(ts[1..])[id];
    if i == 0 {
      IdsAllMember(ts[1..], j - 1);
    } else {
      KidsDisjoint(ts[1..], i - 1, j - 1, id);
    }
  }

  /** The frames around `t` do not change when only pages of `t` are written. */
  lemma FramesKept(m: PageMap, m': PageMap, c: Ctx, t: Tree, h: nat)
    requires Focus(m, c, t, h)
    requires forall id :: id in m && id !in Ids(t) ==> id in m' && m'[id] == m[id]
    ensures CtxStored(m', c, t.id)
  {
    forall id | id in CtxIds(c) ensures id in m' && id in m && m'[id] == m[id] {
      Once(m.Keys, CtxIds(c), Ids(t), id);
    }
    CtxStoredFrame(m, m', c, t.id);
  }

  lemma PutKeys(m: PageMap, id: PageId, page: Page)
    ensures id in m ==> m[id := page].Keys == m.Keys
    ensures id !in m ==> multiset(m[id := page].Keys) == multiset(m.Keys) + multiset{id}
  {
    if id !in m {
      assert m[id := page].Keys == m.Keys + {id};
    }
  }

  /** A rewrite below `p` that keeps its page id leaves the rest of the tree as it was. */
  lemma Refocus(m: PageMap, m': PageMap, c: Ctx, p: Tree, p': Tree, h: nat)
    requires Focus(m, c, p, h)
    requires p'.id == p.id && Stored(m', p') && Shaped(p', h)
    requires CtxIds(c) + Ids(p') == multiset(m'.Keys)
    requires forall id :: id in m && id !in Ids(p) ==> id in m' && m'[id] == m[id]
    ensures Focus(m', c, p', h)
  {
    FramesKept(m, m', c, p, h);
  }

  lemma ReplaceLeaf(m: PageMap, c: Ctx, t: Tree, t': Tree, h: nat)
    requires Focus(m, c, t, h) && t.Leaf? && t'.Leaf? && t'.id == t.id && |t'.rowIds| == |t'.keys|
    ensures Focus(m[t.id := Image(t')], c, t', h)
  {
    PutKeys(m, t.id, Image(t'));
    Refocus(m, m[t.id := Image(t')], c, t, t', h);
  }

  lemma FillIds(c: Ctx, t: Tree)
    requires c.In?
    ensures CtxIds(c.outer) + Ids(Fill(c, t)) == CtxIds(c) + Ids(t)
  {
    IdsAllConcat(c.left + [t], c.right);
    IdsAllConcat(c.left, [t]);
    assert IdsAll([t]) == Ids(t) + IdsAll([t][1..]);
  }

  lemma FillStored(m: PageMap, c: Ctx, t: Tree)
    requires c.In? && CtxStored(m, c, t.id) && Stored(m, t)
    ensures Stored(m, Fill(c, t))
  {
    var f := Fill(c, t);
    assert Roots(f.kids) == Roots(c.left) + [t.id] + Roots(c.right);
  }

  lemma FillFringe(c: Ctx, t: Tree)
    requires c.In? && |c.lkeys| == |c.left| && |c.rkeys| == |c.right|
    ensures Fringe(c.outer, Fill(c, t)) == Fringe(c, t)
  {
    FillFlat(c, t);
    Regroup(Pre(c.outer), FlatL(c.left, c.lkeys), Flat(t), FlatR(c.rkeys, c.right), Post(c.outer));
  }

  lemma Ascend(m: PageMap, c: Ctx, t: Tree, h: nat)
    requires Focus(m, c, t, h) && c.In?
    ensures Focus(m, c.outer, Fill(c, t), h + 1)
    ensures Fringe(c.outer, Fill(c, t)) == Fringe(c, t)
  {
    hide Fringe, Ids, CtxIds, Stored;
    FillIds(c, t);
    FillStored(m, c, t);
    FillFringe(c, t);
  }

  lemma Descend(m: PageMap, c: Ctx, p: Tree, h: nat, i: nat)
    requires Focus(m, c, p, h) && p.Node? && i < |p.kids|
    ensures Focus(m, Frame(c, p, i), p.kids[i], h - 1)
    ensures Fringe(Frame(c, p, i), p.kids[i]) == Fringe(c, p)
  {
    FrameFill(c, p, i);
    FrameStored(m, c, p, i);
    FillFringe(Frame(c, p, i), p.kids[i]);
  }

  lemma SplitLeafPage(m: PageMap, c: Ctx, t: Tree, l: Tree, r: Tree, h: nat)
    requires Focus(m, c, t, h) && t.Leaf? && l.Leaf? && r.Leaf?
    requires l.id == t.id && r.id !in m && |l.rowIds| == |l.keys| && |r.rowIds| == |r.keys|
    ensures Pending(m[t.id := Image(l)][r.id := Image(r)], c, l, r, h)
  {
    PutKeys(m, t.id, Image(l));
    PutKeys(m[t.id := Image(l)], r.id, Image(r));
    FramesKept(m, m[t.id := Image(l)][r.id := Image(r)], c, t, h);
  }

  /** The children of `p` are untouched by writes to fresh pages and to `p` itself. */
  lemma KidStored(m: PageMap, m': PageMap, c: Ctx, p: Tree, h: nat, i: nat)
    requires Focus(m, c, p, h) && p.Node? && i < |p.kids|
    requires forall id :: id in m && id != p.id ==> id in m' && m'[id] == m[id]
    ensures Stored(m', p.kids[i])
  {
    IdsAllMember(p.kids, i);
    forall id | id in Ids(p.kids[i]) ensures id in m' && id in m && m'[id] == m[id] {
      Once(m.Keys, CtxIds(c), Ids(p), id);
    }
    StoredFrame(m, m', p.kids[i]);
  }

  lemma SplitInnerPage(m: PageMap, c: Ctx, t: Tree, i: nat, rid: PageId, h: nat)
    requires Focus(m, c, t, h) && t.Node? && i < |t.keys| && rid !in m
    ensures var l, r := Node(t.id, t.keys[..i], t.kids[..i + 1]), Node(rid, t.keys[i + 1..], t.kids[i + 1..]);
            && Pending(m[t.id := Image(l)][rid := Image(r)], c, l, r, h)
            && PairFringe(c, l, t.keys[i], r) == Fringe(c, t)
  {
    hide Flat, IdsAll, CtxStored;
    var l, r := Node(t.id, t.keys[..i], t.kids[..i + 1]), Node(rid, t.keys[i + 1..], t.kids[i + 1..]);
    var m' := m[t.id := Image(l)][rid := Image(r)];
    PutKeys(m, t.id, Image(l));
    PutKeys(m[t.id := Image(l)], rid, Image(r));
    SplitIds(t, i, rid);
    assert CtxIds(c) + Ids(l) + Ids(r) == CtxIds(c) + (Ids(l) + Ids(r)) == (CtxIds(c) + Ids(t)) + multiset{rid};
    FramesKept(m, m', c, t, h);
    forall j | 0 <= j < |t.kids| ensures Stored(m', t.kids[j]) { KidStored(m, m', c, t, h, j); }
    NodeFlatSplit(t.id, rid, t.keys, t.kids, i);
  }

  lemma SplitIds(t: Tree, i: nat, rid: PageId)
    requires t.Node? && |t.kids| == |t.keys| + 1 && i < |t.keys|
    ensures Ids(Node(t.id, t.keys[..i], t.kids[..i + 1])) + Ids(Node(rid, t.keys[i + 1..], t.kids[i + 1..]))
         == Ids(t) + multiset{rid}
  {
    IdsAllConcat(t.kids[..i + 1], t.kids[i + 1..]);
    assert t.kids[..i + 1] + t.kids[i + 1..] == t.kids;
  }

  ghost function Pair(c: Ctx, l: Tree, sep: Value, r: Tree): Tree
    requires c.In?
  {
    Node(c.id, c.lkeys + [sep] + c.rkeys, c.left + [l, r] + c.right)
  }

  lemma PairIds(c: Ctx, l: Tree, sep: Value, r: Tree)
    requires c.In?
    ensures CtxIds(c.outer) + Ids(Pair(c, l, sep, r)) == CtxIds(c) + Ids(l) + Ids(r)
  {
    var kids := c.left + [l, r] + c.right;
    IdsAllPair(kids, |c.left|);
    assert kids[..|c.left|] == c.left && kids[|c.left| + 2..] == c.right;
    Shuffle(CtxIds(c.outer), multiset{c.id}, IdsAll(c.left), Ids(l), Ids(r), IdsAll(c.right));
  }

  lemma Shuffle(o: multiset<PageId>, i: multiset<PageId>, a: multiset<PageId>, l: multiset<PageId>,
                r: multiset<PageId>, b: multiset<PageId>)
    ensures o + (i + (a + l + r + b)) == i + a + b + o + l + r
  {
  }

  lemma PairFringeFlat(c: Ctx, l: Tree, sep: Value, r: Tree)
    requires c.In? && |c.lkeys| == |c.left| && |c.rkeys| == |c.right|
    ensures Fringe(c.outer, Pair(c, l, sep, r)) == PairFringe(c, l, sep, r)
  {
    var p := Pair(c, l, sep, r);
    var n := |c.left|;
    NodeFlatPair(p.id, p.keys, p.kids, n);
    assert p.kids[..n] == c.left && p.kids[n + 2..] == c.right && p.kids[n] == l && p.kids[n + 1] == r;
    assert p.keys[..n] == c.lkeys && p.keys[n + 1..] == c.rkeys && p.keys[n] == sep;
    Regroup(Pre(c.outer), FlatL(c.left, c.lkeys), Flat(l) + [SepTok(sep)] + Flat(r),
            FlatR(c.rkeys, c.right), Post(c.outer));
  }

  /** Writing a parent's page does not disturb its children. */
  lemma PutParent(m: PageMap, m': PageMap, rest: multiset<PageId>, p: Tree, i: nat)
    requires p.Node? && i < |p.kids| && Stored(m, p.kids[i]) && rest + Ids(p) == multiset(m.Keys)
    requires forall id :: id in m && id != p.id ==> id in m' && m'[id] == m[id]
    ensures Stored(m', p.kids[i])
  {
    IdsAllMember(p.kids, i);
    forall id | id in Ids(p.kids[i]) ensures id in m' && id in m && m'[id] == m[id] {
      Once(m.Keys, rest, Ids(p), id);
    }
    StoredFrame(m, m', p.kids[i]);
  }

  /** Writing the page of a node whose children and surroundings are already in place. */
  lemma PutNode(m: PageMap, o: Ctx, p: Tree, h: nat)
    requires p.Node? && Shaped(p, h) && CtxShaped(o, h) && CtxStored(m, o, p.id)
    requires CtxIds(o) + Ids(p) == multiset(m.Keys)
    requires forall i :: 0 <= i < |p.kids| ==> Stored(m, p.kids[i])
    ensures Focus(m[p.id := Image(p)], o, p, h)
  {
    hide IdsAll, CtxIds;
    var m' := m[p.id := Image(p)];
    Once(m.Keys, CtxIds(o), Ids(p), p.id);
    PutKeys(m, p.id, Image(p));
    forall i | 0 <= i < |p.kids| ensures Stored(m', p.kids[i]) { PutParent(m, m', CtxIds(o), p, i); }
    forall id | id in CtxIds(o) ensures id in m' && id in m && m'[id] == m[id] {
      Once(m.Keys, CtxIds(o), Ids(p), id);
    }
    CtxStoredFrame(m, m', o, p.id);
  }

  /** Hooking a pending sibling and its separator into the parent. */
  lemma AttachSibling(m: PageMap, c: Ctx, l: Tree, sep: Value, r: Tree, h: nat)
    requires Pending(m, c, l, r, h) && c.In?
    ensures Focus(m[c.id := Image(Pair(c, l, sep, r))], c.outer, Pair(c, l, sep, r), h + 1)
    ensures Fringe(c.outer, Pair(c, l, sep, r)) == PairFringe(c, l, sep, r)
  {
    var p := Pair(c, l, sep, r);
    PairIds(c, l, sep, r);
    PairFringeFlat(c, l, sep, r);
    forall i | 0 <= i < |p.kids| ensures Stored(m, p.kids[i]) && Shaped(p.kids[i], h) {
      PairKid(m, c, l, sep, r, h, i);
    }
    PutNode(m, c.outer, p, h + 1);
  }

  lemma PairKid(m: PageMap, c: Ctx, l: Tree, sep: Value, r: Tree, h: nat, i: nat)
    requires Pending(m, c, l, r, h) && c.In? && i < |Pair(c, l, sep, r).kids|
    ensures Stored(m, Pair(c, l, sep, r).kids[i]) && Shaped(Pair(c, l, sep, r).kids[i], h)
  {
    if i >= |c.left| + 2 { assert Pair(c, l, sep, r).kids[i] == c.right[i - |c.left| - 2]; }
  }

  // ------------------------------------------------------- siblings of a node

  /** Different children of a stored node share no page. */
  lemma SiblingsApart(m: PageMap, c: Ctx, p: Tree, h: nat, i: nat, j: nat, id: PageId)
    requires Focus(m, c, p, h) && p.Node? && i < |p.kids| && j < |p.kids| && i != j
    requires id in Ids(p.kids[i])
    ensures id !in Ids(p.kids[j]) && id in m && id != p.id
  {
    Once(m.Keys, CtxIds(c), Ids(p), id);
    IdsAllMember(p.kids, i);
    if id in Ids(p.kids[j]) {
      KidsDisjoint(p.kids, if i < j then i else j, if i < j then j else i, id);
    }
  }

  /** A grandchild shares no page with its parent, its grandparent or an uncle's root. */
  lemma GrandkidApart(m: PageMap, c: Ctx, p: Tree, h: nat, i: nat, a: nat, j: nat, id: PageId)
    requires Focus(m, c, p, h) && p.Node? && i < |p.kids| && j < |p.kids|
    requires p.kids[i].Node? && a < |p.kids[i].kids| && id in Ids(p.kids[i].kids[a])
    ensures id != p.kids[j].id && id in m && id != p.id
  {
    IdsAllMember(p.kids[i].kids, a);
    if i == j {
      IdsAllMember(p.kids, i);
      Once(m.Keys, CtxIds(c), Ids(p), id);
    } else {
      SiblingsApart(m, c, p, h, i, j, id);
    }
  }

  /** `x` is one of the subtrees below children `i` or `i + 1` of `p`. */
  ghost predicate Grandkid(p: Tree, i: nat, x: Tree)
    requires p.Node? && i + 1 < |p.kids|
  {
    (p.kids[i].Node? && x in p.kids[i].kids) || (p.kids[i + 1].Node? && x in p.kids[i + 1].kids)
  }

  lemma GrandkidStored(m: PageMap, m': PageMap, c: Ctx, p: Tree, h: nat, i: nat, x: Tree)
    requires Focus(m, c, p, h) && p.Node? && i + 1 < |p.kids| && Grandkid(p, i, x)
    requires forall id :: id in m && id != p.kids[i].id && id != p.kids[i + 1].id ==> id in m' && m'[id] == m[id]
    ensures Stored(m', x)
  {
    var g := if p.kids[i].Node? && x in p.kids[i].kids then i else i + 1;
    var a :| 0 <= a < |p.kids[g].kids| && p.kids[g].kids[a] == x;
    assert Stored(m, p.kids[g]);
    assert Stored(m, x);
    forall id | id in Ids(x) ensures id in m' && id in m && m'[id] == m[id] {
      GrandkidApart(m, c, p, h, g, a, i, id);
      GrandkidApart(m, c, p, h, g, a, i + 1, id);
    }
    StoredFrame(m, m', x);
  }

  lemma OtherKidStored(m: PageMap, m': PageMap, c: Ctx, p: Tree, h: nat, i: nat, j: nat)
    requires Focus(m, c, p, h) && p.Node? && i + 1 < |p.kids| && j < |p.kids| && j != i && j != i + 1
    requires forall id :: id in m && id != p.kids[i].id && id != p.kids[i + 1].id ==> id in m' && m'[id] == m[id]
    ensures Stored(m', p.kids[j])
  {
    forall id | id in Ids(p.kids[j]) ensures id in m' && id in m && m'[id] == m[id] {
      NotRootOf(m, c, p, h, j, i, id);
      NotRootOf(m, c, p, h, j, i + 1, id);
    }
    StoredFrame(m, m', p.kids[j]);
  }

  lemma NotRootOf(m: PageMap, c: Ctx, p: Tree, h: nat, i: nat, j: nat, id: PageId)
    requires Focus(m, c, p, h) && p.Node? && i < |p.kids| && j < |p.kids| && i != j
    requires id in Ids(p.kids[i])
    ensures id != p.kids[j].id && id in m
  {
    SiblingsApart(m, c, p, h, i, j, id);
    RootInIds(p.kids[j]);
  }

  ghost function WithPair(p: Tree, i: nat, l: Tree, sep: Value, r: Tree): Tree
    requires p.Node? && |p.kids| == |p.keys| + 1 && i < |p.keys|
  {
    Node(p.id, p.keys[i := sep], p.kids[i := l][i + 1 := r])
  }

  ghost function WithMerged(p: Tree, i: nat, x: Tree): Tree
    requires p.Node? && |p.kids| == |p.keys| + 1 && i < |p.keys|
  {
    Node(p.id, p.keys[..i] + p.keys[i + 1..], p.kids[..i] + [x] + p.kids[i + 2..])
  }

  lemma WithPairFringe(c: Ctx, p: Tree, i: nat, l: Tree, sep: Value, r: Tree)
    requires p.Node? && |p.kids| == |p.keys| + 1 && i < |p.keys|
    ensures Fringe(c, WithPair(p, i, l, sep, r))
         == (Pre(c) + FlatL(p.kids[..i], p.keys[..i]))
            + (Flat(l) + [SepTok(sep)] + Flat(r))
            + (FlatR(p.keys[i + 1..], p.kids[i + 2..]) + Post(c))
  {
    var q := WithPair(p, i, l, sep, r);
    NodeFlatPair(q.id, q.keys, q.kids, i);
    assert q.kids[..i] == p.kids[..i] && q.kids[i + 2..] == p.kids[i + 2..];
    assert q.keys[..i] == p.keys[..i] && q.keys[i + 1..] == p.keys[i + 1..];
    Regroup(Pre(c), FlatL(p.kids[..i], p.keys[..i]), Flat(l) + [SepTok(sep)] + Flat(r),
            FlatR(p.keys[i + 1..], p.kids[i + 2..]), Post(c));
  }

  lemma WithMergedFringe(c: Ctx, p: Tree, i: nat, x: Tree)
    requires p.Node? && |p.kids| == |p.keys| + 1 && i < |p.keys|
    ensures Fringe(c, WithMerged(p, i, x))
         == (Pre(c) + FlatL(p.kids[..i], p.keys[..i])) + Flat(x)
            + (FlatR(p.keys[i + 1..], p.kids[i + 2..]) + Post(c))
  {
    var q := WithMerged(p, i, x);
    NodeFlat(q.id, q.keys, q.kids, i);
    assert q.kids[..i] == p.kids[..i] && q.kids[i + 1..] == p.kids[i + 2..];
    assert q.keys[..i] == p.keys[..i] && q.keys[i..] == p.keys[i + 1..];
    Regroup(Pre(c), FlatL(p.kids[..i], p.keys[..i]), Flat(x), FlatR(p.keys[i + 1..], p.kids[i + 2..]), Post(c));
  }

  lemma WithPairIds(p: Tree, i: nat, l: Tree, sep: Value, r: Tree)
    requires p.Node? && |p.kids| == |p.keys| + 1 && i < |p.keys|
    requires Ids(l) + Ids(r) == Ids(p.kids[i]) + Ids(p.kids[i + 1])
    ensures Ids(WithPair(p, i, l, sep, r)) == Ids(p)
  {
    var q := WithPair(p, i, l, sep, r);
    IdsAllPair(p.kids, i);
    IdsAllPair(q.kids, i);
    assert q.kids[..i] == p.kids[..i] && q.kids[i + 2..] == p.kids[i + 2..];
    Swap(IdsAll(p.kids[..i]), Ids(l), Ids(r), Ids(p.kids[i]), Ids(p.kids[i + 1]), IdsAll(p.kids[i + 2..]));
  }

  lemma Swap(a: multiset<PageId>, l: multiset<PageId>, r: multiset<PageId>, l': multiset<PageId>, r': multiset<PageId>,
             b: multiset<PageId>)
    requires l + r == l' + r'
    ensures a + l + r + b == a + l' + r' + b
  {
    assert a + l + r + b == a + (l + r) + b;
  }

  lemma WithMergedIds(p: Tree, i: nat, x: Tree, rid: PageId)
    requires p.Node? && |p.kids| == |p.keys| + 1 && i < |p.keys|
    requires Ids(x) + multiset{rid} == Ids(p.kids[i]) + Ids(p.kids[i + 1])
    ensures Ids(WithMerged(p, i, x)) + multiset{rid} == Ids(p)
  {
    hide Shaped;
    var q := WithMerged(p, i, x);
    IdsAllPair(p.kids, i);
    IdsAllAt(q.kids, i);
    assert q.kids[..i] == p.kids[..i] && q.kids[i + 1..] == p.kids[i + 2..];
    Swap(IdsAll(p.kids[..i]), Ids(x), multiset{rid}, Ids(p.kids[i]), Ids(p.kids[i + 1]), IdsAll(p.kids[i + 2..]));
    Late(multiset{p.id}, IdsAll(p.kids[..i]), Ids(x), IdsAll(p.kids[i + 2..]), multiset{rid});
  }

  lemma Late(i: multiset<PageId>, a: multiset<PageId>, x: multiset<PageId>, b: multiset<PageId>, r: multiset<PageId>)
    ensures i + (a + x + r + b) == i + (a + x + b) + r
  {
  }

  /** Moving entries between two neighbouring children and adjusting their separator. */
  lemma RewritePair(m: PageMap, c: Ctx, p: Tree, h: nat, i: nat, l: Tree, sep: Value, r: Tree)
    requires Focus(m, c, p, h) && p.Node? && i < |p.keys|
    requires l.id == p.kids[i].id && r.id == p.kids[i + 1].id
    requires Shaped(l, h - 1) && Shaped(r, h - 1)
    requires l.Node? ==> forall a :: 0 <= a < |l.kids| ==> Grandkid(p, i, l.kids[a])
    requires r.Node? ==> forall a :: 0 <= a < |r.kids| ==> Grandkid(p, i, r.kids[a])
    requires Ids(l) + Ids(r) == Ids(p.kids[i]) + Ids(p.kids[i + 1])
    ensures Focus(m[l.id := Image(l)][r.id := Image(r)][p.id := Image(WithPair(p, i, l, sep, r))],
                  c, WithPair(p, i, l, sep, r), h)
  {
    var q := WithPair(p, i, l, sep, r);
    var m' := m[l.id := Image(l)][r.id := Image(r)];
    PairKeys(m, c, p, h, i, l, r);
    WithPairIds(p, i, l, sep, r);
    FramesKept(m, m', c, p, h);
    PairKidsStored(m, m', c, p, h, i, l, sep, r);
    PutNode(m', c, q, h);
  }

  /** A sibling rebuilt from the old grandchildren is stored once its page is written. */
  lemma MovedStored(m: PageMap, m': PageMap, c: Ctx, p: Tree, h: nat, i: nat, x: Tree)
    requires Focus(m, c, p, h) && p.Node? && i < |p.keys|
    requires x.Node? ==> forall a :: 0 <= a < |x.kids| ==> Grandkid(p, i, x.kids[a])
    requires x.id in m' && m'[x.id] == Image(x)
    requires forall id :: id in m && id != p.kids[i].id && id != p.kids[i + 1].id ==> id in m' && m'[id] == m[id]
    ensures Stored(m', x)
  {
    if x.Node? {
      forall a | 0 <= a < |x.kids| ensures Stored(m', x.kids[a]) { GrandkidStored(m, m', c, p, h, i, x.kids[a]); }
    }
  }

  lemma PairKidsStored(m: PageMap, m': PageMap, c: Ctx, p: Tree, h: nat, i: nat, l: Tree, sep: Value, r: Tree)
    requires Focus(m, c, p, h) && p.Node? && i < |p.keys|
    requires l.id == p.kids[i].id && r.id == p.kids[i + 1].id && l.id != r.id
    requires Shaped(l, h - 1) && Shaped(r, h - 1)
    requires l.Node? ==> forall a :: 0 <= a < |l.kids| ==> Grandkid(p, i, l.kids[a])
    requires r.Node? ==> forall a :: 0 <= a < |r.kids| ==> Grandkid(p, i, r.kids[a])
    requires m' == m[l.id := Image(l)][r.id := Image(r)]
    ensures forall j :: 0 <= j < |p.kids| ==> Stored(m', WithPair(p, i, l, sep, r).kids[j])
    ensures Shaped(WithPair(p, i, l, sep, r), h)
  {
    var q := WithPair(p, i, l, sep, r);
    MovedStored(m, m', c, p, h, i, l);
    MovedStored(m, m', c, p, h, i, r);
    forall j | 0 <= j < |q.kids| ensures Stored(m', q.kids[j]) && Shaped(q.kids[j], h - 1) {
      if j != i && j != i + 1 { OtherKidStored(m, m', c, p, h, i, j); }
    }
  }

  lemma MergedKidsStored(m: PageMap, m': PageMap, c: Ctx, p: Tree, h: nat, i: nat, x: Tree)
    requires Focus(m, c, p, h) && p.Node? && i < |p.keys|
    requires x.id == p.kids[i].id && Shaped(x, h - 1) && x.id != p.kids[i + 1].id
    requires x.Node? ==> forall a :: 0 <= a < |x.kids| ==> Grandkid(p, i, x.kids[a])
    requires m' == m[x.id := Image(x)] - {p.kids[i + 1].id}
    ensures forall j :: 0 <= j < |p.kids| - 1 ==> Stored(m', WithMerged(p, i, x).kids[j])
    ensures Shaped(WithMerged(p, i, x), h)
  {
    hide Ids, IdsAll, CtxStored, CtxShaped;
    var q := WithMerged(p, i, x);
    MovedStored(m, m', c, p, h, i, x);
    forall j | 0 <= j < |q.kids| ensures Stored(m', q.kids[j]) && Shaped(q.kids[j], h - 1) {
      if j < i {
        assert q.kids[j] == p.kids[j];
        OtherKidStored(m, m', c, p, h, i, j);
      } else if j > i {
        assert q.kids[j] == p.kids[j + 1];
        OtherKidStored(m, m', c, p, h, i, j + 1);
      } else {
        assert q.kids[j] == x;
      }
    }
  }

  lemma PairKeys(m: PageMap, c: Ctx, p: Tree, h: nat, i: nat, l: Tree, r: Tree)
    requires Focus(m, c, p, h) && p.Node? && i < |p.keys|
    requires l.id == p.kids[i].id && r.id == p.kids[i + 1].id
    ensures m[l.id := Image(l)][r.id := Image(r)].Keys == m.Keys
    ensures l.id != r.id && l.id in m && r.id in m && l.id in Ids(p) && r.id in Ids(p) && l.id != p.id && r.id != p.id
  {
    hide CtxStored, CtxShaped, CtxIds;
    RootInIds(p.kids[i]);
    RootInIds(p.kids[i + 1]);
    SiblingsApart(m, c, p, h, i, i + 1, l.id);
    SiblingsApart(m, c, p, h, i + 1, i, r.id);
    IdsAllMember(p.kids, i);
    IdsAllMember(p.kids, i + 1);
  }

  /** Merging child `i + 1` into child `i` and freeing its page. */
  lemma RewriteMerge(m: PageMap, c: Ctx, p: Tree, h: nat, i: nat, x: Tree)
    requires Focus(m, c, p, h) && p.Node? && i < |p.keys|
    requires x.id == p.kids[i].id && Shaped(x, h - 1)
    requires x.Node? ==> forall a :: 0 <= a < |x.kids| ==> Grandkid(p, i, x.kids[a])
    requires Ids(x) + multiset{p.kids[i + 1].id} == Ids(p.kids[i]) + Ids(p.kids[i + 1])
    ensures Focus(m[x.id := Image(x)][p.id := Image(WithMerged(p, i, x))] - {p.kids[i + 1].id},
                  c, WithMerged(p, i, x), h)
  {
    hide CtxStored, Stored, Ids, IdsAll, CtxIds;
    var q := WithMerged(p, i, x);
    var rid := p.kids[i + 1].id;
    var m' := m[x.id := Image(x)] - {rid};
    PairKeys(m, c, p, h, i, p.kids[i], p.kids[i + 1]);
    MergedCount(m, c, p, h, i, x);
    FramesKept(m, m', c, p, h);
    MergedKidsStored(m, m', c, p, h, i, x);
    PutNode(m', c, q, h);
    assert m'[p.id := Image(q)] == m[x.id := Image(x)][p.id := Image(q)] - {rid};
  }

  lemma MergedCount(m: PageMap, c: Ctx, p: Tree, h: nat, i: nat, x: Tree)
    requires Focus(m, c, p, h) && p.Node? && i < |p.keys| && x.id == p.kids[i].id
    requires Ids(x) + multiset{p.kids[i + 1].id} == Ids(p.kids[i]) + Ids(p.kids[i + 1])
    ensures CtxIds(c) + Ids(WithMerged(p, i, x)) == multiset((m[x.id := Image(x)] - {p.kids[i + 1].id}).Keys)
  {
    hide CtxStored, Stored, Ids, IdsAll, CtxIds;
    var rid := p.kids[i + 1].id;
    PairKeys(m, c, p, h, i, p.kids[i], p.kids[i + 1]);
    WithMergedIds(p, i, x, rid);
    PutKeys(m, x.id, Image(x));
    DropKey(m[x.id := Image(x)], rid);
    DropOne(CtxIds(c), Ids(WithMerged(p, i, x)), multiset{rid}, multiset((m[x.id := Image(x)] - {rid}).Keys));
  }

  lemma DropKey(m: PageMap, id: PageId)
    requires id in m
    ensures multiset((m - {id}).Keys) + multiset{id} == multiset(m.Keys)
  {
    assert (m - {id}).Keys == m.Keys - {id};
  }

  lemma DropOne(a: multiset<PageId>, b: multiset<PageId>, r: multiset<PageId>, k: multiset<PageId>)
    requires a + (b + r) == k + r
    ensures a + b == k
  {
    assert a + (b + r) == (a + b) + r;
    assert ((a + b) + r) - r == a + b;
    assert (k + r) - r == k;
  }
}
