/** The page map of a B+ tree seen as an inductive tree, with one-hole contexts
    for the root-to-leaf path that insertion and deletion keep. */
module BTreeShape {
  import opened Values

  /** One node as it is stored in the page map. */
  datatype Page =
    | LeafPage(keys: seq<Value>, rowIds: seq<seq<RowId>>, nextLeaf: Option<PageId>)
    | InnerPage(keys: seq<Value>, children: seq<PageId>)

  type PageMap = map<PageId, Page>

  /** The same nodes, linked by containment instead of by page id. */
  datatype Tree =
    | Leaf(id: PageId, keys: seq<Value>, rowIds: seq<seq<RowId>>, nextLeaf: Option<PageId>)
    | Node(id: PageId, keys: seq<Value>, kids: seq<Tree>)

  /** The fringe of a tree: its leaves in order, with the separators between them. */
  datatype Token =
    | LeafTok(id: PageId, keys: seq<Value>, rowIds: seq<seq<RowId>>, nextLeaf: Option<PageId>)
    | SepTok(sep: Value)

  /** A tree with a hole: the frames from the hole's parent up to the root. */
  datatype Ctx =
    | Top
    | In(outer: Ctx, id: PageId, lkeys: seq<Value>, left: seq<Tree>, rkeys: seq<Value>, right: seq<Tree>)

  ghost function Roots(ts: seq<Tree>): (ids: seq<PageId>)
    ensures |ids| == |ts|
    ensures forall i :: 0 <= i < |ts| ==> ids[i] == ts[i].id
  {
    seq(|ts|, i requires 0 <= i < |ts| => ts[i].id)
  }

  ghost function Image(t: Tree): Page {
    match t
    case Leaf(_, keys, rowIds, next) => LeafPage(keys, rowIds, next)
    case Node(_, keys, kids) => InnerPage(keys, Roots(kids))
  }

  /** Every node of `t` is stored in `m` under its page id. */
  ghost predicate Stored(m: PageMap, t: Tree) {
    && t.id in m
    && m[t.id] == Image(t)
    && (t.Node? ==> forall i :: 0 <= i < |t.kids| ==> Stored(m, t.kids[i]))
  }

  /** All leaves lie at depth `h` and every inner node has one child more than keys. */
  ghost predicate Shaped(t: Tree, h: nat) {
    match t
    case Leaf(_, keys, rowIds, _) => h == 0 && |rowIds| == |keys|
    case Node(_, keys, kids) =>
      h > 0 && |kids| == |keys| + 1 && forall i :: 0 <= i < |kids| ==> Shaped(kids[i], h - 1)
  }

  /** Every node of `t` has between `lo` and `hi` keys. */
  ghost predicate Filled(t: Tree, lo: nat, hi: nat)
    decreases t, 1
  {
    lo <= |t.keys| <= hi && KidsFilled(t, lo, hi)
  }

  ghost predicate KidsFilled(t: Tree, lo: nat, hi: nat)
    decreases t, 0
  {
    t.Node? ==> forall i :: 0 <= i < |t.kids| ==> Filled(t.kids[i], lo, hi)
  }

  /** The root may hold fewer keys than other nodes, but an inner root has a separator. */
  ghost predicate RootFilled(t: Tree, lo: nat, hi: nat) {
    |t.keys| <= hi && (t.Node? ==> 1 <= |t.keys|) && KidsFilled(t, lo, hi)
  }

  ghost function Ids(t: Tree): multiset<PageId>
    decreases t, 0
  {
    multiset{t.id} + (if t.Node? then IdsAll(t.kids) else multiset{})
  }

  ghost function IdsAll(ts: seq<Tree>): multiset<PageId>
    decreases ts, 1
  {
    if ts == [] then multiset{} else Ids(ts[0]) + IdsAll(ts[1..])
  }

  ghost function Flat(t: Tree): seq<Token>
    decreases t, 1
  {
    match t
    case Leaf(id, keys, rowIds, next) => [LeafTok(id, keys, rowIds, next)]
    case Node(_, keys, kids) => if kids == [] then [] else Flat(kids[0]) + FlatR(keys, kids[1..])
  }

  /** Each child preceded by its separator. */
  ghost function FlatR(keys: seq<Value>, kids: seq<Tree>): seq<Token>
    decreases kids, 0
  {
    if keys == [] || kids == [] then []
    else [SepTok(keys[0])] + Flat(kids[0]) + FlatR(keys[1..], kids[1..])
  }

  /** Each child followed by its separator. */
  ghost function FlatL(kids: seq<Tree>, keys: seq<Value>): seq<Token>
    decreases kids, 0
  {
    if keys == [] || kids == [] then []
    else Flat(kids[0]) + [SepTok(keys[0])] + FlatL(kids[1..], keys[1..])
  }

  lemma {:induction false} FlatRConcat(k1: seq<Value>, c1: seq<Tree>, k2: seq<Value>, c2: seq<Tree>)
    requires |k1| == |c1|
    ensures FlatR(k1 + k2, c1 + c2) == FlatR(k1, c1) + FlatR(k2, c2)
    decreases |k1|
  {
    if k1 == [] {
      assert k1 + k2 == k2 && c1 + c2 == c2;
    } else {
      assert (k1 + k2)[1..] == k1[1..] + k2 && (c1 + c2)[1..] == c1[1..] + c2;
      FlatRConcat(k1[1..], c1[1..], k2, c2);
    }
  }

  /** Sliding one subtree past the pairs on its left. */
  lemma {:induction false} FlatSlide(left: seq<Tree>, lkeys: seq<Value>, t: Tree)
    requires |left| == |lkeys|
    ensures FlatL(left, lkeys) + Flat(t) == Flat((left + [t])[0]) + FlatR(lkeys, (left + [t])[1..])
    decreases |left|
  {
    if left == [] {
      assert (left + [t])[1..] == [];
    } else {
      var rest := left[1..] + [t];
      assert (left + [t])[1..] == rest;
      FlatSlide(left[1..], lkeys[1..], t);
      calc {
        FlatL(left, lkeys) + Flat(t);
        Flat(left[0]) + [SepTok(lkeys[0])] + (FlatL(left[1..], lkeys[1..]) + Flat(t));
        Flat(left[0]) + ([SepTok(lkeys[0])] + Flat(rest[0]) + FlatR(lkeys[1..], rest[1..]));
        Flat(left[0]) + FlatR(lkeys, rest);
      }
    }
  }

  /** The fringe of a node, cut around its child number `i`. */
  lemma NodeFlat(id: PageId, keys: seq<Value>, kids: seq<Tree>, i: nat)
    requires |kids| == |keys| + 1 && i < |kids|
    ensures Flat(Node(id, keys, kids))
         == FlatL(kids[..i], keys[..i]) + Flat(kids[i]) + FlatR(keys[i..], kids[i + 1..])
  {
    var a, b := kids[1..i + 1], kids[i + 1..];
    FlatSlide(kids[..i], keys[..i], kids[i]);
    assert kids[..i] + [kids[i]] == kids[..i + 1] && kids[..i + 1][1..] == a && kids[..i + 1][0] == kids[0];
    FlatRConcat(keys[..i], a, keys[i..], b);
    assert keys[..i] + keys[i..] == keys && a + b == kids[1..];
    calc {
      Flat(Node(id, keys, kids));
      Flat(kids[0]) + (FlatR(keys[..i], a) + FlatR(keys[i..], b));
      (Flat(kids[0]) + FlatR(keys[..i], a)) + FlatR(keys[i..], b);
    }
  }

  /** The fringe of a node, cut around two neighbouring children. */
  lemma NodeFlatPair(id: PageId, keys: seq<Value>, kids: seq<Tree>, i: nat)
    requires |kids| == |keys| + 1 && i < |keys|
    ensures Flat(Node(id, keys, kids))
         == FlatL(kids[..i], keys[..i])
            + (Flat(kids[i]) + [SepTok(keys[i])] + Flat(kids[i + 1]))
            + FlatR(keys[i + 1..], kids[i + 2..])
  {
    NodeFlat(id, keys, kids, i);
    assert keys[i..][1..] == keys[i + 1..] && kids[i + 1..][1..] == kids[i + 2..];
  }

  lemma NodeFlatHead(id: PageId, keys: seq<Value>, kids: seq<Tree>)
    requires kids != []
    ensures Flat(Node(id, keys, kids)) == Flat(kids[0]) + FlatR(keys, kids[1..])
  {
  }

  lemma FlatRHead(keys: seq<Value>, kids: seq<Tree>)
    requires keys != [] && kids != []
    ensures FlatR(keys, kids) == [SepTok(keys[0])] + (Flat(kids[0]) + FlatR(keys[1..], kids[1..]))
  {
  }

  /** Cutting a node at separator `i` leaves two nodes with that separator between them. */
  lemma NodeFlatSplit(id: PageId, id2: PageId, keys: seq<Value>, kids: seq<Tree>, i: nat)
    requires |kids| == |keys| + 1 && i < |keys|
    ensures Flat(Node(id, keys, kids))
         == Flat(Node(id, keys[..i], kids[..i + 1])) + [SepTok(keys[i])]
            + Flat(Node(id2, keys[i + 1..], kids[i + 1..]))
  {
    hide FlatL, Flat, FlatR;
    var a, b := kids[1..i + 1], kids[i + 1..];
    assert keys == keys[..i] + keys[i..] && kids[1..] == a + b;
    FlatRConcat(keys[..i], a, keys[i..], b);
    assert kids[..i + 1][1..] == a && kids[..i + 1][0] == kids[0];
    assert keys[i..][1..] == keys[i + 1..] && keys[i..][0] == keys[i];
    NodeFlatHead(id, keys, kids);
    NodeFlatHead(id, keys[..i], kids[..i + 1]);
    NodeFlatHead(id2, keys[i + 1..], b);
    FlatRHead(keys[i..], b);
  }

  lemma {:induction false} IdsAllConcat(a: seq<Tree>, b: seq<Tree>)
    ensures IdsAll(a + b) == IdsAll(a) + IdsAll(b)
    decreases |a|
  {
    if a == [] {
      assert a + b == b;
    } else {
      assert (a + b)[1..] == a[1..] + b;
      IdsAllConcat(a[1..], b);
    }
  }

  lemma {:induction false} IdsAllMember(ts: seq<Tree>, i: nat)
    requires i < |ts|
    ensures Ids(ts[i]) <= IdsAll(ts)
    decreases |ts|
  {
    if i > 0 { IdsAllMember(ts[1..], i - 1); }
  }

  lemma IdsAllAt(ts: seq<Tree>, i: nat)
    requires i < |ts|
    ensures IdsAll(ts) == IdsAll(ts[..i]) + Ids(ts[i]) + IdsAll(ts[i + 1..])
  {
    IdsAllConcat(ts[..i], ts[i..]);
    assert ts[..i] + ts[i..] == ts && ts[i..][1..] == ts[i + 1..];
  }

  lemma IdsAllPair(ts: seq<Tree>, i: nat)
    requires i + 1 < |ts|
    ensures IdsAll(ts) == IdsAll(ts[..i]) + Ids(ts[i]) + Ids(ts[i + 1]) + IdsAll(ts[i + 2..])
  {
    IdsAllAt(ts, i);
    assert ts[i + 1..][1..] == ts[i + 2..];
  }

  lemma {:induction false} RootInIds(t: Tree)
    ensures t.id in Ids(t)
  {
  }

  /** Pages outside `t` do not matter for how `t` is stored. */
  lemma {:induction false} StoredFrame(m: PageMap, m': PageMap, t: Tree)
    requires Stored(m, t)
    requires forall id :: id in Ids(t) ==> id in m' && id in m && m'[id] == m[id]
    ensures Stored(m', t)
    decreases t
  {
    if t.Node? {
      forall i | 0 <= i < |t.kids| ensures Stored(m', t.kids[i]) {
        IdsAllMember(t.kids, i);
        StoredFrame(m, m', t.kids[i]);
      }
    }
  }

  // ---------------------------------------------------------------- contexts

  ghost function Fill(c: Ctx, t: Tree): Tree
    requires c.In?
  {
    Node(c.id, c.lkeys + c.rkeys, c.left + [t] + c.right)
  }

  ghost function Plug(c: Ctx, t: Tree): Tree
    decreases c
  {
    if c.Top? then t else Plug(c.outer, Fill(c, t))
  }

  /** The page ids that `pathToLeaf` collects above the hole. */
  ghost function PathIds(c: Ctx): seq<PageId> {
    if c.Top? then [] else PathIds(c.outer) + [c.id]
  }

  ghost function Pre(c: Ctx): seq<Token> {
    if c.Top? then [] else Pre(c.outer) + FlatL(c.left, c.lkeys)
  }

  ghost function Post(c: Ctx): seq<Token> {
    if c.Top? then [] else FlatR(c.rkeys, c.right) + Post(c.outer)
  }

  ghost function CtxIds(c: Ctx): multiset<PageId> {
    if c.Top? then multiset{}
    else multiset{c.id} + IdsAll(c.left) + IdsAll(c.right) + CtxIds(c.outer)
  }

  ghost function RootId(c: Ctx, hole: PageId): PageId {
    if c.Top? then hole else RootId(c.outer, c.id)
  }

  ghost predicate CtxStored(m: PageMap, c: Ctx, hole: PageId) {
    c.In? ==>
      && c.id in m
      && m[c.id] == InnerPage(c.lkeys + c.rkeys, Roots(c.left) + [hole] + Roots(c.right))
      && (forall i :: 0 <= i < |c.left| ==> Stored(m, c.left[i]))
      && (forall i :: 0 <= i < |c.right| ==> Stored(m, c.right[i]))
      && CtxStored(m, c.outer, c.id)
  }

  ghost predicate CtxShaped(c: Ctx, h: nat)
    decreases c
  {
    c.In? ==>
      && |c.lkeys| == |c.left| && |c.rkeys| == |c.right|
      && (forall i :: 0 <= i < |c.left| ==> Shaped(c.left[i], h))
      && (forall i :: 0 <= i < |c.right| ==> Shaped(c.right[i], h))
      && CtxShaped(c.outer, h + 1)
  }

  ghost predicate CtxFilled(c: Ctx, lo: nat, hi: nat) {
    c.In? ==>
      && (if c.outer.Top? then 1 else lo) <= |c.lkeys| + |c.rkeys| <= hi
      && (forall i :: 0 <= i < |c.left| ==> Filled(c.left[i], lo, hi))
      && (forall i :: 0 <= i < |c.right| ==> Filled(c.right[i], lo, hi))
      && CtxFilled(c.outer, lo, hi)
  }

  ghost function Depth(c: Ctx): nat {
    if c.Top? then 0 else 1 + Depth(c.outer)
  }

  lemma Regroup(a: seq<Token>, b: seq<Token>, x: seq<Token>, y: seq<Token>, z: seq<Token>)
    ensures a + (b + x + y) + z == (a + b) + x + (y + z)
  {
  }

  lemma FillFlat(c: Ctx, t: Tree)
    requires c.In? && |c.lkeys| == |c.left| && |c.rkeys| == |c.right|
    ensures Flat(Fill(c, t)) == FlatL(c.left, c.lkeys) + Flat(t) + FlatR(c.rkeys, c.right)
  {
    var f := Fill(c, t);
    NodeFlat(f.id, f.keys, f.kids, |c.left|);
    assert f.kids[..|c.left|] == c.left && f.kids[|c.left| + 1..] == c.right;
    assert f.keys[..|c.left|] == c.lkeys && f.keys[|c.left|..] == c.rkeys;
  }

  lemma {:induction false} PlugFlat(c: Ctx, t: Tree, h: nat)
    requires CtxShaped(c, h)
    ensures Flat(Plug(c, t)) == Pre(c) + Flat(t) + Post(c)
    decreases c
  {
    if c.In? {
      PlugFlat(c.outer, Fill(c, t), h + 1);
      FillFlat(c, t);
      Regroup(Pre(c.outer), FlatL(c.left, c.lkeys), Flat(t), FlatR(c.rkeys, c.right), Post(c.outer));
    }
  }

  lemma {:induction false} PlugIds(c: Ctx, t: Tree)
    ensures Ids(Plug(c, t)) == CtxIds(c) + Ids(t)
    decreases c
  {
    if c.In? {
      PlugIds(c.outer, Fill(c, t));
      IdsAllConcat(c.left + [t], c.right);
      IdsAllConcat(c.left, [t]);
    }
  }

  lemma {:induction false} PlugStored(m: PageMap, c: Ctx, t: Tree)
    requires CtxStored(m, c, t.id) && Stored(m, t)
    ensures Stored(m, Plug(c, t))
    decreases c
  {
    if c.In? {
      var f := Fill(c, t);
      assert Roots(f.kids) == Roots(c.left) + [t.id] + Roots(c.right);
      PlugStored(m, c.outer, f);
    }
  }

  lemma {:induction false} PlugShaped(c: Ctx, t: Tree, h: nat)
    requires CtxShaped(c, h) && Shaped(t, h)
    ensures Shaped(Plug(c, t), h + Depth(c))
    decreases c
  {
    if c.In? { PlugShaped(c.outer, Fill(c, t), h + 1); }
  }

  lemma {:induction false} PlugFilled(c: Ctx, t: Tree, lo: nat, hi: nat)
    requires CtxFilled(c, lo, hi)
    requires if c.Top? then RootFilled(t, lo, hi) else Filled(t, lo, hi)
    requires 1 <= lo
    ensures RootFilled(Plug(c, t), lo, hi)
    decreases c
  {
    if c.In? {
      var f := Fill(c, t);
      forall i | 0 <= i < |f.kids| ensures Filled(f.kids[i], lo, hi) {
        if i < |c.left| { assert f.kids[i] == c.left[i]; }
        else if i > |c.left| { assert f.kids[i] == c.right[i - |c.left| - 1]; }
      }
      PlugFilled(c.outer, f, lo, hi);
    }
  }

  lemma {:induction false} PlugRoot(c: Ctx, t: Tree)
    ensures Plug(c, t).id == RootId(c, t.id)
    decreases c
  {
    if c.In? { PlugRoot(c.outer, Fill(c, t)); }
  }

  lemma AllStoredFrame(m: PageMap, m': PageMap, ts: seq<Tree>)
    requires forall i :: 0 <= i < |ts| ==> Stored(m, ts[i])
    requires forall id :: id in IdsAll(ts) ==> id in m' && id in m && m'[id] == m[id]
    ensures forall i :: 0 <= i < |ts| ==> Stored(m', ts[i])
  {
    forall i | 0 <= i < |ts| ensures Stored(m', ts[i]) {
      IdsAllMember(ts, i);
      StoredFrame(m, m', ts[i]);
    }
  }

  lemma CtxIdsParts(c: Ctx, id: PageId)
    requires c.In?
    ensures id in CtxIds(c) <==> id == c.id || id in IdsAll(c.left) || id in IdsAll(c.right) || id in CtxIds(c.outer)
  {
    hide IdsAll;
  }

  lemma {:induction false} CtxStoredFrame(m: PageMap, m': PageMap, c: Ctx, hole: PageId)
    requires CtxStored(m, c, hole)
    requires forall id :: id in CtxIds(c) ==> id in m' && id in m && m'[id] == m[id]
    ensures CtxStored(m', c, hole)
    decreases c
  {
    hide Stored, IdsAll, CtxIds;
    if c.In? {
      forall id | id == c.id || id in IdsAll(c.left) || id in IdsAll(c.right) || id in CtxIds(c.outer)
        ensures id in m' && id in m && m'[id] == m[id]
      {
        CtxIdsParts(c, id);
      }
      AllStoredFrame(m, m', c.left);
      AllStoredFrame(m, m', c.right);
      CtxStoredFrame(m, m', c.outer, c.id);
    }
  }

  /** The frame that is left when child `i` of `p` becomes the hole. */
  ghost function Frame(c: Ctx, p: Tree, i: nat): Ctx
    requires p.Node? && |p.kids| == |p.keys| + 1 && i < |p.kids|
  {
    In(c, p.id, p.keys[..i], p.kids[..i], p.keys[i..], p.kids[i + 1..])
  }

  lemma FrameFill(c: Ctx, p: Tree, i: nat)
    requires p.Node? && |p.kids| == |p.keys| + 1 && i < |p.kids|
    ensures Fill(Frame(c, p, i), p.kids[i]) == p
    ensures CtxIds(Frame(c, p, i)) + Ids(p.kids[i]) == CtxIds(c) + Ids(p)
  {
    assert p.keys[..i] + p.keys[i..] == p.keys;
    assert p.kids[..i] + [p.kids[i]] + p.kids[i + 1..] == p.kids;
    IdsAllAt(p.kids, i);
  }

  lemma FrameStored(m: PageMap, c: Ctx, p: Tree, i: nat)
    requires p.Node? && |p.kids| == |p.keys| + 1 && i < |p.kids|
    requires CtxStored(m, c, p.id) && Stored(m, p)
    ensures CtxStored(m, Frame(c, p, i), p.kids[i].id)
  {
    var f := Frame(c, p, i);
    assert f.lkeys + f.rkeys == p.keys;
    assert Roots(f.left) + [p.kids[i].id] + Roots(f.right) == Roots(p.kids);
  }
}
