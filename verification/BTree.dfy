/** The ordered index as a mutable object over its page map. */
module BTree {
  import opened Values
  import opened BTreeShape
  import opened BTreeOrder
  import opened BTreeEdits
  import opened BTreePages
  import opened BTreeIndexing
  import opened BTreeRebalance
  import opened BTreeScan

  lemma TakeFree(live: set<PageId>, free: seq<PageId>, next: PageId)
    requires Conserved(live, free, next) && free != []
    ensures var id, rest := free[|free| - 1], free[..|free| - 1];
            id !in live && multiset(live) + multiset{id} + multiset(rest) == multiset(Range(next))
  {
    var id, rest := free[|free| - 1], free[..|free| - 1];
    assert free == rest + [id];
    assert multiset(live) + multiset{id} + multiset(rest) == multiset(Range(next));
    assert (multiset(live) + multiset{id} + multiset(rest))[id] <= 1;
  }

  lemma GrowRange(live: set<PageId>, next: PageId)
    requires Conserved(live, [], next)
    ensures next !in live && multiset(live) + multiset{next} + multiset([]) == multiset(Range(next + 1))
  {
    var r := Range(next);
    assert multiset(live) == multiset(r);
    assert next !in r;
    assert Range(next + 1) == r + {next};
    assert multiset(r + {next}) == multiset(r) + multiset{next};
    assert multiset(live)[next] == multiset(r)[next];
  }

  lemma GiveBack(live: set<PageId>, free: seq<PageId>, next: PageId, id: PageId)
    requires Conserved(live, free, next) && id in live
    ensures Conserved(live - {id}, free + [id], next)
  {
    assert multiset(live) == multiset(live - {id}) + multiset{id};
    assert multiset(free + [id]) == multiset(free) + multiset{id};
  }

  lemma SwapPages(m: PageMap, a: PageId, pa: Page, b: PageId, pb: Page, c: PageId, pc: Page)
    requires a in m && b in m && c in m
    ensures m[a := pa][b := pb][c := pc].Keys == m.Keys
  {
  }

  class BTreeIndex {
    const maxKeys: nat
    var nodes: PageMap
    var freePageIds: seq<PageId>
    var rootPageId: PageId
    var nextPageId: PageId
    var keyCount: nat
    ghost var tree: Tree
    ghost var height: nat

    /** Every node but the root is at least half full. */
    function MinKeys(): (r: nat)
      ensures maxKeys - 1 <= 2 * r <= maxKeys
    {
      maxKeys / 2
    }

    ghost predicate Valid()
      reads this
    {
      && 2 <= maxKeys
      && Whole(nodes, rootPageId, keyCount, MinKeys(), maxKeys, tree, height)
      && Conserved(nodes.Keys, freePageIds, nextPageId)
    }

    /** Valid except that subtree `t` in the hole of `c` may hold too many or too few keys. */
    ghost predicate Open(c: Ctx, t: Tree, h: nat)
      reads this
    {
      && 2 <= maxKeys
      && Loose(nodes, rootPageId, keyCount, MinKeys(), maxKeys, c, t, h)
      && Conserved(nodes.Keys, freePageIds, nextPageId)
    }

    ghost function Entries(): seq<Entry>
      reads this
    {
      BTreeOrder.Entries(Flat(tree))
    }

    /** The sorted map of posting lists that the index stands for. */
    ghost function Contents(): map<Value, seq<RowId>>
      reads this
    {
      MapOf(Entries())
    }

    constructor (maxKeysPerNode: nat)
      requires 2 <= maxKeysPerNode
      ensures Valid() && maxKeys == maxKeysPerNode && Contents() == map[]
    {
      maxKeys := maxKeysPerNode;
      nodes := map[1 := LeafPage([], [], None)];
      freePageIds := [];
      rootPageId := 1;
      nextPageId := 2;
      keyCount := 0;
      tree := Leaf(1, [], [], None);
      height := 0;
      new;
      EmptyTree();
    }

    method Clear()
      requires 2 <= maxKeys
      modifies this
      ensures Valid() && Contents() == map[]
    {
      nodes := map[];
      freePageIds := [];
      nextPageId := 2;
      rootPageId := 1;
      keyCount := 0;
      nodes := nodes[rootPageId := LeafPage([], [], None)];
      tree := Leaf(1, [], [], None);
      height := 0;
      EmptyTree();
    }

    lemma EmptyTree()
      requires 2 <= maxKeys && nodes == map[1 := LeafPage([], [], None)] && freePageIds == []
      requires rootPageId == 1 && nextPageId == 2 && keyCount == 0
      requires tree == Leaf(1, [], [], None) && height == 0
      ensures Valid() && Contents() == map[]
    {
      assert nodes.Keys == {1};
      assert Range(1) == {} && Range(2) == {1};
      var ts := Flat(tree);
      assert ts == [LeafTok(1, [], [], None)];
      assert BTreeOrder.Entries(ts) == LeafEntries([], []) + BTreeOrder.Entries(ts[1..]);
    }

    method AllocatePage() returns (id: PageId)
      requires Conserved(nodes.Keys, freePageIds, nextPageId)
      modifies this`freePageIds, this`nextPageId
      ensures id !in nodes && 1 <= nextPageId
      ensures multiset(nodes.Keys) + multiset{id} + multiset(freePageIds) == multiset(Range(nextPageId))
    {
      if freePageIds != [] {
        TakeFree(nodes.Keys, freePageIds, nextPageId);
        id := freePageIds[|freePageIds| - 1];
        freePageIds := freePageIds[..|freePageIds| - 1];
      } else {
        id := nextPageId;
        GrowRange(nodes.Keys, nextPageId);
        nextPageId := nextPageId + 1;
      }
    }

    method PathToLeaf(key: Value) returns (path: seq<PageId>, ghost c: Ctx, ghost t: Tree)
      requires Valid()
      ensures t.Leaf? && path == PathIds(c) + [t.id]
      ensures Open(c, t, 0) && FilledAt(c, t, MinKeys(), maxKeys)
      ensures Fringe(c, t) == Flat(tree) && Fits(c, key)
    {
      path := [];
      var pageId := rootPageId;
      c, t := Top, tree;
      ghost var h := height;
      OpenUp(nodes, rootPageId, keyCount, MinKeys(), maxKeys, tree, height);
      while true
        invariant path == PathIds(c) && pageId == t.id
        invariant Loose(nodes, rootPageId, keyCount, MinKeys(), maxKeys, c, t, h)
        invariant FilledAt(c, t, MinKeys(), maxKeys) && Fringe(c, t) == Flat(tree) && Fits(c, key)
        decreases h
      {
        path := path + [pageId];
        var current := nodes[pageId];
        if current.LeafPage? {
          break;
        }
        var index := ChildIndex(current.keys, key);
        pageId := current.children[index];
        DescendLoose(nodes, rootPageId, keyCount, MinKeys(), maxKeys, c, t, h, index, key);
        c, t, h := Frame(c, t, index), t.kids[index], h - 1;
      }
    }

    method Insert(key: Value, rowId: RowId)
      requires Valid()
      modifies this
      ensures Valid() && Contents() == Inserted(old(Contents()), key, rowId)
    {
      ghost var c, t;
      var path;
      path, c, t := PathToLeaf(key);
      InsertIntoLeaf(path, key, rowId, c, t);
    }

    method InsertIntoLeaf(path: seq<PageId>, key: Value, rowId: RowId, ghost c: Ctx, ghost t: Tree)
      requires t.Leaf? && path == PathIds(c) + [t.id] && Open(c, t, 0) && Fits(c, key)
      requires FilledAt(c, t, MinKeys(), maxKeys)
      modifies this
      ensures Valid()
      ensures Contents() == Inserted(MapOf(BTreeOrder.Entries(Fringe(c, t))), key, rowId)
    {
      hide Whole, Loose, Halved, Ordered, Linked, Flat, BTreeOrder.Entries, MapOf, Pre, Post, Fits, Brackets, GoodToken,
           SortedKeys, Fringe;
      LooseLeaf(nodes, rootPageId, keyCount, MinKeys(), maxKeys, c, t, key);
      var leafId := path[|path| - 1];
      var leaf := nodes[leafId];
      var index := LowerBound(leaf.keys, key);
      if index < |leaf.keys| && leaf.keys[index] == key {
        var rows := leaf.rowIds[index] + [rowId];
        PutPostingStep(nodes, rootPageId, keyCount, MinKeys(), maxKeys, c, t, key, index, rows);
        leaf := LeafPage(leaf.keys, leaf.rowIds[index := rows], leaf.nextLeaf);
        PutKeys(nodes, leafId, leaf);
        nodes := nodes[leafId := leaf];
        Close(c, t.(rowIds := t.rowIds[index := rows]), 0);
        return;
      }
      assert [] + [rowId] == [rowId];
      AddKeyStep(nodes, rootPageId, keyCount, MinKeys(), maxKeys, c, t, key, index, [rowId]);
      leaf := LeafPage(leaf.keys[..index] + [key] + leaf.keys[index..],
                       leaf.rowIds[..index] + [[rowId]] + leaf.rowIds[index..], leaf.nextLeaf);
      PutKeys(nodes, leafId, leaf);
      nodes := nodes[leafId := leaf];
      keyCount := keyCount + 1;
      if |leaf.keys| > maxKeys {
        SplitLeaf(path, c, LeafWith(t, index, key, [rowId]));
      } else {
        Close(c, LeafWith(t, index, key, [rowId]), 0);
      }
    }

    /** The tree around `t` is whole again. */
    ghost method Close(c: Ctx, t: Tree, h: nat)
      requires Open(c, t, h) && FilledAt(c, t, MinKeys(), maxKeys)
      modifies this`tree, this`height
      ensures Valid() && Flat(tree) == Fringe(c, t)
    {
      hide Whole, Loose, FilledAt;
      CloseUp(nodes, rootPageId, keyCount, MinKeys(), maxKeys, c, t, h);
      tree := Plug(c, t);
      height := h + Depth(c);
    }

    method SplitLeaf(path: seq<PageId>, ghost c: Ctx, ghost t: Tree)
      requires t.Leaf? && path == PathIds(c) + [t.id] && Open(c, t, 0) && |t.keys| == maxKeys + 1
      modifies this
      ensures Valid()
      ensures Contents() == MapOf(BTreeOrder.Entries(Fringe(c, t)))
    {
      hide Whole, Loose, Halved;
      LooseNode(nodes, rootPageId, keyCount, MinKeys(), maxKeys, c, t, 0);
      var leftId := path[|path| - 1];
      var left := nodes[leftId];
      var mid := |left.keys| / 2;
      var rightId := AllocatePage();
      SplitLeafStep(nodes, rootPageId, keyCount, MinKeys(), maxKeys, c, t, mid, rightId);
      var right := LeafPage(left.keys[mid..], left.rowIds[mid..], left.nextLeaf);
      left := LeafPage(left.keys[..mid], left.rowIds[..mid], Some(rightId));
      PutKeys(nodes, leftId, left);
      PutKeys(nodes[leftId := left], rightId, right);
      var separator := right.keys[0];
      nodes := nodes[leftId := left][rightId := right];
      InsertSeparator(path[..|path| - 1], separator, rightId, c,
                      Leaf(leftId, left.keys, left.rowIds, left.nextLeaf),
                      Leaf(rightId, right.keys, right.rowIds, right.nextLeaf), 0);
    }

    method InsertSeparator(path: seq<PageId>, separator: Value, rightChild: PageId,
                           ghost c: Ctx, ghost l: Tree, ghost r: Tree, ghost h: nat)
      requires path == PathIds(c) && rightChild == r.id && 2 <= maxKeys
      requires Halved(nodes, rootPageId, keyCount, MinKeys(), maxKeys, c, l, separator, r, h)
      requires Conserved(nodes.Keys, freePageIds, nextPageId)
      modifies this
      ensures Valid()
      ensures Flat(tree) == PairFringe(c, l, separator, r)
      decreases |path|, 1
    {
      hide Whole, Loose, Halved, FilledAt, Flat;
      if path == [] {
        var newId := AllocatePage();
        NewRootStep(nodes, rootPageId, keyCount, MinKeys(), maxKeys, l, separator, r, newId, h);
        var newRoot := InnerPage([separator], [rootPageId, rightChild]);
        PutKeys(nodes, newId, newRoot);
        tree, height := Node(newId, [separator], [l, r]), h + 1;
        rootPageId := newId;
        nodes := nodes[rootPageId := newRoot];
        return;
      }
      ParentPage(nodes, rootPageId, keyCount, MinKeys(), maxKeys, c, l, separator, r, h);
      var parentId := path[|path| - 1];
      var parent := nodes[parentId];
      var index := ChildIndex(parent.keys, separator);
      ParentWith(nodes, rootPageId, keyCount, MinKeys(), maxKeys, c, l, separator, r, h, index);
      ParentFilled(nodes, rootPageId, keyCount, MinKeys(), maxKeys, c, l, separator, r, h);
      AttachStep(nodes, rootPageId, keyCount, MinKeys(), maxKeys, c, l, separator, r, h);
      parent := InnerPage(parent.keys[..index] + [separator] + parent.keys[index..],
                          parent.children[..index + 1] + [rightChild] + parent.children[index + 1..]);
      PutKeys(nodes, parentId, parent);
      nodes := nodes[parentId := parent];
      if |parent.keys| > maxKeys {
        SplitInternal(path, c.outer, Pair(c, l, separator, r), h + 1);
      } else {
        Close(c.outer, Pair(c, l, separator, r), h + 1);
      }
    }

    method SplitInternal(path: seq<PageId>, ghost c: Ctx, ghost t: Tree, ghost h: nat)
      requires t.Node? && path == PathIds(c) + [t.id] && Open(c, t, h) && |t.keys| == maxKeys + 1
      modifies this
      ensures Valid()
      ensures Flat(tree) == Fringe(c, t)
      decreases |path|, 0
    {
      hide Whole, Loose, Halved;
      LooseNode(nodes, rootPageId, keyCount, MinKeys(), maxKeys, c, t, h);
      var leftId := path[|path| - 1];
      var left := nodes[leftId];
      var mid := |left.keys| / 2;
      var promoted := left.keys[mid];
      var rightId := AllocatePage();
      SplitInnerStep(nodes, rootPageId, keyCount, MinKeys(), maxKeys, c, t, h, mid, rightId);
      var right := InnerPage(left.keys[mid + 1..], left.children[mid + 1..]);
      left := InnerPage(left.keys[..mid], left.children[..mid + 1]);
      ghost var l, r :=
        Node(t.id, t.keys[..mid], t.kids[..mid + 1]), Node(rightId, t.keys[mid + 1..], t.kids[mid + 1..]);
      assert left == Image(l) && right == Image(r);
      PutKeys(nodes, leftId, left);
      PutKeys(nodes[leftId := left], rightId, right);
      nodes := nodes[leftId := left][rightId := right];
      InsertSeparator(path[..|path| - 1], promoted, rightId, c, l, r, h);
    }

    method FreePage(pageId: PageId)
      requires Conserved(nodes.Keys, freePageIds, nextPageId) && pageId in nodes
      modifies this`nodes, this`freePageIds
      ensures nodes == old(nodes) - {pageId}
      ensures Conserved(nodes.Keys, freePageIds, nextPageId)
    {
      GiveBack(nodes.Keys, freePageIds, nextPageId, pageId);
      assert (nodes - {pageId}).Keys == nodes.Keys - {pageId};
      nodes := nodes - {pageId};
      freePageIds := freePageIds + [pageId];
    }

    method Remove(key: Value, rowId: RowId)
      requires Valid()
      modifies this
      ensures Valid() && Contents() == Removed(old(Contents()), key, rowId)
    {
      ghost var c, t;
      var path;
      path, c, t := PathToLeaf(key);
      RemoveFromLeaf(path, key, rowId, c, t);
    }

    method RemoveFromLeaf(path: seq<PageId>, key: Value, rowId: RowId, ghost c: Ctx, ghost t: Tree)
      requires t.Leaf? && path == PathIds(c) + [t.id] && Open(c, t, 0) && Fits(c, key)
      requires FilledAt(c, t, MinKeys(), maxKeys)
      modifies this
      ensures Valid()
      ensures Contents() == Removed(MapOf(BTreeOrder.Entries(Fringe(c, t))), key, rowId)
    {
      hide Whole, Loose, Ordered, Linked, Flat, BTreeOrder.Entries, MapOf, Pre, Post, Fits, Brackets, GoodToken,
           SortedKeys, Fringe, Conserved;
      LooseLeaf(nodes, rootPageId, keyCount, MinKeys(), maxKeys, c, t, key);
      var leafId := path[|path| - 1];
      var leaf := nodes[leafId];
      var index := LowerBound(leaf.keys, key);
      if index >= |leaf.keys| || leaf.keys[index] != key {
        AbsentKey(nodes, rootPageId, keyCount, MinKeys(), maxKeys, c, t, key, index);
        Close(c, t, 0);
        return;
      }
      var rows := Without(leaf.rowIds[index], rowId);
      if rows != [] {
        PutPostingStep(nodes, rootPageId, keyCount, MinKeys(), maxKeys, c, t, key, index, rows);
        leaf := LeafPage(leaf.keys, leaf.rowIds[index := rows], leaf.nextLeaf);
        PutKeys(nodes, leafId, leaf);
        nodes := nodes[leafId := leaf];
        Close(c, t.(rowIds := t.rowIds[index := rows]), 0);
        return;
      }
      DropKeyStep(nodes, rootPageId, keyCount, MinKeys(), maxKeys, c, t, key, index);
      leaf := LeafPage(leaf.keys[..index] + leaf.keys[index + 1..],
                       leaf.rowIds[..index] + leaf.rowIds[index + 1..], leaf.nextLeaf);
      ghost var t' := Leaf(t.id, leaf.keys, leaf.rowIds, leaf.nextLeaf);
      PutKeys(nodes, leafId, leaf);
      nodes := nodes[leafId := leaf];
      keyCount := keyCount - 1;
      PathLength(c);
      if |path| == 1 {
        Close(c, t', 0);
        return;
      }
      ghost var c' := c;
      if index == 0 && leaf.keys != [] {
        c' := RefreshSeparator(path[|path| - 2], key, leaf.keys[0], c, t');
      }
      LooseNode(nodes, rootPageId, keyCount, MinKeys(), maxKeys, c', t', 0);
      if |leaf.keys| < MinKeys() {
        RebalanceAfterDelete(path, c', t');
      } else {
        Close(c', t', 0);
      }
    }

    /** The removed key was the leaf's first: its separator in the parent, if any, follows. */
    method RefreshSeparator(parentId: PageId, key: Value, first: Value, ghost c: Ctx, ghost t: Tree)
      returns (ghost c': Ctx)
      requires c.In? && parentId == c.id && t.Leaf? && t.keys != [] && first == t.keys[0]
      requires Open(c, t, 0) && Fits(c, key)
      modifies this`nodes
      ensures Open(c', t, 0) && c'.In? && PathIds(c') == PathIds(c)
      ensures BTreeOrder.Entries(Fringe(c', t)) == BTreeOrder.Entries(Fringe(c, t))
    {
      hide Whole, Loose, Ordered, Linked, Flat, BTreeOrder.Entries, Fits, Fringe;
      LooseParent(nodes, rootPageId, keyCount, MinKeys(), maxKeys, c, t, 0);
      var parentChild := ChildIndex(nodes[parentId].keys, key);
      LooseIndex(nodes, rootPageId, keyCount, MinKeys(), maxKeys, c, t, key, parentChild);
      c' := c;
      if parentChild > 0 {
        RaiseStep(nodes, rootPageId, keyCount, MinKeys(), maxKeys, c, t);
        c' := Raised(c, first);
        RaisedKeys(c, first);
        UpdateSeparator(parentId, parentChild, first);
      }
    }

    method UpdateSeparator(parentId: PageId, childIndex: nat, separator: Value)
      requires parentId in nodes && nodes[parentId].InnerPage?
      modifies this`nodes
      ensures nodes == if childIndex == 0 || childIndex > |old(nodes)[parentId].keys| then old(nodes)
                       else old(nodes)[parentId := InnerPage(old(nodes)[parentId].keys[childIndex - 1 := separator],
                                                             old(nodes)[parentId].children)]
      ensures nodes.Keys == old(nodes).Keys
    {
      var parent := nodes[parentId];
      if childIndex == 0 || childIndex > |parent.keys| {
        return;
      }
      PutKeys(nodes, parentId, parent);
      nodes := nodes[parentId := InnerPage(parent.keys[childIndex - 1 := separator], parent.children)];
    }

    /** Position of `pageId` among `children`, or their number if it is missing. */
    static method FindChild(children: seq<PageId>, pageId: PageId) returns (index: nat)
      ensures index <= |children| && (index < |children| ==> children[index] == pageId)
      ensures pageId !in children[..index]
    {
      index := 0;
      while index < |children| && children[index] != pageId
        invariant index <= |children| && pageId !in children[..index]
      {
        index := index + 1;
      }
    }

    method RebalanceAfterDelete(path0: seq<PageId>, ghost c0: Ctx, ghost t0: Tree)
      requires t0.Leaf? && c0.In? && path0 == PathIds(c0) + [t0.id] && Open(c0, t0, 0)
      requires |t0.keys| + 1 == MinKeys()
      modifies this
      ensures Valid()
      ensures Entries() == BTreeOrder.Entries(Fringe(c0, t0))
    {
      hide Whole, Loose, Flat, BTreeOrder.Entries, Fringe, Conserved, Plug, RootId, CtxFilled, KidsFilled;
      hide PathIds;
      var path := path0;
      ghost var c, t, h := c0, t0, 0;
      while |path| > 1
        invariant path == PathIds(c) + [t.id]
        invariant Open(c, t, h) && |t.keys| <= maxKeys
        invariant c.In? ==> |t.keys| + 1 == MinKeys()
        invariant BTreeOrder.Entries(Fringe(c, t)) == BTreeOrder.Entries(Fringe(c0, t0))
        decreases |path|
      {
        PathLength(c);
        LooseNode(nodes, rootPageId, keyCount, MinKeys(), maxKeys, c, t, h);
        var parentId := path[|path| - 2];
        if |nodes[path[|path| - 1]].keys| >= MinKeys() {
          break;
        }
        var merged: bool;
        ghost var q: Tree;
        merged, q := Repair(path[|path| - 1], parentId, c, t, h);
        c, t, h := c.outer, q, h + 1;
        if !merged {
          break;
        }
        path := path[..|path| - 1];
        PathLength(c);
        LooseNode(nodes, rootPageId, keyCount, MinKeys(), maxKeys, c, t, h);
        if |nodes[parentId].keys| >= MinKeys() || |path| == 1 {
          break;
        }
      }
      PathLength(c);
      Settle(nodes, rootPageId, keyCount, MinKeys(), maxKeys, c, t, h);
      CollapseRootIfNeeded(Plug(c, t), h + Depth(c));
    }

    /** Repairs one underfull node: borrow from the left, else from the right, else merge. */
    method Repair(pageId: PageId, parentId: PageId, ghost c: Ctx, ghost t: Tree, ghost h: nat)
      returns (merged: bool, ghost q: Tree)
      requires c.In? && pageId == t.id && parentId == c.id && Open(c, t, h) && |t.keys| + 1 == MinKeys()
      modifies this`nodes, this`freePageIds
      ensures Open(c.outer, q, h + 1) && q.id == parentId && |q.keys| <= maxKeys
      ensures !merged ==> FilledAt(c.outer, q, MinKeys(), maxKeys)
      ensures merged && c.outer.In? ==> MinKeys() <= |q.keys| + 1
      ensures BTreeOrder.Entries(Fringe(c.outer, q)) == BTreeOrder.Entries(Fringe(c, t))
    {
      hide Loose, Sagging, Flat, BTreeOrder.Entries, Fringe, FilledAt, Shaped, KidsFilled, Filled, Conserved, Fill,
           Roots;
      LooseNode(nodes, rootPageId, keyCount, MinKeys(), maxKeys, c, t, h);
      LooseParent(nodes, rootPageId, keyCount, MinKeys(), maxKeys, c, t, h);
      Siblings(nodes, rootPageId, keyCount, MinKeys(), maxKeys, c, t, h);
      var parent := nodes[parentId];
      var index := FindChild(parent.children, pageId);
      HoleIndex(c, t.id, index);
      var isLeaf := nodes[pageId].LeafPage?;
      var borrowed: bool;
      borrowed, q := TryBorrow(parentId, index, isLeaf, c, t, h);
      merged := !borrowed;
      if merged {
        Sag(nodes, rootPageId, keyCount, MinKeys(), maxKeys, c, t, h);
        var leftChild := if index > 0 then index - 1 else index;
        if isLeaf {
          q := MergeLeaves(parentId, leftChild, c.outer, Fill(c, t), h + 1);
        } else {
          q := MergeInternals(parentId, leftChild, c.outer, Fill(c, t), h + 1);
        }
      }
    }

    /** Takes a key from the left sibling, or else from the right one, if either has one to spare. */
    method TryBorrow(parentId: PageId, index: nat, isLeaf: bool, ghost c: Ctx, ghost t: Tree, ghost h: nat)
      returns (done: bool, ghost q: Tree)
      requires c.In? && parentId == c.id && index == |c.left| && (isLeaf <==> t.Leaf?)
      requires Open(c, t, h) && |t.keys| + 1 == MinKeys()
      modifies this`nodes
      ensures done ==> Open(c.outer, q, h + 1) && q.id == parentId && |q.keys| <= maxKeys
      ensures done ==> FilledAt(c.outer, q, MinKeys(), maxKeys)
      ensures done ==> BTreeOrder.Entries(Fringe(c.outer, q)) == BTreeOrder.Entries(Fringe(c, t))
      ensures !done ==> nodes == old(nodes) && Open(c, t, h)
      ensures !done ==>
        && (c.left != [] ==> |c.left[|c.left| - 1].keys| <= MinKeys())
        && (c.right != [] ==> |c.right[0].keys| <= MinKeys())
    {
      hide Loose, Sagging, Flat, BTreeOrder.Entries, Fringe, FilledAt, Shaped, KidsFilled, Filled, Conserved, Fill,
           Roots;
      LooseParent(nodes, rootPageId, keyCount, MinKeys(), maxKeys, c, t, h);
      Siblings(nodes, rootPageId, keyCount, MinKeys(), maxKeys, c, t, h);
      Neighbours(c, t.id);
      Sag(nodes, rootPageId, keyCount, MinKeys(), maxKeys, c, t, h);
      var parent := nodes[parentId];
      q := t;
      if index > 0 {
        var left := nodes[parent.children[index - 1]];
        if |left.keys| > MinKeys() {
          if isLeaf {
            q := BorrowFromLeftLeaf(parentId, index, c.outer, Fill(c, t), h + 1);
          } else {
            q := BorrowFromLeftInternal(parentId, index, c.outer, Fill(c, t), h + 1);
          }
          return true, q;
        }
      }
      if index + 1 < |parent.children| {
        var right := nodes[parent.children[index + 1]];
        if |right.keys| > MinKeys() {
          if isLeaf {
            q := BorrowFromRightLeaf(parentId, index, c.outer, Fill(c, t), h + 1);
          } else {
            q := BorrowFromRightInternal(parentId, index, c.outer, Fill(c, t), h + 1);
          }
          return true, q;
        }
      }
      return false, q;
    }

    method BorrowFromLeftLeaf(parentId: PageId, childIndex: nat, ghost c: Ctx, ghost p: Tree, ghost h: nat)
      returns (ghost q: Tree)
      requires 2 <= maxKeys && 1 <= childIndex && parentId == p.id
      requires Sagging(nodes, rootPageId, keyCount, MinKeys(), maxKeys, c, p, h, childIndex - 1)
      requires Conserved(nodes.Keys, freePageIds, nextPageId)
      requires p.kids[childIndex - 1].Leaf? && MinKeys() < |p.kids[childIndex - 1].keys| <= maxKeys
      requires p.kids[childIndex].Leaf? && |p.kids[childIndex].keys| + 1 == MinKeys()
      modifies this`nodes
      ensures Open(c, q, h) && FilledAt(c, q, MinKeys(), maxKeys) && q.id == p.id && |q.keys| <= maxKeys
      ensures BTreeOrder.Entries(Fringe(c, q)) == BTreeOrder.Entries(Fringe(c, p))
    {
      hide Loose, Sagging, Flat, BTreeOrder.Entries, Fringe;
      ghost var i := childIndex - 1;
      SagPages(nodes, rootPageId, keyCount, MinKeys(), maxKeys, c, p, h, i);
      var parent := nodes[parentId];
      var leftId, rightId := parent.children[childIndex - 1], parent.children[childIndex];
      var left, right := nodes[leftId], nodes[rightId];
      var k := |left.keys| - 1;
      right := LeafPage([left.keys[k]] + right.keys, [left.rowIds[k]] + right.rowIds, right.nextLeaf);
      left := LeafPage(left.keys[..k], left.rowIds[..k], left.nextLeaf);
      parent := InnerPage(parent.keys[childIndex - 1 := right.keys[0]], parent.children);
      ghost var l := Leaf(leftId, left.keys, left.rowIds, left.nextLeaf);
      ghost var r := Leaf(rightId, right.keys, right.rowIds, right.nextLeaf);
      LeafPairStep(nodes, rootPageId, keyCount, MinKeys(), maxKeys, c, p, h, i, l, r);
      q := WithPair(p, i, l, right.keys[0], r);
      assert Roots(q.kids) == Roots(p.kids);
      SwapPages(nodes, leftId, left, rightId, right, parentId, parent);
      nodes := nodes[leftId := left][rightId := right][parentId := parent];
    }

    method BorrowFromRightLeaf(parentId: PageId, childIndex: nat, ghost c: Ctx, ghost p: Tree, ghost h: nat)
      returns (ghost q: Tree)
      requires 2 <= maxKeys && parentId == p.id
      requires Sagging(nodes, rootPageId, keyCount, MinKeys(), maxKeys, c, p, h, childIndex)
      requires Conserved(nodes.Keys, freePageIds, nextPageId)
      requires p.kids[childIndex].Leaf? && |p.kids[childIndex].keys| + 1 == MinKeys()
      requires p.kids[childIndex + 1].Leaf? && MinKeys() < |p.kids[childIndex + 1].keys| <= maxKeys
      modifies this`nodes
      ensures Open(c, q, h) && FilledAt(c, q, MinKeys(), maxKeys) && q.id == p.id && |q.keys| <= maxKeys
      ensures BTreeOrder.Entries(Fringe(c, q)) == BTreeOrder.Entries(Fringe(c, p))
    {
      hide Loose, Sagging, Flat, BTreeOrder.Entries, Fringe;
      SagPages(nodes, rootPageId, keyCount, MinKeys(), maxKeys, c, p, h, childIndex);
      var parent := nodes[parentId];
      var leftId, rightId := parent.children[childIndex], parent.children[childIndex + 1];
      var left, right := nodes[leftId], nodes[rightId];
      left := LeafPage(left.keys + [right.keys[0]], left.rowIds + [right.rowIds[0]], left.nextLeaf);
      right := LeafPage(right.keys[1..], right.rowIds[1..], right.nextLeaf);
      parent := InnerPage(parent.keys[childIndex := right.keys[0]], parent.children);
      ghost var l := Leaf(leftId, left.keys, left.rowIds, left.nextLeaf);
      ghost var r := Leaf(rightId, right.keys, right.rowIds, right.nextLeaf);
      LeafPairStep(nodes, rootPageId, keyCount, MinKeys(), maxKeys, c, p, h, childIndex, l, r);
      q := WithPair(p, childIndex, l, right.keys[0], r);
      assert Roots(q.kids) == Roots(p.kids);
      SwapPages(nodes, leftId, left, rightId, right, parentId, parent);
      nodes := nodes[leftId := left][rightId := right][parentId := parent];
    }

    method BorrowFromLeftInternal(parentId: PageId, childIndex: nat, ghost c: Ctx, ghost p: Tree, ghost h: nat)
      returns (ghost q: Tree)
      requires 2 <= maxKeys && 1 <= childIndex && parentId == p.id
      requires Sagging(nodes, rootPageId, keyCount, MinKeys(), maxKeys, c, p, h, childIndex - 1)
      requires Conserved(nodes.Keys, freePageIds, nextPageId)
      requires p.kids[childIndex - 1].Node? && MinKeys() < |p.kids[childIndex - 1].keys| <= maxKeys
      requires p.kids[childIndex].Node? && |p.kids[childIndex].keys| + 1 == MinKeys()
      modifies this`nodes
      ensures Open(c, q, h) && FilledAt(c, q, MinKeys(), maxKeys) && q.id == p.id && |q.keys| <= maxKeys
      ensures BTreeOrder.Entries(Fringe(c, q)) == BTreeOrder.Entries(Fringe(c, p))
    {
      hide Loose, Sagging, Flat, BTreeOrder.Entries, Fringe;
      ghost var i := childIndex - 1;
      SagPages(nodes, rootPageId, keyCount, MinKeys(), maxKeys, c, p, h, i);
      var parent := nodes[parentId];
      var leftId, rightId := parent.children[childIndex - 1], parent.children[childIndex];
      var left, right := nodes[leftId], nodes[rightId];
      var k := |left.keys| - 1;
      right := InnerPage([parent.keys[childIndex - 1]] + right.keys, [left.children[k + 1]] + right.children);
      parent := InnerPage(parent.keys[childIndex - 1 := left.keys[k]], parent.children);
      ghost var x, y := p.kids[i], p.kids[i + 1];
      ghost var l, r :=
        Node(x.id, x.keys[..k], x.kids[..k + 1]), Node(y.id, [p.keys[i]] + y.keys, [x.kids[k + 1]] + y.kids);
      InnerPairStep(nodes, rootPageId, keyCount, MinKeys(), maxKeys, c, p, h, i, l, left.keys[k], r);
      q := WithPair(p, i, l, left.keys[k], r);
      left := InnerPage(left.keys[..k], left.children[..k + 1]);
      assert Roots(q.kids) == Roots(p.kids) && left == Image(l) && right == Image(r);
      SwapPages(nodes, leftId, left, rightId, right, parentId, parent);
      nodes := nodes[leftId := left][rightId := right][parentId := parent];
    }

    method BorrowFromRightInternal(parentId: PageId, childIndex: nat, ghost c: Ctx, ghost p: Tree, ghost h: nat)
      returns (ghost q: Tree)
      requires 2 <= maxKeys && parentId == p.id
      requires Sagging(nodes, rootPageId, keyCount, MinKeys(), maxKeys, c, p, h, childIndex)
      requires Conserved(nodes.Keys, freePageIds, nextPageId)
      requires p.kids[childIndex].Node? && |p.kids[childIndex].keys| + 1 == MinKeys()
      requires p.kids[childIndex + 1].Node? && MinKeys() < |p.kids[childIndex + 1].keys| <= maxKeys
      modifies this`nodes
      ensures Open(c, q, h) && FilledAt(c, q, MinKeys(), maxKeys) && q.id == p.id && |q.keys| <= maxKeys
      ensures BTreeOrder.Entries(Fringe(c, q)) == BTreeOrder.Entries(Fringe(c, p))
    {
      hide Loose, Sagging, Flat, BTreeOrder.Entries, Fringe;
      ghost var i := childIndex;
      SagPages(nodes, rootPageId, keyCount, MinKeys(), maxKeys, c, p, h, i);
      var parent := nodes[parentId];
      var leftId, rightId := parent.children[childIndex], parent.children[childIndex + 1];
      var left, right := nodes[leftId], nodes[rightId];
      left := InnerPage(left.keys + [parent.keys[childIndex]], left.children + [right.children[0]]);
      parent := InnerPage(parent.keys[childIndex := right.keys[0]], parent.children);
      ghost var x, y := p.kids[i], p.kids[i + 1];
      ghost var l, r := Node(x.id, x.keys + [p.keys[i]], x.kids + [y.kids[0]]), Node(y.id, y.keys[1..], y.kids[1..]);
      InnerPairStep(nodes, rootPageId, keyCount, MinKeys(), maxKeys, c, p, h, i, l, right.keys[0], r);
      q := WithPair(p, i, l, right.keys[0], r);
      right := InnerPage(right.keys[1..], right.children[1..]);
      assert Roots(q.kids) == Roots(p.kids) && left == Image(l) && right == Image(r);
      SwapPages(nodes, leftId, left, rightId, right, parentId, parent);
      nodes := nodes[leftId := left][rightId := right][parentId := parent];
    }

    method MergeLeaves(parentId: PageId, leftChildIndex: nat, ghost c: Ctx, ghost p: Tree, ghost h: nat)
      returns (ghost q: Tree)
      requires 2 <= maxKeys && parentId == p.id
      requires Sagging(nodes, rootPageId, keyCount, MinKeys(), maxKeys, c, p, h, leftChildIndex)
      requires Conserved(nodes.Keys, freePageIds, nextPageId)
      requires p.kids[leftChildIndex].Leaf? && p.kids[leftChildIndex + 1].Leaf?
      requires MinKeys() <= |p.kids[leftChildIndex].keys| + |p.kids[leftChildIndex + 1].keys| <= maxKeys
      modifies this`nodes, this`freePageIds
      ensures Open(c, q, h) && q.id == p.id && |q.keys| == |p.keys| - 1
      ensures BTreeOrder.Entries(Fringe(c, q)) == BTreeOrder.Entries(Fringe(c, p))
    {
      hide Loose, Sagging, Flat, BTreeOrder.Entries, Fringe;
      ghost var i := leftChildIndex;
      SagPages(nodes, rootPageId, keyCount, MinKeys(), maxKeys, c, p, h, i);
      var parent := nodes[parentId];
      var leftId, rightId := parent.children[leftChildIndex], parent.children[leftChildIndex + 1];
      var left, right := nodes[leftId], nodes[rightId];
      left := LeafPage(left.keys + right.keys, left.rowIds + right.rowIds, right.nextLeaf);
      parent := InnerPage(parent.keys[..leftChildIndex] + parent.keys[leftChildIndex + 1..],
                          parent.children[..leftChildIndex + 1] + parent.children[leftChildIndex + 2..]);
      LeafMergeStep(nodes, rootPageId, keyCount, MinKeys(), maxKeys, c, p, h, i);
      ghost var x := MergedLeaf(p.kids[i], p.kids[i + 1]);
      q := WithMerged(p, i, x);
      MergedRoots(p, i, x);
      SwapPages(nodes, leftId, left, leftId, left, parentId, parent);
      nodes := nodes[leftId := left][parentId := parent];
      FreePage(rightId);
    }

    method MergeInternals(parentId: PageId, leftChildIndex: nat, ghost c: Ctx, ghost p: Tree, ghost h: nat)
      returns (ghost q: Tree)
      requires 2 <= maxKeys && parentId == p.id
      requires Sagging(nodes, rootPageId, keyCount, MinKeys(), maxKeys, c, p, h, leftChildIndex)
      requires Conserved(nodes.Keys, freePageIds, nextPageId)
      requires p.kids[leftChildIndex].Node? && p.kids[leftChildIndex + 1].Node?
      requires MinKeys() <= |p.kids[leftChildIndex].keys| + 1 + |p.kids[leftChildIndex + 1].keys| <= maxKeys
      modifies this`nodes, this`freePageIds
      ensures Open(c, q, h) && q.id == p.id && |q.keys| == |p.keys| - 1
      ensures BTreeOrder.Entries(Fringe(c, q)) == BTreeOrder.Entries(Fringe(c, p))
    {
      hide Loose, Sagging, Flat, BTreeOrder.Entries, Fringe;
      ghost var i := leftChildIndex;
      SagPages(nodes, rootPageId, keyCount, MinKeys(), maxKeys, c, p, h, i);
      var parent := nodes[parentId];
      var leftId, rightId := parent.children[leftChildIndex], parent.children[leftChildIndex + 1];
      var left, right := nodes[leftId], nodes[rightId];
      left := InnerPage(left.keys + [parent.keys[leftChildIndex]] + right.keys, left.children + right.children);
      parent := InnerPage(parent.keys[..leftChildIndex] + parent.keys[leftChildIndex + 1..],
                          parent.children[..leftChildIndex + 1] + parent.children[leftChildIndex + 2..]);
      InnerMergeStep(nodes, rootPageId, keyCount, MinKeys(), maxKeys, c, p, h, i);
      ghost var x := MergedInner(p.kids[i], p.keys[i], p.kids[i + 1]);
      q := WithMerged(p, i, x);
      assert left == Image(x);
      MergedRoots(p, i, x);
      SwapPages(nodes, leftId, left, leftId, left, parentId, parent);
      nodes := nodes[leftId := left][parentId := parent];
      FreePage(rightId);
    }

    method CollapseRootIfNeeded(ghost t: Tree, ghost h: nat)
      requires Open(Top, t, h) && |t.keys| <= maxKeys
      modifies this
      ensures Valid()
      ensures Entries() == BTreeOrder.Entries(Fringe(Top, t))
    {
      hide Whole, Loose, Flat, BTreeOrder.Entries, Fringe;
      LooseNode(nodes, rootPageId, keyCount, MinKeys(), maxKeys, Top, t, h);
      RootOfLoose(nodes, rootPageId, keyCount, MinKeys(), maxKeys, t, h);
      var root := nodes[rootPageId];
      if root.LeafPage? {
        Close(Top, t, h);
        return;
      }
      if |root.children| != 1 {
        Close(Top, t, h);
        return;
      }
      var onlyChild := root.children[0];
      CollapseStep(nodes, rootPageId, keyCount, MinKeys(), maxKeys, t, h);
      FreePage(rootPageId);
      rootPageId := onlyChild;
      tree, height := t.kids[0], h - 1;
    }

    // ----------------------------------------------------------- lookups

    /** The row ids stored under `key`, in insertion order. */
    method Find(key: Value) returns (result: seq<RowId>)
      requires Valid()
      ensures result == RowsWhere(Entries(), Eq, key)
      ensures result == Postings(Contents(), key)
    {
      hide Whole, Loose, Ordered, Linked, Flat, BTreeOrder.Entries, MapOf, Brackets, SortedKeys, Fringe, RowsWhere;
      ghost var c, t;
      var path;
      path, c, t := PathToLeaf(key);
      LooseLeaf(nodes, rootPageId, keyCount, MinKeys(), maxKeys, c, t, key);
      var leaf := nodes[path[|path| - 1]];
      var index := LowerBound(leaf.keys, key);
      FindStep(nodes, rootPageId, keyCount, MinKeys(), maxKeys, c, t, key, index);
      WholeLookup(nodes, rootPageId, keyCount, MinKeys(), maxKeys, tree, height, key);
      if index < |leaf.keys| && leaf.keys[index] == key {
        return leaf.rowIds[index];
      }
      return [];
    }

    /** The number of distinct keys. */
    method Size() returns (n: nat)
      requires Valid()
      ensures n == |Contents()|
    {
      WholeLookup(nodes, rootPageId, keyCount, MinKeys(), maxKeys, tree, height, Null);
      n := keyCount;
    }

    method LeftmostLeaf() returns (pageId: PageId)
      requires Valid()
      ensures Flat(tree) != [] && Flat(tree)[0].LeafTok? && Flat(tree)[0].id == pageId
    {
      hide Ordered, Linked;
      pageId := rootPageId;
      ghost var t, h := tree, height;
      while nodes[pageId].InnerPage?
        invariant Stored(nodes, t) && Shaped(t, h) && pageId == t.id
        invariant Flat(t) <= Flat(tree)
        decreases h
      {
        assert Stored(nodes, t.kids[0]) && Shaped(t.kids[0], h - 1);
        pageId := nodes[pageId].children[0];
        t, h := t.kids[0], h - 1;
      }
    }

    /** All row ids under keys below `key`, in key order. */
    method LessThan(key: Value) returns (result: seq<RowId>)
      requires Valid()
      ensures result == RowsWhere(Entries(), Lt, key)
      ensures forall row :: row in result <==> FiledBelow(Contents(), key, row)
    {
      hide Whole, Flat, BTreeOrder.Entries, SortedEntries, RowsWhere, Less, Conserved, MapOf, FiledBelow, FiledAbove;
      var first := LeftmostLeaf();
      ghost var ts, e := Flat(tree), Entries();
      ghost var i, n := 0, 0;
      WholeChain(nodes, rootPageId, keyCount, MinKeys(), maxKeys, tree, height);
      result := [];
      RowsWhereNone(e[..0], Lt, key);
      SpanStart(ts);
      var pageId := Some(first);
      while pageId.Some?
        invariant pageId.Some? ==>
          i < |ts| && ts[i].LeafTok? && pageId.value == ts[i].id && n == |BTreeOrder.Entries(ts[..i])|
        invariant pageId.None? ==> n == |e|
        invariant 0 <= n <= |e| && result == RowsWhere(e[..n], Lt, key)
        decreases pageId.Some?, |ts| - i
      {
        ChainAt(nodes, rootPageId, keyCount, MinKeys(), maxKeys, tree, height, i);
        var leaf := nodes[pageId.value];
        ghost var base := n;
        for j := 0 to |leaf.keys|
          invariant n == base + j && n <= |e| && result == RowsWhere(e[..n], Lt, key)
        {
          assert e[n] == (leaf.keys[j], leaf.rowIds[j]);
          if !Less(leaf.keys[j], key) {
            StopBelow(e, n, key);
            WholeRanges(nodes, rootPageId, keyCount, MinKeys(), maxKeys, tree, height, key, result);
            return;
          }
          RowsWhereNext(e, n, Lt, key);
          result := result + leaf.rowIds[j];
          n := n + 1;
        }
        pageId := leaf.nextLeaf;
        i := i + 2;
      }
      assert e[..n] == e;
      WholeRanges(nodes, rootPageId, keyCount, MinKeys(), maxKeys, tree, height, key, result);
    }

    /** All row ids under keys above `key`, in key order. */
    method GreaterThan(key: Value) returns (result: seq<RowId>)
      requires Valid()
      ensures result == RowsWhere(Entries(), Gt, key)
      ensures forall row :: row in result <==> FiledAbove(Contents(), key, row)
    {
      hide Whole, Loose, Flat, BTreeOrder.Entries, SortedEntries, RowsWhere, Fringe, Less, Pre, Post, Fits, FilledAt,
           Conserved, MapOf, FiledBelow, FiledAbove;
      ghost var c, t;
      var path;
      path, c, t := PathToLeaf(key);
      ghost var ts, e := Flat(tree), Entries();
      ghost var i, n := |Pre(c)|, |BTreeOrder.Entries(Pre(c))|;
      WholeChain(nodes, rootPageId, keyCount, MinKeys(), maxKeys, tree, height);
      StartAbove(nodes, rootPageId, keyCount, MinKeys(), maxKeys, c, t, key);
      result := [];
      var pageId := Some(path[|path| - 1]);
      var collecting := false;
      while pageId.Some?
        invariant pageId.Some? ==>
          i < |ts| && ts[i].LeafTok? && pageId.value == ts[i].id && n == |BTreeOrder.Entries(ts[..i])|
        invariant pageId.None? ==> n == |e|
        invariant 0 <= n <= |e| && result == RowsWhere(e[..n], Gt, key)
        invariant collecting ==> 0 < n && Less(key, e[n - 1].0)
        decreases pageId.Some?, |ts| - i
      {
        ChainAt(nodes, rootPageId, keyCount, MinKeys(), maxKeys, tree, height, i);
        var leaf := nodes[pageId.value];
        ghost var base := n;
        for j := 0 to |leaf.keys|
          invariant n == base + j && n <= |e| && result == RowsWhere(e[..n], Gt, key)
          invariant collecting ==> 0 < n && Less(key, e[n - 1].0)
        {
          assert e[n] == (leaf.keys[j], leaf.rowIds[j]);
          RowsWhereNext(e, n, Gt, key);
          if !collecting && Less(key, leaf.keys[j]) {
            collecting := true;
          } else if collecting {
            StayAbove(e, n, key);
          }
          if collecting {
            result := result + leaf.rowIds[j];
          }
          n := n + 1;
        }
        pageId := leaf.nextLeaf;
        i := i + 2;
      }
      assert e[..n] == e;
      WholeRanges(nodes, rootPageId, keyCount, MinKeys(), maxKeys, tree, height, key, result);
    }
  }

  datatype Op = Put(key: Value, rowId: RowId) | Drop(key: Value, rowId: RowId) | Reset

  function Apply(m: map<Value, seq<RowId>>, op: Op): map<Value, seq<RowId>> {
    match op
    case Put(k, r) => Inserted(m, k, r)
    case Drop(k, r) => Removed(m, k, r)
    case Reset => map[]
  }

  function ApplyAll(ops: seq<Op>): map<Value, seq<RowId>> {
    if ops == [] then map[] else Apply(ApplyAll(ops[..|ops| - 1]), ops[|ops| - 1])
  }

  /** Any run of operations leaves a well-formed tree that stands for the map the run describes. */
  method Replay(maxKeysPerNode: nat, ops: seq<Op>) returns (index: BTreeIndex)
    requires 2 <= maxKeysPerNode
    ensures index.Valid() && index.Contents() == ApplyAll(ops)
  {
    hide Whole, Conserved, MapOf, Entries, Flat, Inserted, Removed;
    index := new BTreeIndex(maxKeysPerNode);
    for i := 0 to |ops|
      invariant fresh(index) && index.maxKeys == maxKeysPerNode
      invariant index.Valid() && index.Contents() == ApplyAll(ops[..i])
    {
      assert ops[..i + 1][..i] == ops[..i];
      match ops[i] {
        case Put(k, r) => index.Insert(k, r);
        case Drop(k, r) => index.Remove(k, r);
        case Reset => index.Clear();
      }
    }
    assert ops[..|ops|] == ops;
  }
}
