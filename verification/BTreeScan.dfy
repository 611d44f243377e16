/** Reading a B+ tree: point lookups through the search path, range scans along the leaf chain. */
module BTreeScan {
  import opened Values
  import opened BTreeShape
  import opened BTreeOrder
  import opened BTreeEdits
  import opened BTreePages
  import opened BTreeIndexing

  /** A point lookup only has to look into the leaf that the search path ends in. */
  lemma FindStep(m: PageMap, root: PageId, count: nat, lo: nat, hi: nat, c: Ctx, t: Tree, key: Value, i: nat)
    requires Loose(m, root, count, lo, hi, c, t, 0) && Fits(c, key) && t.Leaf?
    requires i <= |t.keys| && |t.rowIds| == |t.keys|
    requires forall j :: 0 <= j < i ==> Less(t.keys[j], key)
    requires forall j :: i <= j < |t.keys| ==> !Less(t.keys[j], key)
    ensures RowsWhere(Entries(Fringe(c, t)), Eq, key)
         == if i < |t.keys| && t.keys[i] == key then t.rowIds[i] else []
  {
    hide Linked, Entries;
    LooseLeaf(m, root, count, lo, hi, c, t, key);
    EntriesAround(Pre(c), Tok(t), Post(c));
    BracketEntries(Pre(c), key, Post(c));
    LessOrder(key, key, key);
    var le := LeafEntries(t.keys, t.rowIds);
    RowsWhereConcat(Entries(Pre(c)) + le, Entries(Post(c)), Eq, key);
    RowsWhereConcat(Entries(Pre(c)), le, Eq, key);
    RowsWhereNone(Entries(Pre(c)), Eq, key);
    RowsWhereNone(Entries(Post(c)), Eq, key);
    LeafFind(t.keys, t.rowIds, key, i);
  }

  lemma LeafFind(keys: seq<Value>, rowIds: seq<seq<RowId>>, key: Value, i: nat)
    requires SortedKeys(keys) && |rowIds| == |keys| && i <= |keys|
    requires forall j :: 0 <= j < i ==> Less(keys[j], key)
    requires forall j :: i <= j < |keys| ==> !Less(keys[j], key)
    ensures RowsWhere(LeafEntries(keys, rowIds), Eq, key) == if i < |keys| && keys[i] == key then rowIds[i] else []
  {
    hide Less, LeafEntries;
    var le := LeafEntries(keys, rowIds);
    LessOrder(key, key, key);
    RowsWhereNone(le[..i], Eq, key);
    if i == |keys| {
      assert le[..i] == le;
    } else {
      forall j | i < j < |keys| ensures keys[j] != key { assert Less(keys[i], keys[j]); }
      RowsWhereNone(le[i + 1..], Eq, key);
      assert le == le[..i] + ([le[i]] + le[i + 1..]);
      RowsWhereConcat(le[..i], [le[i]] + le[i + 1..], Eq, key);
      assert ([le[i]] + le[i + 1..])[1..] == le[i + 1..];
    }
  }

  lemma WholeLookup(m: PageMap, root: PageId, count: nat, lo: nat, hi: nat, t: Tree, h: nat, key: Value)
    requires Whole(m, root, count, lo, hi, t, h)
    ensures RowsWhere(Entries(Flat(t)), Eq, key) == Postings(MapOf(Entries(Flat(t))), key)
    ensures count == |MapOf(Entries(Flat(t)))|
  {
    EntriesSorted(Flat(t));
    SortedLookup(Entries(Flat(t)), key);
  }

  lemma WholeChain(m: PageMap, root: PageId, count: nat, lo: nat, hi: nat, t: Tree, h: nat)
    requires Whole(m, root, count, lo, hi, t, h)
    ensures SortedEntries(Entries(Flat(t)))
  {
    EntriesSorted(Flat(t));
  }

  lemma WholeRanges(
      m: PageMap, root: PageId, count: nat, lo: nat, hi: nat, t: Tree, h: nat, bound: Value, rows: seq<RowId>)
    requires Whole(m, root, count, lo, hi, t, h)
    ensures var e := Entries(Flat(t));
      && (rows == RowsWhere(e, Lt, bound) ==> forall row :: row in rows <==> FiledBelow(MapOf(e), bound, row))
      && (rows == RowsWhere(e, Gt, bound) ==> forall row :: row in rows <==> FiledAbove(MapOf(e), bound, row))
  {
    hide Whole, SortedEntries, MapOf, RowsWhere, FiledBelow, FiledAbove, Flat, Entries;
    WholeChain(m, root, count, lo, hi, t, h);
    var e := Entries(Flat(t));
    forall row
      ensures row in RowsWhere(e, Lt, bound) <==> FiledBelow(MapOf(e), bound, row)
      ensures row in RowsWhere(e, Gt, bound) <==> FiledAbove(MapOf(e), bound, row)
    {
      RangeFiles(e, bound, row);
    }
  }

  lemma SpanStart(ts: seq<Token>)
    ensures |Entries(ts[..0])| == 0
  {
    assert ts[..0] == [];
  }

  /** Where the entries of leaf `i` sit among all entries, and where its `nextLeaf` leads. */
  lemma ChainAt(m: PageMap, root: PageId, count: nat, lo: nat, hi: nat, t: Tree, h: nat, i: nat)
    requires Whole(m, root, count, lo, hi, t, h) && i < |Flat(t)| && Flat(t)[i].LeafTok?
    ensures var ts := Flat(t); var tok, e, n := ts[i], Entries(ts), |Entries(ts[..i])|;
            && tok.id in m && m[tok.id] == LeafPage(tok.keys, tok.rowIds, tok.nextLeaf)
            && |tok.rowIds| == |tok.keys| && n + |tok.keys| <= |e|
            && (forall j :: 0 <= j < |tok.keys| ==> e[n + j] == (tok.keys[j], tok.rowIds[j]))
            && (tok.nextLeaf.Some? ==> i + 2 < |ts| && ts[i + 2].LeafTok? && ts[i + 2].id == tok.nextLeaf.value
                                       && |Entries(ts[..i + 2])| == n + |tok.keys|)
            && (tok.nextLeaf.None? ==> n + |tok.keys| == |e|)
  {
    hide Whole, Stored, Flat, Entries, Ordered, Linked;
    WholeFacts(m, root, count, lo, hi, t, h);
    StoredTokens(m, t, i);
    LeafSpan(Flat(t), i);
    NextSpan(Flat(t), i);
  }

  lemma WholeFacts(m: PageMap, root: PageId, count: nat, lo: nat, hi: nat, t: Tree, h: nat)
    requires Whole(m, root, count, lo, hi, t, h)
    ensures Stored(m, t) && Ordered(Flat(t)) && Linked(Flat(t))
  {
  }

  lemma LeafSpan(ts: seq<Token>, i: nat)
    requires i < |ts| && ts[i].LeafTok? && Ordered(ts)
    ensures var tok, n := ts[i], |Entries(ts[..i])|;
            && |tok.rowIds| == |tok.keys| && n + |tok.keys| <= |Entries(ts)|
            && (forall j :: 0 <= j < |tok.keys| ==> Entries(ts)[n + j] == (tok.keys[j], tok.rowIds[j]))
  {
    assert GoodToken(ts[i]);
    assert ts == ts[..i] + [ts[i]] + ts[i + 1..];
    EntriesAround(ts[..i], ts[i], ts[i + 1..]);
  }

  lemma NextSpan(ts: seq<Token>, i: nat)
    requires i < |ts| && ts[i].LeafTok? && Ordered(ts) && Linked(ts)
    ensures var tok, n := ts[i], |Entries(ts[..i])|;
            && (tok.nextLeaf.Some? ==> i + 2 < |ts| && ts[i + 2].LeafTok? && ts[i + 2].id == tok.nextLeaf.value
                                       && |Entries(ts[..i + 2])| == n + |tok.keys|)
            && (tok.nextLeaf.None? ==> n + |tok.keys| == |Entries(ts)|)
  {
    hide Ordered;
    var tok := ts[i];
    assert |tok.rowIds| == |tok.keys| by { LeafSpan(ts, i); }
    if i == |ts| - 1 {
      assert ts == ts[..i] + [ts[i]] + [];
      EntriesAround(ts[..i], ts[i], []);
    } else {
      assert ts[i].LeafTok? != ts[i + 1].LeafTok?;
      assert i + 2 < |ts|;
      assert ts[i + 2].LeafTok?;
      assert ts[..i + 2] == ts[..i] + [ts[i]] + [ts[i + 1]];
      EntriesAround(ts[..i], ts[i], [ts[i + 1]]);
      assert Entries([ts[i + 1]]) == Entries([ts[i + 1]][1..]) == [];
    }
  }

  lemma RowsWhereNext(e: seq<Entry>, n: nat, op: CompareOp, k: Value)
    requires n < |e|
    ensures RowsWhere(e[..n + 1], op, k) == RowsWhere(e[..n], op, k) + (if Compare(e[n].0, op, k) then e[n].1 else [])
  {
    assert e[..n + 1] == e[..n] + [e[n]];
    RowsWhereConcat(e[..n], [e[n]], op, k);
    assert RowsWhere([e[n]], op, k) == (if Compare(e[n].0, op, k) then e[n].1 else []) + RowsWhere([e[n]][1..], op, k);
  }

  /** A scan in key order may stop at the first key that is not below the bound. */
  lemma StopBelow(e: seq<Entry>, n: nat, key: Value)
    requires SortedEntries(e) && n < |e| && !Less(e[n].0, key)
    ensures RowsWhere(e, Lt, key) == RowsWhere(e[..n], Lt, key)
  {
    forall j | 0 <= j < |e[n..]| ensures !Compare(e[n..][j].0, Lt, key) {
      if j > 0 { LessOrder(e[n].0, e[n + j].0, key); }
    }
    RowsWhereNone(e[n..], Lt, key);
    assert e == e[..n] + e[n..];
    RowsWhereConcat(e[..n], e[n..], Lt, key);
  }

  lemma StayAbove(e: seq<Entry>, n: nat, key: Value)
    requires SortedEntries(e) && 0 < n < |e| && Less(key, e[n - 1].0)
    ensures Less(key, e[n].0)
  {
    LessOrder(key, e[n - 1].0, e[n].0);
  }

  /** Nothing before the leaf on the search path is above the key. */
  lemma StartAbove(m: PageMap, root: PageId, count: nat, lo: nat, hi: nat, c: Ctx, t: Tree, key: Value)
    requires Loose(m, root, count, lo, hi, c, t, 0) && Fits(c, key) && t.Leaf?
    ensures var ts := Fringe(c, t); var i, n := |Pre(c)|, |Entries(Pre(c))|;
            && i < |ts| && ts[i].LeafTok? && ts[i].id == t.id && n == |Entries(ts[..i])|
            && n <= |Entries(ts)| && RowsWhere(Entries(ts)[..n], Gt, key) == []
  {
    hide Linked, Entries;
    LooseLeaf(m, root, count, lo, hi, c, t, key);
    EntriesAround(Pre(c), Tok(t), Post(c));
    BracketEntries(Pre(c), key, Post(c));
    var ts := Fringe(c, t);
    assert ts[..|Pre(c)|] == Pre(c);
    assert Entries(ts)[..|Entries(Pre(c))|] == Entries(Pre(c));
    forall j | 0 <= j < |Entries(Pre(c))| ensures !Compare(Entries(Pre(c))[j].0, Gt, key) {
      LessOrder(Entries(Pre(c))[j].0, key, Entries(Pre(c))[j].0);
    }
    RowsWhereNone(Entries(Pre(c)), Gt, key);
  }
}
