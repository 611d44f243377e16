/** The least-recently-used page cache. */
module BufferPools {
  import opened Values
  import opened ByteStreams

  function Without(s: seq<PageId>, p: PageId): seq<PageId> {
    if s == [] then [] else (if s[0] == p then [] else [s[0]]) + Without(s[1..], p)
  }

  /** The page moves to the front; at most `capacity` pages stay. */
  function Recent(lru: seq<PageId>, p: PageId, capacity: nat): seq<PageId> {
    var all := [p] + Without(lru, p);
    if |all| <= capacity then all else all[..capacity]
  }

  lemma {:induction false} WithoutIs(s: seq<PageId>, p: PageId)
    requires Distinct(s)
    ensures Distinct(Without(s, p)) && forall q :: q in Without(s, p) <==> q in s && q != p
    ensures |Without(s, p)| == if p in s then |s| - 1 else |s|
  {
    if s != [] {
      WithoutIs(s[1..], p);
      assert s == [s[0]] + s[1..];
      assert s[0] !in s[1..];
    }
  }

  lemma {:induction false} WithoutAbsent(s: seq<PageId>, p: PageId)
    requires p !in s
    ensures Without(s, p) == s
  {
    if s != [] {
      WithoutAbsent(s[1..], p);
      assert s == [s[0]] + s[1..];
    }
  }

  lemma LastApart(s: seq<PageId>, n: nat)
    requires Distinct(s) && 0 < n <= |s|
    ensures forall p :: p in s[..n - 1] <==> p in s[..n] && p != s[n - 1]
    ensures s[..n][..n - 1] == s[..n - 1] && s[..n][n - 1] == s[n - 1]
  {
    assert s[..n] == s[..n - 1] + [s[n - 1]];
  }

  class BufferPool {
    const capacity: nat
    var lru: seq<PageId>
    var pages: map<PageId, Bytes>

    /** The list orders exactly the cached pages. */
    ghost predicate Valid()
      reads this
    {
      capacity >= 1 && |lru| <= capacity && Distinct(lru) && forall p :: p in lru <==> p in pages
    }

    constructor (capacity: nat)
      requires capacity >= 1
      ensures Valid() && this.capacity == capacity && pages == map[] && lru == []
    {
      this.capacity := capacity;
      lru, pages := [], map[];
    }

    /** The page is cached with these bytes; other pages keep theirs or go, the
        least recently used first. */
    method Put(page: PageId, bytes: Bytes)
      requires Valid()
      modifies this
      ensures Valid() && page in pages && pages[page] == bytes
      ensures forall p :: p in pages && p != page ==> p in old(pages) && pages[p] == old(pages)[p]
      ensures lru == Recent(old(lru), page, capacity)
    {
      WithoutIs(lru, page);
      if page in pages {
        pages := pages[page := bytes];
        lru := [page] + Without(lru, page);
        return;
      }
      WithoutAbsent(lru, page);
      lru := [page] + lru;
      pages := pages[page := bytes];
      EvictIfNeeded(page);
    }

    method EvictIfNeeded(page: PageId)
      requires capacity >= 1 && lru != [] && lru[0] == page && Distinct(lru) && forall p :: p in lru <==> p in pages
      modifies this
      ensures Valid() && page in pages && lru == if |old(lru)| <= capacity then old(lru) else old(lru)[..capacity]
      ensures forall p :: p in pages ==> p in old(pages) && pages[p] == old(pages)[p]
    {
      while |lru| > capacity
        invariant lru == old(lru)[..|lru|] && (|lru| == |old(lru)| || |lru| >= capacity)
        invariant 1 <= |lru| <= |old(lru)|
        invariant forall p :: p in lru <==> p in pages
        invariant forall p :: p in pages ==> p in old(pages) && pages[p] == old(pages)[p]
      {
        var evicted := lru[|lru| - 1];
        LastApart(old(lru), |lru|);
        lru := lru[..|lru| - 1];
        pages := pages - {evicted};
      }
      assert lru[0] == page;
    }

    method Get(page: PageId) returns (bytes: Option<Bytes>)
      requires Valid()
      modifies this`lru
      ensures Valid() && bytes == if page in pages then Some(pages[page]) else None
      ensures lru == if page in pages then Recent(old(lru), page, capacity) else old(lru)
    {
      if page !in pages {
        return None;
      }
      WithoutIs(lru, page);
      lru := [page] + Without(lru, page);
      return Some(pages[page]);
    }
  }
}
