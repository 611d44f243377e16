/** How the slots of a heap are spread over pages of equal size. */
module HeapPages {
  import opened Arithmetic
  import opened Values
  import opened RowStores
  import opened ByteStreams
  import opened PageCodec

  type Slots = seq<Option<StoredRow>>

  /** Pages are numbered from one. */
  function PageOf(size: int, id: RowId): PageId
    requires size >= 1
  {
    id / size + 1
  }

  function OffsetOf(size: int, id: RowId): int
    requires size >= 1
  {
    id % size
  }

  function First(size: int, page: PageId): RowId {
    (page - 1) * size
  }

  lemma PageBounds(size: int, id: RowId)
    requires size >= 1 && id >= 0
    ensures 1 <= PageOf(size, id) && 0 <= First(size, PageOf(size, id)) <= id
    ensures OffsetOf(size, id) == id - First(size, PageOf(size, id)) && 0 <= OffsetOf(size, id) < size
  {
  }

  lemma PageUnique(size: int, id: RowId, page: PageId)
    requires size >= 1 && id >= 0 && First(size, page) <= id < First(size, page) + size
    ensures PageOf(size, id) == page
  {
    var q := page - 1;
    assert id == q * size + (id - q * size);
    DivUnique(id, size, q, id - q * size);
  }

  lemma FirstPositive(size: int, page: PageId)
    requires size >= 1 && page >= 1
    ensures First(size, page) >= 0
  {
  }

  /** A dead slot is stored as an empty row. */
  function Tombstoned(s: Option<StoredRow>): StoredRow {
    if s.Some? then s.value else []
  }

  function Stored(slots: Slots): seq<StoredRow> {
    seq(|slots|, i requires 0 <= i < |slots| => Tombstoned(slots[i]))
  }

  /** The slots of a page, as far as the heap reaches. */
  function PageSlots(size: int, slots: Slots, page: PageId): Slots
    requires size >= 1 && page >= 1
  {
    FirstPositive(size, page);
    var lo := First(size, page);
    if lo >= |slots| then [] else if lo + size >= |slots| then slots[lo..] else slots[lo..lo + size]
  }

  function PageRows(size: int, slots: Slots, page: PageId): seq<StoredRow>
    requires size >= 1 && page >= 1
  {
    Stored(PageSlots(size, slots, page))
  }

  /** Replacing one slot rewrites its page and no other. */
  lemma PutPage(size: int, slots: Slots, id: RowId, v: Option<StoredRow>, page: PageId)
    requires size >= 1 && page >= 1 && 0 <= id < |slots|
    ensures 0 <= OffsetOf(size, id) < |PageRows(size, slots, PageOf(size, id))| && PageOf(size, id) >= 1
    ensures PageRows(size, slots[id := v], page) ==
      if page == PageOf(size, id) then PageRows(size, slots, page)[OffsetOf(size, id) := Tombstoned(v)]
      else PageRows(size, slots, page)
  {
    PageBounds(size, id);
    FirstPositive(size, page);
    var lo := First(size, page);
    if page != PageOf(size, id) && lo <= id < lo + size {
      PageUnique(size, id, page);
    }
    hide First, PageOf, OffsetOf;
    var a, b := PageSlots(size, slots, page), PageSlots(size, slots[id := v], page);
    assert |a| == |b|;
    forall i | 0 <= i < |a| ensures b[i] == if lo + i == id then v else a[i] {
    }
  }

  /** A new slot extends the page it falls on and no other. */
  lemma GrowPage(size: int, slots: Slots, v: Option<StoredRow>, page: PageId)
    requires size >= 1 && page >= 1
    ensures PageOf(size, |slots|) >= 1
    ensures OffsetOf(size, |slots|) == |PageRows(size, slots, PageOf(size, |slots|))|
    ensures PageRows(size, slots + [v], page) ==
      if page == PageOf(size, |slots|) then PageRows(size, slots, page) + [Tombstoned(v)]
      else PageRows(size, slots, page)
  {
    var id := |slots|;
    PageBounds(size, id);
    FirstPositive(size, page);
    var lo := First(size, page);
    if page != PageOf(size, id) && lo <= id < lo + size {
      PageUnique(size, id, page);
    }
    hide First, PageOf, OffsetOf;
    var a, b := PageSlots(size, slots, page), PageSlots(size, slots + [v], page);
    if page == PageOf(size, id) {
      assert b == a + [v];
      assert Stored(b) == Stored(a) + [Tombstoned(v)];
    } else {
      assert b == a;
    }
  }

  lemma PageAt(size: int, slots: Slots, id: RowId)
    requires size >= 1 && 0 <= id < |slots|
    ensures PageOf(size, id) >= 1 && 0 <= OffsetOf(size, id) < |PageRows(size, slots, PageOf(size, id))|
    ensures PageRows(size, slots, PageOf(size, id))[OffsetOf(size, id)] == Tombstoned(slots[id])
  {
    PageBounds(size, id);
  }

  /** Every row fits the byte layout, and so does every page. */
  ghost predicate Encodable(size: int, slots: Slots) {
    1 <= size < TWO64 && forall i :: 0 <= i < |slots| && slots[i].Some? ==> RowOk(slots[i].value)
  }

  lemma PagesEncodable(size: int, slots: Slots, page: PageId)
    requires Encodable(size, slots) && page >= 1
    ensures RowsOk(PageRows(size, slots, page))
  {
    FirstPositive(size, page);
    var s := PageSlots(size, slots, page);
    forall i | 0 <= i < |s| ensures RowOk(Tombstoned(s[i])) {
      assert s[i] == slots[First(size, page) + i];
    }
  }
}
