/** The page-backed row store: page bytes, a page cache and decoded rows, kept
    in step with the heap they stand for. */
module PageStores {
  import opened Values
  import opened RowStores
  import opened ByteStreams
  import opened PageCodec
  import opened HeapPages
  import opened BufferPools

  datatype Slot = Slot(pageId: int, offset: int, live: bool)

  type Rows = seq<Option<StoredRow>>

  /** Each slot knows its page, its place there and whether it is live. */
  ghost predicate SlotsMatch(size: int, rows: Rows, slots: seq<Slot>)
    requires size >= 1
  {
    |slots| == |rows| && forall id :: 0 <= id < |rows| ==>
      slots[id] == Slot(PageOf(size, id), OffsetOf(size, id), rows[id].Some?)
  }

  /** The directory holds the bytes of every page the heap reaches. */
  ghost predicate DirectoryMatches(size: int, rows: Rows, directory: map<int, Bytes>)
    requires Encodable(size, rows)
  {
    forall p :: 1 <= p ==>
      if First(size, p) < |rows| then p in directory && directory[p] == PageBytes(size, rows, p) else p !in directory
  }

  ghost function PageBytes(size: int, rows: Rows, p: int): Bytes
    requires Encodable(size, rows) && p >= 1
  {
    PagesEncodable(size, rows, p);
    EncodePage(PageRows(size, rows, p))
  }

  /** A cached page that is still in the directory has the directory's bytes. */
  ghost predicate PoolMatches(directory: map<int, Bytes>, cached: map<int, Bytes>) {
    forall p :: p in cached && p in directory ==> cached[p] == directory[p]
  }

  /** A decoded row is the live row. */
  ghost predicate CacheMatches(rows: Rows, decoded: map<RowId, StoredRow>) {
    forall id :: id in decoded ==> 0 <= id < |rows| && rows[id] == Some(decoded[id])
  }

  // ----- What storing a page changes ------------------------------------------------------

  lemma LoadIs(size: int, rows: Rows, directory: map<int, Bytes>, p: int)
    requires Encodable(size, rows) && DirectoryMatches(size, rows, directory) && p >= 1
    ensures p in directory ==> DecodePage(directory[p]) == Some(PageRows(size, rows, p))
    ensures p !in directory ==> PageRows(size, rows, p) == []
  {
    PagesEncodable(size, rows, p);
    PageRoundTrip(PageRows(size, rows, p));
  }

  lemma PutDirectory(size: int, rows: Rows, directory: map<int, Bytes>, id: RowId, v: Option<StoredRow>, bytes: Bytes)
    requires 0 <= id < |rows| && Encodable(size, rows) && Encodable(size, rows[id := v])
    requires DirectoryMatches(size, rows, directory)
    requires PageOf(size, id) >= 1 && bytes == PageBytes(size, rows[id := v], PageOf(size, id))
    ensures DirectoryMatches(size, rows[id := v], directory[PageOf(size, id) := bytes])
  {
    assert size >= 1;
    hide PageRows, EncodePage, Encodable, First, PageOf, OffsetOf;
    PageBounds(size, id);
    forall p | 1 <= p && p != PageOf(size, id) ensures PageRows(size, rows[id := v], p) == PageRows(size, rows, p) {
      PutPage(size, rows, id, v, p);
    }
  }

  lemma GrowDirectory(size: int, rows: Rows, directory: map<int, Bytes>, v: Option<StoredRow>, bytes: Bytes)
    requires Encodable(size, rows) && Encodable(size, rows + [v])
    requires DirectoryMatches(size, rows, directory)
    requires PageOf(size, |rows|) >= 1 && bytes == PageBytes(size, rows + [v], PageOf(size, |rows|))
    ensures DirectoryMatches(size, rows + [v], directory[PageOf(size, |rows|) := bytes])
  {
    var id := |rows|;
    PageBounds(size, id);
    forall p | 1 <= p && p != PageOf(size, id)
      ensures PageRows(size, rows + [v], p) == PageRows(size, rows, p) && First(size, p) != id
    {
      GrowPage(size, rows, v, p);
      if First(size, p) == id {
        PageUnique(size, id, p);
      }
    }
  }

  class PageRowStore {
    const rowsPerPage: int
    const pool: BufferPool
    var slots: seq<Slot>
    var freeList: seq<RowId>
    var pageDirectory: map<int, Bytes>
    var decodedRows: map<RowId, StoredRow>
    var liveCount: int
    var dirtyPages: set<int>
    /** The heap this store stands for. */
    ghost var heap: Heap<StoredRow>

    ghost predicate Valid()
      reads this, pool
    {
      && Encodable(rowsPerPage, heap.slots) && HeapOk(heap)
      && freeList == heap.free && liveCount == heap.live
      && SlotsMatch(rowsPerPage, heap.slots, slots)
      && DirectoryMatches(rowsPerPage, heap.slots, pageDirectory)
      && pool.Valid() && PoolMatches(pageDirectory, pool.pages)
      && CacheMatches(heap.slots, decodedRows)
    }

    constructor (rowsPerPage: int, bufferPages: nat)
      requires 1 <= rowsPerPage < TWO64 && bufferPages >= 1
      ensures Valid() && heap == Empty() && this.rowsPerPage == rowsPerPage && fresh(pool) && dirtyPages == {}
    {
      this.rowsPerPage := rowsPerPage;
      pool := new BufferPool(bufferPages);
      slots, freeList, pageDirectory, decodedRows, liveCount, dirtyPages := [], [], map[], map[], 0, {};
      heap := Empty();
      new;
      NothingStored(rowsPerPage, pool.pages);
    }

    method LoadPageRows(page: int) returns (rows: seq<StoredRow>)
      requires Encodable(rowsPerPage, heap.slots) && DirectoryMatches(rowsPerPage, heap.slots, pageDirectory)
      requires page >= 1
      ensures rows == PageRows(rowsPerPage, heap.slots, page)
    {
      LoadIs(rowsPerPage, heap.slots, pageDirectory, page);
      if page !in pageDirectory {
        return [];
      }
      var decoded := ReadPage(pageDirectory[page]);
      return decoded.value;
    }

    method InvalidateDecoded(page: int)
      modifies this`decodedRows
      ensures forall id :: id in decodedRows <==>
        id in old(decodedRows) && !(0 <= id < |slots| && slots[id].pageId == page)
      ensures forall id :: id in decodedRows ==> decodedRows[id] == old(decodedRows)[id]
    {
      for id := 0 to |slots|
        invariant forall x :: x in decodedRows <==> x in old(decodedRows) && !(0 <= x < id && slots[x].pageId == page)
        invariant forall x :: x in decodedRows ==> decodedRows[x] == old(decodedRows)[x]
      {
        if slots[id].pageId == page {
          decodedRows := decodedRows - {id};
        }
      }
    }

    /** The page's bytes go to the directory and the cache, its decoded rows are
        dropped, and it becomes dirty. */
    method StorePage(page: int, rows: seq<StoredRow>)
      requires RowsOk(rows) && pool.Valid() && PoolMatches(pageDirectory, pool.pages)
      modifies this`pageDirectory, this`decodedRows, this`dirtyPages, pool
      ensures pageDirectory == old(pageDirectory)[page := EncodePage(rows)]
      ensures pool.Valid() && PoolMatches(pageDirectory, pool.pages)
      ensures dirtyPages == old(dirtyPages) + {page}
      ensures forall id :: id in decodedRows ==>
        && id in old(decodedRows) && decodedRows[id] == old(decodedRows)[id]
        && !(0 <= id < |slots| && slots[id].pageId == page)
    {
      var bytes := SerializePage(rows);
      pageDirectory := pageDirectory[page := bytes];
      pool.Put(page, bytes);
      InvalidateDecoded(page);
      dirtyPages := dirtyPages + {page};
    }

    /** Rewrites one slot: its page is loaded, changed and stored. */
    method Rewrite(id: RowId, v: Option<StoredRow>)
      requires Valid() && 0 <= id < |slots| && (v.Some? ==> RowOk(v.value))
      modifies this`slots, this`pageDirectory, this`decodedRows, this`dirtyPages, pool
      ensures SlotsMatch(rowsPerPage, heap.slots[id := v], slots)
      ensures Encodable(rowsPerPage, heap.slots[id := v])
      ensures DirectoryMatches(rowsPerPage, heap.slots[id := v], pageDirectory)
      ensures pool.Valid() && PoolMatches(pageDirectory, pool.pages) && CacheMatches(heap.slots[id := v], decodedRows)
      ensures dirtyPages == old(dirtyPages) + {PageOf(rowsPerPage, id)}
    {
      hide PageOf, OffsetOf, First, PageRows, DirectoryMatches, HeapOk, EncodePage, PageBytes;
      var slot := slots[id];
      PageBounds(rowsPerPage, id);
      PutPage(rowsPerPage, heap.slots, id, v, PageOf(rowsPerPage, id));
      slots := slots[id := slot.(live := v.Some?)];
      var pageRows := LoadPageRows(slot.pageId);
      pageRows := pageRows[slot.offset := Tombstoned(v)];
      PagesEncodable(rowsPerPage, heap.slots[id := v], slot.pageId);
      PageBytesAre(rowsPerPage, heap.slots[id := v], slot.pageId);
      PutDirectory(rowsPerPage, heap.slots, pageDirectory, id, v, EncodePage(pageRows));
      StorePage(slot.pageId, pageRows);
    }

    /** `append`: the most recently freed id, or a new slot at the end. */
    method Append(row: StoredRow) returns (rowId: RowId)
      requires Valid() && RowOk(row)
      modifies this, pool
      ensures old(heap).free != [] ==> InHeap(old(heap), NextId(old(heap)))
      ensures Valid() && rowId == NextId(old(heap)) && heap == Appended(old(heap), row)
      ensures dirtyPages == old(dirtyPages) + {PageOf(rowsPerPage, rowId)}
    {
      hide PageOf, OffsetOf, First, PageRows, HeapOk, DirectoryMatches, SlotsMatch;
      AppendKeeps(heap, row);
      if freeList != [] {
        rowId := freeList[|freeList| - 1];
        assert rowId == NextId(heap) && |slots| == |heap.slots| by { SlotCount(rowsPerPage, heap.slots, slots); }
        Rewrite(rowId, Some(row));
        freeList := freeList[..|freeList| - 1];
      } else {
        rowId := |slots|;
        assert |slots| == |heap.slots| by { SlotCount(rowsPerPage, heap.slots, slots); }
        Grow(row);
      }
      liveCount := liveCount + 1;
      heap := Appended(heap, row);
    }

    method Erase(rowId: RowId) returns (ok: bool)
      requires Valid() && 0 <= rowId
      modifies this, pool
      ensures Valid() && ok == IsLive(old(heap), rowId)
      ensures heap == if ok then Erased(old(heap), rowId) else old(heap)
      ensures dirtyPages == old(dirtyPages) + if ok then {PageOf(rowsPerPage, rowId)} else {}
    {
      hide PageOf, OffsetOf, First, PageRows, HeapOk, DirectoryMatches;
      if rowId >= |slots| || !slots[rowId].live {
        return false;
      }
      EraseKeeps(heap, rowId);
      Rewrite(rowId, None);
      freeList := freeList + [rowId];
      liveCount := liveCount - 1;
      heap := Erased(heap, rowId);
      return true;
    }

    method Update(rowId: RowId, row: StoredRow) returns (ok: bool)
      requires Valid() && 0 <= rowId && RowOk(row)
      modifies this, pool
      ensures Valid() && ok == IsLive(old(heap), rowId)
      ensures heap == if ok then Updated(old(heap), rowId, row) else old(heap)
      ensures dirtyPages == old(dirtyPages) + if ok then {PageOf(rowsPerPage, rowId)} else {}
    {
      hide PageOf, OffsetOf, First, PageRows, HeapOk, DirectoryMatches;
      if rowId >= |slots| || !slots[rowId].live {
        return false;
      }
      UpdateKeeps(heap, rowId, row);
      Rewrite(rowId, Some(row));
      heap := Updated(heap, rowId, row);
      return true;
    }

    method Revive(rowId: RowId, row: StoredRow) returns (ok: bool)
      requires Valid() && 0 <= rowId && RowOk(row)
      modifies this, pool
      ensures Valid() && ok == Revivable(old(heap), rowId)
      ensures heap == if ok then Revived(old(heap), rowId, row) else old(heap)
      ensures dirtyPages == old(dirtyPages) + if ok then {PageOf(rowsPerPage, rowId)} else {}
    {
      hide PageOf, OffsetOf, First, PageRows, HeapOk, DirectoryMatches;
      if rowId >= |slots| || slots[rowId].live {
        return false;
      }
      if rowId !in freeList {
        return false;
      }
      ReviveKeeps(heap, rowId, row);
      Rewrite(rowId, Some(row));
      freeList := Drop(freeList, rowId);
      liveCount := liveCount + 1;
      heap := Revived(heap, rowId, row);
      return true;
    }

    method UpsertAt(rowId: RowId, row: StoredRow) returns (ok: bool)
      requires Valid() && 0 <= rowId && RowOk(row)
      modifies this, pool
      ensures Valid() && ok == Upserted(old(heap), rowId, row).Some?
      ensures heap == if ok then Upserted(old(heap), rowId, row).value else old(heap)
    {
      hide PageOf, OffsetOf, First, PageRows, DirectoryMatches;
      if rowId < |slots| {
        if slots[rowId].live {
          ok := Update(rowId, row);
          return;
        }
        ok := Revive(rowId, row);
        return;
      }
      if rowId != |slots| {
        return false;
      }
      LiveCountAppend(heap.slots, Some(row));
      Grow(row);
      liveCount := liveCount + 1;
      heap := Heap(heap.slots + [Some(row)], heap.free, heap.live + 1);
      return true;
    }

    method EnsureBuffered(page: int)
      requires pool.Valid() && PoolMatches(pageDirectory, pool.pages)
      modifies pool
      ensures pool.Valid() && PoolMatches(pageDirectory, pool.pages)
      ensures page in pageDirectory ==> page in pool.pages
    {
      if page in pool.pages || page !in pageDirectory {
        return;
      }
      pool.Put(page, pageDirectory[page]);
    }

    /** The row comes from the decoded rows or from the cached page, whatever has
        been evicted in between. */
    method GetRow(rowId: RowId) returns (row: Option<StoredRow>)
      requires Valid() && 0 <= rowId
      modifies this`decodedRows, pool
      ensures Valid() && row == Get(heap, rowId)
    {
      hide PageOf, OffsetOf, First, PageRows, HeapOk, Encodable, DirectoryMatches, DecodePage;
      if rowId >= |slots| || !slots[rowId].live {
        return None;
      }
      EnsureBuffered(slots[rowId].pageId);
      if rowId in decodedRows {
        return Some(decodedRows[rowId]);
      }
      PageThere(rowsPerPage, heap.slots, pageDirectory, rowId);
      row := DecodeRow(rowId);
    }

    /** The second half of a read: a live row is decoded from its cached page. */
    method DecodeRow(rowId: RowId) returns (row: Option<StoredRow>)
      requires Valid() && 0 <= rowId < |slots| && slots[rowId].live && slots[rowId].pageId in pool.pages
      modifies this`decodedRows, pool
      ensures Valid() && row == Get(heap, rowId)
    {
      hide PageOf, OffsetOf, First, PageRows, HeapOk, Encodable, DirectoryMatches, DecodePage;
      var slot := slots[rowId];
      PageThere(rowsPerPage, heap.slots, pageDirectory, rowId);
      var buffered := pool.Get(slot.pageId);
      if buffered.None? {
        return None;
      }
      var pageRows := ReadPage(buffered.value);
      if slot.offset >= |pageRows.value| {
        return None;
      }
      decodedRows := decodedRows[rowId := pageRows.value[slot.offset]];
      return Some(pageRows.value[slot.offset]);
    }

    /** Dirty pages with their bytes; the marks are cleared. */
    method TakeDirtyPages() returns (pages: map<int, Bytes>)
      requires Valid()
      modifies this`dirtyPages
      ensures Valid() && dirtyPages == {}
      ensures pages == map p | p in old(dirtyPages) && p in pageDirectory :: pageDirectory[p]
    {
      pages := map p | p in dirtyPages && p in pageDirectory :: pageDirectory[p];
      dirtyPages := {};
    }

    /** Starting over leaves stale pages in the cache, but none that the directory
        still lists. */
    method ReplaceRows(rows: seq<StoredRow>)
      requires Valid() && forall i :: 0 <= i < |rows| ==> RowOk(rows[i])
      modifies this, pool
      ensures Valid() && heap.free == [] && heap.slots == seq(|rows|, i requires 0 <= i < |rows| => Some(rows[i]))
    {
      hide PageOf, OffsetOf, PageRows;
      pageDirectory, slots, freeList, decodedRows, liveCount := map[], [], [], map[], 0;
      heap := Empty();
      NothingStored(rowsPerPage, pool.pages);
      hide HeapOk, Encodable, SlotsMatch, DirectoryMatches, PoolMatches, CacheMatches, RowOk;
      for i := 0 to |rows|
        invariant Valid() && heap.free == [] && |heap.slots| == i
        invariant forall k :: 0 <= k < i ==> heap.slots[k] == Some(rows[k])
      {
        var _ := Append(rows[i]);
      }
    }

    method Grow(row: StoredRow)
      requires Valid() && RowOk(row)
      modifies this`slots, this`pageDirectory, this`decodedRows, this`dirtyPages, pool
      ensures SlotsMatch(rowsPerPage, heap.slots + [Some(row)], slots)
      ensures Encodable(rowsPerPage, heap.slots + [Some(row)])
      ensures DirectoryMatches(rowsPerPage, heap.slots + [Some(row)], pageDirectory)
      ensures pool.Valid() && PoolMatches(pageDirectory, pool.pages)
      ensures CacheMatches(heap.slots + [Some(row)], decodedRows)
      ensures dirtyPages == old(dirtyPages) + {PageOf(rowsPerPage, |heap.slots|)}
    {
      hide PageOf, OffsetOf, First, PageRows, DirectoryMatches, HeapOk, EncodePage, PageBytes;
      var page := |slots| / rowsPerPage + 1;
      assert page == PageOf(rowsPerPage, |slots|) by { PageIs(rowsPerPage, |slots|); }
      GrowPage(rowsPerPage, heap.slots, Some(row), page);
      var pageRows := LoadPageRows(page);
      pageRows := pageRows + [row];
      slots := slots + [Slot(page, |pageRows| - 1, true)];
      PagesEncodable(rowsPerPage, heap.slots + [Some(row)], page);
      PageBytesAre(rowsPerPage, heap.slots + [Some(row)], page);
      GrowDirectory(rowsPerPage, heap.slots, pageDirectory, Some(row), EncodePage(pageRows));
      StorePage(page, pageRows);
    }
  }

  lemma NothingStored(size: int, cached: map<int, Bytes>)
    requires 1 <= size < TWO64
    ensures Encodable(size, []) && SlotsMatch(size, [], []) && DirectoryMatches(size, [], map[])
    ensures HeapOk(Empty<StoredRow>()) && PoolMatches(map[], cached) && CacheMatches([], map[])
  {
    forall p | 1 <= p ensures !(First(size, p) < 0) {
      FirstPositive(size, p);
    }
  }

  lemma PageThere(size: int, rows: Rows, directory: map<int, Bytes>, id: RowId)
    requires Encodable(size, rows) && DirectoryMatches(size, rows, directory) && 0 <= id < |rows| && rows[id].Some?
    ensures PageOf(size, id) in directory
    ensures var page := DecodePage(directory[PageOf(size, id)]);
      page.Some? && 0 <= OffsetOf(size, id) < |page.value| && page.value[OffsetOf(size, id)] == rows[id].value
  {
    PageBounds(size, id);
    PageAt(size, rows, id);
    LoadIs(size, rows, directory, PageOf(size, id));
  }

  lemma PageIs(size: int, id: RowId)
    requires size >= 1
    ensures PageOf(size, id) == id / size + 1
  {
  }

  lemma SlotCount(size: int, rows: Rows, slots: seq<Slot>)
    requires size >= 1 && SlotsMatch(size, rows, slots)
    ensures |slots| == |rows|
  {
  }

  lemma PageBytesAre(size: int, rows: Rows, p: int)
    requires Encodable(size, rows) && p >= 1
    ensures RowsOk(PageRows(size, rows, p)) && PageBytes(size, rows, p) == EncodePage(PageRows(size, rows, p))
  {
    PagesEncodable(size, rows, p);
  }

  // ----- The two stores side by side ---------------------------------------------------------

  datatype StoreOp =
    | OpAppend(row: StoredRow)
    | OpErase(id: RowId)
    | OpUpdate(id: RowId, row: StoredRow)
    | OpRevive(id: RowId, row: StoredRow)
    | OpUpsert(id: RowId, row: StoredRow)
    | OpGet(id: RowId)

  datatype StoreResult = NewId(id: RowId) | Success(ok: bool) | Found(row: Option<StoredRow>)

  /** Row ids are unsigned, and rows fit the byte layout. */
  predicate OpOk(op: StoreOp) {
    (op.OpAppend? || op.id >= 0) && (op.OpErase? || op.OpGet? || RowOk(op.row))
  }

  function ResultOf(h: Heap<StoredRow>, op: StoreOp): StoreResult {
    match op
    case OpAppend(_) => NewId(NextId(h))
    case OpErase(id) => Success(IsLive(h, id))
    case OpUpdate(id, _) => Success(IsLive(h, id))
    case OpRevive(id, _) => Success(Revivable(h, id))
    case OpUpsert(id, row) => Success(Upserted(h, id, row).Some?)
    case OpGet(id) => Found(Get(h, id))
  }

  ghost function HeapAfter(h: Heap<StoredRow>, op: StoreOp): Heap<StoredRow>
    requires HeapOk(h)
  {
    match op
    case OpAppend(row) =>
      AppendKeeps(h, row);
      Appended(h, row)
    case OpErase(id) => if IsLive(h, id) then Erased(h, id) else h
    case OpUpdate(id, row) => if IsLive(h, id) then Updated(h, id, row) else h
    case OpRevive(id, row) => if Revivable(h, id) then Revived(h, id, row) else h
    case OpUpsert(id, row) => if Upserted(h, id, row).Some? then Upserted(h, id, row).value else h
    case OpGet(_) => h
  }

  method OnPages(s: PageRowStore, op: StoreOp) returns (r: StoreResult)
    requires s.Valid() && OpOk(op)
    modifies s, s.pool
    ensures s.Valid() && r == ResultOf(old(s.heap), op) && s.heap == HeapAfter(old(s.heap), op)
  {
    hide Appended, Erased, Updated, Revived, Upserted, HeapOk, RowOk, Encodable, SlotsMatch, DirectoryMatches,
         CacheMatches, PoolMatches, PageOf;
    match op {
      case OpAppend(row) =>
        var id := s.Append(row);
        r := NewId(id);
      case OpErase(id) =>
        var ok := s.Erase(id);
        r := Success(ok);
      case OpUpdate(id, row) =>
        var ok := s.Update(id, row);
        r := Success(ok);
      case OpRevive(id, row) =>
        var ok := s.Revive(id, row);
        r := Success(ok);
      case OpUpsert(id, row) =>
        var ok := s.UpsertAt(id, row);
        r := Success(ok);
      case OpGet(id) =>
        var row := s.GetRow(id);
        r := Found(row);
    }
  }

  method OnVector(s: VectorRowStore<StoredRow>, op: StoreOp) returns (r: StoreResult)
    requires s.Valid() && OpOk(op)
    modifies s
    ensures s.Valid() && r == ResultOf(old(s.View()), op) && s.View() == HeapAfter(old(s.View()), op)
  {
    hide Appended, Erased, Updated, Revived, Upserted, HeapOk, RowOk;
    match op {
      case OpAppend(row) =>
        var id := s.Append(row);
        r := NewId(id);
      case OpErase(id) =>
        var ok := s.Erase(id);
        r := Success(ok);
      case OpUpdate(id, row) =>
        var ok := s.Update(id, row);
        r := Success(ok);
      case OpRevive(id, row) =>
        var ok := s.Revive(id, row);
        r := Success(ok);
      case OpUpsert(id, row) =>
        var ok := s.UpsertAt(id, row);
        r := Success(ok);
      case OpGet(id) =>
        var row := s.GetRow(id);
        r := Found(row);
    }
  }

  /** Any operations on a page store of any page size and cache capacity return
      what they return on the vector store, and leave the same free list. */
  method RunBoth(ops: seq<StoreOp>, rowsPerPage: int, bufferPages: nat)
    returns (paged: seq<StoreResult>, plain: seq<StoreResult>, pagedFree: seq<RowId>, plainFree: seq<RowId>)
    requires 1 <= rowsPerPage < TWO64 && bufferPages >= 1 && forall i :: 0 <= i < |ops| ==> OpOk(ops[i])
    ensures |paged| == |ops| && paged == plain && pagedFree == plainFree
  {
    hide HeapOk, Encodable, SlotsMatch, DirectoryMatches, CacheMatches, PoolMatches, ResultOf, HeapAfter, OpOk;
    var a := new PageRowStore(rowsPerPage, bufferPages);
    var b := new VectorRowStore<StoredRow>();
    paged, plain := [], [];
    for i := 0 to |ops|
      invariant fresh(a) && fresh(a.pool) && fresh(b)
      invariant a.Valid() && b.Valid() && a.heap == b.View()
      invariant |paged| == i && paged == plain
    {
      var x := OnPages(a, ops[i]);
      var y := OnVector(b, ops[i]);
      paged, plain := paged + [x], plain + [y];
    }
    pagedFree, plainFree := a.freeList, b.freeList;
  }
}
