/** The row store interface: slots addressed by row id with a stack of free
    ids, and the vector-backed store that defines its behaviour. */
module RowStores {
  import opened Values

  /** A slot holds a row or is dead; dead ids wait on the free list. */
  datatype Heap<R> = Heap(slots: seq<Option<R>>, free: seq<RowId>, live: int)

  predicate InHeap<R>(h: Heap<R>, id: RowId) {
    0 <= id < |h.slots|
  }

  predicate IsLive<R>(h: Heap<R>, id: RowId) {
    InHeap(h, id) && h.slots[id].Some?
  }

  function Get<R>(h: Heap<R>, id: RowId): Option<R> {
    if InHeap(h, id) then h.slots[id] else None
  }

  function LiveCount<R>(slots: seq<Option<R>>): int {
    if slots == [] then 0
    else LiveCount(slots[..|slots| - 1]) + (if slots[|slots| - 1].Some? then 1 else 0)
  }

  ghost predicate FreeOk<R>(slots: seq<Option<R>>, free: seq<RowId>) {
    && (forall i, j :: 0 <= i < j < |free| ==> free[i] != free[j])
    && (forall id :: id in free <==> 0 <= id < |slots| && slots[id].None?)
  }

  /** The free list holds each dead id once, and the live count is exact. */
  ghost predicate HeapOk<R>(h: Heap<R>) {
    FreeOk(h.slots, h.free) && h.live == LiveCount(h.slots)
  }

  function Empty<R>(): Heap<R> {
    Heap([], [], 0)
  }

  // ----- Operations ------------------------------------------------------------

  /** The most recently freed id is reused first. */
  function NextId<R>(h: Heap<R>): RowId {
    if h.free != [] then h.free[|h.free| - 1] else |h.slots|
  }

  function Appended<R>(h: Heap<R>, row: R): Heap<R>
    requires h.free != [] ==> InHeap(h, NextId(h))
  {
    if h.free != [] then
      Heap(h.slots[NextId(h) := Some(row)], h.free[..|h.free| - 1], h.live + 1)
    else Heap(h.slots + [Some(row)], h.free, h.live + 1)
  }

  function Erased<R>(h: Heap<R>, id: RowId): Heap<R>
    requires IsLive(h, id)
  {
    Heap(h.slots[id := None], h.free + [id], h.live - 1)
  }

  function Updated<R>(h: Heap<R>, id: RowId, row: R): Heap<R>
    requires IsLive(h, id)
  {
    h.(slots := h.slots[id := Some(row)])
  }

  function Drop(free: seq<RowId>, id: RowId): (r: seq<RowId>)
    ensures |r| == if id in free then |free| - 1 else |free|
  {
    if free == [] then []
    else if free[0] == id then free[1..]
    else [free[0]] + Drop(free[1..], id)
  }

  function Revived<R>(h: Heap<R>, id: RowId, row: R): Heap<R>
    requires InHeap(h, id)
  {
    Heap(h.slots[id := Some(row)], Drop(h.free, id), h.live + 1)
  }

  predicate Revivable<R>(h: Heap<R>, id: RowId) {
    InHeap(h, id) && h.slots[id].None? && id in h.free
  }

  /** `upsertAt`: update a live row, revive a dead one, or extend by one slot. */
  function Upserted<R>(h: Heap<R>, id: RowId, row: R): Option<Heap<R>> {
    if IsLive(h, id) then Some(Updated(h, id, row))
    else if InHeap(h, id) then (if Revivable(h, id) then Some(Revived(h, id, row)) else None)
    else if id != |h.slots| then None
    else Some(Heap(h.slots + [Some(row)], h.free, h.live + 1))
  }

  // ----- Every operation keeps the layout -----------------------------------------

  lemma {:induction false} LiveCountPut<R>(slots: seq<Option<R>>, id: int, v: Option<R>)
    requires 0 <= id < |slots|
    ensures LiveCount(slots[id := v]) ==
      LiveCount(slots) + (if v.Some? then 1 else 0) - (if slots[id].Some? then 1 else 0)
  {
    var n := |slots| - 1;
    if id < n {
      LiveCountPut(slots[..n], id, v);
      assert slots[id := v][..n] == slots[..n][id := v];
    } else {
      assert slots[id := v][..n] == slots[..n];
    }
  }

  lemma LiveCountAppend<R>(slots: seq<Option<R>>, v: Option<R>)
    ensures LiveCount(slots + [v]) == LiveCount(slots) + (if v.Some? then 1 else 0)
  {
    assert (slots + [v])[..|slots|] == slots;
  }

  lemma AppendKeeps<R>(h: Heap<R>, row: R)
    requires HeapOk(h)
    ensures h.free != [] ==> InHeap(h, NextId(h))
    ensures HeapOk(Appended(h, row)) && Get(h, NextId(h)) == None
    ensures forall id :: Get(Appended(h, row), id) == if id == NextId(h) then Some(row) else Get(h, id)
  {
    if h.free != [] {
      assert NextId(h) in h.free;
      LiveCountPut(h.slots, NextId(h), Some(row));
      FreePop(h.slots, h.free, row);
    } else {
      LiveCountAppend(h.slots, Some(row));
    }
  }

  lemma FreePop<R>(slots: seq<Option<R>>, free: seq<RowId>, row: R)
    requires free != [] && FreeOk(slots, free)
    ensures 0 <= free[|free| - 1] < |slots|
    ensures FreeOk(slots[free[|free| - 1] := Some(row)], free[..|free| - 1])
  {
    var last := free[|free| - 1];
    assert last in free;
    var rest := free[..|free| - 1];
    assert free == rest + [last];
    forall id ensures id in rest <==> id in free && id != last {
      if id in rest {
        var k :| 0 <= k < |rest| && rest[k] == id;
        assert free[k] == id;
      }
    }
  }

  lemma EraseKeeps<R>(h: Heap<R>, id: RowId)
    requires HeapOk(h) && IsLive(h, id)
    ensures HeapOk(Erased(h, id))
    ensures forall other :: Get(Erased(h, id), other) == if other == id then None else Get(h, other)
  {
    LiveCountPut(h.slots, id, None);
  }

  lemma UpdateKeeps<R>(h: Heap<R>, id: RowId, row: R)
    requires HeapOk(h) && IsLive(h, id)
    ensures HeapOk(Updated(h, id, row))
    ensures forall other :: Get(Updated(h, id, row), other) == if other == id then Some(row) else Get(h, other)
  {
    LiveCountPut(h.slots, id, Some(row));
  }

  lemma {:induction false} DropIs(free: seq<RowId>, id: RowId)
    requires forall i, j :: 0 <= i < j < |free| ==> free[i] != free[j]
    ensures forall x :: x in Drop(free, id) <==> x in free && x != id
    ensures forall i, j :: 0 <= i < j < |Drop(free, id)| ==> Drop(free, id)[i] != Drop(free, id)[j]
  {
    if free != [] {
      var rest := free[1..];
      assert free == [free[0]] + rest;
      assert free[0] !in rest;
      DropIs(rest, id);
      assert forall x :: x in free <==> x == free[0] || x in rest;
    }
  }

  lemma ReviveKeeps<R>(h: Heap<R>, id: RowId, row: R)
    requires HeapOk(h) && InHeap(h, id) && h.slots[id].None?
    ensures Revivable(h, id) && HeapOk(Revived(h, id, row))
    ensures forall other :: Get(Revived(h, id, row), other) == if other == id then Some(row) else Get(h, other)
  {
    LiveCountPut(h.slots, id, Some(row));
    DropIs(h.free, id);
  }

  // ----- The vector store -----------------------------------------------------------

  class VectorRowStore<R> {
    var rows: seq<Option<R>>
    var freeList: seq<RowId>
    var liveCount: int

    ghost function View(): Heap<R>
      reads this
    {
      Heap(rows, freeList, liveCount)
    }

    ghost predicate Valid()
      reads this
    {
      HeapOk(View())
    }

    constructor ()
      ensures Valid() && View() == Empty()
    {
      rows, freeList, liveCount := [], [], 0;
    }

    method Append(row: R) returns (rowId: RowId)
      requires Valid()
      modifies this
      ensures old(freeList) != [] ==> InHeap(old(View()), NextId(old(View())))
      ensures Valid() && rowId == NextId(old(View())) && View() == Appended(old(View()), row)
    {
      AppendKeeps(View(), row);
      if freeList != [] {
        rowId := freeList[|freeList| - 1];
        freeList := freeList[..|freeList| - 1];
        rows := rows[rowId := Some(row)];
      } else {
        rowId := |rows|;
        rows := rows + [Some(row)];
      }
      liveCount := liveCount + 1;
    }

    method Erase(rowId: RowId) returns (ok: bool)
      requires Valid() && 0 <= rowId
      modifies this
      ensures Valid() && ok == IsLive(old(View()), rowId)
      ensures View() == if ok then Erased(old(View()), rowId) else old(View())
    {
      if rowId >= |rows| || rows[rowId].None? {
        return false;
      }
      EraseKeeps(View(), rowId);
      rows := rows[rowId := None];
      freeList := freeList + [rowId];
      liveCount := liveCount - 1;
      return true;
    }

    method Update(rowId: RowId, row: R) returns (ok: bool)
      requires Valid() && 0 <= rowId
      modifies this
      ensures Valid() && ok == IsLive(old(View()), rowId)
      ensures View() == if ok then Updated(old(View()), rowId, row) else old(View())
    {
      if rowId >= |rows| || rows[rowId].None? {
        return false;
      }
      UpdateKeeps(View(), rowId, row);
      rows := rows[rowId := Some(row)];
      return true;
    }

    method Revive(rowId: RowId, row: R) returns (ok: bool)
      requires Valid() && 0 <= rowId
      modifies this
      ensures Valid() && ok == Revivable(old(View()), rowId)
      ensures View() == if ok then Revived(old(View()), rowId, row) else old(View())
    {
      if rowId >= |rows| || rows[rowId].Some? {
        return false;
      }
      if rowId !in freeList {
        return false;
      }
      ReviveKeeps(View(), rowId, row);
      freeList := Drop(freeList, rowId);
      rows := rows[rowId := Some(row)];
      liveCount := liveCount + 1;
      return true;
    }

    method UpsertAt(rowId: RowId, row: R) returns (ok: bool)
      requires Valid() && 0 <= rowId
      modifies this
      ensures Valid() && ok == Upserted(old(View()), rowId, row).Some?
      ensures View() == if ok then Upserted(old(View()), rowId, row).value else old(View())
    {
      if rowId < |rows| {
        if rows[rowId].Some? {
          ok := Update(rowId, row);
          return;
        }
        ok := Revive(rowId, row);
        return;
      }
      if rowId != |rows| {
        return false;
      }
      LiveCountAppend(rows, Some(row));
      rows := rows + [Some(row)];
      liveCount := liveCount + 1;
      return true;
    }

    method GetRow(rowId: RowId) returns (row: Option<R>)
      requires 0 <= rowId
      ensures row == Get(View(), rowId)
    {
      if rowId >= |rows| || rows[rowId].None? {
        return None;
      }
      return rows[rowId];
    }
  }
}
