/** Row slots after recovery: how they are rebuilt from the logged pages, when the
    next insert finds the page of the id it takes, and which runs lead there. */
module SlotReuse {
  import opened Values
  import opened RowStores
  import opened ByteStreams
  import opened PageCodec
  import opened HeapPages
  import opened RedoCodec
  import opened Recovery
  import Log = WriteAheadLogs
  import PageStores

  type Slot = PageStores.Slot

  const NO_SLOT := PageStores.Slot(0, 0, false)

  // ----- Rebuilding ------------------------------------------------------------------

  function RowsOn(pages: map<int, Bytes>, p: int): seq<StoredRow> {
    if p in pages && DecodePage(pages[p]).Some? then DecodePage(pages[p]).value else []
  }

  /** A slot without a logged place points to page zero, which does not exist. */
  function RebuiltSlot(size: int, rep: Replica, id: RowId): Slot
    requires size >= 1
  {
    var page := PageOf(size, id);
    if OffsetOf(size, id) < |RowsOn(rep.pages, page)| then PageStores.Slot(page, OffsetOf(size, id), id !in rep.free)
    else NO_SLOT
  }

  /** The pages are whole and no longer than a page. */
  ghost predicate Decodable(size: int, pages: map<int, Bytes>) {
    forall p :: p in pages ==>
      p >= 1 && DecodePage(pages[p]).Some? && |RowsOn(pages, p)| <= size && RowsOk(RowsOn(pages, p))
  }

  /** What reading a rebuilt slot returns is the recovered row. */
  lemma SlotGivesRow(size: int, rep: Replica, id: RowId)
    requires size >= 1 && 0 <= id < rep.capacity && Decodable(size, rep.pages)
    ensures var slot := RebuiltSlot(size, rep, id);
      && (slot.live ==> 0 <= slot.offset < |RowsOn(rep.pages, slot.pageId)|)
      && RecoveredRow(size, rep, id) == if slot.live then Some(RowsOn(rep.pages, slot.pageId)[slot.offset]) else None
  {
    hide PageOf, OffsetOf, DecodePage;
    PageBounds(size, id);
  }

  /** `rebuildSlotsFromDirectory`: the pages in any order, each slot from its page. */
  method RebuildSlots(size: int, rep: Replica) returns (slots: seq<Slot>)
    requires size >= 1 && rep.capacity >= 0 && Decodable(size, rep.pages)
    ensures |slots| == rep.capacity && forall id :: 0 <= id < |slots| ==> slots[id] == RebuiltSlot(size, rep, id)
  {
    hide PageOf, OffsetOf, RowsOn;
    slots := seq(rep.capacity, _ => NO_SLOT);
    var rest := rep.pages.Keys;
    assert forall id :: PageOf(size, id) !in rep.pages ==> RowsOn(rep.pages, PageOf(size, id)) == [] by {
      NoPageNoRows(rep.pages);
    }
    forall id | 0 <= id < rep.capacity ensures OffsetOf(size, id) >= 0 {
      PageBounds(size, id);
    }
    while rest != {}
      invariant rest <= rep.pages.Keys && |slots| == rep.capacity
      invariant forall id :: 0 <= id < |slots| ==>
        slots[id] == if PageOf(size, id) in rest then NO_SLOT else RebuiltSlot(size, rep, id)
      decreases |rest|
    {
      var p := Pick(rest);
      slots := RebuildPage(size, rep, p, rest, slots);
      rest := rest - {p};
    }
  }

  lemma NoPageNoRows(pages: map<int, Bytes>)
    ensures forall p :: p !in pages ==> RowsOn(pages, p) == []
  {
  }

  method RebuildPage(size: int, rep: Replica, p: int, ghost rest: set<int>, before: seq<Slot>)
    returns (slots: seq<Slot>)
    requires size >= 1 && |before| == rep.capacity && Decodable(size, rep.pages)
    requires p in rest && rest <= rep.pages.Keys
    requires forall id :: 0 <= id < |before| ==>
      before[id] == if PageOf(size, id) in rest then NO_SLOT else RebuiltSlot(size, rep, id)
    ensures |slots| == rep.capacity
    ensures forall id :: 0 <= id < |slots| ==>
      slots[id] == if PageOf(size, id) in rest - {p} then NO_SLOT else RebuiltSlot(size, rep, id)
  {
    hide PageOf, First, OffsetOf, RebuiltSlot;
    slots := before;
    var decoded := ReadPage(rep.pages[p]);
    var rows := decoded.value;
    FirstPositive(size, p);
    var first := First(size, p);
    forall id | 0 <= id < rep.capacity ensures PageOf(size, id) == p <==> first <= id < first + size {
      PageBounds(size, id);
      if first <= id < first + size {
        PageUnique(size, id, p);
      }
    }
    for offset := 0 to |rows|
      invariant |slots| == rep.capacity
      invariant forall id :: 0 <= id < |slots| ==>
        slots[id] == if first <= id < first + offset then RebuiltSlot(size, rep, id) else before[id]
    {
      var rowId := first + offset;
      if rowId < rep.capacity {
        PlacedSlot(size, rep, p, rowId);
        slots := slots[rowId := PageStores.Slot(p, offset, rowId !in rep.free)];
      }
    }
    forall id | 0 <= id < |slots| && first + |rows| <= id < first + size ensures RebuiltSlot(size, rep, id) == NO_SLOT {
      PlacedSlot(size, rep, p, id);
    }
  }

  lemma PlacedSlot(size: int, rep: Replica, p: int, id: RowId)
    requires size >= 1 && p >= 1 && First(size, p) <= id < First(size, p) + size
    ensures RebuiltSlot(size, rep, id) ==
      if id - First(size, p) < |RowsOn(rep.pages, p)| then PageStores.Slot(p, id - First(size, p), id !in rep.free)
      else NO_SLOT
  {
    hide PageOf, First, OffsetOf, RowsOn;
    FirstPositive(size, p);
    PageUnique(size, id, p);
    PageBounds(size, id);
  }

  // ----- The next insert ----------------------------------------------------------------

  /** The id that `append` takes next. */
  function TakenId(rep: Replica): RowId {
    if rep.free != [] then rep.free[|rep.free| - 1] else rep.capacity
  }

  /** The test that `append` makes on a reused slot, and throws on. */
  predicate AppendThrows(size: int, rep: Replica)
    requires size >= 1
  {
    rep.free != [] &&
      var slot := RebuiltSlot(size, rep, TakenId(rep));
      slot.offset >= |RowsOn(rep.pages, slot.pageId)|
  }

  lemma ThrowsUnlessLogged(size: int, rep: Replica)
    requires size >= 1 && Decodable(size, rep.pages) && Rounded(size, rep)
    ensures AppendThrows(size, rep) <==> rep.free != [] && !Logged(size, rep.pages, TakenId(rep))
  {
    hide PageOf, OffsetOf, DecodePage;
    if rep.free != [] {
      FreeInRange(size, rep);
      PageBounds(size, TakenId(rep));
    }
  }

  /** With nothing to reuse, the page of the next id ends right before it. */
  lemma NextPageEnds(size: int, rep: Replica)
    requires size >= 1 && Decodable(size, rep.pages) && Rounded(size, rep) && rep.free == []
    ensures |RowsOn(rep.pages, PageOf(size, rep.capacity))| == OffsetOf(size, rep.capacity)
  {
    hide DecodePage, Decodable;
    var p, n := PageOf(size, rep.capacity), OffsetOf(size, rep.capacity);
    PageBounds(size, rep.capacity);
    assert p in rep.pages ==> Ends(size, rep.pages[p], p, rep.capacity);
    if n > 0 {
      var last := rep.capacity - 1;
      PageUnique(size, last, p);
      PageBounds(size, last);
      assert Logged(size, rep.pages, last);
    }
  }

  ghost predicate SlotsOf(size: int, rep: Replica, slots: seq<Slot>)
    requires size >= 1
  {
    |slots| == rep.capacity && forall id :: 0 <= id < |slots| ==> slots[id] == RebuiltSlot(size, rep, id)
  }

  /** The row is there under its id, and nothing else has changed. */
  ghost predicate Adds(size: int, before: Replica, after: Replica, id: RowId, row: StoredRow)
    requires size >= 1
  {
    forall x :: 0 <= x ==> RecoveredRow(size, after, x) == if x == id then Some(row) else RecoveredRow(size, before, x)
  }

  /** `append` on a recovered table; None is its exception. */
  method AppendRecovered(size: int, rep: Replica, slots: seq<Slot>, row: StoredRow)
    returns (r: Option<(RowId, Replica, seq<Slot>)>)
    requires 1 <= size < TWO64 && RowOk(row)
    requires Decodable(size, rep.pages) && Rounded(size, rep) && SlotsOf(size, rep, slots)
    ensures r.None? <==> AppendThrows(size, rep)
    ensures r.Some? ==>
      && r.value.0 == TakenId(rep) && Adds(size, rep, r.value.1, TakenId(rep), row)
      && SlotsOf(size, r.value.1, r.value.2)
  {
    hide PageOf, OffsetOf, DecodePage, EncodePage, Rounded, RowOk, RebuiltSlot, RecoveredRow;
    var id := TakenId(rep);
    if rep.free != [] {
      assert 0 <= id < rep.capacity by { FreeInRange(size, rep); }
      var slot := slots[id];
      var rows := RowsOn(rep.pages, slot.pageId);
      if slot.offset >= |rows| {
        return None;
      }
      Rewritten(size, rep, slot, row);
      var pages := rep.pages[slot.pageId := EncodePage(rows[slot.offset := row])];
      var after := Replica(pages, rep.capacity, rep.free[..|rep.free| - 1]);
      r := Some((id, after, slots[id := slot.(live := true)]));
    } else {
      var page := id / size + 1;
      assert page == PageOf(size, id) by { PageIs(size, id); }
      Grown(size, rep, row);
      var rows := RowsOn(rep.pages, page) + [row];
      var after := Replica(rep.pages[page := EncodePage(rows)], rep.capacity + 1, []);
      r := Some((id, after, slots + [PageStores.Slot(page, |rows| - 1, true)]));
    }
  }

  lemma PageIs(size: int, id: RowId)
    requires size >= 1
    ensures PageOf(size, id) == id / size + 1
  {
  }

  lemma FreeInRange(size: int, rep: Replica)
    requires size >= 1 && Rounded(size, rep) && rep.free != []
    ensures 0 <= TakenId(rep) < rep.capacity
  {
    assert rep.free[|rep.free| - 1] in rep.free;
  }

  lemma RowsPut(pages: map<int, Bytes>, p: int, rows: seq<StoredRow>)
    requires RowsOk(rows)
    ensures forall q :: RowsOn(pages[p := EncodePage(rows)], q) == if q == p then rows else RowsOn(pages, q)
  {
    hide EncodePage, DecodePage;
    PageRoundTrip(rows);
  }

  /** The recovered row, by the rows of its page. */
  lemma RecoveredOn(size: int, rep: Replica, id: RowId)
    requires size >= 1 && id >= 0
    ensures OffsetOf(size, id) >= 0
    ensures RecoveredRow(size, rep, id) ==
      if id < rep.capacity && id !in rep.free && OffsetOf(size, id) < |RowsOn(rep.pages, PageOf(size, id))|
      then Some(RowsOn(rep.pages, PageOf(size, id))[OffsetOf(size, id)]) else None
  {
    hide PageOf, OffsetOf, DecodePage;
    PageBounds(size, id);
  }

  lemma SamePlace(size: int, x: RowId, y: RowId)
    requires size >= 1 && x >= 0 && y >= 0
    requires PageOf(size, x) == PageOf(size, y) && OffsetOf(size, x) == OffsetOf(size, y)
    ensures x == y
  {
    hide PageOf, OffsetOf;
    PageBounds(size, x);
    PageBounds(size, y);
  }

  ghost function Reused(rep: Replica, slot: Slot, row: StoredRow): Replica
    requires rep.free != [] && 0 <= slot.offset < |RowsOn(rep.pages, slot.pageId)|
    requires RowsOk(RowsOn(rep.pages, slot.pageId)[slot.offset := row])
  {
    var bytes := EncodePage(RowsOn(rep.pages, slot.pageId)[slot.offset := row]);
    Replica(rep.pages[slot.pageId := bytes], rep.capacity, rep.free[..|rep.free| - 1])
  }

  lemma PoppedFree(size: int, rep: Replica)
    requires size >= 1 && Rounded(size, rep) && rep.free != []
    ensures forall x :: x in rep.free[..|rep.free| - 1] <==> x in rep.free && x != TakenId(rep)
  {
    var n := |rep.free| - 1;
    forall x ensures x in rep.free[..n] <==> x in rep.free && x != rep.free[n] {
      if x in rep.free && x != rep.free[n] {
        var i :| 0 <= i < |rep.free| && rep.free[i] == x;
        assert rep.free[..n][i] == x;
      }
    }
  }

  /** Putting a row into a slot that has its place. */
  lemma Rewritten(size: int, rep: Replica, slot: Slot, row: StoredRow)
    requires 1 <= size < TWO64 && RowOk(row) && Decodable(size, rep.pages) && Rounded(size, rep) && rep.free != []
    requires slot == RebuiltSlot(size, rep, TakenId(rep)) && slot.offset < |RowsOn(rep.pages, slot.pageId)|
    ensures 0 <= TakenId(rep) < rep.capacity && 0 <= slot.offset
    ensures RowsOk(RowsOn(rep.pages, slot.pageId)[slot.offset := row])
    ensures Adds(size, rep, Reused(rep, slot, row), TakenId(rep), row)
    ensures RebuiltSlot(size, Reused(rep, slot, row), TakenId(rep)) == slot.(live := true)
    ensures forall x :: 0 <= x < rep.capacity && x != TakenId(rep) ==>
      RebuiltSlot(size, Reused(rep, slot, row), x) == RebuiltSlot(size, rep, x)
  {
    hide PageOf, OffsetOf, RowOk, RecoveredRow, EncodePage, DecodePage, Rounded;
    var id := TakenId(rep);
    FreeInRange(size, rep);
    PageBounds(size, id);
    assert RowsOn(rep.pages, 0) == [];
    var rows := RowsOn(rep.pages, slot.pageId);
    assert RowsOk(rows[slot.offset := row]) by { RowsOkPut(rows, slot.offset, row); }
    var after := Reused(rep, slot, row);
    RowsPut(rep.pages, slot.pageId, rows[slot.offset := row]);
    PoppedFree(size, rep);
    hide RowsOn;
    forall x | 0 <= x
      ensures RecoveredRow(size, after, x) == if x == id then Some(row) else RecoveredRow(size, rep, x)
      ensures RebuiltSlot(size, after, x) == if x == id then slot.(live := true) else RebuiltSlot(size, rep, x)
    {
      RecoveredOn(size, rep, x);
      RecoveredOn(size, after, x);
      if PageOf(size, x) == slot.pageId && OffsetOf(size, x) == slot.offset {
        SamePlace(size, x, id);
      }
    }
  }

  lemma RowsOkPut(rows: seq<StoredRow>, i: int, row: StoredRow)
    requires RowsOk(rows) && RowOk(row) && 0 <= i < |rows|
    ensures RowsOk(rows[i := row])
  {
    hide RowOk;
  }

  ghost function Extended(size: int, rep: Replica, row: StoredRow): Replica
    requires size >= 1 && RowsOk(RowsOn(rep.pages, PageOf(size, rep.capacity)) + [row])
  {
    var page := PageOf(size, rep.capacity);
    Replica(rep.pages[page := EncodePage(RowsOn(rep.pages, page) + [row])], rep.capacity + 1, [])
  }

  lemma RowsOkAppend(size: int, pages: map<int, Bytes>, p: int, row: StoredRow)
    requires Decodable(size, pages) && RowOk(row) && |RowsOn(pages, p)| < size < TWO64
    ensures RowsOk(RowsOn(pages, p) + [row])
  {
    hide RowOk, DecodePage;
  }

  /** Putting a row after the last slot. */
  lemma Grown(size: int, rep: Replica, row: StoredRow)
    requires 1 <= size < TWO64 && RowOk(row) && Decodable(size, rep.pages) && Rounded(size, rep) && rep.free == []
    ensures RowsOk(RowsOn(rep.pages, PageOf(size, rep.capacity)) + [row])
    ensures Adds(size, rep, Extended(size, rep, row), rep.capacity, row)
    ensures forall x :: 0 <= x < rep.capacity ==>
      RebuiltSlot(size, Extended(size, rep, row), x) == RebuiltSlot(size, rep, x)
    ensures var page := PageOf(size, rep.capacity); var slot := PageStores.Slot(page, |RowsOn(rep.pages, page)|, true);
      RebuiltSlot(size, Extended(size, rep, row), rep.capacity) == slot
  {
    hide PageOf, OffsetOf, RowOk, RecoveredRow, EncodePage, DecodePage;
    assert rep.capacity >= 0;
    NextPageEnds(size, rep);
    hide Rounded;
    var id := rep.capacity;
    PageBounds(size, id);
    var page := PageOf(size, id);
    RowsOkAppend(size, rep.pages, page, row);
    var rows := RowsOn(rep.pages, page) + [row];
    RowsPut(rep.pages, page, rows);
    var after := Extended(size, rep, row);
    hide RowsOn, Decodable;
    forall x | 0 <= x
      ensures RecoveredRow(size, after, x) == if x == id then Some(row) else RecoveredRow(size, rep, x)
      ensures x < id ==> RebuiltSlot(size, after, x) == RebuiltSlot(size, rep, x)
    {
      RecoveredOn(size, rep, x);
      RecoveredOn(size, after, x);
      if PageOf(size, x) == page {
        PageBounds(size, x);
      }
    }
  }

  // ----- Which runs lead there ------------------------------------------------------------------

  /** The operation logs the page of an id, at a moment when the table reaches it. */
  ghost predicate Touches(size: int, db: Db, op: DbOp, t: TableName, id: RowId)
    requires DbFits(size, db) && Applies(db, op)
  {
    && op.table == t && PageOf(size, ChangedId(db[t], op.op)) == PageOf(size, id)
    && id < |AfterRowOp(db[t], op.op).slots|
  }

  ghost predicate TouchedBy(size: int, db: Db, ops: seq<DbOp>, t: TableName, id: RowId)
    requires DbFits(size, db) && AllApply(size, db, ops)
    decreases |ops|
  {
    ops != [] &&
      (Touches(size, db, ops[0], t, id) ||
       (AfterFits(size, db, ops[0]); TouchedBy(size, After(size, db, ops[0]), ops[1..], t, id)))
  }

  /** Some operation of the first `k` durable units does. */
  ghost predicate TouchedIn(
      size: int, db: Db, units: seq<Unit>, log: seq<Log.WalRecord>, marks: seq<Db>, k: nat, t: TableName, id: RowId)
    requires DbFits(size, db) && Runs(size, db, units, log, marks)
    decreases |units|
  {
    if units == [] || k == 0 then false
    else
      var next := AfterUnit(size, db, units[0]);
      if Durable(units[0]) == [] then TouchedIn(size, next, units[1..], log, marks, k, t, id)
      else
        || TouchedBy(size, db, Durable(units[0]), t, id)
        || TouchedIn(size, next, units[1..], log[1..], marks[1..], k - 1, t, id)
  }

  /** Logging one page logs exactly the ids it holds by then. */
  lemma LoggedByOp(size: int, reps: Replicas, db: Db, op: DbOp, t: TableName, id: RowId)
    requires DbFits(size, db) && DbTracks(size, reps, db) && Applies(db, op) && t in db && id >= 0
    ensures var r := Replay(reps, Capture(size, db, op));
      && r.Some? && t in r.value
      && (Logged(size, r.value[t].pages, id) <==> Logged(size, reps[t].pages, id) || Touches(size, db, op, t, id))
  {
    hide Tracks, PagesTrack, HeapOk, RowOpApplies, AfterRowOp, PageOf, OffsetOf, EncodePage, DecodePage, Logged;
    var h, rep := db[op.table], reps[op.table];
    RowOpKeeps(size, h, op.op);
    var h' := AfterRowOp(h, op.op);
    var p := PageOf(size, ChangedId(h, op.op));
    PageBounds(size, ChangedId(h, op.op));
    var image := PageImage(size, h'.slots, p);
    var pages' := rep.pages[p := image];
    var images := [HeapImage(p, image)];
    assert images[1..] == [] && InstallPages(rep.pages, images) == pages';
    assert rep.capacity <= |h.slots| by { TracksParts(size, rep, h); }
    assert Replay(reps, Capture(size, db, op)) == Some(reps[op.table := Replica(pages', |h'.slots|, h'.free)]);
    if op.table == t {
      LoggedOnPage(size, rep, h, h'.slots, p, id);
    }
  }

  lemma LoggedOnPage(size: int, rep: Replica, h: Heap<StoredRow>, slots: Rows, p: int, id: RowId)
    requires size >= 1 && Tracks(size, rep, h) && |h.slots| <= |slots| && Encodable(size, slots) && p >= 1 && id >= 0
    ensures Logged(size, rep.pages[p := PageImage(size, slots, p)], id) <==>
      Logged(size, rep.pages, id) || (PageOf(size, id) == p && id < |slots|)
  {
    hide PageOf, OffsetOf, EncodePage, DecodePage;
    PagesEncodable(size, slots, p);
    PageRoundTrip(PageRows(size, slots, p));
    PageBounds(size, id);
    PageLength(size, slots, p);
    var q := PageOf(size, id);
    if Logged(size, rep.pages, id) {
      assert PageTracks(size, rep.pages[q], PageRows(size, h.slots, q));
      PageLength(size, h.slots, q);
    }
  }

  lemma PageLength(size: int, slots: Rows, p: int)
    requires size >= 1 && p >= 1
    ensures var first := First(size, p);
      |PageRows(size, slots, p)| ==
      if first >= |slots| then 0 else if first + size >= |slots| then |slots| - first else size
  {
    FirstPositive(size, p);
  }

  lemma {:induction false} LoggedByOps(size: int, reps: Replicas, db: Db, ops: seq<DbOp>, t: TableName, id: RowId)
    requires DbFits(size, db) && DbTracks(size, reps, db) && AllApply(size, db, ops) && t in db && id >= 0
    ensures var r := ReplayAll(reps, Captures(size, db, ops));
      && r.Some? && t in r.value
      && (Logged(size, r.value[t].pages, id) <==> Logged(size, reps[t].pages, id) || TouchedBy(size, db, ops, t, id))
    decreases |ops|
  {
    hide Tracks, DbFits, Applies, Capture, Replay, Logged, Touches, TableFits, AfterRowOp;
    if ops != [] {
      AfterFits(size, db, ops[0]);
      ReplayOp(size, reps, db, ops[0]);
      LoggedByOp(size, reps, db, ops[0], t, id);
      var next := After(size, db, ops[0]);
      LoggedByOps(size, Replay(reps, Capture(size, db, ops[0])).value, next, ops[1..], t, id);
      assert Captures(size, db, ops)[1..] == Captures(size, next, ops[1..]);
    }
  }

  lemma {:induction false} LoggedInRun(
      size: int, reps: Replicas, db: Db, units: seq<Unit>, log: seq<Log.WalRecord>, marks: seq<Db>, k: nat,
      t: TableName, id: RowId)
    requires DbFits(size, db) && DbTracks(size, reps, db) && Runs(size, db, units, log, marks) && k <= |log|
    requires t in db && id >= 0
    ensures var r := Recover(reps, log[..k]);
      && r.Some? && t in r.value
      && (Logged(size, r.value[t].pages, id) <==>
           Logged(size, reps[t].pages, id) || TouchedIn(size, db, units, log, marks, k, t, id))
    decreases |units|
  {
    hide Tracks, DbFits, Captures, EncodeBatch, DecodeBatch, ReplayAll, Logged, UnitOk, AfterUnit, TouchedBy;
    if units == [] || k == 0 {
      assert log[..k] == [];
      return;
    }
    var u := units[0];
    var next := AfterUnit(size, db, u);
    UnitFits(size, reps, db, u);
    if Durable(u) == [] {
      LoggedInRun(size, reps, next, units[1..], log, marks, k, t, id);
    } else {
      BatchIsOk(size, db, u);
      var batch := Captures(size, db, Durable(u));
      BatchRoundTrip(batch);
      LoggedByOps(size, reps, db, Durable(u), t, id);
      var after := ReplayAll(reps, batch).value;
      LoggedInRun(size, after, next, units[1..], log[1..], marks[1..], k - 1, t, id);
      assert log[..k][0] == log[0] && log[..k][1..] == log[1..][..k - 1];
    }
  }

  lemma TracksDecodable(size: int, rep: Replica, h: Heap<StoredRow>)
    requires TableFits(size, h) && size >= 1 && Tracks(size, rep, h)
    ensures Decodable(size, rep.pages) && Rounded(size, rep)
  {
    hide RecoveredRow, Rounded, DecodePage, HeapOk, PageRows, RowOk;
    forall p | p in rep.pages
      ensures p >= 1 && DecodePage(rep.pages[p]).Some?
      ensures |RowsOn(rep.pages, p)| <= size && RowsOk(RowsOn(rep.pages, p))
    {
      assert PageTracks(size, rep.pages[p], PageRows(size, h.slots, p));
      PagesEncodable(size, h.slots, p);
      assert |PageRows(size, h.slots, p)| <= size by { PageLength(size, h.slots, p); }
    }
  }

  /** For any run and any number of durable units: after recovery the next insert
      throws if and only if it takes a freed id whose page no operation among them
      logged at a moment when the table already reached that id. */
  lemma ReuseAfterRecovery(
      size: int, reps: Replicas, db: Db, units: seq<Unit>, log: seq<Log.WalRecord>, marks: seq<Db>, k: nat,
      t: TableName)
    requires DbFits(size, db) && DbTracks(size, reps, db) && Runs(size, db, units, log, marks) && k <= |log|
    requires t in db
    ensures Recover(reps, log[..k]).Some? && t in Recover(reps, log[..k]).value
    ensures var rep := Recover(reps, log[..k]).value[t]; var id := TakenId(rep);
      AppendThrows(size, rep) <==>
        rep.free != [] && !Logged(size, reps[t].pages, id) && !TouchedIn(size, db, units, log, marks, k, t, id)
  {
    hide Tracks, DbFits, Runs, Recover, Logged, TouchedIn, AppendThrows, Rounded, Decodable, TakenId;
    RecoverPrefix(size, reps, db, units, log, marks, k);
    MarkFits(size, reps, db, units, log, marks, k);
    LoggedInRun(size, reps, db, units, log, marks, k, t, 0);
    var rep := Recover(reps, log[..k]).value[t];
    FitsTable(size, Mark(db, marks, k), t);
    TracksDecodable(size, rep, Mark(db, marks, k)[t]);
    ThrowsUnlessLogged(size, rep);
    if rep.free != [] {
      FreeInRange(size, rep);
      LoggedInRun(size, reps, db, units, log, marks, k, t, TakenId(rep));
    }
  }

  lemma FitsTable(size: int, db: Db, t: TableName)
    requires DbFits(size, db) && t in db
    ensures size >= 1 && TableFits(size, db[t])
  {
  }

  lemma {:induction false} MarkFits(
      size: int, reps: Replicas, db: Db, units: seq<Unit>, log: seq<Log.WalRecord>, marks: seq<Db>, k: nat)
    requires DbFits(size, db) && DbTracks(size, reps, db) && Runs(size, db, units, log, marks) && k <= |marks|
    ensures DbFits(size, Mark(db, marks, k))
    decreases |units|
  {
    hide Tracks, DbFits, Captures, EncodeBatch, ReplayAll, UnitOk, AfterUnit;
    if units != [] && k > 0 {
      var u := units[0];
      UnitFits(size, reps, db, u);
      var next := AfterUnit(size, db, u);
      if Durable(u) == [] {
        MarkFits(size, reps, next, units[1..], log, marks, k);
      } else {
        BatchIsOk(size, db, u);
        var after := ReplayAll(reps, Captures(size, db, Durable(u))).value;
        MarkFits(size, after, next, units[1..], log[1..], marks[1..], k - 1);
      }
    }
  }

  // ----- A run that leads there --------------------------------------------------------------------

  function Nothing(): Heap<StoredRow> {
    Heap([], [], 0)
  }

  function Put(table: TableName, row: StoredRow): DbOp {
    DbOp(table, Insert(row), [], [])
  }

  lemma OnlyTable<V>(table: TableName, a: V, b: V)
    ensures map[table := a][table := b] == map[table := b]
  {
  }

  lemma EmptyFits()
    ensures HeapOk(Nothing()) && TableFits(1, Nothing())
    ensures Tracks(1, Replica(map[], 0, []), Nothing())
  {
  }

  /** Two inserts into an empty table. */
  lemma TwoInserts(table: TableName, row: StoredRow)
    requires RowOk(row)
    ensures var db, ops := map[table := Nothing()], [Put(table, row), Put(table, row)];
      && DbFits(1, db) && AllApply(1, db, ops)
      && AfterAll(1, db, ops) == map[table := Heap([Some(row), Some(row)], [], 2)]
      && Undos(1, db, ops) == [DbUndo(table, Remove(0)), DbUndo(table, Remove(1))]
  {
    hide RowOk, HeapOk, TableFits;
    EmptyFits();
    var db, op := map[table := Nothing()], Put(table, row);
    AfterFits(1, db, op);
    var single, double := Heap([Some(row)], [], 1), Heap([Some(row), Some(row)], [], 2);
    var one, two := map[table := single], map[table := double];
    InsertedAtEnd(Nothing(), row);
    OnlyTable(table, Nothing(), single);
    assert Nothing().slots + [Some(row)] == single.slots && single.slots + [Some(row)] == double.slots;
    assert After(1, db, op) == one;
    assert HeapOk(single) by { FitsTable(1, one, table); HeapFits(1, single); }
    InsertedAtEnd(single, row);
    OnlyTable(table, single, double);
    AfterFits(1, one, op);
    assert After(1, one, op) == two;
    NoMoreOps(1, two);
    var ops := [op, op];
    assert ops[1..] == [op] && [op][1..] == [];
    assert AllApply(1, one, [op]) && AfterAll(1, one, [op]) == two;
    assert Undos(1, one, [op]) == [DbUndo(table, Remove(1))];
  }

  lemma InsertedAtEnd(h: Heap<StoredRow>, row: StoredRow)
    requires HeapOk(h) && RowOk(row) && h.free == []
    ensures RowOpApplies(h, Insert(row)) && AfterRowOp(h, Insert(row)) == Heap(h.slots + [Some(row)], [], h.live + 1)
    ensures UndoOf(h, Insert(row)) == Remove(|h.slots|)
  {
  }

  lemma HeapFits(size: int, h: Heap<StoredRow>)
    requires TableFits(size, h)
    ensures HeapOk(h)
  {
  }

  lemma NoMoreOps(size: int, db: Db)
    requires DbFits(size, db)
    ensures AllApply(size, db, []) && AfterAll(size, db, []) == db && Undos(size, db, []) == []
  {
  }

  /** What they leave behind when they are rolled back. */
  function TwoDead(): Heap<StoredRow> {
    Heap([None, None], [1, 0], 0)
  }

  lemma TwoUndone(table: TableName, row: StoredRow)
    ensures var double := Heap([Some(row), Some(row)], [], 2);
      var us := [DbUndo(table, Remove(0)), DbUndo(table, Remove(1))];
      UndoAll(map[table := double], us) == Some(map[table := TwoDead()])
  {
    var us := [DbUndo(table, Remove(0)), DbUndo(table, Remove(1))];
    assert us[1..] == [DbUndo(table, Remove(1))] && us[1..][1..] == [];
    var double, single := Heap([Some(row), Some(row)], [], 2), Heap([Some(row), None], [1], 1);
    var two, one := map[table := double], map[table := single];
    assert double.slots[1 := None] == single.slots && single.slots[0 := None] == [None, None];
    assert double.free + [1] == [1] && single.free + [0] == [1, 0];
    OnlyTable(table, double, single);
    OnlyTable(table, single, TwoDead());
    assert UndoDb(two, us[1]) == Some(one);
    assert UndoAll(two, us[1..]) == Some(one);
    assert UndoDb(one, us[0]) == Some(map[table := TwoDead()]);
  }

  /** The third insert reuses id 0 and logs its page only. */
  lemma ThirdInsert(table: TableName, row: StoredRow)
    requires RowOk(row) && |table| < TWO64 && |EncodePage([row])| < TWO64
    requires DbFits(1, map[table := TwoDead()])
    ensures var db, op := map[table := TwoDead()], Put(table, row);
      && Applies(db, op) && ChangedId(db[table], op.op) == 0
      && Capture(1, db, op) == RedoRecord(table, Some((2, [1])), [HeapImage(1, EncodePage([row]))], [], [])
      && RecordOk(Capture(1, db, op))
  {
    hide HeapOk, EncodePage, RowOk;
    var db, op := map[table := TwoDead()], Put(table, row);
    var h := db[table];
    assert h.free[..1] == [1];
    var slots := [Some(row), None];
    assert AfterRowOp(h, op.op) == Heap(slots, [1], 1);
    assert PageSlots(1, slots, 1) == [Some(row)];
    assert PageRows(1, slots, 1) == [row];
  }

  /** One row to a page, two inserts that are rolled back and a third that is not: the
      recovered free list offers id 1, whose page was never logged, and the next
      insert throws. */
  lemma RolledBackPageIsMissing(table: TableName, row: StoredRow)
    returns (log: seq<Log.WalRecord>, marks: seq<Db>)
    requires RowOk(row) && |table| < TWO64 && |EncodePage([row])| < TWO64
    ensures var db, reps := map[table := Nothing()], map[table := Replica(map[], 0, [])];
      var units := [Rollback([Put(table, row), Put(table, row)]), Auto(Put(table, row))];
      && DbFits(1, db) && DbTracks(1, reps, db) && Runs(1, db, units, log, marks) && |log| == 1
      && Recover(reps, log).Some? && table in Recover(reps, log).value
      && AppendThrows(1, Recover(reps, log).value[table])
  {
    hide HeapOk, EncodePage, RowOk, TableFits, AllApply, AfterAll, Undos, UndoAll, RecordOk, Capture, EncodeBatch;
    hide Tracks, Recover, AppendThrows, Logged;
    var db, reps := map[table := Nothing()], map[table := Replica(map[], 0, [])];
    var op := Put(table, row);
    var rollback, auto := Rollback([op, op]), Auto(op);
    EmptyFits();
    TwoInserts(table, row);
    TwoUndone(table, row);
    UnitFits(1, reps, db, rollback);
    var dead := map[table := TwoDead()];
    assert AfterUnit(1, db, rollback) == dead;
    ThirdInsert(table, row);
    OneCapture(1, dead, op);
    UnitFits(1, reps, dead, auto);
    var next := AfterUnit(1, dead, auto);
    var units := [rollback, auto];
    assert units[1..] == [auto] && [auto][1..] == [];
    log, marks := [Log.WalRecord(1, PAGE_IMAGE_REDO, EncodeBatch(Captures(1, dead, [op])))], [next];
    assert log[1..] == [] && marks[1..] == [];
    assert Runs(1, next, [], [], []);
    assert Runs(1, dead, [auto], log, marks);
    assert Runs(1, db, units, log, marks);
    MissingPage(table, row, log, marks);
  }

  lemma MissingPage(table: TableName, row: StoredRow, log: seq<Log.WalRecord>, marks: seq<Db>)
    requires RowOk(row) && |table| < TWO64 && |EncodePage([row])| < TWO64
    requires var db, dead := map[table := Nothing()], map[table := TwoDead()];
      var units := [Rollback([Put(table, row), Put(table, row)]), Auto(Put(table, row))];
      && DbFits(1, db) && Runs(1, db, units, log, marks) && AfterUnit(1, db, units[0]) == dead
      && DbFits(1, dead) && Applies(dead, Put(table, row))
      && log == [Log.WalRecord(1, PAGE_IMAGE_REDO, EncodeBatch([Capture(1, dead, Put(table, row))]))]
    ensures var reps := map[table := Replica(map[], 0, [])];
      && Recover(reps, log).Some? && table in Recover(reps, log).value
      && AppendThrows(1, Recover(reps, log).value[table])
  {
    hide HeapOk, EncodePage, RowOk, TableFits, Capture, EncodeBatch, Tracks, Recover, AppendThrows, Logged, AllApply;
    hide AfterUnit, UnitOk;
    var db, reps := map[table := Nothing()], map[table := Replica(map[], 0, [])];
    var op, dead := Put(table, row), map[table := TwoDead()];
    var auto := Auto(op);
    var units := [Rollback([op, op]), auto];
    EmptyFits();
    OneRecord(table, row, log[0].payload);
    ThirdInsert(table, row);
    assert log[..1] == log && units[1..] == [auto] && [auto][1..] == [];
    assert PageOf(1, 0) == 1 && PageOf(1, 1) == 2;
    OneOpTouches(1, dead, op, table, 1);
    assert !TouchedIn(1, dead, [auto], log, marks, 1, table, 1);
    assert !TouchedIn(1, db, units, log, marks, 1, table, 1);
    assert !Logged(1, map[], 1) by { NothingLogged(); }
    ReuseAfterRecovery(1, reps, db, units, log, marks, 1, table);
  }

  lemma NothingLogged()
    ensures !Logged(1, map[], 1)
  {
  }

  lemma OneOpTouches(size: int, db: Db, op: DbOp, t: TableName, id: RowId)
    requires DbFits(size, db) && Applies(db, op)
    ensures AllApply(size, db, [op]) && (TouchedBy(size, db, [op], t, id) <==> Touches(size, db, op, t, id))
  {
    hide TableFits, RowOpApplies, AfterRowOp, Touches;
    AfterFits(size, db, op);
    assert [op][1..] == [];
  }

  lemma OneCapture(size: int, db: Db, op: DbOp)
    requires DbFits(size, db) && Applies(db, op)
    ensures AllApply(size, db, [op]) && Captures(size, db, [op]) == [Capture(size, db, op)]
  {
    hide Capture, TableFits, RowOpApplies, AfterRowOp;
    AfterFits(size, db, op);
    assert [op][1..] == [];
  }

  /** What recovery makes of the one record. */
  lemma OneRecord(table: TableName, row: StoredRow, payload: Bytes)
    requires RowOk(row) && |table| < TWO64 && |EncodePage([row])| < TWO64
    requires DbFits(1, map[table := TwoDead()]) && Applies(map[table := TwoDead()], Put(table, row))
    requires payload == EncodeBatch([Capture(1, map[table := TwoDead()], Put(table, row))])
    ensures Recover(map[table := Replica(map[], 0, [])], [Log.WalRecord(1, PAGE_IMAGE_REDO, payload)])
      == Some(map[table := Replica(map[1 := EncodePage([row])], 2, [1])])
  {
    hide EncodePage, RowOk, TableFits, RecordOk, Capture, EncodeBatch, DecodeBatch;
    ThirdInsert(table, row);
    var reps := map[table := Replica(map[], 0, [])];
    var record := RedoRecord(table, Some((2, [1])), [HeapImage(1, EncodePage([row]))], [], []);
    var batch := [record];
    BatchRoundTrip(batch);
    assert record.heap[1..] == [] && InstallPages(map[], record.heap) == map[1 := EncodePage([row])];
    var after := map[table := Replica(map[1 := EncodePage([row])], 2, [1])];
    OnlyTable(table, reps[table], after[table]);
    assert Replay(reps, record) == Some(after);
    assert batch[1..] == [] && ReplayAll(reps, batch) == Some(after);
    var log := [Log.WalRecord(1, PAGE_IMAGE_REDO, payload)];
    assert log[1..] == [] && Recover(after, []) == Some(after);
  }
}
