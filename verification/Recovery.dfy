/** Crash recovery: the page images that statements and transactions log, and
    what replaying a log that was cut anywhere rebuilds. */
module Recovery {
  import opened Values
  import opened RowStores
  import opened ByteStreams
  import opened PageCodec
  import opened HeapPages
  import opened RedoCodec
  import Log = WriteAheadLogs

  type TableName = Bytes
  type Rows = seq<Option<StoredRow>>

  // ----- What a log rebuilds -------------------------------------------------------------

  /** The durable side of a table: logged page bytes, capacity and free list. */
  datatype Replica = Replica(pages: map<int, Bytes>, capacity: int, free: seq<RowId>)

  /** A slot is live when its page holds it and the free list does not. */
  function RecoveredRow(size: int, rep: Replica, id: RowId): Option<StoredRow>
    requires size >= 1
  {
    var page := PageOf(size, id);
    if id < 0 || id >= rep.capacity || id in rep.free || page !in rep.pages then None
    else
      var rows := DecodePage(rep.pages[page]);
      if rows.None? || OffsetOf(size, id) >= |rows.value| || OffsetOf(size, id) < 0 then None
      else Some(rows.value[OffsetOf(size, id)])
  }

  /** `applyPageImages`: the capacity must not shrink; a record without heap
      metadata keeps capacity and free list. */
  function Install(rep: Replica, r: RedoRecord): Option<Replica> {
    if r.meta.Some? && r.meta.value.0 < rep.capacity then None
    else
      var pages := InstallPages(rep.pages, r.heap);
      if r.meta.Some? then Some(Replica(pages, r.meta.value.0, r.meta.value.1))
      else Some(Replica(pages, rep.capacity, rep.free))
  }

  function InstallPages(pages: map<int, Bytes>, images: seq<HeapImage>): map<int, Bytes>
    decreases |images|
  {
    if images == [] then pages else InstallPages(pages[images[0].pageId := images[0].bytes], images[1..])
  }

  type Replicas = map<TableName, Replica>

  /** One redo record; an unknown table fails the recovery. */
  function Replay(reps: Replicas, r: RedoRecord): Option<Replicas> {
    if r.table !in reps then None
    else
      var rep := Install(reps[r.table], r);
      if rep.None? then None else Some(reps[r.table := rep.value])
  }

  function ReplayAll(reps: Replicas, rs: seq<RedoRecord>): Option<Replicas>
    decreases |rs|
  {
    if rs == [] then Some(reps)
    else
      var next := Replay(reps, rs[0]);
      if next.None? then None else ReplayAll(next.value, rs[1..])
  }

  const PAGE_IMAGE_REDO := 10

  /** A log of page-image records. */
  function Recover(reps: Replicas, log: seq<Log.WalRecord>): Option<Replicas>
    decreases |log|
  {
    if log == [] then Some(reps)
    else
      var batch := DecodeBatch(log[0].payload);
      if batch.None? then None
      else
        var next := ReplayAll(reps, batch.value);
        if next.None? then None else Recover(next.value, log[1..])
  }

  // ----- The running database ----------------------------------------------------------------

  type Db = map<TableName, Heap<StoredRow>>

  datatype RowOp = Insert(row: StoredRow) | Update(id: RowId, row: StoredRow) | Delete(id: RowId)

  /** A row operation on a table, and the index images captured with it. */
  datatype DbOp = DbOp(table: TableName, op: RowOp, trees: seq<(Bytes, TreeImage)>, hashes: seq<(Bytes, HashImage)>)

  predicate RowOpApplies(h: Heap<StoredRow>, op: RowOp) {
    match op
    case Insert(row) => RowOk(row)
    case Update(id, row) => IsLive(h, id) && RowOk(row)
    case Delete(id) => IsLive(h, id)
  }

  function ChangedId(h: Heap<StoredRow>, op: RowOp): RowId {
    if op.Insert? then NextId(h) else op.id
  }

  ghost function AfterRowOp(h: Heap<StoredRow>, op: RowOp): Heap<StoredRow>
    requires HeapOk(h) && RowOpApplies(h, op)
  {
    match op
    case Insert(row) =>
      AppendKeeps(h, row);
      Appended(h, row)
    case Update(id, row) => Updated(h, id, row)
    case Delete(id) => Erased(h, id)
  }

  /** What the operations do to the live rows. */
  lemma RowOpMeans(h: Heap<StoredRow>, op: RowOp)
    requires HeapOk(h) && RowOpApplies(h, op)
    ensures var id, h' := ChangedId(h, op), AfterRowOp(h, op);
      && Get(h', id) == (if op.Delete? then None else Some(op.row))
      && (op.Insert? <==> Get(h, id) == None)
      && forall other :: other != id ==> Get(h', other) == Get(h, other)
  {
    match op {
      case Insert(row) => AppendKeeps(h, row);
      case Update(id, row) => UpdateKeeps(h, id, row);
      case Delete(id) => EraseKeeps(h, id);
    }
  }

  ghost predicate TableFits(size: int, h: Heap<StoredRow>) {
    HeapOk(h) && Encodable(size, h.slots)
  }

  lemma RowOpKeeps(size: int, h: Heap<StoredRow>, op: RowOp)
    requires TableFits(size, h) && RowOpApplies(h, op)
    ensures TableFits(size, AfterRowOp(h, op)) && |AfterRowOp(h, op).slots| >= |h.slots|
    ensures 0 <= ChangedId(h, op) < |AfterRowOp(h, op).slots|
    ensures var id := ChangedId(h, op); var v := AfterRowOp(h, op).slots[id];
      AfterRowOp(h, op).slots == if id < |h.slots| then h.slots[id := v] else h.slots + [v]
    ensures ChangedId(h, op) <= |h.slots|
  {
    match op
    case Insert(row) => AppendKeeps(h, row);
    case Update(id, row) => UpdateKeeps(h, id, row);
    case Delete(id) => EraseKeeps(h, id);
  }

  // ----- Pages that lag behind ------------------------------------------------------------------

  /** The logged rows of a page are the first of the rows it holds now. */
  ghost predicate PageTracks(size: int, bytes: Bytes, rows: seq<StoredRow>) {
    var logged := DecodePage(bytes);
    logged.Some? && |logged.value| <= |rows| && logged.value == rows[..|logged.value|]
  }

  ghost predicate Logged(size: int, pages: map<int, Bytes>, id: RowId)
    requires size >= 1
  {
    var p := PageOf(size, id);
    p in pages && DecodePage(pages[p]).Some? && OffsetOf(size, id) < |DecodePage(pages[p]).value|
  }

  /** Every logged page lags at most by slots that are dead, and every live row
      has been logged. */
  ghost predicate PagesTrack(size: int, pages: map<int, Bytes>, slots: Rows)
    requires size >= 1
  {
    && (forall p :: p in pages ==> p >= 1 && PageTracks(size, pages[p], PageRows(size, slots, p)))
    && (forall id :: 0 <= id < |slots| && slots[id].Some? ==> Logged(size, pages, id))
  }

  /** The free list holds ids below the capacity, among them every id that was not
      logged, and no page reaches beyond the capacity. */
  ghost predicate Rounded(size: int, rep: Replica)
    requires size >= 1
  {
    && 0 <= rep.capacity && Distinct(rep.free) && (forall id :: id in rep.free ==> 0 <= id < rep.capacity)
    && (forall id :: 0 <= id < rep.capacity && id !in rep.free ==> Logged(size, rep.pages, id))
    && (forall p :: p in rep.pages ==> Ends(size, rep.pages[p], p, rep.capacity))
  }

  ghost predicate Ends(size: int, bytes: Bytes, p: int, capacity: int) {
    var logged := DecodePage(bytes);
    logged.Some? ==> logged.value == [] || First(size, p) + |logged.value| <= capacity
  }

  /** What recovery would rebuild now are the live rows. */
  ghost predicate Tracks(size: int, rep: Replica, h: Heap<StoredRow>)
    requires size >= 1
  {
    && PagesTrack(size, rep.pages, h.slots) && Rounded(size, rep) && rep.capacity <= |h.slots|
    && forall id :: RecoveredRow(size, rep, id) == Get(h, id)
  }

  lemma ChangedPage(size: int, h: Heap<StoredRow>, op: RowOp, p: int)
    requires TableFits(size, h) && RowOpApplies(h, op) && p >= 1 && p != PageOf(size, ChangedId(h, op))
    ensures PageRows(size, AfterRowOp(h, op).slots, p) == PageRows(size, h.slots, p)
  {
    hide HeapOk, PageOf, PageRows;
    RowOpKeeps(size, h, op);
    var id := ChangedId(h, op);
    var v := AfterRowOp(h, op).slots[id];
    if id < |h.slots| {
      PutPage(size, h.slots, id, v, p);
    } else {
      GrowPage(size, h.slots, v, p);
    }
  }

  ghost function PageImage(size: int, slots: Rows, p: int): Bytes
    requires Encodable(size, slots) && p >= 1
  {
    PagesEncodable(size, slots, p);
    EncodePage(PageRows(size, slots, p))
  }

  /** Logging the page of the changed row brings the pages up to date. */
  lemma LogOp(size: int, pages: map<int, Bytes>, h: Heap<StoredRow>, op: RowOp)
    requires TableFits(size, h) && RowOpApplies(h, op) && PagesTrack(size, pages, h.slots)
    ensures TableFits(size, AfterRowOp(h, op)) && PageOf(size, ChangedId(h, op)) >= 1
    ensures var h' := AfterRowOp(h, op); var p := PageOf(size, ChangedId(h, op));
      PagesTrack(size, pages[p := PageImage(size, h'.slots, p)], h'.slots)
  {
    hide HeapOk, PageRows, EncodePage, DecodePage, AfterRowOp;
    RowOpKeeps(size, h, op);
    var h', id := AfterRowOp(h, op), ChangedId(h, op);
    PageBounds(size, id);
    var p := PageOf(size, id);
    var pages' := pages[p := PageImage(size, h'.slots, p)];
    PagesEncodable(size, h'.slots, p);
    PageRoundTrip(PageRows(size, h'.slots, p));
    forall q | q in pages' ensures q >= 1 && PageTracks(size, pages'[q], PageRows(size, h'.slots, q)) {
      if q != p {
        ChangedPage(size, h, op, q);
      } else {
        assert PageRows(size, h'.slots, p)[..|PageRows(size, h'.slots, p)|] == PageRows(size, h'.slots, p);
      }
    }
    forall k | 0 <= k < |h'.slots| && h'.slots[k].Some? ensures Logged(size, pages', k) {
      if PageOf(size, k) == p {
        PageAt(size, h'.slots, k);
      } else {
        assert k != id;
        assert h'.slots[k] == h.slots[k];
      }
    }
  }

  lemma ExactlyRounded(size: int, pages: map<int, Bytes>, h: Heap<StoredRow>)
    requires size >= 1 && HeapOk(h) && PagesTrack(size, pages, h.slots)
    ensures Rounded(size, Replica(pages, |h.slots|, h.free))
  {
    hide DecodePage, LiveCount, Logged;
    forall p | p in pages ensures Ends(size, pages[p], p, |h.slots|) {
      assert PageTracks(size, pages[p], PageRows(size, h.slots, p));
      FirstPositive(size, p);
    }
  }

  /** With capacity and free list logged too, recovery gives exactly the heap. */
  lemma ExactRecovery(size: int, pages: map<int, Bytes>, h: Heap<StoredRow>)
    requires size >= 1 && HeapOk(h) && PagesTrack(size, pages, h.slots)
    ensures Tracks(size, Replica(pages, |h.slots|, h.free), h)
  {
    hide PageRows, DecodePage, LiveCount;
    var rep := Replica(pages, |h.slots|, h.free);
    assert Rounded(size, rep) by { ExactlyRounded(size, pages, h); }
    forall id ensures RecoveredRow(size, rep, id) == Get(h, id) {
      if 0 <= id < |h.slots| {
        PageBounds(size, id);
        if h.slots[id].Some? {
          assert Logged(size, pages, id);
          PageAt(size, h.slots, id);
          var p := PageOf(size, id);
          assert PageTracks(size, pages[p], PageRows(size, h.slots, p));
        } else {
          assert id in h.free;
        }
      }
    }
  }

  // ----- Transactions ---------------------------------------------------------------------------

  /** The same live rows under the same ids; dead slots may have been added. */
  ghost predicate SameLive(h: Heap<StoredRow>, h': Heap<StoredRow>) {
    |h.slots| <= |h'.slots| && forall id :: Get(h', id) == Get(h, id)
  }

  lemma SamePageRows(size: int, h: Heap<StoredRow>, h': Heap<StoredRow>, p: int)
    requires size >= 1 && p >= 1 && SameLive(h, h')
    ensures |PageRows(size, h.slots, p)| <= |PageRows(size, h'.slots, p)|
    ensures PageRows(size, h.slots, p) == PageRows(size, h'.slots, p)[..|PageRows(size, h.slots, p)|]
  {
    FirstPositive(size, p);
    var lo := First(size, p);
    hide First;
    var a, b := PageRows(size, h.slots, p), PageRows(size, h'.slots, p);
    assert |a| <= |b|;
    forall i | 0 <= i < |a| ensures a[i] == b[i] {
      assert Get(h', lo + i) == Get(h, lo + i);
    }
  }

  /** A rolled-back transaction logs nothing, and nothing needs logging. */
  lemma RollbackTracks(size: int, rep: Replica, h: Heap<StoredRow>, h': Heap<StoredRow>)
    requires size >= 1 && Tracks(size, rep, h) && SameLive(h, h')
    ensures Tracks(size, rep, h')
  {
    hide PageRows, RecoveredRow, Rounded;
    forall p | p in rep.pages ensures p >= 1 && PageTracks(size, rep.pages[p], PageRows(size, h'.slots, p)) {
      SamePageRows(size, h, h', p);
    }
    forall id | 0 <= id < |h'.slots| && h'.slots[id].Some? ensures Logged(size, rep.pages, id) {
      assert Get(h', id) == Get(h, id);
    }
  }

  ghost predicate DbFits(size: int, db: Db) {
    size >= 1 && forall t :: t in db ==> TableFits(size, db[t])
  }

  ghost predicate DbTracks(size: int, reps: Replicas, db: Db)
    requires size >= 1
  {
    reps.Keys == db.Keys && forall t :: t in db ==> Tracks(size, reps[t], db[t])
  }

  ghost predicate Applies(db: Db, op: DbOp) {
    op.table in db && RowOpApplies(db[op.table], op.op)
  }

  ghost function After(size: int, db: Db, op: DbOp): Db
    requires DbFits(size, db) && Applies(db, op)
  {
    db[op.table := AfterRowOp(db[op.table], op.op)]
  }

  /** `appendPageImageRedo`: capacity, free list and the page just changed. */
  ghost function Capture(size: int, db: Db, op: DbOp): RedoRecord
    requires DbFits(size, db) && Applies(db, op)
  {
    RowOpKeeps(size, db[op.table], op.op);
    var h, h' := db[op.table], AfterRowOp(db[op.table], op.op);
    PageBounds(size, ChangedId(h, op.op));
    var p := PageOf(size, ChangedId(h, op.op));
    RedoRecord(op.table, Some((|h'.slots|, h'.free)), [HeapImage(p, PageImage(size, h'.slots, p))], op.trees, op.hashes)
  }

  lemma AfterFits(size: int, db: Db, op: DbOp)
    requires DbFits(size, db) && Applies(db, op)
    ensures DbFits(size, After(size, db, op))
  {
    hide TableFits, RowOpApplies, AfterRowOp;
    RowOpKeeps(size, db[op.table], op.op);
  }

  /** Replaying what an operation captured brings the replica to the state after it. */
  lemma ReplayOp(size: int, reps: Replicas, db: Db, op: DbOp)
    requires DbFits(size, db) && DbTracks(size, reps, db) && Applies(db, op)
    ensures var r := Replay(reps, Capture(size, db, op)); r.Some? && DbTracks(size, r.value, After(size, db, op))
  {
    hide Tracks, PagesTrack, HeapOk, RowOpApplies, AfterRowOp, PageImage, PageOf;
    var t := op.table;
    var h, rep := db[t], reps[t];
    assert PagesTrack(size, rep.pages, h.slots) && rep.capacity <= |h.slots| by { TracksParts(size, rep, h); }
    RowOpKeeps(size, h, op.op);
    var h' := AfterRowOp(h, op.op);
    LogOp(size, rep.pages, h, op.op);
    var p := PageOf(size, ChangedId(h, op.op));
    var pages' := rep.pages[p := PageImage(size, h'.slots, p)];
    ExactRecovery(size, pages', h');
    var images := [HeapImage(p, PageImage(size, h'.slots, p))];
    assert images[1..] == [] && InstallPages(rep.pages, images) == pages';
    assert Replay(reps, Capture(size, db, op)) == Some(reps[t := Replica(pages', |h'.slots|, h'.free)]);
  }

  lemma TracksParts(size: int, rep: Replica, h: Heap<StoredRow>)
    requires size >= 1 && Tracks(size, rep, h)
    ensures PagesTrack(size, rep.pages, h.slots) && rep.capacity <= |h.slots|
  {
  }

  /** Each operation applies to the state the ones before it leave. */
  ghost predicate AllApply(size: int, db: Db, ops: seq<DbOp>)
    requires DbFits(size, db)
    decreases |ops|
  {
    ops != [] ==>
      && Applies(db, ops[0])
      && (AfterFits(size, db, ops[0]); AllApply(size, After(size, db, ops[0]), ops[1..]))
  }

  ghost function AfterAll(size: int, db: Db, ops: seq<DbOp>): Db
    requires DbFits(size, db) && AllApply(size, db, ops)
    decreases |ops|
  {
    if ops == [] then db
    else
      AfterFits(size, db, ops[0]);
      AfterAll(size, After(size, db, ops[0]), ops[1..])
  }

  ghost function Captures(size: int, db: Db, ops: seq<DbOp>): seq<RedoRecord>
    requires DbFits(size, db) && AllApply(size, db, ops)
    decreases |ops|
  {
    if ops == [] then []
    else
      AfterFits(size, db, ops[0]);
      [Capture(size, db, ops[0])] + Captures(size, After(size, db, ops[0]), ops[1..])
  }

  /** Replaying a transaction's records in order brings the replica to its end. */
  lemma {:induction false} ReplayOps(size: int, reps: Replicas, db: Db, ops: seq<DbOp>)
    requires DbFits(size, db) && DbTracks(size, reps, db) && AllApply(size, db, ops)
    ensures DbFits(size, AfterAll(size, db, ops))
    ensures var r := ReplayAll(reps, Captures(size, db, ops));
      r.Some? && DbTracks(size, r.value, AfterAll(size, db, ops))
    decreases |ops|
  {
    hide DbTracks, DbFits, Applies, After, Capture, Replay;
    if ops != [] {
      AfterFits(size, db, ops[0]);
      ReplayOp(size, reps, db, ops[0]);
      var next := After(size, db, ops[0]);
      ReplayOps(size, Replay(reps, Capture(size, db, ops[0])).value, next, ops[1..]);
      assert Captures(size, db, ops)[1..] == Captures(size, next, ops[1..]);
    }
  }

  // ----- Rolling back ----------------------------------------------------------------------------

  /** What undoes a row operation: the slot goes, gets its old row back, or is revived. */
  datatype RowUndo = Remove(id: RowId) | Restore(id: RowId, row: StoredRow) | Revive(id: RowId, row: StoredRow)

  datatype DbUndo = DbUndo(table: TableName, undo: RowUndo)

  function UndoOf(h: Heap<StoredRow>, op: RowOp): RowUndo
    requires RowOpApplies(h, op)
  {
    match op
    case Insert(_) => Remove(NextId(h))
    case Update(id, _) => Restore(id, h.slots[id].value)
    case Delete(id) => Revive(id, h.slots[id].value)
  }

  function UndoRow(h: Heap<StoredRow>, u: RowUndo): Option<Heap<StoredRow>> {
    match u
    case Remove(id) => if IsLive(h, id) then Some(Erased(h, id)) else None
    case Restore(id, row) => if IsLive(h, id) then Some(Updated(h, id, row)) else None
    case Revive(id, row) => if Revivable(h, id) then Some(Revived(h, id, row)) else None
  }

  /** Undoing an operation restores the live rows of any heap that has those the
      operation left. */
  lemma UndoRowOp(size: int, h: Heap<StoredRow>, op: RowOp, after: Heap<StoredRow>)
    requires TableFits(size, h) && RowOpApplies(h, op) && TableFits(size, after) && SameLive(AfterRowOp(h, op), after)
    ensures var r := UndoRow(after, UndoOf(h, op)); r.Some? && TableFits(size, r.value) && SameLive(h, r.value)
  {
    hide LiveCount, FreeOk, RowOk;
    RowOpKeeps(size, h, op);
    var id := ChangedId(h, op);
    assert Get(after, id) == Get(AfterRowOp(h, op), id);
    match op {
      case Insert(row) =>
        AppendKeeps(h, row);
        EraseKeeps(after, id);
      case Update(_, row) =>
        UpdateKeeps(h, id, row);
        UpdateKeeps(after, id, h.slots[id].value);
      case Delete(_) =>
        EraseKeeps(h, id);
        ReviveKeeps(after, id, h.slots[id].value);
    }
    var r := UndoRow(after, UndoOf(h, op)).value;
    forall x ensures Get(r, x) == Get(h, x) {
      assert Get(after, x) == Get(AfterRowOp(h, op), x);
    }
    forall i | 0 <= i < |r.slots| && r.slots[i].Some? ensures RowOk(r.slots[i].value) {
      assert Get(r, i) == Get(h, i);
    }
  }

  ghost predicate DbSameLive(db: Db, after: Db) {
    after.Keys == db.Keys && forall t :: t in db ==> SameLive(db[t], after[t])
  }

  function UndoDb(db: Db, u: DbUndo): Option<Db> {
    if u.table !in db then None
    else
      var h := UndoRow(db[u.table], u.undo);
      if h.None? then None else Some(db[u.table := h.value])
  }

  /** The undo log of a transaction, in the order of its statements. */
  ghost function Undos(size: int, db: Db, ops: seq<DbOp>): seq<DbUndo>
    requires DbFits(size, db) && AllApply(size, db, ops)
    decreases |ops|
  {
    if ops == [] then []
    else
      AfterFits(size, db, ops[0]);
      [DbUndo(ops[0].table, UndoOf(db[ops[0].table], ops[0].op))] + Undos(size, After(size, db, ops[0]), ops[1..])
  }

  /** Undone last in, first out. */
  function UndoAll(db: Db, us: seq<DbUndo>): Option<Db>
    decreases |us|
  {
    if us == [] then Some(db)
    else
      var later := UndoAll(db, us[1..]);
      if later.None? then None else UndoDb(later.value, us[0])
  }

  lemma UndoDbOp(size: int, db: Db, op: DbOp, after: Db)
    requires DbFits(size, db) && Applies(db, op) && DbFits(size, after) && DbSameLive(After(size, db, op), after)
    ensures var r := UndoDb(after, DbUndo(op.table, UndoOf(db[op.table], op.op)));
      r.Some? && DbFits(size, r.value) && DbSameLive(db, r.value)
  {
    hide TableFits, SameLive, RowOpApplies, AfterRowOp, UndoRow, UndoOf;
    var t := op.table;
    assert SameLive(After(size, db, op)[t], after[t]);
    UndoRowOp(size, db[t], op.op, after[t]);
  }

  lemma {:induction false} UndoOps(size: int, db: Db, ops: seq<DbOp>, after: Db)
    requires DbFits(size, db) && AllApply(size, db, ops) && DbFits(size, after)
    requires DbSameLive(AfterAll(size, db, ops), after)
    ensures var r := UndoAll(after, Undos(size, db, ops));
      r.Some? && DbFits(size, r.value) && DbSameLive(db, r.value)
    decreases |ops|
  {
    hide DbFits, DbSameLive, After, UndoDb, UndoOf;
    if ops != [] {
      AfterFits(size, db, ops[0]);
      UndoOps(size, After(size, db, ops[0]), ops[1..], after);
      var us := Undos(size, db, ops);
      assert us[1..] == Undos(size, After(size, db, ops[0]), ops[1..]);
      UndoDbOp(size, db, ops[0], UndoAll(after, us[1..]).value);
    }
  }

  lemma {:induction false} AllFit(size: int, db: Db, ops: seq<DbOp>)
    requires DbFits(size, db) && AllApply(size, db, ops)
    ensures DbFits(size, AfterAll(size, db, ops))
    decreases |ops|
  {
    hide DbFits, After;
    if ops != [] {
      AfterFits(size, db, ops[0]);
      AllFit(size, After(size, db, ops[0]), ops[1..]);
    }
  }

  /** Rolling a transaction back never fails and restores every live row under its
      id; slots that its inserts added stay behind, dead. */
  lemma RollbackRestores(size: int, db: Db, ops: seq<DbOp>)
    requires DbFits(size, db) && AllApply(size, db, ops)
    ensures var r := UndoAll(AfterAll(size, db, ops), Undos(size, db, ops));
      r.Some? && DbFits(size, r.value) && DbSameLive(db, r.value)
  {
    hide DbFits, UndoAll, Undos;
    AllFit(size, db, ops);
    UndoOps(size, db, ops, AfterAll(size, db, ops));
  }

  // ----- Whole runs ------------------------------------------------------------------------------

  /** An autocommit statement on one row, a committed transaction, or a
      transaction that ran its statements and was rolled back. */
  datatype Unit = Auto(op: DbOp) | Commit(ops: seq<DbOp>) | Rollback(ops: seq<DbOp>)

  /** The operations whose images reach the log. */
  function Durable(u: Unit): seq<DbOp> {
    match u
    case Auto(op) => [op]
    case Commit(ops) => ops
    case Rollback(_) => []
  }

  ghost predicate UnitOk(size: int, db: Db, u: Unit)
    requires DbFits(size, db)
  {
    match u
    case Rollback(ops) => AllApply(size, db, ops)
    case _ => AllApply(size, db, Durable(u)) && (Durable(u) != [] ==> BatchOk(Captures(size, db, Durable(u))))
  }

  ghost function AfterUnit(size: int, db: Db, u: Unit): Db
    requires DbFits(size, db) && UnitOk(size, db, u)
  {
    if u.Rollback? then
      RollbackRestores(size, db, u.ops);
      UndoAll(AfterAll(size, db, u.ops), Undos(size, db, u.ops)).value
    else AfterAll(size, db, Durable(u))
  }

  lemma UnitFits(size: int, reps: Replicas, db: Db, u: Unit)
    requires DbFits(size, db) && DbTracks(size, reps, db) && UnitOk(size, db, u)
    ensures DbFits(size, AfterUnit(size, db, u))
    ensures Durable(u) == [] ==> DbTracks(size, reps, AfterUnit(size, db, u))
    ensures Durable(u) != [] ==>
      var r := ReplayAll(reps, Captures(size, db, Durable(u)));
      r.Some? && DbTracks(size, r.value, AfterUnit(size, db, u))
  {
    hide Tracks, SameLive, TableFits, AllApply, Captures, UndoAll, Undos, AfterAll;
    if u.Rollback? {
      RollbackRestores(size, db, u.ops);
      var after := AfterUnit(size, db, u);
      forall t | t in db ensures Tracks(size, reps[t], after[t]) {
        RollbackTracks(size, reps[t], db[t], after[t]);
      }
    } else {
      ReplayOps(size, reps, db, Durable(u));
      if Durable(u) == [] {
        NothingAfter(size, db);
      }
    }
  }

  lemma NothingAfter(size: int, db: Db)
    requires DbFits(size, db)
    ensures AllApply(size, db, []) && AfterAll(size, db, []) == db
  {
  }

  /** The run of a database, the WAL records it wrote and the states right after
      each of them. */
  ghost predicate Runs(size: int, db: Db, units: seq<Unit>, log: seq<Log.WalRecord>, marks: seq<Db>)
    requires DbFits(size, db)
    decreases |units|
  {
    if units == [] then log == [] && marks == []
    else
      && UnitOk(size, db, units[0]) && DbFits(size, AfterUnit(size, db, units[0]))
      && var next := AfterUnit(size, db, units[0]);
         if Durable(units[0]) == [] then Runs(size, next, units[1..], log, marks)
         else
           && log != [] && marks != [] && marks[0] == next
           && log[0].operation == PAGE_IMAGE_REDO
           && log[0].payload == EncodeBatch(Captures(size, db, Durable(units[0])))
           && Runs(size, next, units[1..], log[1..], marks[1..])
  }

  /** The state after k durable units. */
  function Mark(db: Db, marks: seq<Db>, k: nat): Db
    requires k <= |marks|
  {
    if k == 0 then db else marks[k - 1]
  }

  lemma {:induction false} RecoverPrefix(
      size: int, reps: Replicas, db: Db, units: seq<Unit>, log: seq<Log.WalRecord>, marks: seq<Db>, k: nat)
    requires DbFits(size, db) && DbTracks(size, reps, db) && Runs(size, db, units, log, marks) && k <= |log|
    ensures |marks| == |log|
    ensures var r := Recover(reps, log[..k]);
      r.Some? && (k > 0 ==> DbTracks(size, r.value, marks[k - 1])) && (k == 0 ==> r.value == reps)
    decreases |units|
  {
    hide DbTracks, DbFits, UnitOk, AfterUnit, Captures, EncodeBatch, DecodeBatch, ReplayAll;
    if units == [] {
      return;
    }
    var u := units[0];
    var next := AfterUnit(size, db, u);
    UnitFits(size, reps, db, u);
    if Durable(u) == [] {
      RecoverPrefix(size, reps, next, units[1..], log, marks, k);
    } else {
      BatchIsOk(size, db, u);
      var batch := Captures(size, db, Durable(u));
      BatchRoundTrip(batch);
      var after := ReplayAll(reps, batch).value;
      RecoverPrefix(size, after, next, units[1..], log[1..], marks[1..], if k > 0 then k - 1 else 0);
      if k > 0 {
        assert log[..k][0] == log[0] && log[..k][1..] == log[1..][..k - 1];
      }
    }
  }

  lemma BatchIsOk(size: int, db: Db, u: Unit)
    requires DbFits(size, db) && UnitOk(size, db, u) && Durable(u) != []
    ensures AllApply(size, db, Durable(u)) && BatchOk(Captures(size, db, Durable(u)))
  {
  }

  /** For any run, and a crash that keeps any number of bytes of its log: recovery
      succeeds, and for some k it rebuilds exactly the live rows as they were right
      after the k-th durable unit.  A transaction is one record, so it is there
      completely or not at all; one that was rolled back never is. */
  lemma CrashSafety(
      size: int, reps: Replicas, db: Db, units: seq<Unit>, log: seq<Log.WalRecord>, marks: seq<Db>, bytes: nat)
    requires DbFits(size, db) && DbTracks(size, reps, db) && Runs(size, db, units, log, marks)
    requires Log.AllFit(log) && bytes <= |Log.FileOf(log)|
    ensures |marks| == |log| && Recover(reps, Log.ReadAll(Log.FileOf(log)[..bytes])).Some?
    ensures DbTracks(
      size, Recover(reps, Log.ReadAll(Log.FileOf(log)[..bytes])).value, Mark(db, marks, Log.WholeRecords(log, bytes)))
  {
    hide DbTracks, DbFits, Runs, Recover, Log.ReadAll, Log.FileOf, Log.WholeRecords;
    var k := Log.WholeRecords(log, bytes);
    Log.TornTail(log, bytes);
    RecoverPrefix(size, reps, db, units, log, marks, k);
  }

  // ----- As the program does it ---------------------------------------------------------------------

  /** `recoverFromWal` on a log of page images; None when a record cannot be
      applied and the database is given up. */
  method RecoverFromWal(start: Replicas, log: seq<Log.WalRecord>) returns (reps: Option<Replicas>)
    ensures reps == Recover(start, log)
  {
    hide DecodeBatch, Replay;
    var now := start;
    assert log[0..] == log;
    for i := 0 to |log|
      invariant Recover(now, log[i..]) == Recover(start, log)
    {
      assert log[i..][0] == log[i] && log[i..][1..] == log[i + 1..];
      var batch := DecodeBatch(log[i].payload);
      if batch.None? {
        return None;
      }
      var redos := batch.value;
      ghost var before := now;
      assert redos[0..] == redos;
      for j := 0 to |redos|
        invariant ReplayAll(now, redos[j..]) == ReplayAll(before, redos)
      {
        assert redos[j..][0] == redos[j] && redos[j..][1..] == redos[j + 1..];
        var next := Replay(now, redos[j]);
        if next.None? {
          return None;
        }
        now := next.value;
      }
    }
    return Some(now);
  }
}
