/** Table mutations by one transaction, the undo log they leave, and what
    rolling the log back restores. */
module UndoLogs {
  import opened Values
  import opened Serializability
  import opened RowStores
  import opened Versions

  type Heap = RowStores.Heap<Row>

  datatype ColumnType = IntColumn | DoubleColumn | StringColumn
  datatype Column = Column(kind: ColumnType, nullable: bool)

  /** Columns, the column lists of UNIQUE and PRIMARY KEY constraints, and the
      conjunction of the CHECK constraints. */
  datatype Schema = Schema(columns: seq<Column>, uniques: seq<seq<nat>>, check: Row -> bool)

  predicate HasType(v: Value, kind: ColumnType) {
    match kind
    case IntColumn => v.Int?
    case DoubleColumn => v.Dbl?
    case StringColumn => v.Str?
  }

  predicate CellOk(c: Column, v: Value) {
    if v.Null? then c.nullable else HasType(v, c.kind)
  }

  /** `validateRow`. */
  predicate RowOk(schema: Schema, row: Row) {
    && |row| == |schema.columns|
    && (forall i :: 0 <= i < |row| ==> CellOk(schema.columns[i], row[i]))
    && schema.check(row)
  }

  function Cell(row: Row, c: nat): Value {
    if c < |row| then row[c] else Null
  }

  /** `uniqueRowsEqual`: NULL is never equal to anything. */
  predicate SameKey(columns: seq<nat>, a: Row, b: Row) {
    forall i :: 0 <= i < |columns| ==>
      Cell(a, columns[i]) == Cell(b, columns[i]) && !Cell(a, columns[i]).Null?
  }

  predicate Collide(schema: Schema, a: Row, b: Row) {
    exists u :: 0 <= u < |schema.uniques| && SameKey(schema.uniques[u], a, b)
  }

  lemma CollideSymmetric(schema: Schema, a: Row, b: Row)
    requires Collide(schema, a, b)
    ensures Collide(schema, b, a)
  {
    var u :| 0 <= u < |schema.uniques| && SameKey(schema.uniques[u], a, b);
    assert SameKey(schema.uniques[u], b, a);
  }

  /** The row may stand at `self` without violating a unique constraint. */
  ghost predicate Fits(schema: Schema, h: Heap, row: Row, self: Option<RowId>) {
    forall id :: IsLive(h, id) && Some(id) != self ==> !Collide(schema, row, h.slots[id].value)
  }

  // ----- Table states -------------------------------------------------------------

  datatype TableState = TableState(heap: Heap, versions: Store)

  /** A live row is the open end of its version chain. */
  ghost predicate Headed(t: TableState, id: RowId) {
    IsLive(t.heap, id) ==>
      var c := ChainOf(t.versions, id);
      Open(c) && Last(c).row == t.heap.slots[id].value
  }

  ghost predicate UniqueRows(schema: Schema, h: Heap) {
    forall i, j :: IsLive(h, i) && IsLive(h, j) && i != j ==> !Collide(schema, h.slots[i].value, h.slots[j].value)
  }

  ghost predicate TableOk(schema: Schema, t: TableState) {
    && HeapOk(t.heap) && StoreOk(t.versions)
    && (forall id :: IsLive(t.heap, id) ==> RowOk(schema, t.heap.slots[id].value))
    && (forall id :: Headed(t, id))
    && UniqueRows(schema, t.heap)
  }

  datatype Dml =
    | InsertRow(row: Row)
    | UpdateCell(id: RowId, column: nat, value: Value)
    | DeleteRow(id: RowId)

  datatype UndoRecord =
    | UndoInsert(id: RowId)
    | UndoUpdate(id: RowId, before: Row)
    | UndoDelete(id: RowId, before: Row)

  /** Whether a statement passes every check and finds its row. */
  ghost predicate Applies(schema: Schema, t: TableState, op: Dml) {
    match op
    case InsertRow(row) => RowOk(schema, row) && Fits(schema, t.heap, row, None)
    case UpdateCell(id, column, value) =>
      && IsLive(t.heap, id) && column < |schema.columns| && column < |t.heap.slots[id].value|
      && CellOk(schema.columns[column], value)
      && var row := t.heap.slots[id].value[column := value];
         schema.check(row) && Fits(schema, t.heap, row, Some(id))
    case DeleteRow(id) => IsLive(t.heap, id)
  }

  ghost function UndoOf(schema: Schema, t: TableState, op: Dml): UndoRecord
    requires Applies(schema, t, op)
  {
    match op
    case InsertRow(_) => UndoInsert(NextId(t.heap))
    case UpdateCell(id, _, _) => UndoUpdate(id, t.heap.slots[id].value)
    case DeleteRow(id) => UndoDelete(id, t.heap.slots[id].value)
  }

  ghost function Apply(schema: Schema, t: TableState, op: Dml, txn: TxnId): TableState
    requires TableOk(schema, t) && Applies(schema, t, op)
  {
    match op
    case InsertRow(row) =>
      AppendKeeps(t.heap, row);
      TableState(Appended(t.heap, row), Written(t.versions, NextId(t.heap), row, txn))
    case UpdateCell(id, column, value) =>
      var row := t.heap.slots[id].value[column := value];
      TableState(Updated(t.heap, id, row), Written(t.versions, id, row, txn))
    case DeleteRow(id) => TableState(Erased(t.heap, id), Closed(t.versions, id, txn))
  }

  // ----- What the constraints and the statements mean -----------------------------------

  /** The value may stand in the column. */
  predicate Admits(c: Column, v: Value) {
    match v
    case Null => c.nullable
    case Int(_) => c.kind == IntColumn
    case Dbl(_) => c.kind == DoubleColumn
    case Str(_) => c.kind == StringColumn
    case Composite(_) => false
  }

  /** Another live row has the same values, none of them NULL, in the columns of a unique key. */
  ghost predicate Clashes(schema: Schema, h: Heap, row: Row, self: Option<RowId>) {
    exists id, columns | IsLive(h, id) && Some(id) != self && columns in schema.uniques ::
      forall c :: c in columns ==> Cell(row, c) == Cell(h.slots[id].value, c) && Cell(row, c) != Null
  }

  ghost predicate Admissible(schema: Schema, h: Heap, row: Row, self: Option<RowId>) {
    && |row| == |schema.columns| && (forall i :: 0 <= i < |row| ==> Admits(schema.columns[i], row[i]))
    && schema.check(row) && !Clashes(schema, h, row, self)
  }

  lemma ClashesExactly(schema: Schema, h: Heap, row: Row, self: Option<RowId>)
    ensures Fits(schema, h, row, self) <==> !Clashes(schema, h, row, self)
  {
    forall columns, other ensures SameKey(columns, row, other) <==>
      forall c :: c in columns ==> Cell(row, c) == Cell(other, c) && Cell(row, c) != Null
    {
      KeyByColumns(columns, row, other);
    }
    if id :| IsLive(h, id) && Some(id) != self && Collide(schema, row, h.slots[id].value) {
      var u :| 0 <= u < |schema.uniques| && SameKey(schema.uniques[u], row, h.slots[id].value);
      assert schema.uniques[u] in schema.uniques;
    }
    if Clashes(schema, h, row, self) {
      var id, columns :| IsLive(h, id) && Some(id) != self && columns in schema.uniques
        && forall c :: c in columns ==> Cell(row, c) == Cell(h.slots[id].value, c) && Cell(row, c) != Null;
      var u :| 0 <= u < |schema.uniques| && schema.uniques[u] == columns;
      assert SameKey(schema.uniques[u], row, h.slots[id].value);
    }
  }

  lemma KeyByColumns(columns: seq<nat>, a: Row, b: Row)
    ensures SameKey(columns, a, b) <==>
      forall c :: c in columns ==> Cell(a, c) == Cell(b, c) && Cell(a, c) != Null
  {
    if forall c :: c in columns ==> Cell(a, c) == Cell(b, c) && Cell(a, c) != Null {
      forall i | 0 <= i < |columns| ensures Cell(a, columns[i]) == Cell(b, columns[i]) && !Cell(a, columns[i]).Null? {
        assert columns[i] in columns;
      }
    }
  }

  /** INSERT is accepted exactly if the row fits the columns, the CHECK constraints and the
      unique keys; UPDATE exactly if the row and the column exist and the changed row does;
      DELETE exactly if the row exists. */
  lemma AppliesExactly(schema: Schema, t: TableState, op: Dml)
    requires TableOk(schema, t)
    ensures Applies(schema, t, op) <==>
      match op
      case InsertRow(row) => Admissible(schema, t.heap, row, None)
      case UpdateCell(id, column, value) =>
        && Get(t.heap, id).Some? && column < |schema.columns|
        && var row := Get(t.heap, id).value;
           |row| == |schema.columns| && Admissible(schema, t.heap, row[column := value], Some(id))
      case DeleteRow(id) => Get(t.heap, id).Some?
  {
    hide Fits, Clashes, HeapOk, StoreOk, Headed, UniqueRows;
    forall c: Column, v ensures CellOk(c, v) <==> Admits(c, v) {}
    match op {
      case InsertRow(row) => ClashesExactly(schema, t.heap, row, None);
      case UpdateCell(id, column, value) =>
        if IsLive(t.heap, id) && column < |schema.columns| {
          var row := t.heap.slots[id].value;
          assert RowOk(schema, row);
          ClashesExactly(schema, t.heap, row[column := value], Some(id));
        }
      case DeleteRow(id) =>
    }
  }

  /** What an accepted statement does to the live rows. */
  lemma StatementMeans(schema: Schema, t: TableState, op: Dml, txn: TxnId)
    requires TableOk(schema, t) && Applies(schema, t, op)
    ensures var h, h' := t.heap, Apply(schema, t, op, txn).heap; var id := UndoOf(schema, t, op).id;
      && (forall other :: other != id ==> Get(h', other) == Get(h, other))
      && match op
         case InsertRow(row) => Get(h, id) == None && Get(h', id) == Some(row)
         case UpdateCell(target, column, value) =>
           && id == target && Get(h, id).Some? && Get(h', id).Some? && Cell(Get(h', id).value, column) == value
           && forall c: nat :: c != column ==> Cell(Get(h', id).value, c) == Cell(Get(h, id).value, c)
         case DeleteRow(target) => id == target && Get(h, id).Some? && Get(h', id) == None
  {
    hide StoreOk, Headed, UniqueRows, RowOk, Fits;
    match op {
      case InsertRow(row) => AppendKeeps(t.heap, row);
      case UpdateCell(id, column, value) => UpdateKeeps(t.heap, id, t.heap.slots[id].value[column := value]);
      case DeleteRow(id) => EraseKeeps(t.heap, id);
    }
  }

  /** `applyUndoRecord`; None is a failed undo. */
  ghost function Undo(schema: Schema, t: TableState, u: UndoRecord): Option<TableState> {
    match u
    case UndoInsert(id) =>
      if !IsLive(t.heap, id) then None
      else Some(TableState(Erased(t.heap, id), Popped(t.versions, id)))
    case UndoUpdate(id, before) =>
      if !RowOk(schema, before) || !IsLive(t.heap, id) || !Fits(schema, t.heap, before, Some(id)) then None
      else Some(TableState(Updated(t.heap, id, before), Popped(t.versions, id)))
    case UndoDelete(id, before) =>
      if !RowOk(schema, before) || !Fits(schema, t.heap, before, Some(id)) || !Revivable(t.heap, id) then None
      else Some(TableState(Revived(t.heap, id, before), Cleared(t.versions, id)))
  }

  // ----- Statements keep the table well formed -----------------------------------------

  /** What a statement does, slot by slot and chain by chain. */
  lemma ApplyEffect(schema: Schema, t: TableState, op: Dml, txn: TxnId)
    requires TableOk(schema, t) && Applies(schema, t, op)
    ensures var id := UndoOf(schema, t, op).id; var t' := Apply(schema, t, op, txn);
      && HeapOk(t'.heap) && StoreOk(t'.versions)
      && |t'.heap.slots| >= |t.heap.slots| && InHeap(t'.heap, id)
      && (forall other :: other != id ==> Get(t'.heap, other) == Get(t.heap, other))
      && (forall other :: other != id ==> ChainOf(t'.versions, other) == ChainOf(t.versions, other))
      && (op.DeleteRow? ==>
           ChainOf(t'.versions, id) == EraseChain(ChainOf(t.versions, id), txn) && Get(t'.heap, id) == None)
      && (!op.DeleteRow? ==> Get(t'.heap, id).Some?)
      && (!op.DeleteRow? ==>
           ChainOf(t'.versions, id) == WriteChain(ChainOf(t.versions, id), Get(t'.heap, id).value, txn))
      && (op.InsertRow? <==> Get(t.heap, id) == None)
  {
    hide HeapOk, StoreOk, Headed, UniqueRows, Fits, RowOk, Written, Closed;
    match op
    case InsertRow(row) =>
      AppendKeeps(t.heap, row);
      WrittenIs(t.versions, NextId(t.heap), row, txn);
    case UpdateCell(id, column, value) =>
      UpdateKeeps(t.heap, id, t.heap.slots[id].value[column := value]);
      WrittenIs(t.versions, id, t.heap.slots[id].value[column := value], txn);
    case DeleteRow(id) =>
      EraseKeeps(t.heap, id);
      ClosedIs(t.versions, id, txn);
  }

  lemma WriteOpens(c: Chain, row: Row, txn: TxnId)
    ensures Open(WriteChain(c, row, txn)) && Last(WriteChain(c, row, txn)).row == row
  {
  }

  lemma UniqueStep(schema: Schema, h: Heap, h': Heap, id: RowId)
    requires UniqueRows(schema, h)
    requires forall other :: other != id ==> Get(h', other) == Get(h, other)
    requires IsLive(h', id) ==> Fits(schema, h, h'.slots[id].value, Some(id))
    ensures UniqueRows(schema, h')
  {
    forall i, j | IsLive(h', i) && IsLive(h', j) && i != j
      ensures !Collide(schema, h'.slots[i].value, h'.slots[j].value)
    {
      assert i != id ==> Get(h', i) == Get(h, i);
      assert j != id ==> Get(h', j) == Get(h, j);
      if j == id && Collide(schema, h'.slots[i].value, h'.slots[j].value) {
        CollideSymmetric(schema, h'.slots[i].value, h'.slots[j].value);
      }
    }
  }

  lemma ApplyKeeps(schema: Schema, t: TableState, op: Dml, txn: TxnId)
    requires TableOk(schema, t) && Applies(schema, t, op)
    ensures TableOk(schema, Apply(schema, t, op, txn))
  {
    hide Collide, HeapOk;
    var id, t' := UndoOf(schema, t, op).id, Apply(schema, t, op, txn);
    ApplyEffect(schema, t, op, txn);
    if op.InsertRow? {
      AppendKeeps(t.heap, op.row);
    }
    UniqueStep(schema, t.heap, t'.heap, id);
    forall other ensures Headed(t', other) && (IsLive(t'.heap, other) ==> RowOk(schema, t'.heap.slots[other].value)) {
      assert Headed(t, other);
      if other != id {
        assert Get(t'.heap, other) == Get(t.heap, other);
      }
    }
  }

  // ----- Rolling back ------------------------------------------------------------------------

  ghost predicate SameRows(h: Heap, h': Heap) {
    HeapOk(h') && |h'.slots| >= |h.slots| && forall id :: Get(h', id) == Get(h, id)
  }

  /** The chains of `m` again, except that the dead rows in `reused` have had
      their last version reopened. */
  ghost predicate SameChains(h: Heap, m: Store, m': Store, reused: set<RowId>) {
    StoreOk(m') && forall id :: ChainOf(m', id) == Reopened(h, m, reused, id)
  }

  ghost function Reopened(h: Heap, m: Store, reused: set<RowId>, id: RowId): Chain {
    if !IsLive(h, id) && id in reused then ClearChain(ChainOf(m, id)) else ChainOf(m, id)
  }

  ghost predicate Restored(s: TableState, t: TableState, reused: set<RowId>) {
    SameRows(s.heap, t.heap) && SameChains(s.heap, s.versions, t.versions, reused)
  }

  ghost function ReusedBy(u: UndoRecord): set<RowId> {
    if u.UndoInsert? then {u.id} else {}
  }

  lemma FitsAgain(schema: Schema, s: TableState, h: Heap, id: RowId)
    requires UniqueRows(schema, s.heap) && IsLive(s.heap, id)
    requires forall other :: other != id ==> Get(h, other) == Get(s.heap, other)
    ensures Fits(schema, h, s.heap.slots[id].value, Some(id))
  {
    hide Collide;
    forall other | IsLive(h, other) && other != id
      ensures !Collide(schema, s.heap.slots[id].value, h.slots[other].value)
    {
      assert Get(h, other) == Get(s.heap, other);
    }
  }

  /** Undoing the statement in the heap. */
  lemma UndoHeap(schema: Schema, s: TableState, op: Dml, txn: TxnId, t: TableState)
    requires TableOk(schema, s) && Applies(schema, s, op)
    requires SameRows(Apply(schema, s, op, txn).heap, t.heap)
    ensures var r := Undo(schema, t, UndoOf(schema, s, op));
      r.Some? && SameRows(s.heap, r.value.heap)
  {
    hide Collide, HeapOk, StoreOk, WriteChain, EraseChain, Apply;
    ApplyEffect(schema, s, op, txn);
    var s', id := Apply(schema, s, op, txn), UndoOf(schema, s, op).id;
    forall other | other != id ensures Get(t.heap, other) == Get(s.heap, other) {
      assert Get(s'.heap, other) == Get(s.heap, other);
    }
    assert Get(t.heap, id) == Get(s'.heap, id);
    match op
    case InsertRow(_) =>
      EraseKeeps(t.heap, id);
    case UpdateCell(_, _, _) =>
      FitsAgain(schema, s, t.heap, id);
      UpdateKeeps(t.heap, id, s.heap.slots[id].value);
    case DeleteRow(_) =>
      FitsAgain(schema, s, t.heap, id);
      ReviveKeeps(t.heap, id, s.heap.slots[id].value);
  }

  /** Undoing the statement in the version chains. */
  lemma UndoChains(schema: Schema, s: TableState, op: Dml, txn: TxnId, t: TableState, reused: set<RowId>)
    requires TableOk(schema, s) && Applies(schema, s, op)
    requires Restored(Apply(schema, s, op, txn), t, reused)
    ensures var u := UndoOf(schema, s, op); var r := Undo(schema, t, u);
      r.Some? && SameChains(s.heap, s.versions, r.value.versions, reused + ReusedBy(u))
  {
    hide Collide, HeapOk, StoreOk, WriteChain, EraseChain, ClearChain, PopChain, Apply, Popped, Cleared, Fits, RowOk,
         UniqueRows;
    ApplyEffect(schema, s, op, txn);
    UndoHeap(schema, s, op, txn, t);
    var s', u := Apply(schema, s, op, txn), UndoOf(schema, s, op);
    var id, c := u.id, ChainOf(s.versions, u.id);
    assert ChainOf(t.versions, id) == Reopened(s'.heap, s'.versions, reused, id);
    assert Headed(s, id);
    if op.DeleteRow? {
      ClearedIs(t.versions, id);
      ClearUndoesErase(c, txn);
    } else {
      var row := Get(s'.heap, id).value;
      assert ChainOf(t.versions, id) == WriteChain(c, row, txn);
      WriteOpens(c, row, txn);
      PoppedIs(t.versions, id);
      PopUndoesWrite(c, row, txn);
    }
    var m := Undo(schema, t, u).value.versions;
    forall other ensures ChainOf(m, other) == Reopened(s.heap, s.versions, reused + ReusedBy(u), other) {
      if other != id {
        assert ChainOf(m, other) == ChainOf(t.versions, other) == Reopened(s'.heap, s'.versions, reused, other);
        assert Get(s'.heap, other) == Get(s.heap, other);
      }
    }
  }

  // ----- Whole transactions -------------------------------------------------------------------

  /** The table after a run of statements; those that fail change nothing. */
  ghost function Run(schema: Schema, t: TableState, ops: seq<Dml>, txn: TxnId): TableState
    requires TableOk(schema, t)
    decreases |ops|
  {
    if ops == [] then t
    else if Applies(schema, t, ops[0]) then
      ApplyKeeps(schema, t, ops[0], txn);
      Run(schema, Apply(schema, t, ops[0], txn), ops[1..], txn)
    else Run(schema, t, ops[1..], txn)
  }

  /** The undo records the run pushes, oldest first. */
  ghost function Log(schema: Schema, t: TableState, ops: seq<Dml>, txn: TxnId): seq<UndoRecord>
    requires TableOk(schema, t)
    decreases |ops|
  {
    if ops == [] then []
    else if Applies(schema, t, ops[0]) then
      ApplyKeeps(schema, t, ops[0], txn);
      [UndoOf(schema, t, ops[0])] + Log(schema, Apply(schema, t, ops[0], txn), ops[1..], txn)
    else Log(schema, t, ops[1..], txn)
  }

  /** Popping the log newest first; None when an undo fails. */
  ghost function Rollback(schema: Schema, t: TableState, log: seq<UndoRecord>): Option<TableState>
    decreases |log|
  {
    if log == [] then Some(t)
    else
      var r := Undo(schema, t, log[|log| - 1]);
      if r.None? then None else Rollback(schema, r.value, log[..|log| - 1])
  }

  /** The row ids the log's inserts took. */
  ghost function InsertedIds(log: seq<UndoRecord>): set<RowId> {
    set i | 0 <= i < |log| && log[i].UndoInsert? :: log[i].id
  }

  lemma {:induction false} RollbackSplit(schema: Schema, t: TableState, u: UndoRecord, log: seq<UndoRecord>)
    ensures Rollback(schema, t, [u] + log) ==
      var r := Rollback(schema, t, log); if r.None? then None else Undo(schema, r.value, u)
    decreases |log|
  {
    var all := [u] + log;
    if log == [] {
      assert all == [u] && all[..0] == [];
    } else {
      assert all[|all| - 1] == log[|log| - 1];
      assert all[..|all| - 1] == [u] + log[..|log| - 1];
      var r := Undo(schema, t, log[|log| - 1]);
      if r.Some? {
        RollbackSplit(schema, r.value, u, log[..|log| - 1]);
      }
    }
  }

  lemma InsertedSplit(u: UndoRecord, log: seq<UndoRecord>)
    ensures InsertedIds([u] + log) == InsertedIds(log) + ReusedBy(u)
  {
    var all := [u] + log;
    assert forall i :: 0 <= i < |log| ==> all[i + 1] == log[i];
    assert all[0] == u;
    forall id | id in InsertedIds(all) ensures id in InsertedIds(log) + ReusedBy(u) {
      var i :| 0 <= i < |all| && all[i].UndoInsert? && all[i].id == id;
      assert i > 0 ==> log[i - 1] == all[i];
    }
  }

  lemma NothingUndone(t: TableState)
    requires HeapOk(t.heap) && StoreOk(t.versions)
    ensures Restored(t, t, {})
  {
  }

  /** Rolling back never fails.  It restores every live row under its id, and
      every version chain but those of ids that were dead at BEGIN and taken by
      an undone insert: there the last version is reopened. */
  lemma {:induction false} RollbackRestores(schema: Schema, s: TableState, ops: seq<Dml>, txn: TxnId)
    requires TableOk(schema, s)
    ensures var log := Log(schema, s, ops, txn); var r := Rollback(schema, Run(schema, s, ops, txn), log);
      r.Some? && Restored(s, r.value, InsertedIds(log))
    decreases |ops|
  {
    hide TableOk, Applies, Apply, Undo, Restored, UndoOf;
    if ops == [] {
      WellFormed(schema, s);
      NothingUndone(s);
      assert InsertedIds([]) == {};
    } else if Applies(schema, s, ops[0]) {
      ApplyKeeps(schema, s, ops[0], txn);
      var s' := Apply(schema, s, ops[0], txn);
      var u, rest := UndoOf(schema, s, ops[0]), Log(schema, s', ops[1..], txn);
      RollbackRestores(schema, s', ops[1..], txn);
      RollbackSplit(schema, Run(schema, s', ops[1..], txn), u, rest);
      InsertedSplit(u, rest);
      UndoRestores(schema, s, ops[0], txn, Rollback(schema, Run(schema, s', ops[1..], txn), rest).value,
                   InsertedIds(rest));
    } else {
      RollbackRestores(schema, s, ops[1..], txn);
    }
  }

  // ----- What snapshots read after the rollback ------------------------------------------------

  /** The transaction has not written anything yet. */
  ghost predicate Newcomer(m: Store, txn: TxnId) {
    forall id, i :: id in m && 0 <= i < |m[id]| ==> m[id][i].createdBy != txn && m[id][i].deletedBy != Some(txn)
  }

  ghost predicate SameReads(m: Store, m': Store, txn: TxnId) {
    forall id, sees: Sees :: !sees(txn) ==> ReadChain(ChainOf(m', id), sees) == ReadChain(ChainOf(m, id), sees)
  }

  lemma {:induction false} AllClosedReads(c: Chain, sees: Sees)
    requires forall i :: 0 <= i < |c| ==> c[i].deletedBy.Some? && sees(c[i].deletedBy.value)
    ensures ReadChain(c, sees) == None
  {
    if c != [] {
      AllClosedReads(c[..|c| - 1], sees);
    }
  }

  /** A closed chain that is reopened shows its last row again to a reader that
      sees the whole past. */
  lemma ReopeningShows(m: Store, id: RowId, txn: TxnId)
    requires StoreOk(m) && Newcomer(m, txn) && ChainOf(m, id) != [] && !Open(ChainOf(m, id))
    ensures var sees: Sees := t => t != txn;
      && ReadChain(ChainOf(m, id), sees) == None
      && ReadChain(ClearChain(ChainOf(m, id)), sees) == Some(Last(ChainOf(m, id)).row)
  {
    var sees: Sees := t => t != txn;
    var c := ChainOf(m, id);
    forall i | 0 <= i < |c| ensures c[i].deletedBy.Some? && sees(c[i].deletedBy.value) {
      assert m[id][i].deletedBy != Some(txn);
      assert i < |c| - 1 || i == |c| - 1;
    }
    AllClosedReads(c, sees);
    assert m[id][|c| - 1].createdBy != txn;
  }

  /** After a rollback every snapshot reads what it read at BEGIN exactly when no
      undone insert took the id of a row that had been deleted before. */
  lemma RollbackReads(schema: Schema, s: TableState, ops: seq<Dml>, txn: TxnId, t: TableState)
    requires TableOk(schema, s) && Newcomer(s.versions, txn)
    requires Rollback(schema, Run(schema, s, ops, txn), Log(schema, s, ops, txn)) == Some(t)
    ensures SameReads(s.versions, t.versions, txn) <==>
      forall id :: id in InsertedIds(Log(schema, s, ops, txn)) && !IsLive(s.heap, id) ==>
        ChainOf(s.versions, id) == [] || Open(ChainOf(s.versions, id))
  {
    hide Log, Run, Rollback, InsertedIds, HeapOk, Fits, RowOk, UniqueRows;
    RollbackRestores(schema, s, ops, txn);
    var reused := InsertedIds(Log(schema, s, ops, txn));
    var quiet := forall id :: id in reused && !IsLive(s.heap, id) ==>
      ChainOf(s.versions, id) == [] || Open(ChainOf(s.versions, id));
    if quiet {
      forall id ensures ChainOf(t.versions, id) == ChainOf(s.versions, id) {
        assert ChainOf(t.versions, id) == Reopened(s.heap, s.versions, reused, id);
        assert Open(ChainOf(s.versions, id)) ==> Marked(ChainOf(s.versions, id), None) == ChainOf(s.versions, id);
      }
    } else {
      var id :| id in reused && !IsLive(s.heap, id) && ChainOf(s.versions, id) != [] && !Open(ChainOf(s.versions, id));
      ReopeningShows(s.versions, id, txn);
      var sees: Sees := t => t != txn;
      assert ChainOf(t.versions, id) == Reopened(s.heap, s.versions, reused, id);
      assert !sees(txn) && ReadChain(ChainOf(t.versions, id), sees) != ReadChain(ChainOf(s.versions, id), sees);
    }
  }

  /** A row deleted by a committed transaction is back after an insert that
      reused its id is rolled back. */
  lemma ReusedIdResurrectsRow()
    ensures
      var schema := Schema([Column(IntColumn, true)], [], _ => true);
      var s := TableState(RowStores.Heap([None], [0], 0), map[0 := [Version(1, Some(2), [Int(7)])]]);
      && TableOk(schema, s) && Newcomer(s.versions, 3)
      && var t := Rollback(schema, Run(schema, s, [InsertRow([Int(8)])], 3), Log(schema, s, [InsertRow([Int(8)])], 3));
         t.Some? && !SameReads(s.versions, t.value.versions, 3)
  {
    var schema := Schema([Column(IntColumn, true)], [], _ => true);
    var s := TableState(RowStores.Heap([None], [0], 0), map[0 := [Version(1, Some(2), [Int(7)])]]);
    var ops := [InsertRow([Int(8)])];
    assert HeapOk(s.heap) by {
      assert s.heap.slots[..0] == [];
    }
    assert TableOk(schema, s);
    assert Applies(schema, s, ops[0]);
    RollbackRestores(schema, s, ops, 3);
    var log := Log(schema, s, ops, 3);
    assert log[0] == UndoInsert(0);
    assert 0 in InsertedIds(log) && !IsLive(s.heap, 0);
    assert ChainOf(s.versions, 0) != [] && !Open(ChainOf(s.versions, 0));
    RollbackReads(schema, s, ops, 3, Rollback(schema, Run(schema, s, ops, 3), log).value);
  }

  /** What a rollback restores is again a table that meets its constraints. */
  lemma RestoredOk(schema: Schema, s: TableState, t: TableState, reused: set<RowId>)
    requires TableOk(schema, s) && Restored(s, t, reused)
    ensures TableOk(schema, t)
  {
    hide HeapOk, StoreOk, RowOk, Collide, Open, ClearChain;
    forall id ensures IsLive(t.heap, id) <==> IsLive(s.heap, id)
      ensures IsLive(t.heap, id) ==> t.heap.slots[id] == s.heap.slots[id] && Headed(t, id)
    {
      assert Get(t.heap, id) == Get(s.heap, id);
      assert Headed(s, id);
      assert ChainOf(t.versions, id) == Reopened(s.heap, s.versions, reused, id);
    }
  }

  lemma WellFormed(schema: Schema, s: TableState)
    requires TableOk(schema, s)
    ensures HeapOk(s.heap) && StoreOk(s.versions)
  {
  }

  lemma UndoRestores(schema: Schema, s: TableState, op: Dml, txn: TxnId, t: TableState, reused: set<RowId>)
    requires TableOk(schema, s) && Applies(schema, s, op)
    requires Restored(Apply(schema, s, op, txn), t, reused)
    ensures var u := UndoOf(schema, s, op); var r := Undo(schema, t, u);
      r.Some? && Restored(s, r.value, reused + ReusedBy(u))
  {
    hide TableOk, Applies, Apply, Undo, SameRows, SameChains;
    UndoHeap(schema, s, op, txn, t);
    UndoChains(schema, s, op, txn, t, reused);
  }
}
