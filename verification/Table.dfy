/** A table in memory: heap, version chains and indexes changed together, with
    the compensating operations of rollback. */
module Tables {
  import opened Values
  import opened LikePatterns
  import opened Serializability
  import opened RowStores
  import opened Versions
  import opened UndoLogs

  type Heap = RowStores.Heap<Row>

  // ----- Index keys -------------------------------------------------------------

  /** A column list, or the trigrams of one text column. */
  datatype IndexDef = OnColumns(columns: seq<nat>) | OnTrigrams(column: nat)

  function Parts(columns: seq<nat>, row: Row): seq<Value> {
    seq(|columns|, i requires 0 <= i < |columns| => Cell(row, columns[i]))
  }

  /** A single column is its own key; several columns make a composite key. */
  function KeyFor(columns: seq<nat>, row: Row): Value {
    if |columns| == 1 then Cell(row, columns[0]) else Composite(Parts(columns, row))
  }

  function KeysFor(def: IndexDef, row: Row): seq<Value> {
    match def
    case OnColumns(columns) => [KeyFor(columns, row)]
    case OnTrigrams(column) =>
      var v := Cell(row, column);
      if v.Str? then seq(|Grams(v.s)|, i requires 0 <= i < |Grams(v.s)| => Str(Grams(v.s)[i])) else []
  }

  type Postings = map<Value, seq<RowId>>

  function Find(p: Postings, key: Value): seq<RowId> {
    if key in p then p[key] else []
  }

  /** How often an id is listed under a key. */
  ghost function Listed(p: Postings, key: Value, id: RowId): nat {
    multiset(Find(p, key))[id]
  }

  /** How often a row carries a key: a text can have the same gram in several places. */
  ghost function Carries(def: IndexDef, h: Heap, id: RowId, key: Value): nat {
    if IsLive(h, id) then multiset(KeysFor(def, h.slots[id].value))[key] else 0
  }

  /** The index lists exactly the live rows below `limit`, under their keys. */
  ghost predicate AgreesTo(def: IndexDef, p: Postings, h: Heap, limit: int) {
    forall key, id :: Listed(p, key, id) == if id < limit then Carries(def, h, id, key) else 0
  }

  /** The index lists exactly the live rows, under each key as often as they carry it. */
  ghost predicate Agrees(def: IndexDef, p: Postings, h: Heap) {
    forall key, id :: Listed(p, key, id) == Carries(def, h, id, key)
  }

  /** Two indexes that agree with the same live rows hold the same postings. */
  lemma SamePostings(def: IndexDef, p: Postings, h: Heap, p': Postings, h': Heap)
    requires Agrees(def, p, h) && Agrees(def, p', h') && SameRows(h, h')
    ensures forall key, id :: Listed(p, key, id) == Listed(p', key, id)
  {
    hide KeysFor, Listed;
    forall key, id ensures Listed(p, key, id) == Listed(p', key, id) {
      assert Get(h', id) == Get(h, id);
      assert Carries(def, h, id, key) == Carries(def, h', id, key);
    }
  }

  ghost predicate Adds(p: Postings, keys: seq<Value>, rowId: RowId, r: Postings) {
    forall key, id :: Listed(r, key, id) == Listed(p, key, id) + if id == rowId then multiset(keys)[key] else 0
  }

  method AddKeys(p: Postings, keys: seq<Value>, rowId: RowId) returns (r: Postings)
    ensures Adds(p, keys, rowId, r)
  {
    hide Adds;
    r := p;
    NothingAdded(p, rowId);
    for i := 0 to |keys|
      invariant Adds(p, keys[..i], rowId, r)
    {
      assert keys[..i + 1] == keys[..i] + [keys[i]];
      AddsOne(p, keys[..i], rowId, r, keys[i]);
      r := r[keys[i] := Find(r, keys[i]) + [rowId]];
    }
    assert keys[..|keys|] == keys;
  }

  lemma NothingAdded(p: Postings, rowId: RowId)
    ensures Adds(p, [], rowId, p)
  {
  }

  lemma CountAppend<T>(s: seq<T>, y: T, x: T)
    ensures multiset(s + [y])[x] == multiset(s)[x] + if x == y then 1 else 0
  {
  }

  lemma ListedAppend(r: Postings, key: Value, rowId: RowId, k: Value, id: RowId)
    ensures Listed(r[key := Find(r, key) + [rowId]], k, id) ==
      Listed(r, k, id) + if k == key && id == rowId then 1 else 0
  {
    CountAppend(Find(r, key), rowId, id);
  }

  lemma AddsOne(p: Postings, keys: seq<Value>, rowId: RowId, r: Postings, key: Value)
    requires Adds(p, keys, rowId, r)
    ensures Adds(p, keys + [key], rowId, r[key := Find(r, key) + [rowId]])
  {
    hide Listed, Find;
    var q := r[key := Find(r, key) + [rowId]];
    forall k, id ensures Listed(q, k, id) == Listed(p, k, id) + if id == rowId then multiset(keys + [key])[k] else 0 {
      ListedAppend(r, key, rowId, k, id);
      CountAppend(keys, key, k);
    }
  }

  lemma AgreesPut(def: IndexDef, p: Postings, q: Postings, h: Heap, h': Heap, id: RowId)
    requires Agrees(def, p, h) && IsLive(h', id) && !IsLive(h, id) && |h'.slots| >= |h.slots|
    requires forall other :: other != id ==> Get(h', other) == Get(h, other)
    requires Adds(p, KeysFor(def, h'.slots[id].value), id, q)
    ensures Agrees(def, q, h')
  {
    hide KeysFor, Listed;
    forall key, x ensures Listed(q, key, x) == Carries(def, h', x, key) {
      assert x != id ==> Get(h', x) == Get(h, x);
      assert Listed(p, key, x) == Carries(def, h, x, key);
    }
  }

  lemma AgreesNext(def: IndexDef, p: Postings, q: Postings, h: Heap, id: RowId)
    requires InHeap(h, id) && AgreesTo(def, p, h, id)
    requires if h.slots[id].Some? then Adds(p, KeysFor(def, h.slots[id].value), id, q) else q == p
    ensures AgreesTo(def, q, h, id + 1)
  {
    hide KeysFor, Listed;
  }

  lemma NothingListed(def: IndexDef, h: Heap)
    ensures AgreesTo(def, map[], h, 0)
  {
  }

  lemma AllListed(def: IndexDef, p: Postings, h: Heap)
    requires AgreesTo(def, p, h, |h.slots|)
    ensures Agrees(def, p, h)
  {
    hide KeysFor, Listed;
  }

  // ----- Unique keys ---------------------------------------------------------------

  predicate HasNull(columns: seq<nat>, row: Row) {
    exists i :: 0 <= i < |columns| && Cell(row, columns[i]).Null?
  }

  /** Without NULL parts, equal keys and equal columns are the same thing, so the
      index probe and the scan of the heap find the same violations. */
  lemma KeyDecides(columns: seq<nat>, a: Row, b: Row)
    requires !HasNull(columns, a)
    ensures SameKey(columns, a, b) <==> KeyFor(columns, a) == KeyFor(columns, b)
  {
    if |columns| != 1 {
      assert SameKey(columns, a, b) ==> Parts(columns, a) == Parts(columns, b);
      if Parts(columns, a) == Parts(columns, b) {
        forall i | 0 <= i < |columns| ensures Cell(a, columns[i]) == Cell(b, columns[i]) {
          assert Parts(columns, a)[i] == Parts(columns, b)[i];
        }
      }
    }
  }

  class Table {
    const schema: Schema
    const defs: map<string, IndexDef>
    var heap: Heap
    var versions: Store
    var indexes: map<string, Postings>

    ghost function View(): TableState
      reads this
    {
      TableState(heap, versions)
    }

    ghost predicate Indexed(names: set<string>)
      reads this
    {
      && indexes.Keys == defs.Keys
      && forall name :: name in names && name in defs && name in indexes ==> Agrees(defs[name], indexes[name], heap)
    }

    /** Layout and indexes are in order; every operation keeps this. */
    ghost predicate Structured()
      reads this
    {
      HeapOk(heap) && StoreOk(versions) && Indexed(defs.Keys)
    }

    /** In addition every live row satisfies the constraints and heads its chain. */
    ghost predicate Valid()
      reads this
    {
      Structured() && TableOk(schema, View())
    }

    constructor (schema: Schema, defs: map<string, IndexDef>)
      ensures Valid() && View() == TableState(Empty(), map[]) && this.schema == schema && this.defs == defs
    {
      this.schema, this.defs := schema, defs;
      heap, versions := Empty(), map[];
      indexes := map name | name in defs :: map[];
    }

    method AddRowToIndexes(rowId: RowId, ghost before: Heap)
      requires HeapOk(heap) && IsLive(heap, rowId) && !IsLive(before, rowId) && |heap.slots| >= |before.slots|
      requires forall other :: other != rowId ==> Get(heap, other) == Get(before, other)
      requires indexes.Keys == defs.Keys
      requires forall name :: name in defs && name in indexes ==> Agrees(defs[name], indexes[name], before)
      modifies this`indexes
      ensures Indexed(defs.Keys)
    {
      hide HeapOk, Agrees, KeysFor;
      var rest := defs.Keys;
      while rest != {}
        invariant rest <= defs.Keys && indexes.Keys == defs.Keys
        invariant forall name :: name in rest && name in indexes ==> Agrees(defs[name], indexes[name], before)
        invariant forall name ::
          name in defs && name !in rest && name in indexes ==> Agrees(defs[name], indexes[name], heap)
        decreases |rest|
      {
        var name := Pick(rest);
        rest := rest - {name};
        var p := AddKeys(indexes[name], KeysFor(defs[name], heap.slots[rowId].value), rowId);
        AgreesPut(defs[name], indexes[name], p, before, heap, rowId);
        indexes := indexes[name := p];
      }
    }

    method BuildIndex(def: IndexDef) returns (p: Postings)
      ensures Agrees(def, p, heap)
    {
      hide Agrees, AgreesTo, KeysFor;
      p := map[];
      NothingListed(def, heap);
      for rowId := 0 to |heap.slots|
        invariant AgreesTo(def, p, heap, rowId)
      {
        var q := p;
        if heap.slots[rowId].Some? {
          q := AddKeys(p, KeysFor(def, heap.slots[rowId].value), rowId);
        }
        AgreesNext(def, p, q, heap, rowId);
        p := q;
      }
      AllListed(def, p, heap);
    }

    method RebuildIndexes()
      requires indexes.Keys == defs.Keys
      modifies this`indexes
      ensures Indexed(defs.Keys)
    {
      hide Agrees;
      var rest := defs.Keys;
      while rest != {}
        invariant rest <= defs.Keys && indexes.Keys == defs.Keys
        invariant forall name ::
          name in defs && name !in rest && name in indexes ==> Agrees(defs[name], indexes[name], heap)
        decreases |rest|
      {
        var name := Pick(rest);
        rest := rest - {name};
        var p := BuildIndex(defs[name]);
        indexes := indexes[name := p];
      }
    }

    /** `enforceUniqueConstraints`: by the index on exactly the constraint's
        columns if there is one, by scanning the heap otherwise. */
    method EnforceUnique(row: Row, exclude: Option<RowId>) returns (ok: bool)
      requires Structured()
      ensures ok <==> Fits(schema, heap, row, exclude)
    {
      hide HeapOk, Agrees, KeyFor;
      for u := 0 to |schema.uniques|
        invariant forall v :: 0 <= v < u ==> FitsKey(schema.uniques[v], heap, row, exclude)
      {
        var columns := schema.uniques[u];
        ok := EnforceKey(columns, row, exclude);
        if !ok {
          FitsEach(schema, heap, row, exclude);
          return false;
        }
      }
      FitsEach(schema, heap, row, exclude);
      return true;
    }

    method EnforceKey(columns: seq<nat>, row: Row, exclude: Option<RowId>) returns (ok: bool)
      requires Structured()
      ensures ok <==> FitsKey(columns, heap, row, exclude)
    {
      hide HeapOk, KeyFor, SameKey;
      if HasNull(columns, row) {
        NullsFit(columns, heap, row, exclude);
        return true;
      }
      var key := KeyFor(columns, row);
      var rest := defs.Keys;
      while rest != {}
        invariant rest <= defs.Keys
        decreases |rest|
      {
        var name := Pick(rest);
        rest := rest - {name};
        if defs[name] == OnColumns(columns) {
          var hits := Find(indexes[name], key);
          ok := forall i :: 0 <= i < |hits| ==> Some(hits[i]) == exclude;
          ProbeDecides(columns, indexes[name], heap, row, exclude);
          return;
        }
      }
      for id := 0 to |heap.slots|
        invariant forall other :: 0 <= other < id && IsLive(heap, other) && Some(other) != exclude ==>
          !SameKey(columns, row, heap.slots[other].value)
      {
        if heap.slots[id].Some? && Some(id) != exclude && SameKey(columns, row, heap.slots[id].value) {
          return false;
        }
      }
      return true;
    }

    // ----- Statements -----------------------------------------------------------------

    /** None when a constraint rejects the row. */
    method Insert(row: Row, writerId: TxnId) returns (rowId: Option<RowId>)
      requires Valid()
      modifies this
      ensures Valid()
      ensures rowId == (if Applies(schema, old(View()), InsertRow(row)) then Some(NextId(old(heap))) else None)
      ensures View() == if rowId.Some? then Apply(schema, old(View()), InsertRow(row), writerId) else old(View())
    {
      hide HeapOk, StoreOk, Agrees, Fits, Written, Headed, UniqueRows, RowOk;
      if !RowOk(schema, row) {
        return None;
      }
      var fits := EnforceUnique(row, None);
      if !fits {
        return None;
      }
      ghost var was := View();
      ApplyEffect(schema, was, InsertRow(row), writerId);
      ApplyKeeps(schema, was, InsertRow(row), writerId);
      AppendKeeps(heap, row);
      var id := NextId(heap);
      heap := Appended(heap, row);
      versions := Written(versions, id, row, writerId);
      AddRowToIndexes(id, was.heap);
      return Some(id);
    }

    method Erase(rowId: RowId, writerId: TxnId) returns (ok: bool)
      requires Valid()
      modifies this
      ensures Valid() && ok == Applies(schema, old(View()), DeleteRow(rowId))
      ensures View() == if ok then Apply(schema, old(View()), DeleteRow(rowId), writerId) else old(View())
    {
      hide HeapOk, StoreOk, Agrees, Closed, Headed, UniqueRows, RowOk;
      if !IsLive(heap, rowId) {
        return false;
      }
      ApplyEffect(schema, View(), DeleteRow(rowId), writerId);
      ApplyKeeps(schema, View(), DeleteRow(rowId), writerId);
      versions := Closed(versions, rowId, writerId);
      heap := Erased(heap, rowId);
      RebuildIndexes();
      return true;
    }

    /** False when there is no such row or column, or a constraint rejects the value. */
    method Update(rowId: RowId, column: nat, value: Value, writerId: TxnId) returns (ok: bool)
      requires Valid()
      modifies this
      ensures Valid() && ok == Applies(schema, old(View()), UpdateCell(rowId, column, value))
      ensures View() ==
        if ok then Apply(schema, old(View()), UpdateCell(rowId, column, value), writerId) else old(View())
    {
      hide HeapOk, StoreOk, Agrees, Fits, Written, Headed, UniqueRows;
      if !IsLive(heap, rowId) || column >= |schema.columns| {
        return false;
      }
      if !CellOk(schema.columns[column], value) {
        return false;
      }
      assert RowOk(schema, heap.slots[rowId].value);
      var row := heap.slots[rowId].value[column := value];
      if !schema.check(row) {
        return false;
      }
      var fits := EnforceUnique(row, Some(rowId));
      if !fits {
        return false;
      }
      ApplyEffect(schema, View(), UpdateCell(rowId, column, value), writerId);
      ApplyKeeps(schema, View(), UpdateCell(rowId, column, value), writerId);
      heap := Updated(heap, rowId, row);
      versions := Written(versions, rowId, row, writerId);
      RebuildIndexes();
      return true;
    }

    // ----- Compensation -----------------------------------------------------------------

    method EraseDiscardingVersion(rowId: RowId) returns (ok: bool)
      requires Structured()
      modifies this
      ensures Structured() && ok == Undo(schema, old(View()), UndoInsert(rowId)).Some?
      ensures View() == if ok then Undo(schema, old(View()), UndoInsert(rowId)).value else old(View())
    {
      hide HeapOk, StoreOk, Agrees, Popped;
      if !IsLive(heap, rowId) {
        return false;
      }
      EraseKeeps(heap, rowId);
      PoppedIs(versions, rowId);
      heap := Erased(heap, rowId);
      versions := Popped(versions, rowId);
      RebuildIndexes();
      return true;
    }

    method ReplaceRow(rowId: RowId, row: Row) returns (ok: bool)
      requires Structured()
      modifies this
      ensures Structured() && ok == Undo(schema, old(View()), UndoUpdate(rowId, row)).Some?
      ensures View() == if ok then Undo(schema, old(View()), UndoUpdate(rowId, row)).value else old(View())
    {
      hide HeapOk, StoreOk, Agrees, Popped, Fits, RowOk;
      if !RowOk(schema, row) || !IsLive(heap, rowId) {
        return false;
      }
      var fits := EnforceUnique(row, Some(rowId));
      if !fits {
        return false;
      }
      UpdateKeeps(heap, rowId, row);
      PoppedIs(versions, rowId);
      heap := Updated(heap, rowId, row);
      versions := Popped(versions, rowId);
      RebuildIndexes();
      return true;
    }

    method Revive(rowId: RowId, row: Row) returns (ok: bool)
      requires Structured()
      modifies this
      ensures Structured() && ok == Undo(schema, old(View()), UndoDelete(rowId, row)).Some?
      ensures View() == if ok then Undo(schema, old(View()), UndoDelete(rowId, row)).value else old(View())
    {
      hide HeapOk, StoreOk, Agrees, Cleared, Fits, RowOk;
      if !RowOk(schema, row) {
        return false;
      }
      var fits := EnforceUnique(row, Some(rowId));
      if !fits || !Revivable(heap, rowId) {
        return false;
      }
      ReviveKeeps(heap, rowId, row);
      ClearedIs(versions, rowId);
      heap := Revived(heap, rowId, row);
      versions := Cleared(versions, rowId);
      RebuildIndexes();
      return true;
    }
  }

  method Perform(t: Table, op: Dml, txn: TxnId) returns (u: Option<UndoRecord>)
    requires t.Valid()
    modifies t
    ensures t.Valid()
    ensures u == if Applies(t.schema, old(t.View()), op) then Some(UndoOf(t.schema, old(t.View()), op)) else None
    ensures t.View() == if u.Some? then Apply(t.schema, old(t.View()), op, txn) else old(t.View())
  {
    hide Applies, Apply, TableOk;
    match op {
      case InsertRow(row) =>
        var id := t.Insert(row, txn);
        u := if id.Some? then Some(UndoInsert(id.value)) else None;
      case UpdateCell(id, column, value) =>
        var before := Get(t.heap, id);
        var ok := t.Update(id, column, value, txn);
        UpdateNeedsRow(t.schema, old(t.View()), op);
        u := if ok then Some(UndoUpdate(id, before.value)) else None;
      case DeleteRow(id) =>
        var before := Get(t.heap, id);
        var ok := t.Erase(id, txn);
        UpdateNeedsRow(t.schema, old(t.View()), op);
        u := if ok then Some(UndoDelete(id, before.value)) else None;
    }
  }

  lemma UpdateNeedsRow(schema: Schema, t: TableState, op: Dml)
    requires !op.InsertRow?
    ensures Applies(schema, t, op) ==> IsLive(t.heap, op.id)
  {
  }

  method Compensate(t: Table, u: UndoRecord) returns (ok: bool)
    requires t.Structured()
    modifies t
    ensures t.Structured() && ok == Undo(t.schema, old(t.View()), u).Some?
    ensures ok ==> t.View() == Undo(t.schema, old(t.View()), u).value
  {
    hide Undo;
    match u {
      case UndoInsert(id) => ok := t.EraseDiscardingVersion(id);
      case UndoUpdate(id, before) => ok := t.ReplaceRow(id, before);
      case UndoDelete(id, before) => ok := t.Revive(id, before);
    }
  }

  /** BEGIN, any statements, ROLLBACK: no undo fails, the table is valid again, and the
      rows, their ids and the contents of every index are back.  What snapshots read is
      back too, unless an undone insert took the id of a row deleted before. */
  method BeginRunRollback(t: Table, ops: seq<Dml>, txn: TxnId) returns (ok: bool)
    requires t.Valid()
    modifies t
    ensures ok && t.Valid()
    ensures Restored(old(t.View()), t.View(), InsertedIds(Log(t.schema, old(t.View()), ops, txn)))
    ensures Newcomer(old(t.versions), txn) ==>
      (SameReads(old(t.versions), t.versions, txn) <==>
       forall id :: id in InsertedIds(Log(t.schema, old(t.View()), ops, txn)) && !IsLive(old(t.heap), id) ==>
         ChainOf(old(t.versions), id) == [] || Open(ChainOf(old(t.versions), id)))
    ensures forall name, key, id :: name in t.indexes && name in old(t.indexes) ==>
      Listed(t.indexes[name], key, id) == Listed(old(t.indexes)[name], key, id)
  {
    hide Applies, Apply, Undo, TableOk, Agrees, HeapOk, StoreOk, UndoOf, Listed, Newcomer, SameReads, Open;
    ghost var s := t.View();
    var log: seq<UndoRecord> := [];
    assert ops[0..] == ops;
    for i := 0 to |ops|
      invariant t.Valid()
      invariant Run(t.schema, t.View(), ops[i..], txn) == Run(t.schema, s, ops, txn)
      invariant log + Log(t.schema, t.View(), ops[i..], txn) == Log(t.schema, s, ops, txn)
    {
      assert ops[i..][0] == ops[i] && ops[i..][1..] == ops[i + 1..];
      var u := Perform(t, ops[i], txn);
      if u.Some? {
        log := log + [u.value];
      }
    }
    assert ops[|ops|..] == [];
    assert log == Log(t.schema, s, ops, txn);
    RollbackRestores(t.schema, s, ops, txn);
    ghost var r := Rollback(t.schema, t.View(), log).value;
    while log != []
      invariant t.Structured() && Rollback(t.schema, t.View(), log) == Some(r)
      decreases |log|
    {
      ok := Compensate(t, log[|log| - 1]);
      log := log[..|log| - 1];
    }
    ok := true;
    RestoredOk(t.schema, s, t.View(), InsertedIds(Log(t.schema, s, ops, txn)));
    if Newcomer(s.versions, txn) {
      RollbackReads(t.schema, s, ops, txn, t.View());
    }
    forall name | name in t.indexes && name in old(t.indexes)
      ensures forall key, id :: Listed(t.indexes[name], key, id) == Listed(old(t.indexes)[name], key, id)
    {
      SamePostings(t.defs[name], old(t.indexes)[name], s.heap, t.indexes[name], t.heap);
    }
  }

  /** No other live row has the row's key on these columns. */
  ghost predicate FitsKey(columns: seq<nat>, h: Heap, row: Row, exclude: Option<RowId>) {
    forall id :: IsLive(h, id) && Some(id) != exclude ==> !SameKey(columns, row, h.slots[id].value)
  }

  lemma FitsEach(schema: Schema, h: Heap, row: Row, exclude: Option<RowId>)
    ensures Fits(schema, h, row, exclude) <==>
      forall u :: 0 <= u < |schema.uniques| ==> FitsKey(schema.uniques[u], h, row, exclude)
  {
    hide SameKey;
    if !Fits(schema, h, row, exclude) {
      var id :| IsLive(h, id) && Some(id) != exclude && Collide(schema, row, h.slots[id].value);
      var u :| 0 <= u < |schema.uniques| && SameKey(schema.uniques[u], row, h.slots[id].value);
      assert !FitsKey(schema.uniques[u], h, row, exclude);
    }
  }

  lemma NullsFit(columns: seq<nat>, h: Heap, row: Row, exclude: Option<RowId>)
    requires HasNull(columns, row)
    ensures FitsKey(columns, h, row, exclude)
  {
  }

  lemma ProbeDecides(columns: seq<nat>, p: Postings, h: Heap, row: Row, exclude: Option<RowId>)
    requires Agrees(OnColumns(columns), p, h) && !HasNull(columns, row)
    ensures FitsKey(columns, h, row, exclude) <==>
      forall i :: 0 <= i < |Find(p, KeyFor(columns, row))| ==> Some(Find(p, KeyFor(columns, row))[i]) == exclude
  {
    hide KeyFor, SameKey, HasNull;
    var key := KeyFor(columns, row);
    var hits := Find(p, key);
    forall id ensures id in hits <==> IsLive(h, id) && SameKey(columns, row, h.slots[id].value) {
      assert id in multiset(hits) <==> id in hits;
      assert Listed(p, key, id) == Carries(OnColumns(columns), h, id, key);
      if IsLive(h, id) {
        KeyDecides(columns, row, h.slots[id].value);
        var other := KeyFor(columns, h.slots[id].value);
        assert multiset([other])[key] == if other == key then 1 else 0;
      }
    }
    if FitsKey(columns, h, row, exclude) {
      forall i | 0 <= i < |hits| ensures Some(hits[i]) == exclude {
        var id := hits[i];
        assert id in hits;
        assert IsLive(h, id) && SameKey(columns, row, h.slots[id].value);
      }
    } else {
      var id :| IsLive(h, id) && Some(id) != exclude && SameKey(columns, row, h.slots[id].value);
      var i :| 0 <= i < |hits| && hits[i] == id;
    }
  }
}
