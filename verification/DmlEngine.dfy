/** The engine that runs DELETE: the recursion that changes tables and the two
    sets of row keys in place. */
module DmlEngines {
  import opened Values
  import opened UndoLogs
  import opened Tables
  import opened Referential
  import opened Cascades
  import opened DeleteResults
  import opened DeleteFaults

  class DmlEngine {
    const db: Database
    const inTransaction: bool
    var rows: Rows
    var visiting: set<Ref>
    var deleted: set<Ref>

    ghost function View(): State
      reads this
    {
      State(rows, visiting, deleted)
    }

    constructor (db: Database, inTransaction: bool, rows: Rows)
      ensures this.db == db && this.inTransaction == inTransaction && View() == State(rows, {}, {})
    {
      this.db := db;
      this.inTransaction := inTransaction;
      this.rows := rows;
      visiting := {};
      deleted := {};
    }

    method CollectReferencingChildren(table: int, row: Row) returns (hits: seq<Hit>)
      ensures hits == Collect(db, rows, table, row, |db.keys|)
    {
      hits := [];
      for k := 0 to |db.keys|
        invariant hits == Collect(db, rows, table, row, k)
      {
        var key := db.keys[k];
        if key.parent != table || HasNull(key.parentColumns, row) {
          continue;
        }
        ghost var before := hits;
        for id := 0 to Capacity(db, key.child)
          invariant hits == before + Matching(key, rows, row, id)
        {
          var r := Ref(key.child, id);
          if r in rows && Refers(key, rows[r], row) {
            hits := hits + [Hit(r, key, rows[r])];
          }
        }
      }
    }

    /** `Table::update` on each child column; false stands for its exception. */
    method SetColumnsNull(ref: Ref, columns: seq<nat>) returns (ok: bool)
      modifies this`rows
      ensures (rows, ok) == NullColumns(SchemaOf(db, ref.table), old(rows), ref, columns)
    {
      hide FitsAt;
      var schema := SchemaOf(db, ref.table);
      for i := 0 to |columns|
        invariant NullColumns(schema, rows, ref, columns[i..]) == NullColumns(schema, old(rows), ref, columns)
      {
        assert columns[i..][1..] == columns[i + 1..];
        if ref in rows && columns[i] < |schema.columns| {
          var row := Blank(rows[ref], columns[i]);
          if !schema.columns[columns[i]].nullable || !schema.check(row) || !FitsAt(schema, rows, ref, row) {
            return false;
          }
          rows := rows[ref := row];
        }
      }
      return true;
    }

    method SetChildrenNull(before: Rows, hits: seq<Hit>) returns (fault: Option<Fault>)
      modifies this`rows
      ensures Outcome(View(), fault) == NullAll(db, inTransaction, before, old(View()), hits)
    {
      hide ImageAccepted, NullColumns;
      for i := 0 to |hits|
        invariant NullAll(db, inTransaction, before, View(), hits[i..]) ==
          NullAll(db, inTransaction, before, old(View()), hits)
      {
        assert hits[i..][1..] == hits[i + 1..];
        var hit := hits[i];
        if hit.key.onDelete == SetNull && hit.ref !in deleted {
          var seen := if inTransaction then rows else before;
          if !ImageAccepted(db, seen, rows, hit.ref, BlankAll(hit.row, hit.key.childColumns)) {
            return Some(Rejected);
          }
          var ok := SetColumnsNull(hit.ref, hit.key.childColumns);
          if !ok {
            return Some(Rejected);
          }
        }
      }
      return None;
    }

    /** `eraseRowWithReferentialActions`: `None` is a normal return. */
    method EraseRowWithReferentialActions(ref: Ref, row: Row, depth: int) returns (fault: Option<Fault>)
      modifies this
      ensures Outcome(View(), fault) == EraseRow(db, inTransaction, old(View()), ref, row, depth)
      decreases MAX_DEPTH + 1 - depth
    {
      hide Collect, NullAll;
      if depth > MAX_DEPTH {
        return Some(DepthExceeded);
      }
      if ref in deleted || ref in visiting {
        return None;
      }
      visiting := visiting + {ref};
      var before := rows;
      ghost var entered := View();
      var hits := CollectReferencingChildren(ref.table, row);
      for i := 0 to |hits|
        invariant forall j :: 0 <= j < i ==> hits[j].key.onDelete != NoAction
        invariant View() == entered
      {
        if hits[i].key.onDelete == NoAction {
          return Some(StillReferenced);
        }
      }
      assert !AnyNoAction(hits);
      for i := 0 to |hits|
        invariant CascadeAll(db, inTransaction, View(), hits[i..], depth) ==
          CascadeAll(db, inTransaction, entered, hits, depth)
      {
        assert hits[i..][1..] == hits[i + 1..];
        if hits[i].key.onDelete == Cascade {
          fault := EraseRowWithReferentialActions(hits[i].ref, hits[i].row, depth + 1);
          if fault.Some? {
            return;
          }
        }
      }
      fault := SetChildrenNull(before, hits);
      if fault.Some? {
        return;
      }
      if ref !in deleted && ref in rows {
        rows := rows - {ref};
        deleted := deleted + {ref};
      }
      visiting := visiting - {ref};
      return None;
    }

    /** DELETE of the rows that a scan found.  No foreign key dangles whose referenced
        columns no SET NULL action writes, on a normal return and, unless CASCADE runs
        in a cycle, after an exception too; and every exception has its reason. */
    method ExecuteDelete(targets: seq<Ref>) returns (fault: Option<Fault>)
      requires DatabaseOk(db) && InRange(db, rows) && Consistent(db, rows) && visiting == {} && deleted == {}
      requires Found(rows, targets)
      modifies this
      ensures Outcome(View(), fault) == Delete(db, inTransaction, old(rows), targets)
      ensures fault.None? ==> Consistent(db, rows) && CleanDelete(db, old(rows), rows, deleted) && visiting == {}
      ensures fault.None? ==> forall i :: 0 <= i < |targets| ==> targets[i] in deleted
      ensures fault.None? && Tidy(db, old(rows)) ==> rows == Remaining(db, old(rows), Doomed(db, old(rows), targets))
      ensures !CascadeCycle(db, old(rows), targets) ==> Consistent(db, rows)
      ensures Sound(db, old(rows)) ==>
        var gone := Doomed(db, old(rows), targets);
        && (fault == Some(StillReferenced) ==> NoActionInto(db, old(rows), gone))
        && (fault == Some(Rejected) ==> !NullsAccepted(db, inTransaction, old(rows), gone))
        && (fault == Some(DepthExceeded) ==> |gone| >= MAX_DEPTH)
    {
      hide EraseRow, Tidy, Remaining, Doomed, CascadeCycle, Consistent, CleanDelete, InRange, DatabaseOk;
      hide Sound, NoActionInto, NullsAccepted;
      var first := rows;
      if Sound(db, first) {
        FaultsAreReasoned(db, inTransaction, first, targets);
      }
      if !CascadeCycle(db, first, targets) {
        ThrownDeleteIsConsistent(db, inTransaction, first, targets);
      }
      for i := 0 to |targets|
        invariant DeleteAll(db, inTransaction, first, View(), targets[i..]) == Delete(db, inTransaction, first, targets)
      {
        assert targets[i..][1..] == targets[i + 1..];
        if targets[i] !in deleted {
          fault := EraseRowWithReferentialActions(targets[i], first[targets[i]], 1);
          if fault.Some? {
            return;
          }
        }
      }
      DeleteLeavesNoDanglingKey(db, inTransaction, first, targets);
      if Tidy(db, first) {
        DeleteIsExactly(db, inTransaction, first, targets);
      }
      return None;
    }
  }
}
