/** DELETE with referential actions: the recursive cascade of `eraseRow`, and
    what a DELETE that returns normally leaves behind. */
module Referential {
  import opened Values
  import opened UndoLogs
  import opened Tables

  const MAX_DEPTH: int := 64

  datatype Action = NoAction | Cascade | SetNull

  datatype ForeignKey =
    ForeignKey(child: int, childColumns: seq<nat>, parent: int, parentColumns: seq<nat>, onDelete: Action)

  /** The tables in catalog order, their foreign keys in that order, and the
      number of row ids each table has handed out. */
  datatype Database = Database(schemas: seq<Schema>, keys: seq<ForeignKey>, capacity: seq<nat>)

  datatype Ref = Ref(table: int, id: RowId)

  /** The rows that the deleting session sees. */
  type Rows = map<Ref, Row>

  /** One column of each table, by position. */
  ghost predicate ColumnsOk(db: Database, key: ForeignKey, child: nat, parent: nat)
    requires 0 <= key.child < |db.schemas| && 0 <= key.parent < |db.schemas|
  {
    && child < |db.schemas[key.child].columns| && parent < |db.schemas[key.parent].columns|
    && db.schemas[key.child].columns[child].kind == db.schemas[key.parent].columns[parent].kind
    && (key.onDelete == SetNull ==> db.schemas[key.child].columns[child].nullable)
  }

  /** What `validateForeignKeyDefinitions` demands: as many child as parent columns
      and at least one, of the same types, nullable where SET NULL writes them, and
      parent columns that are exactly a unique key. */
  ghost predicate KeyOk(db: Database, key: ForeignKey) {
    && 0 <= key.child < |db.schemas| && 0 <= key.parent < |db.schemas|
    && |key.childColumns| == |key.parentColumns| >= 1
    && (forall i :: 0 <= i < |key.childColumns| ==> ColumnsOk(db, key, key.childColumns[i], key.parentColumns[i]))
    && key.parentColumns in db.schemas[key.parent].uniques
  }

  ghost predicate DatabaseOk(db: Database) {
    && |db.capacity| == |db.schemas|
    && forall k :: 0 <= k < |db.keys| ==> KeyOk(db, db.keys[k])
  }

  ghost predicate InRange(db: Database, rows: Rows) {
    forall r :: r in rows ==> 0 <= r.table < |db.capacity| && 0 <= r.id < db.capacity[r.table]
  }

  function SchemaOf(db: Database, table: int): Schema {
    if 0 <= table < |db.schemas| then db.schemas[table] else Schema([], [], _ => true)
  }

  /** MATCH SIMPLE: a key with a NULL part refers to nothing. */
  predicate Refers(key: ForeignKey, child: Row, parent: Row) {
    !HasNull(key.childColumns, child) && Parts(key.childColumns, child) == Parts(key.parentColumns, parent)
  }

  predicate Covered(key: ForeignKey, rows: Rows, row: Row) {
    HasNull(key.childColumns, row) || exists p :: p in rows && p.table == key.parent && Refers(key, row, rows[p])
  }

  /** No row of the child table dangles. */
  ghost predicate NoneDangle(key: ForeignKey, rows: Rows) {
    forall r :: r in rows && r.table == key.child ==> Covered(key, rows, rows[r])
  }

  // ----- Referencing children ----------------------------------------------------

  datatype Hit = Hit(ref: Ref, key: ForeignKey, row: Row)

  function Matching(key: ForeignKey, rows: Rows, row: Row, n: nat): seq<Hit> {
    if n == 0 then []
    else
      var r := Ref(key.child, n - 1);
      Matching(key, rows, row, n - 1) + if r in rows && Refers(key, rows[r], row) then [Hit(r, key, rows[r])] else []
  }

  function Capacity(db: Database, table: int): nat {
    if 0 <= table < |db.capacity| then db.capacity[table] else 0
  }

  function HitsOf(db: Database, key: ForeignKey, rows: Rows, table: int, row: Row): seq<Hit> {
    if key.parent != table || HasNull(key.parentColumns, row) then []
    else Matching(key, rows, row, Capacity(db, key.child))
  }

  /** `collectReferencingChildren`, for the first `k` foreign keys. */
  function Collect(db: Database, rows: Rows, table: int, row: Row, k: nat): seq<Hit>
    requires k <= |db.keys|
  {
    if k == 0 then []
    else Collect(db, rows, table, row, k - 1) + HitsOf(db, db.keys[k - 1], rows, table, row)
  }

  ghost predicate IsHit(rows: Rows, table: int, row: Row, hit: Hit) {
    && hit.key.parent == table && hit.ref.table == hit.key.child
    && hit.ref in rows && rows[hit.ref] == hit.row && Refers(hit.key, hit.row, row)
  }

  lemma {:induction false} MatchingIs(key: ForeignKey, rows: Rows, row: Row, n: nat, hit: Hit)
    ensures hit in Matching(key, rows, row, n) <==>
      hit.key == key && hit.ref.table == key.child && 0 <= hit.ref.id < n && hit.ref in rows
      && rows[hit.ref] == hit.row && Refers(key, hit.row, row)
  {
    hide Refers;
    if n > 0 {
      MatchingIs(key, rows, row, n - 1, hit);
      assert hit.ref.id == n - 1 && hit.ref.table == key.child ==> hit.ref == Ref(key.child, n - 1);
    }
  }

  lemma ParentKeyHasNoNull(key: ForeignKey, child: Row, parent: Row)
    requires Refers(key, child, parent)
    ensures !HasNull(key.parentColumns, parent)
  {
    assert |Parts(key.childColumns, child)| == |Parts(key.parentColumns, parent)|;
    forall i | 0 <= i < |key.parentColumns| ensures !Cell(parent, key.parentColumns[i]).Null? {
      assert Parts(key.parentColumns, parent)[i] == Parts(key.childColumns, child)[i];
    }
  }

  /** The hits are exactly the rows that refer to the parent row, one for every
      foreign key through which they do. */
  lemma {:induction false} CollectIs(db: Database, rows: Rows, table: int, row: Row, k: nat, hit: Hit)
    requires k <= |db.keys| && InRange(db, rows)
    ensures hit in Collect(db, rows, table, row, k) <==>
      IsHit(rows, table, row, hit) && exists i :: 0 <= i < k && db.keys[i] == hit.key
  {
    hide Refers, HasNull, Matching;
    if k > 0 {
      CollectIs(db, rows, table, row, k - 1, hit);
      var key := db.keys[k - 1];
      MatchingIs(key, rows, row, Capacity(db, key.child), hit);
      if Refers(key, hit.row, row) {
        ParentKeyHasNoNull(key, hit.row, row);
      }
    }
  }

  // ----- The cascade ---------------------------------------------------------------

  datatype State = State(rows: Rows, visiting: set<Ref>, deleted: set<Ref>)

  datatype Fault = DepthExceeded | StillReferenced | Rejected

  /** An exception leaves the rows as the statement had changed them so far. */
  datatype Outcome = Outcome(state: State, fault: Option<Fault>)

  function Blank(row: Row, c: nat): (r: Row)
    ensures |r| == |row| && Cell(r, c) == Null
    ensures forall i: nat :: i != c ==> Cell(r, i) == Cell(row, i)
  {
    if c < |row| then row[c := Null] else row
  }

  function BlankAll(row: Row, columns: seq<nat>): Row
    decreases |columns|
  {
    if columns == [] then row else BlankAll(Blank(row, columns[0]), columns[1..])
  }

  predicate FitsAt(schema: Schema, rows: Rows, ref: Ref, row: Row) {
    forall r :: r in rows && r.table == ref.table && r != ref ==> !Collide(schema, row, rows[r])
  }

  /** The checks that `validateRow`, `assertUniqueRow` and
      `assertForeignKeysOnChildRow` make of the image of a nulled child.  The
      foreign keys are looked up in `seen`. */
  predicate ImageAccepted(db: Database, seen: Rows, rows: Rows, ref: Ref, row: Row) {
    && RowOk(SchemaOf(db, ref.table), row) && FitsAt(SchemaOf(db, ref.table), rows, ref, row)
    && forall k :: 0 <= k < |db.keys| && db.keys[k].child == ref.table ==> Covered(db.keys[k], seen, row)
  }

  /** `Table::update` with NULL, one column after the other; a rejected column
      stops the statement. */
  function NullColumns(schema: Schema, rows: Rows, ref: Ref, columns: seq<nat>): (Rows, bool) {
    if columns == [] then (rows, true)
    else if ref !in rows || columns[0] >= |schema.columns| then NullColumns(schema, rows, ref, columns[1..])
    else
      var row := Blank(rows[ref], columns[0]);
      var fits := schema.columns[columns[0]].nullable && schema.check(row) && FitsAt(schema, rows, ref, row);
      if !fits then (rows, false)
      else NullColumns(schema, rows[ref := row], ref, columns[1..])
  }

  /** The SET NULL action on one child.  Inside a transaction the session sees its
      own writes; otherwise it sees the rows of `before`, when its frame began. */
  function NullChild(db: Database, inTransaction: bool, before: Rows, s: State, hit: Hit): Outcome {
    var seen := if inTransaction then s.rows else before;
    var image := BlankAll(hit.row, hit.key.childColumns);
    if !ImageAccepted(db, seen, s.rows, hit.ref, image) then Outcome(s, Some(Rejected))
    else
      var (rows, ok) := NullColumns(SchemaOf(db, hit.ref.table), s.rows, hit.ref, hit.key.childColumns);
      Outcome(s.(rows := rows), if ok then None else Some(Rejected))
  }

  function NullAll(db: Database, inTransaction: bool, before: Rows, s: State, hits: seq<Hit>): Outcome
    decreases |hits|
  {
    if hits == [] then Outcome(s, None)
    else if hits[0].key.onDelete != SetNull || hits[0].ref in s.deleted then
      NullAll(db, inTransaction, before, s, hits[1..])
    else
      var o := NullChild(db, inTransaction, before, s, hits[0]);
      if o.fault.Some? then o else NullAll(db, inTransaction, before, o.state, hits[1..])
  }

  function Leave(s: State, ref: Ref): State {
    var done := ref !in s.deleted && ref in s.rows;
    State(if done then s.rows - {ref} else s.rows, s.visiting - {ref}, if done then s.deleted + {ref} else s.deleted)
  }

  predicate AnyNoAction(hits: seq<Hit>) {
    exists i :: 0 <= i < |hits| && hits[i].key.onDelete == NoAction
  }

  /** `eraseRowWithReferentialActions`. */
  function EraseRow(db: Database, inTransaction: bool, s: State, ref: Ref, row: Row, depth: int): Outcome
    decreases MAX_DEPTH + 1 - depth, 1, 0
  {
    if depth > MAX_DEPTH then Outcome(s, Some(DepthExceeded))
    else if ref in s.deleted || ref in s.visiting then Outcome(s, None)
    else
      var entered := s.(visiting := s.visiting + {ref});
      var hits := Collect(db, s.rows, ref.table, row, |db.keys|);
      if AnyNoAction(hits) then Outcome(entered, Some(StillReferenced))
      else
        var cascaded := CascadeAll(db, inTransaction, entered, hits, depth);
        if cascaded.fault.Some? then cascaded
        else
          var nulled := NullAll(db, inTransaction, s.rows, cascaded.state, hits);
          if nulled.fault.Some? then nulled else Outcome(Leave(nulled.state, ref), None)
  }

  function CascadeAll(db: Database, inTransaction: bool, s: State, hits: seq<Hit>, depth: int): Outcome
    requires depth <= MAX_DEPTH
    decreases MAX_DEPTH + 1 - depth, 0, |hits|
  {
    if hits == [] then Outcome(s, None)
    else if hits[0].key.onDelete != Cascade then CascadeAll(db, inTransaction, s, hits[1..], depth)
    else
      var o := EraseRow(db, inTransaction, s, hits[0].ref, hits[0].row, depth + 1);
      if o.fault.Some? then o else CascadeAll(db, inTransaction, o.state, hits[1..], depth)
  }

  // ----- DELETE ----------------------------------------------------------------------

  /** The loop of `executeDelete`; the images of the targets are those of the scan. */
  function DeleteAll(db: Database, inTransaction: bool, first: Rows, s: State, targets: seq<Ref>): Outcome
    requires forall i :: 0 <= i < |targets| ==> targets[i] in first
    decreases |targets|
  {
    if targets == [] then Outcome(s, None)
    else
      var o := if targets[0] in s.deleted then Outcome(s, None)
               else EraseRow(db, inTransaction, s, targets[0], first[targets[0]], 1);
      if o.fault.Some? then o else DeleteAll(db, inTransaction, first, o.state, targets[1..])
  }

  function Delete(db: Database, inTransaction: bool, first: Rows, targets: seq<Ref>): Outcome
    requires forall i :: 0 <= i < |targets| ==> targets[i] in first
  {
    DeleteAll(db, inTransaction, first, State(first, {}, {}), targets)
  }
}
