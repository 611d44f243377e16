/** What the cascade of a DELETE keeps: rows only go or fade, every change has its
    reason, and a row that still refers to a deleted one has an open frame. */
module Cascades {
  import opened Values
  import opened UndoLogs
  import opened Tables
  import opened Referential

  // ----- What the cascade does to a row ----------------------------------------------

  /** Some SET NULL action writes this column. */
  ghost predicate Erodible(db: Database, table: int, c: nat) {
    exists key :: key in db.keys && key.onDelete == SetNull && key.child == table && c in key.childColumns
  }

  /** `b` is `a` with some of the erodible cells set to NULL. */
  ghost predicate Faded(db: Database, table: int, a: Row, b: Row) {
    && |a| == |b|
    && forall c: nat :: Cell(b, c) == Cell(a, c) || (Cell(b, c) == Null && Erodible(db, table, c))
  }

  /** Rows may go or fade, nothing else. */
  ghost predicate Aged(db: Database, a: Rows, b: Rows) {
    forall r :: r in b ==> r in a && Faded(db, r.table, a[r], b[r])
  }

  lemma RowFadesSelf(db: Database, table: int, a: Row)
    ensures Faded(db, table, a, a)
  {
  }

  lemma RowFades(db: Database, table: int, a: Row, b: Row, c: Row)
    requires Faded(db, table, a, b) && Faded(db, table, b, c)
    ensures Faded(db, table, a, c)
  {
    hide Erodible;
    forall x: nat ensures Cell(c, x) == Cell(a, x) || (Cell(c, x) == Null && Erodible(db, table, x)) {
      assert Cell(b, x) == Cell(b, x);
    }
  }

  lemma AgedSelf(db: Database, a: Rows)
    ensures Aged(db, a, a)
  {
  }

  lemma AgedIn(db: Database, a: Rows, b: Rows, r: Ref)
    requires Aged(db, a, b) && r in b
    ensures r in a && Faded(db, r.table, a[r], b[r])
  {
  }

  lemma AgedTransitive(db: Database, a: Rows, b: Rows, c: Rows)
    requires Aged(db, a, b) && Aged(db, b, c)
    ensures Aged(db, a, c)
  {
    hide Faded;
    forall r | r in c ensures r in a && Faded(db, r.table, a[r], c[r]) {
      RowFades(db, r.table, a[r], b[r], c[r]);
    }
  }

  /** A key without NULL is the key the row always had. */
  lemma FadedKey(db: Database, table: int, columns: seq<nat>, a: Row, b: Row)
    requires Faded(db, table, a, b) && !HasNull(columns, b)
    ensures !HasNull(columns, a) && Parts(columns, a) == Parts(columns, b)
  {
    assert forall i :: 0 <= i < |columns| ==> Cell(a, columns[i]) == Cell(b, columns[i]);
  }

  ghost predicate Steady(db: Database, table: int, columns: seq<nat>) {
    forall i :: 0 <= i < |columns| ==> !Erodible(db, table, columns[i])
  }

  /** Columns that no SET NULL action writes keep their values. */
  lemma SteadyKey(db: Database, table: int, columns: seq<nat>, a: Row, b: Row)
    requires Faded(db, table, a, b) && Steady(db, table, columns)
    ensures Parts(columns, a) == Parts(columns, b) && (HasNull(columns, a) <==> HasNull(columns, b))
  {
    hide Erodible;
    assert forall i :: 0 <= i < |columns| ==> Cell(a, columns[i]) == Cell(b, columns[i]);
  }

  /** The columns that the foreign key refers to are never nulled. */
  ghost predicate StableParent(db: Database, key: ForeignKey) {
    Steady(db, key.parent, key.parentColumns)
  }

  ghost predicate StableBoth(db: Database, key: ForeignKey) {
    StableParent(db, key) && Steady(db, key.child, key.childColumns)
  }

  /** No other SET NULL key writes a child column of this one. */
  ghost predicate Alone(db: Database, key: ForeignKey) {
    forall other, c | other in db.keys && other.onDelete == SetNull && other.child == key.child
      && c in other.childColumns && c in key.childColumns :: other == key
  }

  // ----- Who refers to whom ------------------------------------------------------------

  /** In the rows that the statement found, `c` refers to `p`. */
  ghost predicate Edge(first: Rows, key: ForeignKey, c: Ref, p: Ref) {
    && c in first && p in first && c.table == key.child && p.table == key.parent
    && Refers(key, first[c], first[p])
  }

  /** A row refers to one parent at most, as unique parent keys guarantee. */
  ghost predicate Single(first: Rows, key: ForeignKey) {
    forall c, p, q :: Edge(first, key, c, p) && Edge(first, key, c, q) ==> p == q
  }

  /** Deleting `p` cascades to `c`. */
  ghost predicate CascadeEdge(db: Database, first: Rows, p: Ref, c: Ref) {
    exists key :: key in db.keys && key.onDelete == Cascade && Edge(first, key, c, p)
  }

  ghost predicate CascadePath(db: Database, first: Rows, path: seq<Ref>) {
    path != [] && forall i :: 0 <= i < |path| - 1 ==> CascadeEdge(db, first, path[i], path[i + 1])
  }

  /** Cascading from `a` comes to `b`. */
  ghost predicate Leads(db: Database, first: Rows, a: Ref, b: Ref) {
    exists path :: CascadePath(db, first, path) && path[0] == a && path[|path| - 1] == b
  }

  lemma LeadsSelf(db: Database, first: Rows, a: Ref)
    ensures Leads(db, first, a, a)
  {
    var path := [a];
    assert CascadePath(db, first, path) && path[0] == a && path[|path| - 1] == a;
  }

  lemma LeadsOn(db: Database, first: Rows, a: Ref, b: Ref, c: Ref)
    requires Leads(db, first, a, b) && CascadeEdge(db, first, b, c)
    ensures Leads(db, first, a, c)
  {
    hide CascadeEdge;
    var path :| CascadePath(db, first, path) && path[0] == a && path[|path| - 1] == b;
    var longer := path + [c];
    assert CascadePath(db, first, longer) && longer[0] == a && longer[|longer| - 1] == c;
  }

  /** A set of rows that CASCADE does not lead out of. */
  ghost predicate CascadeClosed(db: Database, first: Rows, doomed: set<Ref>) {
    forall p, c :: p in doomed && CascadeEdge(db, first, p, c) ==> c in doomed
  }

  lemma {:induction false} ClosedContains(db: Database, first: Rows, doomed: set<Ref>, path: seq<Ref>)
    requires CascadeClosed(db, first, doomed) && CascadePath(db, first, path) && path[0] in doomed
    ensures path[|path| - 1] in doomed
    decreases |path|
  {
    hide CascadeEdge;
    if |path| > 1 {
      ClosedContains(db, first, doomed, path[..|path| - 1]);
      assert CascadeEdge(db, first, path[|path| - 2], path[|path| - 1]);
    }
  }

  // ----- The invariant -------------------------------------------------------------------

  /** Why a cell of a surviving row may be NULL now. */
  ghost predicate NullForced(db: Database, first: Rows, gone: set<Ref>, r: Ref, c: nat) {
    exists key, p :: key in db.keys && key.onDelete == SetNull && c in key.childColumns
      && p in gone && Edge(first, key, r, p)
  }

  ghost predicate Justified(db: Database, first: Rows, s: State) {
    forall r, c: nat :: r in s.rows && r in first && Cell(s.rows[r], c) != Cell(first[r], c) ==>
      NullForced(db, first, s.visiting + s.deleted, r, c)
  }

  /** A row that still refers to a deleted one does so by CASCADE, its own frame is
      open, and the deleted row was reached from it. */
  ghost predicate Settled(db: Database, first: Rows, s: State) {
    forall key, c, p | key in db.keys && StableParent(db, key) && p in s.deleted && Edge(first, key, c, p)
      && c in s.rows && !HasNull(key.childColumns, s.rows[c]) ::
      key.onDelete == Cascade && c in s.visiting && Leads(db, first, c, p)
  }

  ghost predicate AllNull(row: Row, columns: seq<nat>) {
    forall i :: 0 <= i < |columns| ==> Cell(row, columns[i]) == Null
  }

  /** A SET NULL key that no other key interferes with. */
  ghost predicate NullsCleanly(db: Database, first: Rows, key: ForeignKey) {
    key.onDelete == SetNull && StableParent(db, key) && Alone(db, key) && Single(first, key)
  }

  /** Such a key has nulled every row that referred to a deleted one. */
  ghost predicate Emptied(db: Database, first: Rows, s: State) {
    forall key, c, p | key in db.keys && NullsCleanly(db, first, key) && p in s.deleted && Edge(first, key, c, p)
      && c in s.rows :: AllNull(s.rows[c], key.childColumns)
  }

  ghost predicate Books(db: Database, first: Rows, doomed: set<Ref>, s: State) {
    && Aged(db, first, s.rows)
    && (forall r :: r in s.deleted ==> r !in s.rows)
    && (forall r :: r in first ==> r in s.rows || r in s.deleted)
    && (forall r :: r in s.visiting || r in s.deleted ==> r in first && r in doomed)
  }

  ghost predicate Invariant(db: Database, first: Rows, doomed: set<Ref>, s: State) {
    && Books(db, first, doomed, s) && Justified(db, first, s)
    && Settled(db, first, s) && Emptied(db, first, s)
  }

  // ----- Steps that keep the invariant -----------------------------------------------------

  function Enter(s: State, ref: Ref): State {
    s.(visiting := s.visiting + {ref})
  }

  lemma JustifiedMore(db: Database, first: Rows, s: State, t: State)
    requires Justified(db, first, s) && s.visiting + s.deleted <= t.visiting + t.deleted
    requires forall r :: r in t.rows ==> r in s.rows && t.rows[r] == s.rows[r]
    ensures Justified(db, first, t)
  {
    hide Edge;
    forall r, c: nat | r in t.rows && r in first && Cell(t.rows[r], c) != Cell(first[r], c)
      ensures NullForced(db, first, t.visiting + t.deleted, r, c)
    {
      assert NullForced(db, first, s.visiting + s.deleted, r, c);
    }
  }

  lemma EnterKeeps(db: Database, first: Rows, doomed: set<Ref>, s: State, ref: Ref)
    requires Invariant(db, first, doomed, s) && ref in doomed && ref in first
    ensures Invariant(db, first, doomed, Enter(s, ref))
  {
    hide Aged, Edge, StableParent, NullsCleanly, AllNull, Leads, HasNull, Justified;
    JustifiedMore(db, first, s, Enter(s, ref));
  }

  function Blanked(s: State, ref: Ref, c: nat): State
    requires ref in s.rows
  {
    s.(rows := s.rows[ref := Blank(s.rows[ref], c)])
  }

  lemma BlankFades(db: Database, table: int, row: Row, c: nat)
    requires Erodible(db, table, c)
    ensures Faded(db, table, row, Blank(row, c))
  {
    hide Erodible;
  }

  lemma BlankAges(db: Database, first: Rows, s: State, ref: Ref, c: nat)
    requires Aged(db, first, s.rows) && ref in s.rows && Erodible(db, ref.table, c)
    ensures Aged(db, s.rows, Blanked(s, ref, c).rows) && Aged(db, first, Blanked(s, ref, c).rows)
  {
    hide Erodible;
    BlankFades(db, ref.table, s.rows[ref], c);
    AgedTransitive(db, first, s.rows, Blanked(s, ref, c).rows);
  }

  /** A key that is NULL in part, or altogether, stays so. */
  lemma NullStays(db: Database, table: int, columns: seq<nat>, a: Row, b: Row)
    requires Faded(db, table, a, b)
    ensures HasNull(columns, a) ==> HasNull(columns, b)
    ensures AllNull(a, columns) ==> AllNull(b, columns)
  {
    hide Erodible;
  }

  lemma AgingSettles(db: Database, first: Rows, s: State, rows: Rows)
    requires Aged(db, s.rows, rows) && Settled(db, first, s) && Emptied(db, first, s)
    ensures Settled(db, first, s.(rows := rows)) && Emptied(db, first, s.(rows := rows))
  {
    hide Edge, StableParent, NullsCleanly, Leads, HasNull, AllNull, Faded;
    var t := s.(rows := rows);
    forall key, c, p | key in db.keys && p in t.deleted && Edge(first, key, c, p) && c in t.rows
      ensures c in s.rows && (HasNull(key.childColumns, s.rows[c]) ==> HasNull(key.childColumns, t.rows[c]))
      ensures AllNull(s.rows[c], key.childColumns) ==> AllNull(t.rows[c], key.childColumns)
    {
      NullStays(db, c.table, key.childColumns, s.rows[c], t.rows[c]);
    }
  }

  lemma BlankKeeps(
      db: Database, first: Rows, doomed: set<Ref>, s: State, key: ForeignKey, p: Ref, ref: Ref, c: nat)
    requires Invariant(db, first, doomed, s) && ref in s.rows && p in s.visiting
    requires key in db.keys && key.onDelete == SetNull && c in key.childColumns && Edge(first, key, ref, p)
    ensures Invariant(db, first, doomed, Blanked(s, ref, c)) && Aged(db, s.rows, Blanked(s, ref, c).rows)
  {
    hide Aged, Settled, Emptied;
    var t := Blanked(s, ref, c);
    assert Erodible(db, ref.table, c);
    BlankAges(db, first, s, ref, c);
    AgingSettles(db, first, s, t.rows);
    assert NullForced(db, first, t.visiting + t.deleted, ref, c);
    forall r, x: nat | r in t.rows && r in first && Cell(t.rows[r], x) != Cell(first[r], x)
      ensures NullForced(db, first, t.visiting + t.deleted, r, x)
    {
      assert (r == ref && x == c) || Cell(t.rows[r], x) == Cell(s.rows[r], x);
    }
  }

  lemma {:induction false} NullColumnsKeeps(
      db: Database, first: Rows, doomed: set<Ref>, s: State, key: ForeignKey, p: Ref, ref: Ref, columns: seq<nat>)
    requires Invariant(db, first, doomed, s) && KeyOk(db, key)
    requires key in db.keys && key.onDelete == SetNull && Edge(first, key, ref, p) && p in s.visiting
    requires forall i :: 0 <= i < |columns| ==> columns[i] in key.childColumns
    ensures var (rows, ok) := NullColumns(SchemaOf(db, ref.table), s.rows, ref, columns);
      && Invariant(db, first, doomed, s.(rows := rows)) && Aged(db, s.rows, rows)
      && (ok && ref in s.rows ==> ref in rows && AllNull(rows[ref], columns))
    decreases |columns|
  {
    hide Invariant, FitsAt, Erodible;
    AgedSelf(db, s.rows);
    if columns != [] && ref in s.rows {
      var c := columns[0];
      var schema := SchemaOf(db, ref.table);
      assert s.(rows := s.rows) == s;
      ColumnExists(db, key, c);
      var t := Blanked(s, ref, c);
      var row := Blank(s.rows[ref], c);
      if schema.columns[c].nullable && schema.check(row) && FitsAt(schema, s.rows, ref, row) {
        BlankKeeps(db, first, doomed, s, key, p, ref, c);
        NullColumnsKeeps(db, first, doomed, t, key, p, ref, columns[1..]);
        var (rows, ok) := NullColumns(schema, t.rows, ref, columns[1..]);
        assert s.(rows := rows) == t.(rows := rows);
        AgedTransitive(db, s.rows, t.rows, rows);
        if ok {
          AgedIn(db, t.rows, rows, ref);
          assert Cell(rows[ref], c) == Null;
          assert columns == [c] + columns[1..];
        }
      }
    } else if columns != [] {
      NullColumnsKeeps(db, first, doomed, s, key, p, ref, columns[1..]);
    }
  }

  lemma ColumnExists(db: Database, key: ForeignKey, c: nat)
    requires KeyOk(db, key) && c in key.childColumns
    ensures c < |SchemaOf(db, key.child).columns|
  {
    var i :| 0 <= i < |key.childColumns| && key.childColumns[i] == c;
    assert ColumnsOk(db, key, key.childColumns[i], key.parentColumns[i]);
  }

  /** The hit refers to the row whose frame is open, and always did. */
  ghost predicate FrameHit(db: Database, first: Rows, p: Ref, hit: Hit) {
    hit.key in db.keys && KeyOk(db, hit.key) && Edge(first, hit.key, hit.ref, p)
  }

  ghost predicate NullDone(rows: Rows, deleted: set<Ref>, hit: Hit) {
    hit.key.onDelete == SetNull ==>
      hit.ref in deleted || (hit.ref in rows && AllNull(rows[hit.ref], hit.key.childColumns))
  }

  lemma NullDoneStays(db: Database, a: Rows, b: Rows, deleted: set<Ref>, hit: Hit)
    requires NullDone(a, deleted, hit) && Aged(db, a, b) && (hit.ref in a ==> hit.ref in b)
    ensures NullDone(b, deleted, hit)
  {
  }

  lemma {:induction false} NullAllKeeps(
      db: Database, inTransaction: bool, first: Rows, doomed: set<Ref>, before: Rows, s: State, p: Ref, hits: seq<Hit>)
    requires Invariant(db, first, doomed, s) && p in s.visiting
    requires forall i :: 0 <= i < |hits| ==> FrameHit(db, first, p, hits[i])
    ensures var o := NullAll(db, inTransaction, before, s, hits);
      && Invariant(db, first, doomed, o.state) && Aged(db, s.rows, o.state.rows)
      && o.state.visiting == s.visiting && o.state.deleted == s.deleted
      && (o.fault.None? ==> forall i :: 0 <= i < |hits| ==> NullDone(o.state.rows, s.deleted, hits[i]))
    decreases |hits|
  {
    hide Invariant, FitsAt, Erodible, ImageAccepted, NullColumns;
    AgedSelf(db, s.rows);
    if hits != [] {
      var hit := hits[0];
      var o := if hit.key.onDelete != SetNull || hit.ref in s.deleted then Outcome(s, None)
               else NullChild(db, inTransaction, before, s, hit);
      NullChildKeeps(db, inTransaction, first, doomed, before, s, p, hit);
      if o.fault.None? {
        NullAllKeeps(db, inTransaction, first, doomed, before, o.state, p, hits[1..]);
        var last := NullAll(db, inTransaction, before, o.state, hits[1..]);
        assert last == NullAll(db, inTransaction, before, s, hits);
        AgedTransitive(db, s.rows, o.state.rows, last.state.rows);
        SameRefs(db, first, doomed, o.state, last.state);
        NullDoneStays(db, o.state.rows, last.state.rows, s.deleted, hit);
      }
    }
  }

  /** Without a deletion no row goes. */
  lemma SameRefs(db: Database, first: Rows, doomed: set<Ref>, s: State, t: State)
    requires Invariant(db, first, doomed, s) && Invariant(db, first, doomed, t) && s.deleted == t.deleted
    ensures forall r :: r in s.rows ==> r in t.rows
  {
    hide Settled, Emptied, Justified, Faded;
  }

  lemma NullChildKeeps(
      db: Database, inTransaction: bool, first: Rows, doomed: set<Ref>, before: Rows, s: State, p: Ref, hit: Hit)
    requires Invariant(db, first, doomed, s) && p in s.visiting && FrameHit(db, first, p, hit)
    ensures hit.key.onDelete == SetNull && hit.ref !in s.deleted ==>
      var o := NullChild(db, inTransaction, before, s, hit);
      && Invariant(db, first, doomed, o.state) && Aged(db, s.rows, o.state.rows)
      && o.state.visiting == s.visiting && o.state.deleted == s.deleted
      && (o.fault.None? ==> NullDone(o.state.rows, s.deleted, hit))
  {
    hide FitsAt, Erodible, ImageAccepted, NullColumns, Settled, Emptied, Justified, Aged;
    AgedSelf(db, s.rows);
    if hit.key.onDelete == SetNull && hit.ref !in s.deleted {
      assert hit.ref in s.rows;
      NullColumnsKeeps(db, first, doomed, s, hit.key, p, hit.ref, hit.key.childColumns);
    }
  }

  // ----- Closing a frame -------------------------------------------------------------------

  /** The frame of `ref` collected its children when the rows were `start`, from the
      image `row` of its own row; every row with an open frame leads to it. */
  ghost predicate FrameOf(db: Database, first: Rows, start: Rows, s: State, ref: Ref, row: Row) {
    && InRange(db, start) && Aged(db, first, start) && Aged(db, start, s.rows)
    && ref in first && ref in s.rows && ref in s.visiting
    && Faded(db, ref.table, first[ref], row) && Stacked(db, first, s, ref)
  }

  ghost predicate Stacked(db: Database, first: Rows, s: State, ref: Ref) {
    forall v :: v in s.visiting ==> Leads(db, first, v, ref)
  }

  /** When the frame began, a cleanly nulling key had not touched the row's children. */
  ghost predicate Untouched(db: Database, first: Rows, start: Rows, ref: Ref) {
    forall key, c :: key in db.keys && NullsCleanly(db, first, key) && Edge(first, key, c, ref) && c in start ==>
      !HasNull(key.childColumns, start[c])
  }

  /** Only the parent of a child can force its column to NULL. */
  lemma ForcedByParent(db: Database, first: Rows, gone: set<Ref>, ref: Ref, key: ForeignKey, c: Ref, x: nat)
    requires ref !in gone && NullsCleanly(db, first, key) && Edge(first, key, c, ref) && x in key.childColumns
    ensures !NullForced(db, first, gone, c, x)
  {
    hide StableParent, Refers;
  }

  lemma UntouchedChild(db: Database, first: Rows, s: State, ref: Ref, key: ForeignKey, c: Ref, i: nat)
    requires Justified(db, first, s) && ref !in s.visiting + s.deleted
    requires NullsCleanly(db, first, key) && Edge(first, key, c, ref) && c in s.rows
    requires i < |key.childColumns|
    ensures !Cell(s.rows[c], key.childColumns[i]).Null?
  {
    hide NullsCleanly, Parts, NullForced;
    ForcedByParent(db, first, s.visiting + s.deleted, ref, key, c, key.childColumns[i]);
  }

  lemma FrameStartsUntouched(db: Database, first: Rows, s: State, ref: Ref)
    requires Justified(db, first, s) && ref !in s.visiting + s.deleted
    ensures Untouched(db, first, s.rows, ref)
  {
    hide Justified, NullsCleanly, Edge;
    forall key, c | key in db.keys && NullsCleanly(db, first, key) && Edge(first, key, c, ref) && c in s.rows
      ensures !HasNull(key.childColumns, s.rows[c])
    {
      forall i | 0 <= i < |key.childColumns| ensures !Cell(s.rows[c], key.childColumns[i]).Null? {
        UntouchedChild(db, first, s, ref, key, c, i);
      }
    }
  }

  /** A child whose key was whole when the frame began was collected. */
  lemma ChildIsHit(
      db: Database, first: Rows, start: Rows, s: State, ref: Ref, row: Row, key: ForeignKey, c: Ref) returns (hit: Hit)
    requires FrameOf(db, first, start, s, ref, row) && key in db.keys && StableParent(db, key)
    requires Edge(first, key, c, ref) && c in start && !HasNull(key.childColumns, start[c])
    ensures hit in Collect(db, start, ref.table, row, |db.keys|) && hit.ref == c && hit.key == key
  {
    hide Erodible, HasNull, Parts, Collect, Stacked;
    AgedIn(db, first, start, c);
    FadedKey(db, c.table, key.childColumns, first[c], start[c]);
    SteadyKey(db, ref.table, key.parentColumns, first[ref], row);
    hit := Hit(c, key, start[c]);
    CollectIs(db, start, ref.table, row, |db.keys|, hit);
  }

  /** Collected children refer to the closing row in the rows the statement found. */
  lemma HitIsFrameHit(db: Database, first: Rows, start: Rows, ref: Ref, row: Row, hit: Hit)
    requires DatabaseOk(db) && InRange(db, start) && Aged(db, first, start)
    requires ref in first && Faded(db, ref.table, first[ref], row)
    requires hit in Collect(db, start, ref.table, row, |db.keys|)
    ensures FrameHit(db, first, ref, hit) && hit.ref in start && start[hit.ref] == hit.row
  {
    hide Erodible, HasNull, Parts, Collect;
    CollectIs(db, start, ref.table, row, |db.keys|, hit);
    AgedIn(db, first, start, hit.ref);
    FadedKey(db, hit.ref.table, hit.key.childColumns, first[hit.ref], hit.row);
    ParentKeyHasNoNull(hit.key, hit.row, row);
    FadedKey(db, ref.table, hit.key.parentColumns, first[ref], row);
  }

  ghost predicate HitDone(s: State, hit: Hit) {
    && hit.key.onDelete != NoAction
    && (hit.key.onDelete == Cascade ==> hit.ref in s.deleted || hit.ref in s.visiting)
    && NullDone(s.rows, s.deleted, hit)
  }

  ghost predicate HitsDone(s: State, hits: seq<Hit>) {
    forall hit :: hit in hits ==> HitDone(s, hit)
  }

  lemma NullKeyHasNull(db: Database, key: ForeignKey, row: Row)
    requires DatabaseOk(db) && key in db.keys
    ensures AllNull(row, key.childColumns) ==> HasNull(key.childColumns, row)
  {
    assert KeyOk(db, key);
    assert AllNull(row, key.childColumns) ==> Cell(row, key.childColumns[0]) == Null;
  }

  /** A child that still refers to the closing row has an open frame. */
  lemma ReferrerIsOpen(
      db: Database, first: Rows, doomed: set<Ref>, start: Rows, s: State, ref: Ref, row: Row, key: ForeignKey, c: Ref)
    requires DatabaseOk(db) && Books(db, first, doomed, s) && FrameOf(db, first, start, s, ref, row)
    requires HitsDone(s, Collect(db, start, ref.table, row, |db.keys|))
    requires key in db.keys && StableParent(db, key) && Edge(first, key, c, ref)
    requires c in s.rows && !HasNull(key.childColumns, s.rows[c])
    ensures key.onDelete == Cascade && c in s.visiting && Leads(db, first, c, ref)
  {
    hide StableParent, Collect, Parts, Faded, InRange, Leads, HasNull;
    AgedIn(db, start, s.rows, c);
    FadedKey(db, c.table, key.childColumns, start[c], s.rows[c]);
    NullKeyHasNull(db, key, s.rows[c]);
    var hit := ChildIsHit(db, first, start, s, ref, row, key, c);
    assert HitDone(s, hit);
  }

  lemma LeaveSettles(db: Database, first: Rows, doomed: set<Ref>, start: Rows, s: State, ref: Ref, row: Row)
    requires DatabaseOk(db) && Books(db, first, doomed, s) && Settled(db, first, s)
    requires FrameOf(db, first, start, s, ref, row)
    requires HitsDone(s, Collect(db, start, ref.table, row, |db.keys|))
    ensures Settled(db, first, Leave(s, ref))
  {
    hide Aged, StableParent, Collect, HasNull, Faded, InRange, HitsDone, FrameOf, Edge, Leads;
    var t := Leave(s, ref);
    FrameRef(db, first, start, s, ref, row);
    forall key, c, p | key in db.keys && StableParent(db, key) && p in t.deleted && Edge(first, key, c, p)
      && c in t.rows && !HasNull(key.childColumns, t.rows[c])
      ensures key.onDelete == Cascade && c in t.visiting && Leads(db, first, c, p)
    {
      if p == ref {
        ReferrerIsOpen(db, first, doomed, start, s, ref, row, key, c);
      }
    }
  }

  lemma LeaveEmpties(db: Database, first: Rows, doomed: set<Ref>, start: Rows, s: State, ref: Ref, row: Row)
    requires DatabaseOk(db) && Books(db, first, doomed, s) && Emptied(db, first, s)
    requires FrameOf(db, first, start, s, ref, row) && Untouched(db, first, start, ref)
    requires HitsDone(s, Collect(db, start, ref.table, row, |db.keys|))
    ensures Emptied(db, first, Leave(s, ref))
  {
    hide Collect, HasNull, Faded, InRange, Edge, AllNull, Stacked, StableParent;
    var t := Leave(s, ref);
    forall key, c, p | key in db.keys && NullsCleanly(db, first, key) && p in t.deleted && Edge(first, key, c, p)
      && c in t.rows
      ensures AllNull(t.rows[c], key.childColumns)
    {
      if p == ref {
        AgedIn(db, start, s.rows, c);
        var hit := ChildIsHit(db, first, start, s, ref, row, key, c);
        assert HitDone(s, hit);
      }
    }
  }

  lemma FrameRef(db: Database, first: Rows, start: Rows, s: State, ref: Ref, row: Row)
    requires FrameOf(db, first, start, s, ref, row)
    ensures ref in s.rows && ref in s.visiting && ref in first
  {
  }

  lemma LeaveKeeps(db: Database, first: Rows, doomed: set<Ref>, start: Rows, s: State, ref: Ref, row: Row)
    requires DatabaseOk(db) && Invariant(db, first, doomed, s)
    requires FrameOf(db, first, start, s, ref, row) && Untouched(db, first, start, ref)
    requires HitsDone(s, Collect(db, start, ref.table, row, |db.keys|))
    ensures Invariant(db, first, doomed, Leave(s, ref))
    ensures Aged(db, s.rows, Leave(s, ref).rows) && ref in Leave(s, ref).deleted
  {
    hide Faded, InRange, HitsDone, Settled, Emptied, Justified, Collect, Stacked, Untouched;
    LeaveSettles(db, first, doomed, start, s, ref, row);
    LeaveEmpties(db, first, doomed, start, s, ref, row);
    AgedSelf(db, s.rows);
    JustifiedMore(db, first, s, Leave(s, ref));
  }

  // ----- The whole cascade ---------------------------------------------------------------------

  ghost predicate Grown(db: Database, s: State, t: State) {
    && Aged(db, s.rows, t.rows) && s.deleted <= t.deleted && s.visiting <= t.visiting
    && forall r :: r in s.visiting && r in t.deleted ==> r in s.deleted
  }

  /** The statement and a set of rows it stays inside. */
  ghost predicate Scope(db: Database, first: Rows, doomed: set<Ref>) {
    DatabaseOk(db) && InRange(db, first) && CascadeClosed(db, first, doomed)
  }

  ghost predicate ImageOf(db: Database, first: Rows, ref: Ref, row: Row) {
    ref in first && Faded(db, ref.table, first[ref], row)
  }

  /** Running one frame keeps the invariant, whether or not it throws; a frame
      that returns has deleted its row, unless an open frame is about to. */
  lemma {:induction false} EraseKeeps(
      db: Database, inTransaction: bool, first: Rows, doomed: set<Ref>, s: State, ref: Ref, row: Row, depth: int)
    requires Scope(db, first, doomed) && Invariant(db, first, doomed, s)
    requires ImageOf(db, first, ref, row) && ref in doomed && Stacked(db, first, s, ref)
    ensures var o := EraseRow(db, inTransaction, s, ref, row, depth);
      && Invariant(db, first, doomed, o.state) && Grown(db, s, o.state)
      && (o.fault.None? ==> o.state.visiting == s.visiting && (ref in o.state.deleted || ref in s.visiting))
    decreases MAX_DEPTH + 1 - depth, 1, 0
  {
    hide Invariant, Aged, Faded, Collect, CascadeAll, NullAll, Leave, HitsDone, FrameOf, Stacked, Untouched;
    hide CascadeClosed, InRange, DatabaseOk;
    AgedSelf(db, s.rows);
    if depth <= MAX_DEPTH && ref !in s.deleted && ref !in s.visiting {
      var hits := Collect(db, s.rows, ref.table, row, |db.keys|);
      var entered := Enter(s, ref);
      EnterKeeps(db, first, doomed, s, ref);
      if !AnyNoAction(hits) {
        HitsReady(db, first, doomed, s, ref, row);
        StackGrows(db, first, s, ref);
        CascadeKeeps(db, inTransaction, first, doomed, entered, ref, hits, depth);
        var cascaded := CascadeAll(db, inTransaction, entered, hits, depth);
        if cascaded.fault.None? {
          assert ref in cascaded.state.visiting;
          NullAllKeeps(db, inTransaction, first, doomed, s.rows, cascaded.state, ref, hits);
          var nulled := NullAll(db, inTransaction, s.rows, cascaded.state, hits);
          AgedTransitive(db, s.rows, cascaded.state.rows, nulled.state.rows);
          if nulled.fault.None? {
            SameStack(db, first, entered, nulled.state, ref);
            FrameCloses(db, first, doomed, s, nulled.state, ref, row);
            HitsAreDone(nulled.state, hits);
            LeaveKeeps(db, first, doomed, s.rows, nulled.state, ref, row);
            AgedTransitive(db, s.rows, nulled.state.rows, Leave(nulled.state, ref).rows);
            LeaveGrows(s, nulled.state, ref);
          }
        }
      }
    }
  }

  lemma SameStack(db: Database, first: Rows, s: State, t: State, ref: Ref)
    requires Stacked(db, first, s, ref) && t.visiting == s.visiting
    ensures Stacked(db, first, t, ref)
  {
    hide Leads;
  }

  lemma StackGrows(db: Database, first: Rows, s: State, ref: Ref)
    requires Stacked(db, first, s, ref)
    ensures Stacked(db, first, Enter(s, ref), ref)
  {
    hide Leads;
    LeadsSelf(db, first, ref);
  }

  lemma LeaveGrows(s: State, t: State, ref: Ref)
    requires ref !in s.visiting && t.visiting == s.visiting + {ref} && s.deleted <= t.deleted
    requires forall r :: r in s.visiting && r in t.deleted ==> r in s.deleted
    ensures Leave(t, ref).visiting == s.visiting && s.deleted <= Leave(t, ref).deleted
    ensures forall r :: r in s.visiting && r in Leave(t, ref).deleted ==> r in s.deleted
  {
  }

  lemma HitsAreDone(s: State, hits: seq<Hit>)
    requires !AnyNoAction(hits)
    requires forall i :: 0 <= i < |hits| ==> CascadeDone(s, hits[i]) && NullDone(s.rows, s.deleted, hits[i])
    ensures HitsDone(s, hits)
  {
    hide NullDone;
  }

  ghost predicate CascadeDone(s: State, hit: Hit) {
    hit.key.onDelete == Cascade ==> hit.ref in s.deleted || hit.ref in s.visiting
  }

  lemma FrameCloses(db: Database, first: Rows, doomed: set<Ref>, s: State, t: State, ref: Ref, row: Row)
    requires InRange(db, first) && Invariant(db, first, doomed, s) && Invariant(db, first, doomed, t)
    requires Aged(db, s.rows, t.rows) && ImageOf(db, first, ref, row)
    requires ref !in s.deleted && ref !in s.visiting && Stacked(db, first, t, ref)
    requires ref in t.visiting && (ref in t.deleted ==> ref in s.deleted)
    ensures FrameOf(db, first, s.rows, t, ref, row) && Untouched(db, first, s.rows, ref)
  {
    hide Faded, Settled, Emptied, Justified, Untouched, Stacked;
    assert ref in s.rows && ref in t.rows;
    FrameStartsUntouched(db, first, s, ref);
  }

  ghost predicate HitReady(db: Database, first: Rows, doomed: set<Ref>, ref: Ref, hit: Hit) {
    && FrameHit(db, first, ref, hit) && ImageOf(db, first, hit.ref, hit.row)
    && (hit.key.onDelete == Cascade ==> hit.ref in doomed && CascadeEdge(db, first, ref, hit.ref))
  }

  lemma HitsReady(db: Database, first: Rows, doomed: set<Ref>, s: State, ref: Ref, row: Row)
    requires Scope(db, first, doomed) && Invariant(db, first, doomed, s)
    requires ImageOf(db, first, ref, row) && ref in doomed
    ensures forall hit :: hit in Collect(db, s.rows, ref.table, row, |db.keys|) ==>
      HitReady(db, first, doomed, ref, hit)
  {
    hide Faded, Settled, Emptied, Justified, Collect, Refers;
    assert Aged(db, first, s.rows);
    forall hit | hit in Collect(db, s.rows, ref.table, row, |db.keys|)
      ensures HitReady(db, first, doomed, ref, hit)
    {
      HitIsFrameHit(db, first, s.rows, ref, row, hit);
      assert hit.key.onDelete == Cascade ==> CascadeEdge(db, first, ref, hit.ref);
    }
  }

  lemma StackLeadsOn(db: Database, first: Rows, s: State, ref: Ref, c: Ref)
    requires Stacked(db, first, s, ref) && CascadeEdge(db, first, ref, c)
    ensures Stacked(db, first, s, c)
  {
    hide Leads, CascadeEdge;
    forall v | v in s.visiting ensures Leads(db, first, v, c) {
      LeadsOn(db, first, v, ref, c);
    }
  }

  lemma {:induction false} CascadeKeeps(
      db: Database, inTransaction: bool, first: Rows, doomed: set<Ref>, s: State, ref: Ref, hits: seq<Hit>, depth: int)
    requires Scope(db, first, doomed) && depth <= MAX_DEPTH
    requires Invariant(db, first, doomed, s) && Stacked(db, first, s, ref)
    requires forall i :: 0 <= i < |hits| ==> HitReady(db, first, doomed, ref, hits[i])
    ensures var o := CascadeAll(db, inTransaction, s, hits, depth);
      && Invariant(db, first, doomed, o.state) && Grown(db, s, o.state)
      && (o.fault.None? ==> o.state.visiting == s.visiting)
      && (o.fault.None? ==> forall i :: 0 <= i < |hits| ==> CascadeDone(o.state, hits[i]))
    decreases MAX_DEPTH + 1 - depth, 0, |hits|
  {
    hide Invariant, Aged, Faded, EraseRow, Scope, FrameHit, ImageOf, CascadeEdge, Stacked;
    AgedSelf(db, s.rows);
    if hits != [] {
      var hit := hits[0];
      var o := if hit.key.onDelete != Cascade then Outcome(s, None)
               else EraseRow(db, inTransaction, s, hit.ref, hit.row, depth + 1);
      assert HitReady(db, first, doomed, ref, hits[0]);
      if hit.key.onDelete == Cascade {
        StackLeadsOn(db, first, s, ref, hit.ref);
        EraseKeeps(db, inTransaction, first, doomed, s, hit.ref, hit.row, depth + 1);
      }
      if o.fault.None? {
        SameStack(db, first, s, o.state, ref);
        CascadeKeeps(db, inTransaction, first, doomed, o.state, ref, hits[1..], depth);
        var last := CascadeAll(db, inTransaction, o.state, hits[1..], depth);
        assert last == CascadeAll(db, inTransaction, s, hits, depth);
        AgedTransitive(db, s.rows, o.state.rows, last.state.rows);
      }
    }
  }

  lemma {:induction false} DeleteAllKeeps(
      db: Database, inTransaction: bool, first: Rows, doomed: set<Ref>, s: State, targets: seq<Ref>)
    requires Scope(db, first, doomed) && Invariant(db, first, doomed, s) && s.visiting == {}
    requires forall i :: 0 <= i < |targets| ==> targets[i] in first && targets[i] in doomed
    ensures var o := DeleteAll(db, inTransaction, first, s, targets);
      && Invariant(db, first, doomed, o.state) && s.deleted <= o.state.deleted
      && (o.fault.None? ==> o.state.visiting == {})
      && (o.fault.None? ==> forall i :: 0 <= i < |targets| ==> targets[i] in o.state.deleted)
    decreases |targets|
  {
    hide EraseRow, Scope, Invariant, Faded, Leads;
    if targets != [] {
      var ref := targets[0];
      RowFadesSelf(db, ref.table, first[ref]);
      if ref !in s.deleted {
        EraseKeeps(db, inTransaction, first, doomed, s, ref, first[ref], 1);
      }
      var o := if ref in s.deleted then Outcome(s, None) else EraseRow(db, inTransaction, s, ref, first[ref], 1);
      if o.fault.None? {
        DeleteAllKeeps(db, inTransaction, first, doomed, o.state, targets[1..]);
      }
    }
  }

  lemma StartHolds(db: Database, first: Rows, doomed: set<Ref>)
    ensures Invariant(db, first, doomed, State(first, {}, {}))
  {
    AgedSelf(db, first);
  }

  lemma DeleteKeeps(db: Database, inTransaction: bool, first: Rows, doomed: set<Ref>, targets: seq<Ref>)
    requires Scope(db, first, doomed)
    requires forall i :: 0 <= i < |targets| ==> targets[i] in first && targets[i] in doomed
    ensures var o := Delete(db, inTransaction, first, targets);
      && Invariant(db, first, doomed, o.state)
      && (o.fault.None? ==> o.state.visiting == {})
      && (o.fault.None? ==> forall i :: 0 <= i < |targets| ==> targets[i] in o.state.deleted)
  {
    hide DeleteAll, Invariant, Scope;
    StartHolds(db, first, doomed);
    DeleteAllKeeps(db, inTransaction, first, doomed, State(first, {}, {}), targets);
  }
}
