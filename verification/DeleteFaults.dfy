/** When a DELETE throws: each exception has its reason in the rows that the statement
    found, and without such a reason it returns normally. */
module DeleteFaults {
  import opened Values
  import opened UndoLogs
  import opened Tables
  import opened Referential
  import opened Cascades
  import opened DeleteResults

  // ----- The reasons ---------------------------------------------------------------------

  /** A NO ACTION key refers to one of the rows. */
  ghost predicate NoActionInto(db: Database, first: Rows, gone: set<Ref>) {
    exists key, c, p :: key in db.keys && key.onDelete == NoAction && p in gone && Edge(first, key, c, p)
  }

  /** The row with some of the cells set to NULL that SET NULL takes when `gone` goes. */
  ghost predicate PartlyNulled(db: Database, first: Rows, gone: set<Ref>, r: Ref, row: Row) {
    && r in first && |row| == |first[r]|
    && forall c: nat :: Cell(row, c) == Cell(first[r], c) || (Cell(row, c) == Null && NullForced(db, first, gone, r, c))
  }

  /** CHECK holds of every row however far it has been nulled. */
  ghost predicate ChecksHold(db: Database, first: Rows, gone: set<Ref>) {
    forall r, row | PartlyNulled(db, first, gone, r, row) :: SchemaOf(db, r.table).check(row)
  }

  /** A nulled child keeps the parents of its other references: their keys are not nulled,
      and none of them goes while the child waits for it in a cycle. */
  ghost predicate ParentsKept(db: Database, first: Rows, gone: set<Ref>) {
    forall c, x: nat, key, p |
      NullForced(db, first, gone, c, x) && key in db.keys && Edge(first, key, c, p) ::
      && !AnyForced(db, first, gone, p, key.parentColumns)
      && (p in gone ==> StableParent(db, key) && (key.onDelete == Cascade ==> !Leads(db, first, c, p)))
  }

  ghost predicate Apart(a: seq<nat>, b: seq<nat>) {
    forall x :: x in a ==> x !in b
  }

  /** A child of `p` has no other reference that is nulled on the way from `p`: its image was
      taken before. */
  ghost predicate ImagesFresh(db: Database, first: Rows, gone: set<Ref>) {
    forall a, b, c, p, q | NulledTwice(db, first, gone, a, b, c, p, q) ::
      b.onDelete == Cascade && Steady(db, b.child, b.childColumns)
  }

  ghost predicate NulledTwice(
      db: Database, first: Rows, gone: set<Ref>, a: ForeignKey, b: ForeignKey, c: Ref, p: Ref, q: Ref) {
    && a in db.keys && b in db.keys && a.onDelete == SetNull && Edge(first, a, c, p) && Edge(first, b, c, q)
    && p in gone && q in gone && p != q && Leads(db, first, p, q) && Apart(a.childColumns, b.childColumns)
  }

  ghost predicate NullsAccepted(db: Database, inTransaction: bool, first: Rows, gone: set<Ref>) {
    ChecksHold(db, first, gone) && ParentsKept(db, first, gone) && (inTransaction ==> ImagesFresh(db, first, gone))
  }

  /** What the constraints keep: valid rows, unique keys, references with a parent. */
  ghost predicate Sound(db: Database, rows: Rows) {
    && DatabaseOk(db) && InRange(db, rows) && Unique(db, rows)
    && (forall r :: r in rows ==> RowOk(SchemaOf(db, r.table), rows[r]))
    && forall key :: key in db.keys ==> NoneDangle(key, rows)
  }

  // ----- Nulled rows -----------------------------------------------------------------------

  lemma ForcedMore(db: Database, first: Rows, a: set<Ref>, b: set<Ref>, r: Ref, c: nat)
    requires a <= b && NullForced(db, first, a, r, c)
    ensures NullForced(db, first, b, r, c)
  {
    hide Edge;
  }

  lemma RowIsPartlyNulled(db: Database, first: Rows, doomed: set<Ref>, s: State, r: Ref)
    requires Invariant(db, first, doomed, s) && r in s.rows
    ensures PartlyNulled(db, first, doomed, r, s.rows[r])
  {
    hide NullForced, Settled, Emptied, Erodible;
    AgedIn(db, first, s.rows, r);
    forall c: nat ensures Cell(s.rows[r], c) == Cell(first[r], c)
      || (Cell(s.rows[r], c) == Null && NullForced(db, first, doomed, r, c))
    {
      if Cell(s.rows[r], c) != Cell(first[r], c) {
        ForcedMore(db, first, s.visiting + s.deleted, doomed, r, c);
      }
    }
  }

  lemma {:induction false} BlankAllIs(row: Row, columns: seq<nat>, c: nat)
    ensures |BlankAll(row, columns)| == |row|
    ensures Cell(BlankAll(row, columns), c) == if c in columns then Null else Cell(row, c)
    decreases |columns|
  {
    if columns != [] {
      BlankAllIs(Blank(row, columns[0]), columns[1..], c);
      assert columns == [columns[0]] + columns[1..];
    }
  }

  lemma ImagePartlyNulled(db: Database, first: Rows, gone: set<Ref>, key: ForeignKey, p: Ref, r: Ref, row: Row)
    requires PartlyNulled(db, first, gone, r, row)
    requires key in db.keys && key.onDelete == SetNull && Edge(first, key, r, p) && p in gone
    ensures PartlyNulled(db, first, gone, r, BlankAll(row, key.childColumns))
  {
    hide Edge;
    var image := BlankAll(row, key.childColumns);
    BlankAllIs(row, key.childColumns, 0);
    forall c: nat ensures Cell(image, c) == Cell(first[r], c)
      || (Cell(image, c) == Null && NullForced(db, first, gone, r, c))
    {
      BlankAllIs(row, key.childColumns, c);
    }
  }

  /** SET NULL columns are nullable. */
  lemma ForcedIsNullable(db: Database, first: Rows, gone: set<Ref>, r: Ref, c: nat)
    requires DatabaseOk(db) && NullForced(db, first, gone, r, c)
    ensures c < |SchemaOf(db, r.table).columns| && SchemaOf(db, r.table).columns[c].nullable
  {
    var key, p :| key in db.keys && key.onDelete == SetNull && c in key.childColumns
      && p in gone && Edge(first, key, r, p);
    assert KeyOk(db, key);
    var i :| 0 <= i < |key.childColumns| && key.childColumns[i] == c;
    assert ColumnsOk(db, key, key.childColumns[i], key.parentColumns[i]);
  }

  lemma PartlyNulledOk(db: Database, first: Rows, gone: set<Ref>, r: Ref, row: Row)
    requires Sound(db, first) && ChecksHold(db, first, gone) && PartlyNulled(db, first, gone, r, row)
    ensures RowOk(SchemaOf(db, r.table), row)
  {
    hide NullForced, Unique, NoneDangle, InRange, DatabaseOk;
    var schema := SchemaOf(db, r.table);
    assert RowOk(schema, first[r]);
    forall i | 0 <= i < |row| ensures CellOk(schema.columns[i], row[i]) {
      assert Cell(row, i) == row[i] && Cell(first[r], i) == first[r][i];
      if row[i] != first[r][i] {
        ForcedIsNullable(db, first, gone, r, i);
      }
    }
  }

  lemma NulledKey(db: Database, first: Rows, gone: set<Ref>, r: Ref, row: Row, columns: seq<nat>)
    requires PartlyNulled(db, first, gone, r, row) && !HasNull(columns, row)
    ensures !HasNull(columns, first[r]) && Parts(columns, row) == Parts(columns, first[r])
  {
    hide NullForced;
    assert forall i :: 0 <= i < |columns| ==> Cell(row, columns[i]) == Cell(first[r], columns[i]);
  }

  /** Nulled rows that collide collided before. */
  lemma CollidedBefore(
      db: Database, first: Rows, gone: set<Ref>, schema: Schema, a: Ref, x: Row, b: Ref, y: Row)
    requires PartlyNulled(db, first, gone, a, x) && PartlyNulled(db, first, gone, b, y) && Collide(schema, x, y)
    ensures Collide(schema, first[a], first[b])
  {
    hide NullForced;
    var u :| 0 <= u < |schema.uniques| && SameKey(schema.uniques[u], x, y);
    forall i | 0 <= i < |schema.uniques[u]|
      ensures Cell(first[a], schema.uniques[u][i]) == Cell(first[b], schema.uniques[u][i])
      ensures !Cell(first[a], schema.uniques[u][i]).Null?
    {
      assert Cell(x, schema.uniques[u][i]) == Cell(y, schema.uniques[u][i]);
    }
    assert SameKey(schema.uniques[u], first[a], first[b]);
  }

  /** Nulling makes no two rows collide. */
  lemma NulledApart(db: Database, first: Rows, gone: set<Ref>, a: Ref, x: Row, b: Ref, y: Row)
    requires PartlyNulled(db, first, gone, a, x) && PartlyNulled(db, first, gone, b, y)
    requires Unique(db, first) && a.table == b.table && a != b
    ensures !Collide(SchemaOf(db, a.table), x, y)
  {
    hide NullForced, Collide;
    if Collide(SchemaOf(db, a.table), x, y) {
      CollidedBefore(db, first, gone, SchemaOf(db, a.table), a, x, b, y);
    }
  }

  lemma NulledFits(db: Database, first: Rows, doomed: set<Ref>, s: State, r: Ref, row: Row)
    requires Invariant(db, first, doomed, s) && Unique(db, first) && PartlyNulled(db, first, doomed, r, row)
    ensures FitsAt(SchemaOf(db, r.table), s.rows, r, row)
  {
    hide PartlyNulled, Invariant, Collide, Unique;
    forall o | o in s.rows && o.table == r.table && o != r ensures !Collide(SchemaOf(db, r.table), row, s.rows[o]) {
      RowIsPartlyNulled(db, first, doomed, s, o);
      NulledApart(db, first, doomed, r, row, o, s.rows[o]);
    }
  }

  /** Every column can be nulled. */
  lemma {:induction false} ColumnsAccepted(
      db: Database, first: Rows, doomed: set<Ref>, s: State, key: ForeignKey, p: Ref, ref: Ref, columns: seq<nat>)
    requires Sound(db, first) && ChecksHold(db, first, doomed) && Invariant(db, first, doomed, s)
    requires key in db.keys && key.onDelete == SetNull && Edge(first, key, ref, p) && p in s.visiting
    requires forall i :: 0 <= i < |columns| ==> columns[i] in key.childColumns
    ensures NullColumns(SchemaOf(db, ref.table), s.rows, ref, columns).1
    decreases |columns|
  {
    hide Invariant, FitsAt, Erodible, ChecksHold, Sound, PartlyNulled, Edge, RowOk;
    if columns != [] {
      var c, schema := columns[0], SchemaOf(db, ref.table);
      if ref in s.rows && c < |schema.columns| {
        var row := Blank(s.rows[ref], c);
        BlankedRow(db, first, doomed, s, key, p, ref, c);
        BlankKeeps(db, first, doomed, s, key, p, ref, c);
        ColumnsAccepted(db, first, doomed, Blanked(s, ref, c), key, p, ref, columns[1..]);
      } else {
        ColumnsAccepted(db, first, doomed, s, key, p, ref, columns[1..]);
      }
    }
  }

  lemma BlankedRow(
      db: Database, first: Rows, doomed: set<Ref>, s: State, key: ForeignKey, p: Ref, ref: Ref, c: nat)
    requires Sound(db, first) && ChecksHold(db, first, doomed) && Invariant(db, first, doomed, s)
    requires key in db.keys && key.onDelete == SetNull && Edge(first, key, ref, p) && p in s.visiting
    requires c in key.childColumns && ref in s.rows && c < |SchemaOf(db, ref.table).columns|
    ensures var schema, row := SchemaOf(db, ref.table), Blank(s.rows[ref], c);
      schema.columns[c].nullable && schema.check(row) && FitsAt(schema, s.rows, ref, row)
  {
    hide FitsAt, Erodible, Edge, Settled, Emptied, Justified, Aged;
    var row := Blank(s.rows[ref], c);
    assert p in doomed;
    RowIsPartlyNulled(db, first, doomed, s, ref);
    assert NullForced(db, first, doomed, ref, c);
    assert PartlyNulled(db, first, doomed, ref, row);
    ForcedIsNullable(db, first, doomed, ref, c);
    NulledFits(db, first, doomed, s, ref, row);
  }

  // ----- References of a nulled child ----------------------------------------------------------

  /** Columns that are not forced keep their values. */
  lemma UnforcedKey(db: Database, first: Rows, doomed: set<Ref>, s: State, p: Ref, columns: seq<nat>)
    requires Invariant(db, first, doomed, s) && p in s.rows && !AnyForced(db, first, doomed, p, columns)
    ensures p in first && Parts(columns, s.rows[p]) == Parts(columns, first[p])
  {
    hide NullForced, Invariant;
    RowIsPartlyNulled(db, first, doomed, s, p);
    assert forall i :: 0 <= i < |columns| ==> Cell(s.rows[p], columns[i]) == Cell(first[p], columns[i]);
  }

  lemma ParentCovers(
      db: Database, first: Rows, doomed: set<Ref>, s: State, key: ForeignKey, c: Ref, q: Ref, image: Row)
    requires Invariant(db, first, doomed, s) && q in s.rows && !AnyForced(db, first, doomed, q, key.parentColumns)
    requires Edge(first, key, c, q) && !HasNull(key.childColumns, image)
    requires Parts(key.childColumns, image) == Parts(key.childColumns, first[c])
    ensures Covered(key, s.rows, image)
  {
    hide Invariant, HasNull, Parts, AnyForced;
    UnforcedKey(db, first, doomed, s, q, key.parentColumns);
  }

  /** The rows deleted since were reached from the row. */
  ghost predicate Reaches(db: Database, first: Rows, s: State, t: State, ref: Ref) {
    forall r :: r in t.deleted ==> r in s.deleted || Leads(db, first, ref, r)
  }

  /** The frame of `p` began with the rows of `start` and has come to `s`. */
  ghost predicate Frame(db: Database, first: Rows, doomed: set<Ref>, start: State, s: State, p: Ref) {
    && Invariant(db, first, doomed, start) && Invariant(db, first, doomed, s)
    && Reaches(db, first, start, s, p) && p in s.visiting && p !in s.deleted && p in doomed && p in first
  }

  lemma ParentWasThere(
      db: Database, first: Rows, doomed: set<Ref>, start: State, c: Ref, x: nat, key: ForeignKey, q: Ref)
    requires Invariant(db, first, doomed, start) && ParentsKept(db, first, doomed)
    requires NullForced(db, first, doomed, c, x) && key in db.keys && Edge(first, key, c, q)
    requires c in start.rows && !HasNull(key.childColumns, start.rows[c])
    ensures q in start.rows
  {
    hide NullForced, HasNull, Edge, StableParent, Leads, Justified, Emptied, AnyForced, Aged;
    EdgeEnds(first, key, c, q);
    assert q in start.rows || q in start.deleted;
    assert q in start.deleted ==> q in doomed;
  }

  lemma EdgeEnds(first: Rows, key: ForeignKey, c: Ref, p: Ref)
    requires Edge(first, key, c, p)
    ensures c in first && p in first && c.table == key.child && p.table == key.parent
  {
  }

  lemma ParentIsThere(
      db: Database, first: Rows, doomed: set<Ref>, start: State, s: State, a: ForeignKey, p: Ref, c: Ref, x: nat,
      b: ForeignKey, q: Ref)
    requires Frame(db, first, doomed, start, s, p) && ParentsKept(db, first, doomed) && ImagesFresh(db, first, doomed)
    requires a in db.keys && a.onDelete == SetNull && Edge(first, a, c, p) && NullForced(db, first, doomed, c, x)
    requires b in db.keys && Edge(first, b, c, q) && Apart(a.childColumns, b.childColumns)
    requires c in s.rows && q in start.rows
    ensures q in s.rows
  {
    hide NullForced, HasNull, StableParent, Leads, Justified, Emptied, AnyForced, Steady, Apart;
    if q !in s.rows {
      assert q in s.deleted && q !in start.deleted && q in doomed;
      assert Leads(db, first, p, q);
      assert NulledTwice(db, first, doomed, a, b, c, p, q);
      AgedIn(db, first, s.rows, c);
      SteadyKey(db, c.table, b.childColumns, first[c], s.rows[c]);
    }
  }

  lemma ImageApart(row: Row, columns: seq<nat>, others: seq<nat>)
    requires !HasNull(others, BlankAll(row, columns))
    ensures Apart(columns, others) && !HasNull(others, row)
  {
    forall i | 0 <= i < |others| ensures others[i] !in columns && !Cell(row, others[i]).Null? {
      BlankAllIs(row, columns, others[i]);
      assert !Cell(BlankAll(row, columns), others[i]).Null?;
    }
  }

  /** The references of the image still have their parents. */
  lemma ImageCovered(
      db: Database, inTransaction: bool, first: Rows, doomed: set<Ref>, start: State, s: State, p: Ref, hit: Hit,
      b: ForeignKey)
    requires Sound(db, first) && NullsAccepted(db, inTransaction, first, doomed)
    requires Frame(db, first, doomed, start, s, p) && FrameHit(db, first, p, hit) && hit.key.onDelete == SetNull
    requires hit.ref in start.rows && start.rows[hit.ref] == hit.row && hit.ref in s.rows
    requires b in db.keys && b.child == hit.ref.table
    ensures Covered(b, if inTransaction then s.rows else start.rows, BlankAll(hit.row, hit.key.childColumns))
  {
    hide ChecksHold, ParentsKept, ImagesFresh, Invariant, Parts, HasNull, InRange, DatabaseOk, Unique, RowOk, AnyForced,
         Reaches, KeyOk, NullForced, BlankAll, Refers;
    var c, a, image := hit.ref, hit.key, BlankAll(hit.row, hit.key.childColumns);
    if !HasNull(b.childColumns, image) {
      HitForces(db, first, doomed, p, hit);
      RowIsPartlyNulled(db, first, doomed, start, c);
      ImagePartlyNulled(db, first, doomed, a, p, c, hit.row);
      NulledKey(db, first, doomed, c, image, b.childColumns);
      ImageApart(hit.row, a.childColumns, b.childColumns);
      assert Covered(b, first, first[c]);
      var q :| q in first && q.table == b.parent && Refers(b, first[c], first[q]);
      assert Edge(first, b, c, q);
      ParentWasThere(db, first, doomed, start, c, a.childColumns[0], b, q);
      ParentUnforced(db, first, doomed, c, a.childColumns[0], b, q);
      if inTransaction {
        ParentIsThere(db, first, doomed, start, s, a, p, c, a.childColumns[0], b, q);
        ParentCovers(db, first, doomed, s, b, c, q, image);
      } else {
        ParentCovers(db, first, doomed, start, b, c, q, image);
      }
    }
  }

  lemma HitForces(db: Database, first: Rows, doomed: set<Ref>, p: Ref, hit: Hit)
    requires FrameHit(db, first, p, hit) && hit.key.onDelete == SetNull && p in doomed
    ensures |hit.key.childColumns| >= 1 && NullForced(db, first, doomed, hit.ref, hit.key.childColumns[0])
  {
    hide Edge;
  }

  lemma ParentUnforced(db: Database, first: Rows, doomed: set<Ref>, c: Ref, x: nat, key: ForeignKey, p: Ref)
    requires ParentsKept(db, first, doomed) && NullForced(db, first, doomed, c, x)
    requires key in db.keys && Edge(first, key, c, p)
    ensures !AnyForced(db, first, doomed, p, key.parentColumns)
  {
    hide NullForced, Edge, AnyForced, StableParent, Leads;
  }

  /** So SET NULL on a child is accepted. */
  lemma ChildAccepted(
      db: Database, inTransaction: bool, first: Rows, doomed: set<Ref>, start: State, s: State, p: Ref, hit: Hit)
    requires Sound(db, first) && NullsAccepted(db, inTransaction, first, doomed)
    requires Frame(db, first, doomed, start, s, p) && FrameHit(db, first, p, hit) && hit.key.onDelete == SetNull
    requires hit.ref in start.rows && start.rows[hit.ref] == hit.row && hit.ref in s.rows
    ensures NullChild(db, inTransaction, start.rows, s, hit).fault.None?
  {
    hide ChecksHold, ParentsKept, ImagesFresh, Invariant, InRange, DatabaseOk, RowOk, Reaches, KeyOk, BlankAll, FitsAt,
         Covered, NoneDangle, Unique, NullColumns, PartlyNulled;
    var image := BlankAll(hit.row, hit.key.childColumns);
    RowIsPartlyNulled(db, first, doomed, start, hit.ref);
    ImagePartlyNulled(db, first, doomed, hit.key, p, hit.ref, hit.row);
    PartlyNulledOk(db, first, doomed, hit.ref, image);
    NulledFits(db, first, doomed, s, hit.ref, image);
    forall k | 0 <= k < |db.keys| && db.keys[k].child == hit.ref.table
      ensures Covered(db.keys[k], if inTransaction then s.rows else start.rows, image)
    {
      ImageCovered(db, inTransaction, first, doomed, start, s, p, hit, db.keys[k]);
    }
    ColumnsAccepted(db, first, doomed, s, hit.key, p, hit.ref, hit.key.childColumns);
  }

  lemma {:induction false} NullAllAccepted(
      db: Database, inTransaction: bool, first: Rows, doomed: set<Ref>, start: State, s: State, p: Ref, hits: seq<Hit>)
    requires Sound(db, first) && NullsAccepted(db, inTransaction, first, doomed)
    requires Frame(db, first, doomed, start, s, p)
    requires forall i :: 0 <= i < |hits| ==>
      FrameHit(db, first, p, hits[i]) && hits[i].ref in start.rows && start.rows[hits[i].ref] == hits[i].row
    ensures NullAll(db, inTransaction, start.rows, s, hits).fault.None?
    decreases |hits|
  {
    hide Sound, NullsAccepted, Invariant, FrameHit, NullChild, Leads;
    if hits != [] {
      var hit := hits[0];
      if hit.key.onDelete != SetNull || hit.ref in s.deleted {
        NullAllAccepted(db, inTransaction, first, doomed, start, s, p, hits[1..]);
      } else {
        assert hit.ref in s.rows by { StillThere(db, first, doomed, s, p, hit); }
        ChildAccepted(db, inTransaction, first, doomed, start, s, p, hit);
        NullChildKeeps(db, inTransaction, first, doomed, start.rows, s, p, hit);
        var o := NullChild(db, inTransaction, start.rows, s, hit);
        NullAllAccepted(db, inTransaction, first, doomed, start, o.state, p, hits[1..]);
      }
    }
  }

  lemma StillThere(db: Database, first: Rows, doomed: set<Ref>, s: State, p: Ref, hit: Hit)
    requires Invariant(db, first, doomed, s) && FrameHit(db, first, p, hit) && hit.ref !in s.deleted
    ensures hit.ref in s.rows
  {
    hide Settled, Emptied, Justified, Aged;
  }

  // ----- The whole cascade ------------------------------------------------------------------------

  lemma LeadsFrom(db: Database, first: Rows, a: Ref, b: Ref, c: Ref)
    requires CascadeEdge(db, first, a, b) && Leads(db, first, b, c)
    ensures Leads(db, first, a, c)
  {
    hide CascadeEdge;
    var path :| CascadePath(db, first, path) && path[0] == b && path[|path| - 1] == c;
    var longer := [a] + path;
    forall i | 0 <= i < |longer| - 1 ensures CascadeEdge(db, first, longer[i], longer[i + 1]) {
      if i > 0 {
        assert CascadeEdge(db, first, path[i - 1], path[i - 1 + 1]);
      }
    }
    assert CascadePath(db, first, longer) && longer[0] == a && longer[|longer| - 1] == c;
  }

  lemma ReachesOn(db: Database, first: Rows, s: State, t: State, u: State, ref: Ref, c: Ref)
    requires CascadeEdge(db, first, ref, c) && Reaches(db, first, s, t, c) && Reaches(db, first, t, u, ref)
    ensures Reaches(db, first, s, u, ref)
  {
    hide CascadeEdge, Leads;
    forall r | r in u.deleted ensures r in s.deleted || Leads(db, first, ref, r) {
      if r in t.deleted && r !in s.deleted {
        LeadsFrom(db, first, ref, c, r);
      }
    }
  }

  /** An exception of one frame has one of the reasons. */
  ghost predicate Reasoned(db: Database, inTransaction: bool, first: Rows, doomed: set<Ref>, fault: Option<Fault>) {
    match fault
    case Some(StillReferenced) => NoActionInto(db, first, doomed)
    case Some(Rejected) => !NullsAccepted(db, inTransaction, first, doomed)
    case _ => true
  }

  lemma {:induction false} EraseReasoned(
      db: Database, inTransaction: bool, first: Rows, doomed: set<Ref>, s: State, ref: Ref, row: Row, depth: int)
    requires Sound(db, first) && Scope(db, first, doomed) && Invariant(db, first, doomed, s)
    requires ImageOf(db, first, ref, row) && ref in doomed && Stacked(db, first, s, ref)
    ensures var o := EraseRow(db, inTransaction, s, ref, row, depth);
      Reasoned(db, inTransaction, first, doomed, o.fault) && Reaches(db, first, s, o.state, ref)
    decreases MAX_DEPTH + 1 - depth, 1, 0
  {
    hide Invariant, Aged, Faded, Collect, CascadeAll, NullAll, Stacked, NoActionInto, NullsAccepted;
    hide Sound, Scope, Leads;
    if depth <= MAX_DEPTH && ref !in s.deleted && ref !in s.visiting {
      var hits := Collect(db, s.rows, ref.table, row, |db.keys|);
      var entered := Enter(s, ref);
      EnterKeeps(db, first, doomed, s, ref);
      HitsReady(db, first, doomed, s, ref, row);
      if AnyNoAction(hits) {
        NoActionHit(db, first, doomed, ref, hits);
      } else {
        StackGrows(db, first, s, ref);
        CascadeKeeps(db, inTransaction, first, doomed, entered, ref, hits, depth);
        CascadeReasoned(db, inTransaction, first, doomed, entered, ref, hits, depth);
        var cascaded := CascadeAll(db, inTransaction, entered, hits, depth);
        if cascaded.fault.None? {
          NullAllKeeps(db, inTransaction, first, doomed, s.rows, cascaded.state, ref, hits);
          FrameAccepted(db, inTransaction, first, doomed, s, cascaded.state, ref, row, hits);
          LeadsSelf(db, first, ref);
          NullAllRejects(db, inTransaction, s.rows, cascaded.state, hits);
        }
      }
    }
  }

  lemma {:induction false} NullAllRejects(db: Database, inTransaction: bool, before: Rows, s: State, hits: seq<Hit>)
    ensures NullAll(db, inTransaction, before, s, hits).fault in {None, Some(Rejected)}
    decreases |hits|
  {
    hide ImageAccepted, NullColumns;
    if hits != [] {
      NullAllRejects(db, inTransaction, before, s, hits[1..]);
      NullAllRejects(db, inTransaction, before, NullChild(db, inTransaction, before, s, hits[0]).state, hits[1..]);
    }
  }

  lemma NoActionHit(db: Database, first: Rows, doomed: set<Ref>, ref: Ref, hits: seq<Hit>)
    requires AnyNoAction(hits) && ref in doomed
    requires forall hit :: hit in hits ==> HitReady(db, first, doomed, ref, hit)
    ensures NoActionInto(db, first, doomed)
  {
    hide Edge, CascadeEdge, ImageOf, KeyOk;
    var i :| 0 <= i < |hits| && hits[i].key.onDelete == NoAction;
    assert hits[i] in hits;
  }

  lemma FrameAccepted(
      db: Database, inTransaction: bool, first: Rows, doomed: set<Ref>, s: State, t: State, ref: Ref, row: Row,
      hits: seq<Hit>)
    requires Sound(db, first) && Invariant(db, first, doomed, s) && Invariant(db, first, doomed, t)
    requires ImageOf(db, first, ref, row) && hits == Collect(db, s.rows, ref.table, row, |db.keys|)
    requires Reaches(db, first, s, t, ref) && ref in t.visiting && ref !in t.deleted && ref in doomed
    ensures NullsAccepted(db, inTransaction, first, doomed) ==>
      NullAll(db, inTransaction, s.rows, t, hits).fault.None?
  {
    hide Collect, NullsAccepted, NullAll, Reaches, Faded, Settled, Emptied, Justified;
    forall hit | hit in hits
      ensures FrameHit(db, first, ref, hit) && hit.ref in s.rows && s.rows[hit.ref] == hit.row
    {
      HitIsFrameHit(db, first, s.rows, ref, row, hit);
    }
    if NullsAccepted(db, inTransaction, first, doomed) {
      NullAllAccepted(db, inTransaction, first, doomed, s, t, ref, hits);
    }
  }

  lemma {:induction false} CascadeReasoned(
      db: Database, inTransaction: bool, first: Rows, doomed: set<Ref>, s: State, ref: Ref, hits: seq<Hit>, depth: int)
    requires Sound(db, first) && Scope(db, first, doomed) && depth <= MAX_DEPTH
    requires Invariant(db, first, doomed, s) && Stacked(db, first, s, ref)
    requires forall i :: 0 <= i < |hits| ==> HitReady(db, first, doomed, ref, hits[i])
    ensures var o := CascadeAll(db, inTransaction, s, hits, depth);
      Reasoned(db, inTransaction, first, doomed, o.fault) && Reaches(db, first, s, o.state, ref)
    decreases MAX_DEPTH + 1 - depth, 0, |hits|
  {
    hide Invariant, Aged, EraseRow, Scope, Sound, FrameHit, ImageOf, CascadeEdge, Stacked, NoActionInto, NullsAccepted,
         Leads;
    if hits != [] {
      var hit := hits[0];
      assert HitReady(db, first, doomed, ref, hits[0]);
      if hit.key.onDelete != Cascade {
        CascadeReasoned(db, inTransaction, first, doomed, s, ref, hits[1..], depth);
      } else {
        var o := EraseRow(db, inTransaction, s, hit.ref, hit.row, depth + 1);
        StackLeadsOn(db, first, s, ref, hit.ref);
        EraseKeeps(db, inTransaction, first, doomed, s, hit.ref, hit.row, depth + 1);
        EraseReasoned(db, inTransaction, first, doomed, s, hit.ref, hit.row, depth + 1);
        if o.fault.None? {
          SameStack(db, first, s, o.state, ref);
          CascadeReasoned(db, inTransaction, first, doomed, o.state, ref, hits[1..], depth);
          ReachesOn(db, first, s, o.state, CascadeAll(db, inTransaction, s, hits, depth).state, ref, hit.ref);
        } else {
          ReachesOn(db, first, s, o.state, o.state, ref, hit.ref);
        }
      }
    }
  }

  lemma {:induction false} DeleteAllReasoned(
      db: Database, inTransaction: bool, first: Rows, doomed: set<Ref>, s: State, targets: seq<Ref>)
    requires Sound(db, first) && Scope(db, first, doomed) && Invariant(db, first, doomed, s) && s.visiting == {}
    requires forall i :: 0 <= i < |targets| ==> targets[i] in first && targets[i] in doomed
    ensures Reasoned(db, inTransaction, first, doomed, DeleteAll(db, inTransaction, first, s, targets).fault)
    decreases |targets|
  {
    hide Invariant, EraseRow, Scope, Sound, NoActionInto, NullsAccepted;
    if targets != [] {
      var ref := targets[0];
      if ref in s.deleted {
        DeleteAllReasoned(db, inTransaction, first, doomed, s, targets[1..]);
      } else {
        RowFadesSelf(db, ref.table, first[ref]);
        EraseKeeps(db, inTransaction, first, doomed, s, ref, first[ref], 1);
        EraseReasoned(db, inTransaction, first, doomed, s, ref, first[ref], 1);
        var o := EraseRow(db, inTransaction, s, ref, first[ref], 1);
        if o.fault.None? {
          DeleteAllReasoned(db, inTransaction, first, doomed, o.state, targets[1..]);
        }
      }
    }
  }

  // ----- DELETE -----------------------------------------------------------------------------------

  /** Each exception has its reason, said of the rows that the DELETE found: a NO ACTION key
      into the rows that CASCADE reaches, a nulled child that CHECK or a foreign key refuses,
      or as many rows that CASCADE reaches as the depth limit allows. */
  lemma FaultsAreReasoned(db: Database, inTransaction: bool, first: Rows, targets: seq<Ref>)
    requires Sound(db, first) && Found(first, targets)
    ensures var fault, gone := Delete(db, inTransaction, first, targets).fault, Doomed(db, first, targets);
      && (fault == Some(StillReferenced) ==> NoActionInto(db, first, gone))
      && (fault == Some(Rejected) ==> !NullsAccepted(db, inTransaction, first, gone))
      && (fault == Some(DepthExceeded) ==> |gone| >= MAX_DEPTH)
  {
    hide Doomed, DeleteAll, NoActionInto, NullsAccepted, EraseRow, Unique, NoneDangle, RowOk, Invariant;
    DoomedClosed(db, first, targets);
    var gone := Doomed(db, first, targets);
    assert Invariant(db, first, gone, State(first, {}, {})) by { StartHolds(db, first, gone); }
    DeleteAllReasoned(db, inTransaction, first, gone, State(first, {}, {}), targets);
    if |gone| < MAX_DEPTH {
      DepthFaultNeedsRows(db, inTransaction, first, targets);
    }
  }

  lemma FaultKinds(fault: Option<Fault>)
    ensures fault in {None, Some(DepthExceeded), Some(StillReferenced), Some(Rejected)}
  {
    if fault.Some? {
      match fault.value {
        case DepthExceeded =>
        case StillReferenced =>
        case Rejected =>
      }
    }
  }

  /** Without a reason the DELETE returns normally. */
  lemma DeleteReturns(db: Database, inTransaction: bool, first: Rows, targets: seq<Ref>)
    requires Sound(db, first) && Found(first, targets)
    requires var gone := Doomed(db, first, targets);
      !NoActionInto(db, first, gone) && NullsAccepted(db, inTransaction, first, gone) && |gone| < MAX_DEPTH
    ensures Delete(db, inTransaction, first, targets).fault == None
  {
    hide Doomed, Delete, NoActionInto, NullsAccepted, Sound;
    FaultsAreReasoned(db, inTransaction, first, targets);
    var fault := Delete(db, inTransaction, first, targets).fault;
    assert fault in {None, Some(DepthExceeded), Some(StillReferenced), Some(Rejected)} by { FaultKinds(fault); }
  }

  /** A row that stays and refers by NO ACTION to a row that CASCADE reaches makes every DELETE
      throw, unless SET NULL may take its reference. */
  lemma NoActionProtects(
      db: Database, inTransaction: bool, first: Rows, targets: seq<Ref>, key: ForeignKey, c: Ref, p: Ref)
    requires Sound(db, first) && Found(first, targets) && Tidy(db, first)
    requires key in db.keys && key.onDelete == NoAction && StableBoth(db, key) && Edge(first, key, c, p)
    requires p in Doomed(db, first, targets) && c !in Doomed(db, first, targets)
    ensures Delete(db, inTransaction, first, targets).fault.Some?
  {
    hide Doomed, Delete, Unique, NoneDangle, RowOk, DatabaseOk, InRange, Steady, HasNull, Parts, Leads, Justified;
    hide Emptied;
    var o := Delete(db, inTransaction, first, targets);
    if o.fault.None? {
      DeleteInvariant(db, inTransaction, first, targets);
      DeleteIsExactly(db, inTransaction, first, targets);
      AgedIn(db, first, o.state.rows, c);
      SteadyKey(db, c.table, key.childColumns, first[c], o.state.rows[c]);
    }
  }
}
