/** What a DELETE leaves behind, by the rows it found: on a normal return, after an
    exception, and through keys that it nulls itself. */
module DeleteResults {
  import opened Values
  import opened UndoLogs
  import opened Tables
  import opened Referential
  import opened Cascades

  /** The foreign keys whose referenced columns no SET NULL action writes hold. */
  ghost predicate Consistent(db: Database, rows: Rows) {
    forall key :: key in db.keys && StableParent(db, key) ==> NoneDangle(key, rows)
  }

  ghost predicate Found(first: Rows, targets: seq<Ref>) {
    forall i :: 0 <= i < |targets| ==> targets[i] in first
  }

  /** The rows that CASCADE leads to from the targets. */
  ghost function Doomed(db: Database, first: Rows, targets: seq<Ref>): set<Ref> {
    set r | r in first && exists t :: t in targets && Leads(db, first, t, r)
  }

  lemma DoomedClosed(db: Database, first: Rows, targets: seq<Ref>)
    requires Found(first, targets)
    ensures CascadeClosed(db, first, Doomed(db, first, targets))
    ensures forall i :: 0 <= i < |targets| ==> targets[i] in Doomed(db, first, targets)
  {
    hide Leads;
    var doomed := Doomed(db, first, targets);
    forall p, c | p in doomed && CascadeEdge(db, first, p, c) ensures c in doomed {
      var t :| t in targets && Leads(db, first, t, p);
      LeadsOn(db, first, t, p, c);
    }
    forall i | 0 <= i < |targets| ensures targets[i] in doomed {
      LeadsSelf(db, first, targets[i]);
    }
  }

  /** It is the least set that holds the targets and that CASCADE does not leave. */
  lemma DoomedLeast(db: Database, first: Rows, targets: seq<Ref>, closed: set<Ref>)
    requires CascadeClosed(db, first, closed) && forall i :: 0 <= i < |targets| ==> targets[i] in closed
    ensures Doomed(db, first, targets) <= closed
  {
    forall r | r in Doomed(db, first, targets) ensures r in closed {
      var t :| t in targets && Leads(db, first, t, r);
      var path :| CascadePath(db, first, path) && path[0] == t && path[|path| - 1] == r;
      ClosedContains(db, first, closed, path);
    }
  }

  /** What the tables' unique constraints keep. */
  ghost predicate Unique(db: Database, rows: Rows) {
    forall p, q | p in rows && q in rows && p.table == q.table && p != q ::
      !Collide(SchemaOf(db, p.table), rows[p], rows[q])
  }

  /** Then every foreign key has unique parents. */
  lemma UniqueParents(db: Database, rows: Rows, key: ForeignKey)
    requires DatabaseOk(db) && key in db.keys && Unique(db, rows)
    ensures Single(rows, key)
  {
    assert KeyOk(db, key);
    forall c, p, q | Edge(rows, key, c, p) && Edge(rows, key, c, q) ensures p == q {
      ParentKeyHasNoNull(key, rows[c], rows[p]);
      var columns := key.parentColumns;
      forall i | 0 <= i < |columns|
        ensures Cell(rows[p], columns[i]) == Cell(rows[q], columns[i]) && !Cell(rows[p], columns[i]).Null?
      {
        assert Parts(columns, rows[p])[i] == Parts(columns, rows[q])[i];
      }
      assert SameKey(columns, rows[p], rows[q]);
      assert Collide(SchemaOf(db, key.parent), rows[p], rows[q]);
    }
  }

  lemma DeleteInvariant(db: Database, inTransaction: bool, first: Rows, targets: seq<Ref>)
    requires DatabaseOk(db) && InRange(db, first) && Found(first, targets)
    ensures var o := Delete(db, inTransaction, first, targets);
      && Invariant(db, first, Doomed(db, first, targets), o.state)
      && (o.fault.None? ==> o.state.visiting == {})
      && (o.fault.None? ==> forall i :: 0 <= i < |targets| ==> targets[i] in o.state.deleted)
  {
    hide Invariant, Doomed, Delete;
    DoomedClosed(db, first, targets);
    DeleteKeeps(db, inTransaction, first, Doomed(db, first, targets), targets);
  }

  // ----- After a normal return or an exception -----------------------------------------

  /** A row with an open frame that refers by CASCADE to a row that is gone. */
  ghost predicate Stranded(first: Rows, s: State, key: ForeignKey, c: Ref, p: Ref) {
    && key.onDelete == Cascade && Edge(first, key, c, p) && p in s.deleted
    && c in s.rows && c in s.visiting && !HasNull(key.childColumns, s.rows[c])
  }

  /** The parent that a row had is the only one it can still have. */
  lemma ParentStays(db: Database, first: Rows, rows: Rows, key: ForeignKey, c: Ref, p: Ref)
    requires Aged(db, first, rows) && StableParent(db, key) && Edge(first, key, c, p)
    requires c in rows && p in rows && !HasNull(key.childColumns, rows[c])
    ensures Refers(key, rows[c], rows[p])
  {
    hide HasNull, Parts, Erodible;
    AgedIn(db, first, rows, c);
    AgedIn(db, first, rows, p);
    FadedKey(db, c.table, key.childColumns, first[c], rows[c]);
    SteadyKey(db, p.table, key.parentColumns, first[p], rows[p]);
  }

  lemma ParentWas(db: Database, first: Rows, rows: Rows, key: ForeignKey, c: Ref, p: Ref)
    requires Aged(db, first, rows) && c in rows && p in rows && c.table == key.child && p.table == key.parent
    requires Refers(key, rows[c], rows[p])
    ensures Edge(first, key, c, p)
  {
    hide HasNull, Parts, Erodible;
    AgedIn(db, first, rows, c);
    AgedIn(db, first, rows, p);
    ParentKeyHasNoNull(key, rows[c], rows[p]);
    FadedKey(db, c.table, key.childColumns, first[c], rows[c]);
    FadedKey(db, p.table, key.parentColumns, first[p], rows[p]);
  }

  /** A row that dangles refers to a deleted row, from an open frame. */
  lemma DanglingIsStranded(
      db: Database, first: Rows, doomed: set<Ref>, s: State, key: ForeignKey, c: Ref) returns (p: Ref)
    requires Invariant(db, first, doomed, s) && key in db.keys && StableParent(db, key) && NoneDangle(key, first)
    requires c in s.rows && c.table == key.child && !Covered(key, s.rows, s.rows[c])
    ensures Stranded(first, s, key, c, p) && Leads(db, first, c, p) && CascadeEdge(db, first, p, c)
  {
    hide HasNull, Parts, Erodible, Justified, Emptied, Leads, StableParent;
    AgedIn(db, first, s.rows, c);
    FadedKey(db, c.table, key.childColumns, first[c], s.rows[c]);
    assert Covered(key, first, first[c]);
    p :| p in first && p.table == key.parent && Refers(key, first[c], first[p]);
    if p in s.rows {
      ParentStays(db, first, s.rows, key, c, p);
    }
  }

  /** Whatever the outcome, a foreign key with unique parents dangles if and only if a
      row with an open frame refers by CASCADE to a row that is gone; so only an
      exception can leave one that dangles. */
  lemma DanglesExactly(db: Database, inTransaction: bool, first: Rows, targets: seq<Ref>, key: ForeignKey)
    requires DatabaseOk(db) && InRange(db, first) && Found(first, targets)
    requires key in db.keys && StableParent(db, key) && NoneDangle(key, first) && Single(first, key)
    ensures var s := Delete(db, inTransaction, first, targets).state;
      NoneDangle(key, s.rows) <==> !exists c, p :: Stranded(first, s, key, c, p)
  {
    hide Delete, Invariant, Doomed, Leads, StableParent, Edge;
    DeleteInvariant(db, inTransaction, first, targets);
    var s := Delete(db, inTransaction, first, targets).state;
    var doomed := Doomed(db, first, targets);
    if !NoneDangle(key, s.rows) {
      var c :| c in s.rows && c.table == key.child && !Covered(key, s.rows, s.rows[c]);
      var p := DanglingIsStranded(db, first, doomed, s, key, c);
      assert Stranded(first, s, key, c, p);
    }
    forall c, p | Stranded(first, s, key, c, p) ensures !Covered(key, s.rows, s.rows[c]) && c.table == key.child {
      StrandedDangles(db, first, doomed, s, key, c, p);
    }
  }

  lemma StrandedDangles(db: Database, first: Rows, doomed: set<Ref>, s: State, key: ForeignKey, c: Ref, p: Ref)
    requires Invariant(db, first, doomed, s) && Single(first, key) && Stranded(first, s, key, c, p)
    ensures c.table == key.child && !Covered(key, s.rows, s.rows[c])
  {
    hide HasNull, Refers, Settled, Emptied, Justified;
    forall q | q in s.rows && q.table == key.parent ensures !Refers(key, s.rows[c], s.rows[q]) {
      if Refers(key, s.rows[c], s.rows[q]) {
        ParentWas(db, first, s.rows, key, c, q);
      }
    }
  }

  /** What a DELETE over `first` may leave: `gone` are the rows that went. */
  ghost predicate CleanDelete(db: Database, first: Rows, rows: Rows, gone: set<Ref>) {
    && (forall r :: r in first <==> r in rows || r in gone) && (forall r :: r in gone ==> r !in rows)
    && (forall r, c: nat :: r in rows && r in first && Cell(rows[r], c) != Cell(first[r], c) ==>
         Cell(rows[r], c) == Null && NullForced(db, first, gone, r, c))
  }

  lemma EndIsClean(db: Database, first: Rows, doomed: set<Ref>, s: State)
    requires Invariant(db, first, doomed, s) && s.visiting == {}
    ensures CleanDelete(db, first, s.rows, s.deleted)
  {
    hide Erodible, Edge, Settled, Emptied;
    assert s.visiting + s.deleted == s.deleted;
    forall r, c: nat | r in s.rows && r in first && Cell(s.rows[r], c) != Cell(first[r], c)
      ensures Cell(s.rows[r], c) == Null && NullForced(db, first, s.deleted, r, c)
    {
      AgedIn(db, first, s.rows, r);
    }
  }

  /** A DELETE that returns normally leaves no dangling foreign key, through cycles
      and self-references alike, as long as no SET NULL action writes the columns
      that the key refers to.  The targets are gone, and a surviving row lost a cell
      only to a SET NULL key whose parent row went. */
  lemma DeleteLeavesNoDanglingKey(db: Database, inTransaction: bool, first: Rows, targets: seq<Ref>)
    requires DatabaseOk(db) && InRange(db, first) && Consistent(db, first) && Found(first, targets)
    requires Delete(db, inTransaction, first, targets).fault.None?
    ensures var s := Delete(db, inTransaction, first, targets).state;
      && Consistent(db, s.rows) && CleanDelete(db, first, s.rows, s.deleted)
      && s.visiting == {} && forall i :: 0 <= i < |targets| ==> targets[i] in s.deleted
  {
    hide Delete, CleanDelete, Invariant, Doomed, StableParent, Covered;
    DeleteInvariant(db, inTransaction, first, targets);
    var s := Delete(db, inTransaction, first, targets).state;
    var doomed := Doomed(db, first, targets);
    EndIsClean(db, first, doomed, s);
    forall key, c | key in db.keys && StableParent(db, key) && c in s.rows && c.table == key.child
      ensures Covered(key, s.rows, s.rows[c])
    {
      if !Covered(key, s.rows, s.rows[c]) {
        var p := DanglingIsStranded(db, first, doomed, s, key, c);
      }
    }
  }

  /** Among the rows that the DELETE can reach, CASCADE leads from some row back to it. */
  ghost predicate CascadeCycle(db: Database, first: Rows, targets: seq<Ref>) {
    exists c, p :: c in Doomed(db, first, targets) && Leads(db, first, c, p) && CascadeEdge(db, first, p, c)
  }

  /** Without such a cycle even a DELETE that throws leaves no dangling key. */
  lemma ThrownDeleteIsConsistent(db: Database, inTransaction: bool, first: Rows, targets: seq<Ref>)
    requires DatabaseOk(db) && InRange(db, first) && Consistent(db, first) && Found(first, targets)
    requires !CascadeCycle(db, first, targets)
    ensures Consistent(db, Delete(db, inTransaction, first, targets).state.rows)
  {
    hide Delete, Invariant, Doomed, StableParent, Covered, Leads, Edge;
    DeleteInvariant(db, inTransaction, first, targets);
    var s := Delete(db, inTransaction, first, targets).state;
    var doomed := Doomed(db, first, targets);
    forall key, c | key in db.keys && StableParent(db, key) && c in s.rows && c.table == key.child
      ensures Covered(key, s.rows, s.rows[c])
    {
      if !Covered(key, s.rows, s.rows[c]) {
        var p := DanglingIsStranded(db, first, doomed, s, key, c);
        OpenIsDoomed(db, first, doomed, s, c);
      }
    }
  }

  lemma OpenIsDoomed(db: Database, first: Rows, doomed: set<Ref>, s: State, c: Ref)
    requires Invariant(db, first, doomed, s) && c in s.visiting
    ensures c in doomed
  {
  }

  // ----- The final rows as a function of the rows found -------------------------------------

  /** No SET NULL action writes a column of a CASCADE key, a referenced column of
      another SET NULL key, or a child column of another SET NULL key. */
  ghost predicate Tidy(db: Database, first: Rows) {
    forall key | key in db.keys ::
      && (key.onDelete == Cascade ==> StableBoth(db, key))
      && (key.onDelete == SetNull ==> NullsCleanly(db, first, key))
  }

  lemma DeletedClosed(db: Database, first: Rows, doomed: set<Ref>, s: State)
    requires Invariant(db, first, doomed, s) && s.visiting == {} && Tidy(db, first)
    ensures CascadeClosed(db, first, s.deleted)
  {
    hide Justified, Emptied, Leads, Steady;
    forall p, c | p in s.deleted && CascadeEdge(db, first, p, c) ensures c in s.deleted {
      var key :| key in db.keys && key.onDelete == Cascade && Edge(first, key, c, p);
      if c in s.rows {
        AgedIn(db, first, s.rows, c);
        SteadyKey(db, c.table, key.childColumns, first[c], s.rows[c]);
      }
    }
  }

  ghost function Remainder(db: Database, first: Rows, gone: set<Ref>, r: Ref): Row
    requires r in first
  {
    seq(|first[r]|, c requires 0 <= c < |first[r]| => if NullForced(db, first, gone, r, c) then Null else first[r][c])
  }

  /** The rows that stay, each without the cells that SET NULL takes. */
  ghost function Remaining(db: Database, first: Rows, gone: set<Ref>): Rows {
    map r | r in first && r !in gone :: Remainder(db, first, gone, r)
  }

  lemma RemainderIs(db: Database, first: Rows, doomed: set<Ref>, s: State, r: Ref)
    requires Invariant(db, first, doomed, s) && s.visiting == {} && Tidy(db, first) && r in s.rows
    ensures r in first && s.rows[r] == Remainder(db, first, s.deleted, r)
  {
    hide Settled, StableParent, Alone, Single, StableBoth;
    AgedIn(db, first, s.rows, r);
    assert s.visiting + s.deleted == s.deleted;
    forall c: nat | c < |first[r]|
      ensures s.rows[r][c] == if NullForced(db, first, s.deleted, r, c) then Null else first[r][c]
    {
      assert Cell(s.rows[r], c) == s.rows[r][c] && Cell(first[r], c) == first[r][c];
      if NullForced(db, first, s.deleted, r, c) {
        var key, p :| key in db.keys && key.onDelete == SetNull && c in key.childColumns
          && p in s.deleted && Edge(first, key, r, p);
        assert AllNull(s.rows[r], key.childColumns);
        var i :| 0 <= i < |key.childColumns| && key.childColumns[i] == c;
      }
    }
  }

  /** A DELETE that returns normally takes exactly the rows that CASCADE leads to, and
      exactly the cells of SET NULL keys that referred to one of them; the order of
      the targets and of the foreign keys does not matter. */
  lemma DeleteIsExactly(db: Database, inTransaction: bool, first: Rows, targets: seq<Ref>)
    requires DatabaseOk(db) && InRange(db, first) && Found(first, targets) && Tidy(db, first)
    requires Delete(db, inTransaction, first, targets).fault.None?
    ensures var s := Delete(db, inTransaction, first, targets).state;
      && s.deleted == Doomed(db, first, targets)
      && s.rows == Remaining(db, first, Doomed(db, first, targets))
  {
    hide Delete, Doomed, Tidy, Remainder, Settled, Emptied, Justified;
    DeleteInvariant(db, inTransaction, first, targets);
    var s := Delete(db, inTransaction, first, targets).state;
    var doomed := Doomed(db, first, targets);
    DeletedClosed(db, first, doomed, s);
    DoomedLeast(db, first, targets, s.deleted);
    assert s.deleted == doomed;
    forall r | r in s.rows ensures r in first && s.rows[r] == Remainder(db, first, doomed, r) {
      RemainderIs(db, first, doomed, s, r);
    }
  }

  // ----- Keys that the DELETE nulls itself -----------------------------------------------------

  ghost predicate AnyForced(db: Database, first: Rows, gone: set<Ref>, r: Ref, columns: seq<nat>) {
    exists i :: 0 <= i < |columns| && NullForced(db, first, gone, r, columns[i])
  }

  /** The child stays with its reference, but the parent goes or loses its key. */
  ghost predicate Uncovers(db: Database, first: Rows, gone: set<Ref>, key: ForeignKey, c: Ref, p: Ref) {
    && Edge(first, key, c, p) && c !in gone && !AnyForced(db, first, gone, c, key.childColumns)
    && (p in gone || AnyForced(db, first, gone, p, key.parentColumns))
  }

  lemma RemainderCell(db: Database, first: Rows, gone: set<Ref>, r: Ref, c: nat)
    requires r in first
    ensures Cell(Remainder(db, first, gone, r), c) ==
      if NullForced(db, first, gone, r, c) then Null else Cell(first[r], c)
  {
  }

  lemma RemainderKey(db: Database, first: Rows, gone: set<Ref>, r: Ref, columns: seq<nat>)
    requires r in first && !HasNull(columns, first[r])
    ensures HasNull(columns, Remainder(db, first, gone, r)) <==> AnyForced(db, first, gone, r, columns)
    ensures !AnyForced(db, first, gone, r, columns) ==>
      Parts(columns, Remainder(db, first, gone, r)) == Parts(columns, first[r])
  {
    hide NullForced, Remainder;
    forall i | 0 <= i < |columns|
      ensures Cell(Remainder(db, first, gone, r), columns[i]) ==
        if NullForced(db, first, gone, r, columns[i]) then Null else Cell(first[r], columns[i])
    {
      RemainderCell(db, first, gone, r, columns[i]);
    }
  }

  lemma RemainderFades(db: Database, first: Rows, gone: set<Ref>, r: Ref)
    requires r in first
    ensures Faded(db, r.table, first[r], Remainder(db, first, gone, r))
  {
    forall c: nat ensures Cell(Remainder(db, first, gone, r), c) == Cell(first[r], c)
      || (Cell(Remainder(db, first, gone, r), c) == Null && Erodible(db, r.table, c))
    {
      RemainderCell(db, first, gone, r, c);
    }
  }

  lemma RemainingAged(db: Database, first: Rows, gone: set<Ref>)
    ensures Aged(db, first, Remaining(db, first, gone))
  {
    hide Remainder, Faded;
    forall r | r in first ensures Faded(db, r.table, first[r], Remainder(db, first, gone, r)) {
      RemainderFades(db, first, gone, r);
    }
  }

  /** One pair: the child of `p` is covered in what remains exactly if nothing uncovers it. */
  lemma RemainsCovered(db: Database, first: Rows, gone: set<Ref>, key: ForeignKey, c: Ref, p: Ref)
    requires Single(first, key) && Edge(first, key, c, p) && c !in gone
    ensures Covered(key, Remaining(db, first, gone), Remaining(db, first, gone)[c]) <==>
      !Uncovers(db, first, gone, key, c, p)
  {
    hide NullForced, Remainder, HasNull, Parts, AnyForced;
    var rows := Remaining(db, first, gone);
    ParentKeyHasNoNull(key, first[c], first[p]);
    RemainderKey(db, first, gone, c, key.childColumns);
    RemainderKey(db, first, gone, p, key.parentColumns);
    RemainingAged(db, first, gone);
    if !Uncovers(db, first, gone, key, c, p) && !AnyForced(db, first, gone, c, key.childColumns) {
      assert p in rows && Refers(key, rows[c], rows[p]);
    }
    forall q | q in rows && q.table == key.parent && Refers(key, rows[c], rows[q]) ensures q == p {
      ParentWas(db, first, rows, key, c, q);
    }
    forall q | q in rows && q.table == key.parent && Refers(key, rows[c], rows[q])
      ensures !HasNull(key.parentColumns, rows[q])
    {
      ParentKeyHasNoNull(key, rows[c], rows[q]);
    }
  }

  /** A foreign key with unique parents holds after a DELETE that returns normally if
      and only if nothing uncovers it: no row that stays and keeps its reference has a
      parent that goes, or whose referenced columns SET NULL takes.  All of this is
      said of the rows that the DELETE found. */
  lemma KeyHoldsExactly(db: Database, inTransaction: bool, first: Rows, targets: seq<Ref>, key: ForeignKey)
    requires DatabaseOk(db) && InRange(db, first) && Found(first, targets) && Tidy(db, first)
    requires Single(first, key) && NoneDangle(key, first)
    requires Delete(db, inTransaction, first, targets).fault.None?
    ensures NoneDangle(key, Delete(db, inTransaction, first, targets).state.rows) <==>
      !exists c, p :: Uncovers(db, first, Doomed(db, first, targets), key, c, p)
  {
    hide Delete, Doomed, Tidy, Remainder, AnyForced, HasNull, Parts, InRange, DatabaseOk;
    DeleteIsExactly(db, inTransaction, first, targets);
    var gone := Doomed(db, first, targets);
    var rows := Remaining(db, first, gone);
    forall c, p | Edge(first, key, c, p) && c !in gone
      ensures Covered(key, rows, rows[c]) <==> !Uncovers(db, first, gone, key, c, p)
    {
      RemainsCovered(db, first, gone, key, c, p);
    }
    if !NoneDangle(key, rows) {
      var c :| c in rows && c.table == key.child && !Covered(key, rows, rows[c]);
      RemainderFades(db, first, gone, c);
      FadedKey(db, c.table, key.childColumns, first[c], rows[c]);
      assert Covered(key, first, first[c]);
      var p :| p in first && p.table == key.parent && Refers(key, first[c], first[p]);
      assert Edge(first, key, c, p);
      assert Uncovers(db, first, gone, key, c, p);
    }
  }

  // ----- The depth limit ------------------------------------------------------------------------

  ghost predicate DepthOk(s: State, o: Outcome) {
    && (o.fault.None? ==> o.state.visiting == s.visiting)
    && (o.fault == Some(DepthExceeded) ==> |o.state.visiting| >= MAX_DEPTH)
  }

  lemma {:induction false} NullAllDepth(db: Database, inTransaction: bool, before: Rows, s: State, hits: seq<Hit>)
    ensures var o := NullAll(db, inTransaction, before, s, hits);
      o.state.visiting == s.visiting && o.fault != Some(DepthExceeded)
    decreases |hits|
  {
    hide ImageAccepted, NullColumns;
    if hits != [] {
      NullAllDepth(db, inTransaction, before, s, hits[1..]);
      NullAllDepth(db, inTransaction, before, NullChild(db, inTransaction, before, s, hits[0]).state, hits[1..]);
    }
  }

  lemma {:induction false} EraseDepth(
      db: Database, inTransaction: bool, s: State, ref: Ref, row: Row, depth: int)
    requires |s.visiting| == depth - 1
    ensures DepthOk(s, EraseRow(db, inTransaction, s, ref, row, depth))
    decreases MAX_DEPTH + 1 - depth, 1, 0
  {
    hide Collect, NullAll, AnyNoAction, CascadeAll;
    if depth <= MAX_DEPTH && ref !in s.deleted && ref !in s.visiting {
      var hits := Collect(db, s.rows, ref.table, row, |db.keys|);
      CascadeDepth(db, inTransaction, Enter(s, ref), hits, depth);
      NullAllDepth(db, inTransaction, s.rows, CascadeAll(db, inTransaction, Enter(s, ref), hits, depth).state, hits);
    }
  }

  lemma {:induction false} CascadeDepth(db: Database, inTransaction: bool, s: State, hits: seq<Hit>, depth: int)
    requires |s.visiting| == depth <= MAX_DEPTH
    ensures DepthOk(s, CascadeAll(db, inTransaction, s, hits, depth))
    decreases MAX_DEPTH + 1 - depth, 0, |hits|
  {
    hide EraseRow;
    if hits != [] {
      EraseDepth(db, inTransaction, s, hits[0].ref, hits[0].row, depth + 1);
      var o := if hits[0].key.onDelete != Cascade then Outcome(s, None)
               else EraseRow(db, inTransaction, s, hits[0].ref, hits[0].row, depth + 1);
      if o.fault.None? {
        CascadeDepth(db, inTransaction, o.state, hits[1..], depth);
      }
    }
  }

  lemma {:induction false} DeleteAllDepth(
      db: Database, inTransaction: bool, first: Rows, s: State, targets: seq<Ref>)
    requires s.visiting == {} && Found(first, targets)
    ensures DepthOk(s, DeleteAll(db, inTransaction, first, s, targets))
    decreases |targets|
  {
    hide EraseRow;
    if targets != [] {
      var ref := targets[0];
      EraseDepth(db, inTransaction, s, ref, first[ref], 1);
      var o := if ref in s.deleted then Outcome(s, None) else EraseRow(db, inTransaction, s, ref, first[ref], 1);
      if o.fault.None? {
        DeleteAllDepth(db, inTransaction, first, o.state, targets[1..]);
      }
    }
  }

  /** The depth limit rejects only chains of that many different rows that CASCADE
      reaches: cycles do not exhaust it. */
  lemma DepthFaultNeedsRows(db: Database, inTransaction: bool, first: Rows, targets: seq<Ref>)
    requires DatabaseOk(db) && InRange(db, first) && Found(first, targets)
    requires |Doomed(db, first, targets)| < MAX_DEPTH
    ensures Delete(db, inTransaction, first, targets).fault != Some(DepthExceeded)
  {
    hide DeleteAll, Settled, Emptied, Justified, Aged, Doomed;
    DeleteInvariant(db, inTransaction, first, targets);
    DeleteAllDepth(db, inTransaction, first, State(first, {}, {}), targets);
    SubsetSize(Delete(db, inTransaction, first, targets).state.visiting, Doomed(db, first, targets));
  }

  lemma {:induction false} SubsetSize(a: set<Ref>, b: set<Ref>)
    requires a <= b
    ensures |a| <= |b|
    decreases a
  {
    if a != {} {
      var x :| x in a;
      SubsetSize(a - {x}, b - {x});
    }
  }
}
