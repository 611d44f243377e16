/** Two databases on which DELETE leaves a dangling foreign key, and one on which it throws
    although every reference could be nulled. */
module ReferentialFaults {
  import opened Values
  import opened UndoLogs
  import opened Tables
  import opened Referential
  import opened Cascades
  import opened DeleteResults
  import opened DeleteFaults

  /** Integer columns of which the first is a unique key. */
  function Plain(columns: nat): Schema {
    Schema(seq(columns, _ => Column(IntColumn, true)), [[0]], _ => true)
  }

  lemma PlainCollides(columns: nat, a: Row, b: Row)
    ensures Collide(Plain(columns), a, b) <==> Cell(a, 0) == Cell(b, 0) && !Cell(a, 0).Null?
  {
    var key := Plain(columns).uniques[0];
    assert key[0] == 0;
    assert SameKey(key, a, b) <==> Cell(a, 0) == Cell(b, 0) && !Cell(a, 0).Null?;
  }

  function Pair(a: int, b: int): Row {
    [Int(a), Int(b)]
  }

  /** One column of a row decides single-column keys. */
  lemma SingleKey(key: ForeignKey, child: Row, parent: Row, c: nat, p: nat)
    requires key.childColumns == [c] && key.parentColumns == [p]
    ensures Refers(key, child, parent) <==> !Cell(child, c).Null? && Cell(child, c) == Cell(parent, p)
    ensures HasNull(key.childColumns, child) <==> Cell(child, c).Null?
    ensures HasNull(key.parentColumns, parent) <==> Cell(parent, p).Null?
  {
    assert key.childColumns[0] == c && key.parentColumns[0] == p;
    assert Parts(key.childColumns, child) == [Cell(child, c)] && Parts(key.parentColumns, parent) == [Cell(parent, p)];
  }

  lemma FrameReturns(
      db: Database, inTransaction: bool, s: State, ref: Ref, row: Row, depth: int, hits: seq<Hit>, mid: State,
      last: State)
    requires depth <= MAX_DEPTH && ref !in s.deleted && ref !in s.visiting
    requires hits == Collect(db, s.rows, ref.table, row, |db.keys|) && !AnyNoAction(hits)
    requires CascadeAll(db, inTransaction, Enter(s, ref), hits, depth) == Outcome(mid, None)
    requires NullAll(db, inTransaction, s.rows, mid, hits) == Outcome(last, None)
    ensures EraseRow(db, inTransaction, s, ref, row, depth) == Outcome(Leave(last, ref), None)
  {
    hide Collect, CascadeAll, NullAll, Leave;
  }

  // ----- A SET NULL column that is a referenced key ---------------------------------------

  const TO_FIRST := ForeignKey(1, [0], 0, [0], SetNull)
  const TO_SECOND := ForeignKey(2, [0], 1, [0], NoAction)
  const CHAIN := Database([Plain(1), Plain(1), Plain(1)], [TO_FIRST, TO_SECOND], [1, 1, 1])
  const ONE: Row := [Int(1)]
  const CHAIN_ROWS: Rows := map[Ref(0, 0) := ONE, Ref(1, 0) := ONE, Ref(2, 0) := ONE]
  const CHAIN_HIT := Hit(Ref(1, 0), TO_FIRST, ONE)

  lemma ChainHits()
    ensures Collect(CHAIN, CHAIN_ROWS, 0, ONE, 2) == [CHAIN_HIT]
  {
    hide Refers, HasNull, Parts;
    SingleKey(TO_FIRST, ONE, ONE, 0, 0);
    assert Matching(TO_FIRST, CHAIN_ROWS, ONE, 0) == [];
    assert Matching(TO_FIRST, CHAIN_ROWS, ONE, 1) == [CHAIN_HIT];
    assert HitsOf(CHAIN, TO_SECOND, CHAIN_ROWS, 0, ONE) == [];
    assert Collect(CHAIN, CHAIN_ROWS, 0, ONE, 0) == [];
    assert Collect(CHAIN, CHAIN_ROWS, 0, ONE, 1) == [CHAIN_HIT];
  }

  lemma ChainNulls()
    ensures NullAll(CHAIN, true, CHAIN_ROWS, State(CHAIN_ROWS, {Ref(0, 0)}, {}), [CHAIN_HIT])
      == Outcome(State(CHAIN_ROWS[Ref(1, 0) := [Null]], {Ref(0, 0)}, {}), None)
  {
    hide Refers, HasNull, Parts;
    var s := State(CHAIN_ROWS, {Ref(0, 0)}, {});
    var blank := Blank(ONE, 0);
    assert blank == [Null];
    SingleKey(TO_FIRST, blank, ONE, 0, 0);
    assert BlankAll(ONE, [0]) == BlankAll(blank, [0][1..]) == blank;
    var schema := Plain(1);
    assert SchemaOf(CHAIN, 1) == schema && ImageAccepted(CHAIN, CHAIN_ROWS, CHAIN_ROWS, Ref(1, 0), blank);
    assert CHAIN_ROWS[Ref(1, 0)] == ONE;
    var rows := CHAIN_ROWS[Ref(1, 0) := blank];
    assert NullColumns(schema, rows, Ref(1, 0), [0][1..]) == (rows, true);
    assert NullColumns(schema, CHAIN_ROWS, Ref(1, 0), [0]) == (rows, true);
    assert NullChild(CHAIN, true, CHAIN_ROWS, s, CHAIN_HIT) == Outcome(s.(rows := rows), None);
    assert NullAll(CHAIN, true, CHAIN_ROWS, s.(rows := rows), [CHAIN_HIT][1..]) == Outcome(s.(rows := rows), None);
  }

  function ChainLeft(): State {
    Leave(State(CHAIN_ROWS[Ref(1, 0) := [Null]], {Ref(0, 0)}, {}), Ref(0, 0))
  }

  lemma ChainDelete()
    ensures Delete(CHAIN, true, CHAIN_ROWS, [Ref(0, 0)]) == Outcome(ChainLeft(), None)
  {
    hide Refers, HasNull, Parts, Collect, NullAll, EraseRow;
    var start := State(CHAIN_ROWS, {}, {});
    var entered := Enter(start, Ref(0, 0));
    assert entered == State(CHAIN_ROWS, {Ref(0, 0)}, {});
    ChainHits();
    ChainNulls();
    assert CascadeAll(CHAIN, true, entered, [CHAIN_HIT][1..], 1) == Outcome(entered, None);
    assert CascadeAll(CHAIN, true, entered, [CHAIN_HIT], 1) == Outcome(entered, None);
    var nulled := State(CHAIN_ROWS[Ref(1, 0) := [Null]], {Ref(0, 0)}, {});
    FrameReturns(CHAIN, true, start, Ref(0, 0), ONE, 1, [CHAIN_HIT], entered, nulled);
    assert DeleteAll(CHAIN, true, CHAIN_ROWS, ChainLeft(), [Ref(0, 0)][1..]) == Outcome(ChainLeft(), None);
  }

  /** The condition on SET NULL is needed: deleting the row of table 0 nulls the key
      of table 1, to which the row of table 2 still refers. */
  lemma NulledKeyDangles()
    ensures DatabaseOk(CHAIN) && InRange(CHAIN, CHAIN_ROWS) && Unique(CHAIN, CHAIN_ROWS)
    ensures NoneDangle(TO_FIRST, CHAIN_ROWS) && NoneDangle(TO_SECOND, CHAIN_ROWS)
    ensures Delete(CHAIN, true, CHAIN_ROWS, [Ref(0, 0)]).fault == None
    ensures !NoneDangle(TO_SECOND, Delete(CHAIN, true, CHAIN_ROWS, [Ref(0, 0)]).state.rows)
  {
    hide Refers, HasNull, Parts, Delete;
    ChainDelete();
    SingleKey(TO_FIRST, ONE, ONE, 0, 0);
    SingleKey(TO_SECOND, ONE, ONE, 0, 0);
    SingleKey(TO_SECOND, ONE, [Null], 0, 0);
    assert CHAIN_ROWS[Ref(0, 0)] == ONE && CHAIN_ROWS[Ref(1, 0)] == ONE;
    assert Refers(TO_FIRST, ONE, CHAIN_ROWS[Ref(0, 0)]) && Refers(TO_SECOND, ONE, CHAIN_ROWS[Ref(1, 0)]);
    var rows := ChainLeft().rows;
    assert Ref(2, 0) in rows && rows[Ref(2, 0)] == ONE;
    assert forall p :: p in rows && p.table == 1 ==> rows[p] == [Null];
    assert !Covered(TO_SECOND, rows, rows[Ref(2, 0)]);
  }

  // ----- An exception inside a cycle ----------------------------------------------------------

  const LOOP_KEY := ForeignKey(0, [1], 0, [0], Cascade)
  const OUTER_KEY := ForeignKey(1, [0], 0, [0], NoAction)
  const LOOP := Database([Plain(2), Plain(1)], [LOOP_KEY, OUTER_KEY], [3, 1])

  const X := Ref(0, 0)
  const Y := Ref(0, 1)
  const Z := Ref(0, 2)

  /** Rows 1 and 2 refer to each other, row 3 to row 1, and another table to row 3. */
  const LOOP_ROWS: Rows := map[X := Pair(1, 2), Y := Pair(2, 1), Z := Pair(3, 1), Ref(1, 0) := [Int(3)]]

  lemma LoopKeys(rows: Rows, n: int, k: int)
    requires forall r :: r in rows ==> r in LOOP_ROWS && rows[r] == LOOP_ROWS[r]
    ensures forall r ::
      r in rows && r.table == 0 ==> (Refers(LOOP_KEY, rows[r], Pair(n, k)) <==> Cell(rows[r], 1) == Int(n))
    ensures forall r :: r in rows && r.table == 1 ==> (Refers(OUTER_KEY, rows[r], Pair(n, k)) <==> n == 3)
    ensures !HasNull([0], Pair(n, k))
  {
    hide Refers, HasNull, Parts;
    SingleKey(LOOP_KEY, Pair(n, k), Pair(n, k), 1, 0);
    forall r | r in rows && r.table == 0 ensures Refers(LOOP_KEY, rows[r], Pair(n, k)) <==> Cell(rows[r], 1) == Int(n) {
      SingleKey(LOOP_KEY, rows[r], Pair(n, k), 1, 0);
    }
    forall r | r in rows && r.table == 1 ensures Refers(OUTER_KEY, rows[r], Pair(n, k)) <==> n == 3 {
      SingleKey(OUTER_KEY, rows[r], Pair(n, k), 0, 0);
    }
  }

  function HitAt(r: Ref): Hit
    requires r in LOOP_ROWS
  {
    Hit(r, if r.table == 0 then LOOP_KEY else OUTER_KEY, LOOP_ROWS[r])
  }

  lemma LoopHits(rows: Rows, n: int, k: int)
    requires rows == LOOP_ROWS || rows == LOOP_ROWS - {Y}
    requires n == 3 ==> rows == LOOP_ROWS - {Y}
    ensures n == 1 && rows == LOOP_ROWS ==> Collect(LOOP, rows, 0, Pair(n, k), 2) == [HitAt(Y), HitAt(Z)]
    ensures n == 2 && rows == LOOP_ROWS ==> Collect(LOOP, rows, 0, Pair(n, k), 2) == [HitAt(X)]
    ensures n == 3 ==> Collect(LOOP, rows, 0, Pair(n, k), 2) == [HitAt(Ref(1, 0))]
  {
    hide Refers, HasNull, Parts;
    LoopKeys(rows, n, k);
    var row := Pair(n, k);
    assert Matching(LOOP_KEY, rows, row, 0) == [];
    assert Matching(LOOP_KEY, rows, row, 1) == if n == 2 then [HitAt(X)] else [];
    assert Matching(LOOP_KEY, rows, row, 2) ==
      Matching(LOOP_KEY, rows, row, 1) + if n == 1 && Y in rows then [HitAt(Y)] else [];
    assert Matching(LOOP_KEY, rows, row, 3) == Matching(LOOP_KEY, rows, row, 2) + if n == 1 then [HitAt(Z)] else [];
    assert Matching(OUTER_KEY, rows, row, 0) == [];
    assert Matching(OUTER_KEY, rows, row, 1) == if n == 3 then [HitAt(Ref(1, 0))] else [];
    assert Collect(LOOP, rows, 0, row, 0) == [];
    assert Collect(LOOP, rows, 0, row, 1) == Matching(LOOP_KEY, rows, row, 3);
    assert Collect(LOOP, rows, 0, row, 2) == Matching(LOOP_KEY, rows, row, 3) + Matching(OUTER_KEY, rows, row, 1);
  }

  /** The frame of row 2 finds row 1 open, and deletes row 2. */
  lemma InnerFrame(inTransaction: bool)
    ensures EraseRow(LOOP, inTransaction, State(LOOP_ROWS, {X}, {}), Y, LOOP_ROWS[Y], 2) ==
      Outcome(State(LOOP_ROWS - {Y}, {X}, {Y}), None)
  {
    hide Collect;
    var s := State(LOOP_ROWS, {X}, {});
    var entered := Enter(s, Y);
    LoopHits(LOOP_ROWS, 2, 1);
    assert LOOP_ROWS[Y] == Pair(2, 1);
    assert EraseRow(LOOP, inTransaction, entered, X, LOOP_ROWS[X], 3) == Outcome(entered, None);
    assert CascadeAll(LOOP, inTransaction, entered, [HitAt(X)][1..], 2) == Outcome(entered, None);
    assert CascadeAll(LOOP, inTransaction, entered, [HitAt(X)], 2) == Outcome(entered, None);
    assert NullAll(LOOP, inTransaction, LOOP_ROWS, entered, [HitAt(X)][1..]) == Outcome(entered, None);
    assert NullAll(LOOP, inTransaction, LOOP_ROWS, entered, [HitAt(X)]) == Outcome(entered, None);
    FrameReturns(LOOP, inTransaction, s, Y, LOOP_ROWS[Y], 2, [HitAt(X)], entered, entered);
    assert Leave(entered, Y) == State(LOOP_ROWS - {Y}, {X}, {Y});
  }

  lemma LastFrame(inTransaction: bool)
    ensures EraseRow(LOOP, inTransaction, State(LOOP_ROWS - {Y}, {X}, {Y}), Z, LOOP_ROWS[Z], 2)
      == Outcome(State(LOOP_ROWS - {Y}, {X, Z}, {Y}), Some(StillReferenced))
  {
    hide Collect;
    var s := State(LOOP_ROWS - {Y}, {X}, {Y});
    assert LOOP_ROWS[Z] == Pair(3, 1);
    LoopHits(s.rows, 3, 1);
    assert AnyNoAction([HitAt(Ref(1, 0))]) by { assert [HitAt(Ref(1, 0))][0].key == OUTER_KEY; }
    assert Enter(s, Z) == State(LOOP_ROWS - {Y}, {X, Z}, {Y});
  }

  lemma LoopDelete(inTransaction: bool)
    ensures Delete(LOOP, inTransaction, LOOP_ROWS, [X]) ==
      Outcome(State(LOOP_ROWS - {Y}, {X, Z}, {Y}), Some(StillReferenced))
  {
    hide Collect, NullAll;
    var s := State(LOOP_ROWS, {}, {});
    var entered := Enter(s, X);
    assert entered == State(LOOP_ROWS, {X}, {});
    assert LOOP_ROWS[X] == Pair(1, 2);
    LoopHits(LOOP_ROWS, 1, 2);
    InnerFrame(inTransaction);
    LastFrame(inTransaction);
    var hits := [HitAt(Y), HitAt(Z)];
    assert hits[1..] == [HitAt(Z)];
    var mid := State(LOOP_ROWS - {Y}, {X}, {Y});
    var last := Outcome(State(LOOP_ROWS - {Y}, {X, Z}, {Y}), Some(StillReferenced));
    assert CascadeAll(LOOP, inTransaction, mid, hits[1..], 1) == last;
    assert CascadeAll(LOOP, inTransaction, entered, hits, 1) == last;
    assert EraseRow(LOOP, inTransaction, s, X, LOOP_ROWS[X], 1) == last;
  }

  lemma LoopIsSound()
    ensures DatabaseOk(LOOP) && InRange(LOOP, LOOP_ROWS) && Unique(LOOP, LOOP_ROWS)
  {
    forall p, q | p in LOOP_ROWS && q in LOOP_ROWS && p.table == q.table && p != q
      ensures !Collide(SchemaOf(LOOP, p.table), LOOP_ROWS[p], LOOP_ROWS[q])
    {
      assert Cell(LOOP_ROWS[p], 0) != Cell(LOOP_ROWS[q], 0);
      PlainCollides(2, LOOP_ROWS[p], LOOP_ROWS[q]);
    }
  }

  /** An exception stops the statement half way and nothing undoes it: row 2 is
      gone, row 1 that refers to it is not. */
  lemma ThrownDeleteDangles(inTransaction: bool)
    ensures DatabaseOk(LOOP) && InRange(LOOP, LOOP_ROWS) && Unique(LOOP, LOOP_ROWS)
    ensures NoneDangle(LOOP_KEY, LOOP_ROWS) && NoneDangle(OUTER_KEY, LOOP_ROWS)
    ensures Delete(LOOP, inTransaction, LOOP_ROWS, [X]).fault == Some(StillReferenced)
    ensures !NoneDangle(LOOP_KEY, Delete(LOOP, inTransaction, LOOP_ROWS, [X]).state.rows)
  {
    hide Refers, HasNull, Parts, Delete, DatabaseOk, Unique, InRange;
    LoopIsSound();
    LoopDelete(inTransaction);
    var rows := LOOP_ROWS - {Y};
    LoopKeys(LOOP_ROWS, 1, 2);
    LoopKeys(LOOP_ROWS, 2, 1);
    LoopKeys(LOOP_ROWS, 3, 1);
    assert LOOP_ROWS[X] == Pair(1, 2) && LOOP_ROWS[Y] == Pair(2, 1) && LOOP_ROWS[Z] == Pair(3, 1);
    assert X in rows && rows[X] == Pair(1, 2);
    SingleKey(LOOP_KEY, rows[X], rows[X], 1, 0);
    forall p | p in rows && p.table == 0 ensures !Refers(LOOP_KEY, rows[X], rows[p]) {
      SingleKey(LOOP_KEY, rows[X], rows[p], 1, 0);
    }
    assert !Covered(LOOP_KEY, rows, rows[X]);
  }

  // ----- A child whose image is out of date --------------------------------------------------

  const DOWN := ForeignKey(1, [1], 0, [0], Cascade)
  const TO_UPPER := ForeignKey(2, [0], 0, [0], SetNull)
  const TO_LOWER := ForeignKey(2, [1], 1, [0], SetNull)
  const WEB := Database([Plain(1), Plain(2), Plain(2)], [DOWN, TO_UPPER, TO_LOWER], [1, 1, 1])
  const UPPER := Ref(0, 0)
  const LOWER := Ref(1, 0)
  const BOTH := Ref(2, 0)
  const WEB_ROWS: Rows := map[UPPER := ONE, LOWER := Pair(1, 1), BOTH := Pair(1, 1)]
  const HALF: Row := [Int(1), Null]
  const DOWN_HIT := Hit(LOWER, DOWN, Pair(1, 1))
  const UPPER_HIT := Hit(BOTH, TO_UPPER, Pair(1, 1))
  const LOWER_HIT := Hit(BOTH, TO_LOWER, Pair(1, 1))
  const NULLED_ROWS: Rows := WEB_ROWS[BOTH := HALF]

  lemma WebKeys(child: Row, parent: Row)
    ensures Refers(DOWN, child, parent) <==> !Cell(child, 1).Null? && Cell(child, 1) == Cell(parent, 0)
    ensures Refers(TO_UPPER, child, parent) <==> !Cell(child, 0).Null? && Cell(child, 0) == Cell(parent, 0)
    ensures Refers(TO_LOWER, child, parent) <==> !Cell(child, 1).Null? && Cell(child, 1) == Cell(parent, 0)
    ensures HasNull(TO_UPPER.childColumns, child) <==> Cell(child, 0).Null?
    ensures HasNull(TO_LOWER.childColumns, child) <==> Cell(child, 1).Null?
    ensures HasNull(DOWN.childColumns, child) <==> Cell(child, 1).Null?
    ensures HasNull([0], parent) <==> Cell(parent, 0).Null?
  {
    hide Refers, HasNull, Parts;
    SingleKey(DOWN, child, parent, 1, 0);
    SingleKey(TO_UPPER, child, parent, 0, 0);
    SingleKey(TO_LOWER, child, parent, 1, 0);
  }

  lemma UpperHits()
    ensures Collect(WEB, WEB_ROWS, 0, ONE, 3) == [DOWN_HIT, UPPER_HIT]
  {
    hide Refers, HasNull, Parts;
    WebKeys(Pair(1, 1), ONE);
    assert Matching(DOWN, WEB_ROWS, ONE, 0) == [] && Matching(DOWN, WEB_ROWS, ONE, 1) == [DOWN_HIT];
    assert Matching(TO_UPPER, WEB_ROWS, ONE, 0) == [] && Matching(TO_UPPER, WEB_ROWS, ONE, 1) == [UPPER_HIT];
    assert HitsOf(WEB, TO_LOWER, WEB_ROWS, 0, ONE) == [];
    assert Collect(WEB, WEB_ROWS, 0, ONE, 0) == [] && Collect(WEB, WEB_ROWS, 0, ONE, 1) == [DOWN_HIT];
    assert Collect(WEB, WEB_ROWS, 0, ONE, 2) == [DOWN_HIT, UPPER_HIT];
  }

  lemma LowerHits()
    ensures Collect(WEB, WEB_ROWS, 1, Pair(1, 1), 3) == [LOWER_HIT]
  {
    hide Refers, HasNull, Parts;
    WebKeys(Pair(1, 1), Pair(1, 1));
    assert HitsOf(WEB, DOWN, WEB_ROWS, 1, Pair(1, 1)) == [] && HitsOf(WEB, TO_UPPER, WEB_ROWS, 1, Pair(1, 1)) == [];
    assert Matching(TO_LOWER, WEB_ROWS, Pair(1, 1), 0) == [];
    assert Matching(TO_LOWER, WEB_ROWS, Pair(1, 1), 1) == [LOWER_HIT];
    assert Collect(WEB, WEB_ROWS, 1, Pair(1, 1), 0) == [] && Collect(WEB, WEB_ROWS, 1, Pair(1, 1), 1) == [];
    assert Collect(WEB, WEB_ROWS, 1, Pair(1, 1), 2) == [];
  }

  lemma LowerNulls()
    ensures NullAll(WEB, true, WEB_ROWS, State(WEB_ROWS, {UPPER, LOWER}, {}), [LOWER_HIT])
      == Outcome(State(NULLED_ROWS, {UPPER, LOWER}, {}), None)
  {
    hide Refers, HasNull, Parts;
    var s := State(WEB_ROWS, {UPPER, LOWER}, {});
    assert Blank(Pair(1, 1), 1) == HALF;
    assert BlankAll(Pair(1, 1), [1]) == BlankAll(HALF, [1][1..]) == HALF;
    WebKeys(HALF, ONE);
    assert WEB_ROWS[UPPER] == ONE && UPPER in WEB_ROWS;
    assert Covered(TO_UPPER, WEB_ROWS, HALF) && Covered(TO_LOWER, WEB_ROWS, HALF);
    var schema := Plain(2);
    assert SchemaOf(WEB, 2) == schema;
    assert ImageAccepted(WEB, WEB_ROWS, WEB_ROWS, BOTH, HALF);
    assert WEB_ROWS[BOTH] == Pair(1, 1);
    assert NullColumns(schema, NULLED_ROWS, BOTH, [1][1..]) == (NULLED_ROWS, true);
    assert NullColumns(schema, WEB_ROWS, BOTH, [1]) == (NULLED_ROWS, true);
    assert NullChild(WEB, true, WEB_ROWS, s, LOWER_HIT) == Outcome(s.(rows := NULLED_ROWS), None);
    assert NullAll(WEB, true, WEB_ROWS, s.(rows := NULLED_ROWS), [LOWER_HIT][1..]) ==
      Outcome(s.(rows := NULLED_ROWS), None);
  }

  lemma LowerFrame()
    ensures EraseRow(WEB, true, State(WEB_ROWS, {UPPER}, {}), LOWER, Pair(1, 1), 2)
      == Outcome(State(NULLED_ROWS - {LOWER}, {UPPER}, {LOWER}), None)
  {
    hide Refers, HasNull, Parts, Collect, NullAll;
    var s := State(WEB_ROWS, {UPPER}, {});
    var entered := Enter(s, LOWER);
    assert entered == State(WEB_ROWS, {UPPER, LOWER}, {});
    LowerHits();
    LowerNulls();
    assert CascadeAll(WEB, true, entered, [LOWER_HIT][1..], 2) == Outcome(entered, None);
    assert CascadeAll(WEB, true, entered, [LOWER_HIT], 2) == Outcome(entered, None);
    var nulled := State(NULLED_ROWS, {UPPER, LOWER}, {});
    FrameReturns(WEB, true, s, LOWER, Pair(1, 1), 2, [LOWER_HIT], entered, nulled);
    assert Leave(nulled, LOWER) == State(NULLED_ROWS - {LOWER}, {UPPER}, {LOWER});
  }

  lemma UpperRejects()
    ensures NullAll(WEB, true, WEB_ROWS, State(NULLED_ROWS - {LOWER}, {UPPER}, {LOWER}), [DOWN_HIT, UPPER_HIT])
      == Outcome(State(NULLED_ROWS - {LOWER}, {UPPER}, {LOWER}), Some(Rejected))
  {
    hide Refers, HasNull, Parts;
    var s := State(NULLED_ROWS - {LOWER}, {UPPER}, {LOWER});
    var image := [Null, Int(1)];
    assert Blank(Pair(1, 1), 0) == image;
    assert BlankAll(Pair(1, 1), [0]) == BlankAll(image, [0][1..]) == image;
    WebKeys(image, ONE);
    assert forall p :: p in s.rows ==> p.table != 1;
    assert !Covered(TO_LOWER, s.rows, image);
    assert WEB.keys[2] == TO_LOWER;
    assert !ImageAccepted(WEB, s.rows, s.rows, BOTH, image);
    assert NullChild(WEB, true, WEB_ROWS, s, UPPER_HIT) == Outcome(s, Some(Rejected));
    assert [DOWN_HIT, UPPER_HIT][1..] == [UPPER_HIT];
    assert NullAll(WEB, true, WEB_ROWS, s, [UPPER_HIT]) == Outcome(s, Some(Rejected));
  }

  lemma UpperFrame()
    ensures EraseRow(WEB, true, State(WEB_ROWS, {}, {}), UPPER, ONE, 1).fault == Some(Rejected)
  {
    hide Refers, HasNull, Parts, Collect, NullAll;
    var s := State(WEB_ROWS, {}, {});
    var entered, mid := Enter(s, UPPER), State(NULLED_ROWS - {LOWER}, {UPPER}, {LOWER});
    assert entered == State(WEB_ROWS, {UPPER}, {});
    UpperHits();
    LowerFrame();
    UpperRejects();
    UpperCascades();
    assert !AnyNoAction([DOWN_HIT, UPPER_HIT]);
  }

  lemma UpperCascades()
    ensures CascadeAll(WEB, true, State(WEB_ROWS, {UPPER}, {}), [DOWN_HIT, UPPER_HIT], 1)
      == Outcome(State(NULLED_ROWS - {LOWER}, {UPPER}, {LOWER}), None)
  {
    hide EraseRow;
    var mid := State(NULLED_ROWS - {LOWER}, {UPPER}, {LOWER});
    LowerFrame();
    assert [DOWN_HIT, UPPER_HIT][1..] == [UPPER_HIT] && [UPPER_HIT][1..] == [];
    assert CascadeAll(WEB, true, mid, [], 1) == Outcome(mid, None);
    assert CascadeAll(WEB, true, mid, [UPPER_HIT], 1) == Outcome(mid, None);
  }

  lemma WebIsSound()
    ensures Sound(WEB, WEB_ROWS)
  {
    hide Refers, HasNull, Parts;
    WebKeys(Pair(1, 1), ONE);
    WebKeys(Pair(1, 1), Pair(1, 1));
    assert WEB_ROWS[UPPER] == ONE && WEB_ROWS[LOWER] == Pair(1, 1) && WEB_ROWS[BOTH] == Pair(1, 1);
    assert Covered(DOWN, WEB_ROWS, Pair(1, 1)) && Covered(TO_UPPER, WEB_ROWS, Pair(1, 1));
    assert Covered(TO_LOWER, WEB_ROWS, Pair(1, 1));
  }

  /** Inside a transaction the DELETE of a row throws although every reference to it and to
      what it takes along may be nulled: the second image of the child still holds the
      reference that the first SET NULL has taken. */
  lemma StaleImageIsRejected()
    ensures Sound(WEB, WEB_ROWS)
    ensures Delete(WEB, true, WEB_ROWS, [UPPER]).fault == Some(Rejected)
    ensures DOWN.onDelete == Cascade && TO_UPPER.onDelete == SetNull && TO_LOWER.onDelete == SetNull
  {
    hide EraseRow, Sound;
    WebIsSound();
    UpperFrame();
    assert WEB_ROWS[UPPER] == ONE;
  }
}
