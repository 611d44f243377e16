/** What the table promises of its indexes is what the scan and join executors
    rely on, for a reader to whom the live rows are visible. */
module IndexReads {
  import opened Values
  import opened LikePatterns
  import opened RowStores
  import opened UndoLogs
  import opened Predicates
  import opened Plans
  import opened Planner
  import opened Repeats
  import opened Tables
  import Scans
  import JoinRows
  import Joins

  /** The reader sees the live rows, in their current form. */
  ghost predicate SeesLive(h: Tables.Heap, rows: map<RowId, Row>) {
    && (forall id :: id in rows <==> IsLive(h, id))
    && (forall id :: id in rows && IsLive(h, id) ==> rows[id] == h.slots[id].value)
  }

  /** Columns are found by name. */
  ghost predicate ByName(env: Env, columns: seq<string>) {
    forall row, i :: 0 <= i < |columns| ==> env.cell(row, columns[i]) == Cell(row, i)
  }

  // ----- What the lookups return -------------------------------------------------------

  function Flatten(p: Postings, keys: seq<Value>): seq<RowId> {
    if keys == [] then [] else Flatten(p, keys[..|keys| - 1]) + Find(p, keys[|keys| - 1])
  }

  /** The postings of every key in the range, key after key. */
  ghost predicate Gathers(p: Postings, op: CompareOp, v: Value, ids: seq<RowId>) {
    exists keys :: Distinct(keys) && (forall k :: k in keys <==> k in p && Compare(k, op, v)) && ids == Flatten(p, keys)
  }

  ghost predicate ServesColumn(idx: Scans.Indexes, c: string, p: Postings) {
    && (forall v :: idx.find(c, None, v) == Some(Find(p, v)))
    && (forall op, v :: idx.range(c, None, op, v).Some? && Gathers(p, op, v, idx.range(c, None, op, v).value))
  }

  /** Trigram indexes are kept on the hash side only. */
  ghost predicate ServesTrigrams(idx: Scans.Indexes, c: string, p: Postings) {
    && (forall d, v :: idx.find(d, Some(Trigram(c)), v) == Some(Find(p, v)))
    && (forall d, op, v :: idx.range(d, Some(Trigram(c)), op, v) == Some([]))
  }

  ghost predicate ServesAll(idx: Scans.Indexes, cs: seq<string>, p: Postings) {
    forall vs :: idx.findAll(cs, vs) == Some(Find(p, Composite(vs)))
  }

  ghost predicate Positions(columns: seq<string>, cs: seq<string>, at: seq<nat>) {
    |at| == |cs| && forall i :: 0 <= i < |cs| ==> at[i] < |columns| && columns[at[i]] == cs[i]
  }

  ghost predicate HasColumn(t: Table, columns: seq<string>, idx: Scans.Indexes, c: string)
    reads t
  {
    exists name, i: nat ::
      && i < |columns| && columns[i] == c && name in t.defs && name in t.indexes && t.defs[name] == OnColumns([i])
      && ServesColumn(idx, c, t.indexes[name])
  }

  ghost predicate HasTrigrams(t: Table, columns: seq<string>, idx: Scans.Indexes, c: string)
    reads t
  {
    exists name, i: nat ::
      && i < |columns| && columns[i] == c && name in t.defs && name in t.indexes && t.defs[name] == OnTrigrams(i)
      && ServesTrigrams(idx, c, t.indexes[name])
  }

  ghost predicate HasAll(t: Table, columns: seq<string>, idx: Scans.Indexes, cs: seq<string>)
    reads t
  {
    exists name, at ::
      && Positions(columns, cs, at) && name in t.defs && name in t.indexes && t.defs[name] == OnColumns(at)
      && ServesAll(idx, cs, t.indexes[name])
  }

  /** Every index of the catalog is one of the table's, whichever it is. */
  ghost predicate Served(t: Table, columns: seq<string>, idx: Scans.Indexes, cat: Catalog)
    reads t
  {
    && (forall c :: c in cat.columns ==> HasColumn(t, columns, idx, c))
    && (forall e :: e in cat.exprs ==> e.Trigram? && HasTrigrams(t, columns, idx, e.column))
    && (forall cs :: cs in cat.composites && |cs| >= 2 ==> HasAll(t, columns, idx, cs))
  }

  // ----- Key by key ----------------------------------------------------------------------

  lemma ListsCell(p: Postings, h: Tables.Heap, i: nat, v: Value, id: RowId)
    requires Agrees(OnColumns([i]), p, h) && IsLive(h, id)
    ensures Times(Find(p, v), id) == Once(Cell(h.slots[id].value, i) == v)
  {
    assert KeysFor(OnColumns([i]), h.slots[id].value) == [Cell(h.slots[id].value, i)];
    assert Listed(p, v, id) == Carries(OnColumns([i]), h, id, v);
  }

  lemma {:induction false} FlattenCounts(p: Postings, h: Tables.Heap, i: nat, keys: seq<Value>, id: RowId)
    requires Agrees(OnColumns([i]), p, h) && IsLive(h, id) && Distinct(keys)
    ensures Times(Flatten(p, keys), id) == Once(Cell(h.slots[id].value, i) in keys)
  {
    hide Agrees;
    if keys != [] {
      var init, last := keys[..|keys| - 1], keys[|keys| - 1];
      assert keys == init + [last];
      FlattenCounts(p, h, i, init, id);
      ListsCell(p, h, i, last, id);
    }
  }

  lemma RangeCounts(p: Postings, h: Tables.Heap, i: nat, op: CompareOp, v: Value, ids: seq<RowId>, id: RowId)
    requires Agrees(OnColumns([i]), p, h) && IsLive(h, id) && Gathers(p, op, v, ids)
    ensures Times(ids, id) == Once(Compare(Cell(h.slots[id].value, i), op, v))
  {
    hide Agrees, Compare;
    var keys :| Distinct(keys) && (forall k :: k in keys <==> k in p && Compare(k, op, v)) && ids == Flatten(p, keys);
    FlattenCounts(p, h, i, keys, id);
    ListsCell(p, h, i, Cell(h.slots[id].value, i), id);
  }

  lemma {:induction false} WrapCounts(grams: seq<string>, keys: seq<Value>, s: string)
    requires |keys| == |grams| && forall i :: 0 <= i < |grams| ==> keys[i] == Str(grams[i])
    ensures Times(keys, Str(s)) == Times(grams, s)
  {
    if grams != [] {
      var n := |grams| - 1;
      assert grams == grams[..n] + [grams[n]] && keys == keys[..n] + [keys[n]];
      WrapCounts(grams[..n], keys[..n], s);
    }
  }

  lemma ListsGrams(p: Postings, h: Tables.Heap, i: nat, v: Value, id: RowId)
    requires Agrees(OnTrigrams(i), p, h) && IsLive(h, id)
    ensures var cell := Cell(h.slots[id].value, i);
            Times(Find(p, v), id) == if cell.Str? && v.Str? then Times(Grams(cell.s), v.s) else 0
  {
    var cell := Cell(h.slots[id].value, i);
    var keys := KeysFor(OnTrigrams(i), h.slots[id].value);
    assert Listed(p, v, id) == Carries(OnTrigrams(i), h, id, v);
    if cell.Str? && v.Str? {
      WrapCounts(Grams(cell.s), keys, v.s);
    } else {
      TimesIn(keys, v);
    }
  }

  lemma ListsParts(env: Env, columns: seq<string>, cs: seq<string>, at: seq<nat>, p: Postings, h: Tables.Heap,
                   vs: seq<Value>, id: RowId)
    requires ByName(env, columns) && Positions(columns, cs, at) && |cs| >= 2
    requires Agrees(OnColumns(at), p, h) && IsLive(h, id)
    ensures Times(Find(p, Composite(vs)), id) == Once(CompositeHolds(env, cs, vs, h.slots[id].value))
  {
    var row := h.slots[id].value;
    assert KeysFor(OnColumns(at), row) == [Composite(Parts(at, row))];
    assert Listed(p, Composite(vs), id) == Carries(OnColumns(at), h, id, Composite(vs));
    forall i | 0 <= i < |cs| ensures Parts(at, row)[i] == env.cell(row, cs[i]) {
      assert env.cell(row, columns[at[i]]) == Cell(row, at[i]);
    }
    assert CompositeHolds(env, cs, vs, row) <==> vs == Parts(at, row);
  }

  // ----- The scan executor's indexes -------------------------------------------------------

  lemma ColumnIsFaithful(t: Table, columns: seq<string>, env: Env, idx: Scans.Indexes, rows: Scans.Visible, c: string)
    requires t.Structured() && SeesLive(t.heap, rows) && ByName(env, columns) && HasColumn(t, columns, idx, c)
    ensures forall v :: idx.find(c, None, v).Some?
    ensures forall op, v :: idx.range(c, None, op, v).Some?
    ensures forall v, id :: id in rows ==>
      Times(idx.find(c, None, v).value, id) == ProbeTimes(env, Probe(c, None, v), rows[id])
    ensures forall op, v, id :: id in rows ==>
      Times(idx.range(c, None, op, v).value, id) == Once(RangeHolds(env, c, None, op, v, rows[id]))
  {
    hide HeapOk, Agrees, Gathers, Times, Find, Compare;
    var name, i: nat :|
      && i < |columns| && columns[i] == c && name in t.defs && name in t.indexes && t.defs[name] == OnColumns([i])
      && ServesColumn(idx, c, t.indexes[name]);
    var p := t.indexes[name];
    forall v, id | id in rows
      ensures Times(idx.find(c, None, v).value, id) == ProbeTimes(env, Probe(c, None, v), rows[id])
    {
      ListsCell(p, t.heap, i, v, id);
      assert env.cell(rows[id], columns[i]) == Cell(rows[id], i);
    }
    forall op, v, id | id in rows
      ensures Times(idx.range(c, None, op, v).value, id) == Once(RangeHolds(env, c, None, op, v, rows[id]))
    {
      RangeCounts(p, t.heap, i, op, v, idx.range(c, None, op, v).value, id);
      assert env.cell(rows[id], columns[i]) == Cell(rows[id], i);
    }
  }

  lemma TrigramsAreFaithful(t: Table, columns: seq<string>, env: Env, idx: Scans.Indexes, rows: Scans.Visible,
                            c: string)
    requires t.Structured() && SeesLive(t.heap, rows) && ByName(env, columns) && HasTrigrams(t, columns, idx, c)
    ensures forall d, v :: idx.find(d, Some(Trigram(c)), v).Some?
    ensures forall d, op, v :: idx.range(d, Some(Trigram(c)), op, v) == Some([])
    ensures forall d, v, id :: id in rows ==>
      Times(idx.find(d, Some(Trigram(c)), v).value, id) == ProbeTimes(env, Probe(d, Some(Trigram(c)), v), rows[id])
  {
    hide HeapOk, Agrees, Times, Find, Grams;
    var name, i: nat :|
      && i < |columns| && columns[i] == c && name in t.defs && name in t.indexes && t.defs[name] == OnTrigrams(i)
      && ServesTrigrams(idx, c, t.indexes[name]);
    forall d, v, id | id in rows
      ensures Times(idx.find(d, Some(Trigram(c)), v).value, id) ==
        ProbeTimes(env, Probe(d, Some(Trigram(c)), v), rows[id])
    {
      ListsGrams(t.indexes[name], t.heap, i, v, id);
      assert env.cell(rows[id], columns[i]) == Cell(rows[id], i);
    }
  }

  lemma CompositeIsFaithful(t: Table, columns: seq<string>, env: Env, idx: Scans.Indexes, rows: Scans.Visible,
                            cs: seq<string>)
    requires t.Structured() && SeesLive(t.heap, rows) && ByName(env, columns)
    requires |cs| >= 2 && HasAll(t, columns, idx, cs)
    ensures forall vs :: idx.findAll(cs, vs).Some?
    ensures forall vs, id :: id in rows ==>
      Times(idx.findAll(cs, vs).value, id) == Once(CompositeHolds(env, cs, vs, rows[id]))
  {
    hide HeapOk, Agrees, Times, Find, CompositeHolds;
    var name, at :|
      && Positions(columns, cs, at) && name in t.defs && name in t.indexes && t.defs[name] == OnColumns(at)
      && ServesAll(idx, cs, t.indexes[name]);
    forall vs, id | id in rows
      ensures Times(idx.findAll(cs, vs).value, id) == Once(CompositeHolds(env, cs, vs, rows[id]))
    {
      ListsParts(env, columns, cs, at, t.indexes[name], t.heap, vs, id);
    }
  }

  /** A table in order answers the scan executor's lookups as the executor expects:
      the postings hold each visible row under its keys, as often as it carries them. */
  lemma TableIsFaithful(t: Table, columns: seq<string>, env: Env, cat: Catalog, idx: Scans.Indexes, rows: Scans.Visible)
    requires t.Structured() && SeesLive(t.heap, rows) && ByName(env, columns) && Served(t, columns, idx, cat)
    ensures Scans.Faithful(env, cat, idx, rows)
  {
    hide SeesLive, ByName, HasColumn, HasTrigrams, HasAll, ProbeTimes, CompositeHolds, Times, Agrees, HeapOk;
    forall c, e: Option<IndexExpression> | HasIndex(cat, c, e)
      ensures forall v :: idx.find(c, e, v).Some?
      ensures forall v, id :: id in rows ==>
        Times(idx.find(c, e, v).value, id) == ProbeTimes(env, Probe(c, e, v), rows[id])
      ensures forall op, v :: idx.range(c, e, op, v).Some?
      ensures forall op, v, id :: id in rows ==>
        Times(idx.range(c, e, op, v).value, id) == Once(RangeHolds(env, c, e, op, v, rows[id]))
    {
      if e.Some? {
        TrigramsAreFaithful(t, columns, env, idx, rows, e.value.column);
        NoTimes();
      } else {
        ColumnIsFaithful(t, columns, env, idx, rows, c);
      }
    }
    forall cs | cs in cat.composites && |cs| >= 2
      ensures forall vs :: idx.findAll(cs, vs).Some?
      ensures forall vs, id :: id in rows ==>
        Times(idx.findAll(cs, vs).value, id) == Once(CompositeHolds(env, cs, vs, rows[id]))
    {
      CompositeIsFaithful(t, columns, env, idx, rows, cs);
    }
  }

  lemma NoTimes()
    ensures forall id: RowId :: Times([], id) == 0
  {
  }

  // ----- The join executor's indexes -------------------------------------------------------

  lemma OnceEach<T>(s: seq<T>)
    requires forall x :: Times(s, x) <= 1
    ensures Distinct(s)
  {
    forall i, j | 0 <= i < j < |s| ensures s[i] != s[j] {
      assert s == s[..j] + [s[j]] + s[j + 1..];
      assert Times(s, s[j]) == Times(s[..j], s[j]) + 1 + Times(s[j + 1..], s[j]);
      TimesIn(s[..j], s[j]);
      assert s[..j][i] == s[i];
    }
  }

  /** The same table answers the join executor's lookups as that executor expects. */
  lemma TableIsJoinable(t: Table, r: Joins.Relation, c: string, name: string, i: nat)
    requires t.Structured() && SeesLive(t.heap, r.rows)
    requires Joins.Position(r.columns, c) == Some(i)
    requires name in t.defs && name in t.indexes && t.defs[name] == OnColumns([i])
    requires forall v :: r.find(c, v) == Find(t.indexes[name], v)
    ensures Joins.IndexOk(r, c)
  {
    hide HeapOk, Agrees, Find;
    var p := t.indexes[name];
    forall v ensures Distinct(r.find(c, v))
      ensures forall id :: id in r.rows ==> (id in r.find(c, v) <==> JoinRows.CellAt(r.rows[id], i) == v)
    {
      forall id ensures Times(Find(p, v), id) <= 1 {
        ListsLiveOnce(p, t.heap, i, v, id);
      }
      OnceEach(Find(p, v));
      forall id | id in r.rows ensures id in r.find(c, v) <==> JoinRows.CellAt(r.rows[id], i) == v {
        ListsCell(p, t.heap, i, v, id);
        TimesIn(Find(p, v), id);
      }
    }
  }

  lemma ListsLiveOnce(p: Postings, h: Tables.Heap, i: nat, v: Value, id: RowId)
    requires Agrees(OnColumns([i]), p, h)
    ensures Times(Find(p, v), id) <= 1
  {
    assert Listed(p, v, id) == Carries(OnColumns([i]), h, id, v);
    if IsLive(h, id) {
      ListsCell(p, h, i, v, id);
    }
  }
}
