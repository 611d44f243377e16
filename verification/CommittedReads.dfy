/** What a snapshot read returns, in terms of the history of commits: the row as the last
    commit within the snapshot left it. */
module CommittedReads {
  import opened Values
  import opened Serializability
  import opened Transactions
  import opened Versions

  // ----- Who has left a mark in a chain ---------------------------------------------------

  ghost predicate Mentions(c: Chain, t: TxnId) {
    exists i :: 0 <= i < |c| && (c[i].createdBy == t || c[i].deletedBy == Some(t))
  }

  /** The commit sequence of a transaction; one that has not committed lies in the future. */
  ghost function When(s: State, t: TxnId): int {
    if t == SYSTEM then 0
    else if t in s.txns && s.txns[t].state.Committed? then s.txns[t].state.seqno
    else s.now + 1
  }

  /** The marks of a chain climb in commit order. */
  ghost predicate Climbs(c: Chain, s: State) {
    && (forall i :: 0 <= i < |c| && c[i].deletedBy.Some? ==> When(s, c[i].createdBy) <= When(s, c[i].deletedBy.value))
    && (forall i, j :: 0 <= i < j < |c| ==> When(s, c[i].createdBy) <= When(s, c[j].createdBy))
    && (forall i, j :: 0 <= i < j < |c| && c[i].deletedBy.Some? ==>
         When(s, c[i].deletedBy.value) <= When(s, c[j].createdBy))
  }

  function ReadAt(s: State, c: Chain, self: TxnId, n: CommitSeq): Option<Row> {
    ReadChain(c, SeesOf(s.txns, ReadSnapshot(self, n)))
  }

  lemma SeenIs(s: State, self: TxnId, n: CommitSeq, t: TxnId)
    requires 0 <= n <= s.now
    ensures CreatorVisible(s.txns, ReadSnapshot(self, n), t) <==> When(s, t) <= n || t == self
  {
  }

  /** Only the marks in the chain matter. */
  lemma {:induction false} SameMarks(c: Chain, a: Sees, b: Sees)
    requires forall t :: Mentions(c, t) ==> a(t) == b(t)
    ensures ReadChain(c, a) == ReadChain(c, b)
  {
    if c != [] {
      var older := c[..|c| - 1];
      forall t | Mentions(older, t) ensures a(t) == b(t) {
        var i :| 0 <= i < |older| && (older[i].createdBy == t || older[i].deletedBy == Some(t));
        assert c[i] == older[i];
      }
      SameMarks(older, a, b);
      assert Mentions(c, Last(c).createdBy);
      assert Last(c).deletedBy.Some? ==> Mentions(c, Last(c).deletedBy.value);
    }
  }

  lemma WriteMarks(c: Chain, row: Row, t: TxnId, u: TxnId)
    ensures Mentions(WriteChain(c, row, t), u) <==> Mentions(c, u) || u == t
  {
    var d := WriteChain(c, row, t);
    assert d[|d| - 1].createdBy == t;
    if i :| 0 <= i < |c| && (c[i].createdBy == u || c[i].deletedBy == Some(u)) {
      assert d[i].createdBy == u || d[i].deletedBy == Some(u);
    }
    if i :| 0 <= i < |d| && (d[i].createdBy == u || d[i].deletedBy == Some(u)) {
      assert u == t || (i < |c| && (c[i].createdBy == u || c[i].deletedBy == Some(u)));
    }
  }

  lemma EraseMarks(c: Chain, t: TxnId, u: TxnId)
    requires Open(c)
    ensures Mentions(EraseChain(c, t), u) <==> Mentions(c, u) || u == t
  {
    var d := EraseChain(c, t);
    assert d[|d| - 1].deletedBy == Some(t);
    if i :| 0 <= i < |c| && (c[i].createdBy == u || c[i].deletedBy == Some(u)) {
      assert d[i].createdBy == u || d[i].deletedBy == Some(u);
    }
    if i :| 0 <= i < |d| && (d[i].createdBy == u || d[i].deletedBy == Some(u)) {
      assert u == t || c[i].createdBy == u || c[i].deletedBy == Some(u);
    }
  }

  lemma ClearMarks(c: Chain, t: TxnId, u: TxnId)
    requires c != [] && Last(c).deletedBy in {None, Some(t)}
    ensures Mentions(ClearChain(c), u) ==> Mentions(c, u)
    ensures u != t && Mentions(c, u) ==> Mentions(ClearChain(c), u)
  {
    var d := ClearChain(c);
    if i :| 0 <= i < |d| && (d[i].createdBy == u || d[i].deletedBy == Some(u)) {
      assert c[i].createdBy == u || c[i].deletedBy == Some(u);
    }
    if i :| 0 <= i < |c| && (c[i].createdBy == u || c[i].deletedBy == Some(u)) {
      assert u == t || d[i].createdBy == u || d[i].deletedBy == Some(u);
    }
  }

  lemma PopMarks(c: Chain, t: TxnId, u: TxnId)
    requires OwnTop(c, t) && Last(c).deletedBy in {None, Some(t)}
    ensures Mentions(PopChain(c), u) ==> Mentions(c, u)
    ensures u != t && Mentions(c, u) ==> Mentions(PopChain(c), u)
  {
    var d := PopChain(c);
    if i :| 0 <= i < |d| && (d[i].createdBy == u || d[i].deletedBy == Some(u)) {
      assert c[i].createdBy == u || c[i].deletedBy == Some(u);
    }
    if i :| 0 <= i < |c| && (c[i].createdBy == u || c[i].deletedBy == Some(u)) {
      assert u == t || (i < |d| && (d[i].createdBy == u || d[i].deletedBy == Some(u)));
    }
  }

  /** The chain may be marked by a transaction that comes last. */
  ghost predicate ComesLast(c: Chain, s: State, t: TxnId) {
    forall u :: Mentions(c, u) ==> When(s, u) <= When(s, t)
  }

  lemma MarkOf(c: Chain, i: int)
    requires 0 <= i < |c|
    ensures Mentions(c, c[i].createdBy) && (c[i].deletedBy.Some? ==> Mentions(c, c[i].deletedBy.value))
  {
  }

  lemma WriteClimbs(c: Chain, s: State, row: Row, t: TxnId)
    requires Climbs(c, s) && ComesLast(c, s, t)
    ensures Climbs(WriteChain(c, row, t), s)
  {
    hide When, Mentions;
    forall i | 0 <= i < |c| ensures When(s, c[i].createdBy) <= When(s, t)
      ensures c[i].deletedBy.Some? ==> When(s, c[i].deletedBy.value) <= When(s, t) { MarkOf(c, i); }
  }

  lemma EraseClimbs(c: Chain, s: State, t: TxnId)
    requires Open(c) && Climbs(c, s) && ComesLast(c, s, t)
    ensures Climbs(EraseChain(c, t), s)
  {
    hide When, Mentions;
    MarkOf(c, |c| - 1);
  }

  lemma ClearClimbs(c: Chain, s: State)
    requires c != [] && Climbs(c, s)
    ensures Climbs(ClearChain(c), s)
  {
    hide When;
  }

  lemma PopClimbs(c: Chain, s: State)
    requires c != [] && Climbs(c, s)
    ensures Climbs(PopChain(c), s)
  {
    hide When;
  }

  /** Marks keep their order when those in the future stay in the future. */
  lemma ClimbsOn(c: Chain, s: State, t: State)
    requires Climbs(c, s)
    requires forall x, y :: Mentions(c, x) && Mentions(c, y) && When(s, x) <= When(s, y) ==> When(t, x) <= When(t, y)
    ensures Climbs(c, t)
  {
    hide When, Mentions;
    forall i | 0 <= i < |c|
      ensures Mentions(c, c[i].createdBy) && (c[i].deletedBy.Some? ==> Mentions(c, c[i].deletedBy.value))
    {
      MarkOf(c, i);
    }
  }

  // ----- Worlds -----------------------------------------------------------------------------

  /** The manager and the version chains of one table.  `owners` names the open transaction
      that has changed a row, `drafts` what it leaves there, and `left` what each commit left
      in the rows of the table that it changed.  A dying transaction is being undone. */
  datatype World = World(
    mgr: State, rows: Store, owners: map<RowId, TxnId>, drafts: map<RowId, Option<Row>>,
    left: seq<map<RowId, Option<Row>>>, dying: set<TxnId>)

  datatype Action =
    | Begin
    | Note(mgr: State)
    | Write(t: TxnId, id: nat, row: Row)
    | Erase(t: TxnId, id: nat)
    | Stamp(t: TxnId, id: nat, row: Row)
    | StampErase(t: TxnId, id: nat)
    | Commit(t: TxnId)
    | Rollback(t: TxnId)
    | UndoVersion(t: TxnId, id: nat)
    | UndoErase(t: TxnId, id: nat)
    | Abort(t: TxnId)

  ghost predicate Owns(w: World, id: RowId, t: TxnId) {
    id in w.owners && w.owners[id] == t
  }

  /** The transaction runs, and nobody else has changed the row without committing. */
  ghost predicate MayChange(w: World, id: RowId, t: TxnId) {
    Live(w.mgr.txns, t) && t !in w.dying && (id in w.owners ==> w.owners[id] == t)
  }

  /** The statement of a transaction that committed before it stamps its rows. */
  ghost predicate MayStamp(w: World, id: RowId, t: TxnId) {
    JustCommitted(w.mgr, t) && id !in w.owners && w.left != []
  }

  ghost function DraftsOf(w: World, t: TxnId): map<RowId, Option<Row>> {
    map id | id in w.owners && w.owners[id] == t && id in w.drafts :: w.drafts[id]
  }

  ghost function Without(owners: map<RowId, TxnId>, t: TxnId): map<RowId, TxnId> {
    map id | id in owners && owners[id] != t :: owners[id]
  }

  ghost function LastLeft(left: seq<map<RowId, Option<Row>>>, id: RowId, v: Option<Row>): seq<map<RowId, Option<Row>>>
    requires left != []
  {
    left[|left| - 1 := left[|left| - 1][id := v]]
  }

  /** The conflict sets record something that is no write of a row of this table. */
  ghost predicate Notes(table: string, s: State, m: State) {
    || (m == s.(readSets := m.readSets, preds := m.preds)
        && m.readSets.Keys == s.readSets.Keys && m.preds.Keys == s.preds.Keys)
    || (exists t, image :: m == Inserted(s, t, image))
    || (exists t, key :: m == Wrote(s, t, key) && forall id: nat :: key != KeyOf(table, id))
  }

  ghost predicate Acts(table: string, a: World, b: World, action: Action) {
    match action
    case Begin => b == a.(mgr := Begun(a.mgr))
    case Note(m) => Notes(table, a.mgr, m) && b == a.(mgr := m)
    case Write(t, id, row) =>
      && MayChange(a, id, t)
      && b == a.(mgr := Wrote(a.mgr, t, KeyOf(table, id)), rows := Written(a.rows, id, row, t),
                 owners := a.owners[id := t], drafts := a.drafts[id := Some(row)])
    case Erase(t, id) =>
      && MayChange(a, id, t) && Open(ChainOf(a.rows, id))
      && b == a.(mgr := Wrote(a.mgr, t, KeyOf(table, id)), rows := Closed(a.rows, id, t),
                 owners := a.owners[id := t], drafts := a.drafts[id := None])
    case Stamp(t, id, row) =>
      && MayStamp(a, id, t)
      && b == a.(mgr := Wrote(a.mgr, t, KeyOf(table, id)), rows := Written(a.rows, id, row, t),
                 left := LastLeft(a.left, id, Some(row)))
    case StampErase(t, id) =>
      && MayStamp(a, id, t) && Open(ChainOf(a.rows, id))
      && b == a.(mgr := Wrote(a.mgr, t, KeyOf(table, id)), rows := Closed(a.rows, id, t),
                 left := LastLeft(a.left, id, None))
    case Commit(t) =>
      && Live(a.mgr.txns, t) && Tracked(a.mgr, t) && t !in a.dying
      && !Conflicted(a.mgr.history, FootprintOf(a.mgr, t))
      && Prunes(Published(a.mgr, t), b.mgr)
      && b == a.(mgr := b.mgr, owners := Without(a.owners, t), left := a.left + [DraftsOf(a, t)])
    case Rollback(t) => Live(a.mgr.txns, t) && b == a.(dying := a.dying + {t})
    case UndoVersion(t, id) =>
      && t in a.dying && Owns(a, id, t) && OwnTop(ChainOf(a.rows, id), t)
      && b == a.(rows := Popped(a.rows, id))
    case UndoErase(t, id) =>
      && t in a.dying && Owns(a, id, t) && ChainOf(a.rows, id) != []
      && Last(ChainOf(a.rows, id)).deletedBy in {None, Some(t)}
      && b == a.(rows := Cleared(a.rows, id))
    case Abort(t) =>
      && t in a.dying && Live(a.mgr.txns, t) && (forall id :: Owns(a, id, t) ==> !Mentions(ChainOf(a.rows, id), t))
      && Prunes(Ended(a.mgr, t, RolledBack), b.mgr)
      && b == a.(mgr := b.mgr, owners := Without(a.owners, t), dying := a.dying - {t})
  }

  // ----- What every world satisfies -----------------------------------------------------------

  /** What the row held after the first n commits: what the last of them that wrote it left
      there, or what it held at the start. */
  ghost function ValueAt(
      table: string, first: map<RowId, Row>, h: History, left: seq<map<RowId, Option<Row>>>, n: nat, id: nat)
    : Option<Row>
    requires n <= |h|
  {
    var s := LastWriter(h, KeyOf(table, id), n);
    if s == 0 then if id in first then Some(first[id]) else None
    else if s <= |left| && id in left[s - 1] then left[s - 1][id]
    else None
  }

  /** The books of who wrote what agree with the conflict sets. */
  ghost predicate Books(table: string, w: World) {
    && |w.left| == |w.mgr.history|
    && (forall id :: id in w.owners ==> id >= 0 && Live(w.mgr.txns, w.owners[id]))
    && (forall t :: t in w.dying ==> Live(w.mgr.txns, t))
    && (forall t, id: nat :: Live(w.mgr.txns, t) && t !in w.dying && t in w.mgr.writeSets ==>
         (Owns(w, id, t) <==> KeyOf(table, id) in w.mgr.writeSets[t]))
    && (forall n, id: nat :: 0 <= n < |w.left| && n < |w.mgr.history| ==>
         (id in w.left[n] <==> KeyOf(table, id) in w.mgr.history[n].writeSet))
  }

  ghost predicate Reads(table: string, first: map<RowId, Row>, w: World, id: nat) {
    forall n: nat :: n <= w.mgr.now && n <= |w.mgr.history| ==>
      ReadAt(w.mgr, ChainOf(w.rows, id), SYSTEM, n) == ValueAt(table, first, w.mgr.history, w.left, n, id)
  }

  /** Whoever has left a mark has committed, or has changed the row and is still open. */
  ghost predicate Owned(w: World, id: RowId) {
    forall t :: Mentions(ChainOf(w.rows, id), t) ==> When(w.mgr, t) <= w.mgr.now || Owns(w, id, t)
  }

  /** The committed marks are those of the commits that wrote the row. */
  ghost predicate Noted(table: string, w: World, id: nat) {
    forall n :: 1 <= n <= |w.mgr.history| ==>
      (KeyOf(table, id) in w.mgr.history[n - 1].writeSet <==> CommitMarked(w, id, n))
  }

  ghost predicate CommitMarked(w: World, id: RowId, n: int) {
    exists t :: Mentions(ChainOf(w.rows, id), t) && t != SYSTEM && When(w.mgr, t) == n
  }

  /** The newest version is the draft of the owner. */
  ghost predicate Drafted(w: World, id: RowId) {
    id in w.owners && w.owners[id] !in w.dying ==>
      var c, t := ChainOf(w.rows, id), w.owners[id];
      && c != [] && id in w.drafts
      && match w.drafts[id]
         case Some(row) => Last(c) == Version(t, None, row)
         case None => Last(c).deletedBy == Some(t)
  }

  ghost predicate RowOk(table: string, first: map<RowId, Row>, w: World, id: nat) {
    && Reads(table, first, w, id) && Owned(w, id) && Climbs(ChainOf(w.rows, id), w.mgr)
    && Noted(table, w, id) && Drafted(w, id)
  }

  ghost predicate WorldOk(table: string, first: map<RowId, Row>, w: World) {
    && Invariant(w.mgr) && StoreOk(w.rows) && Books(table, w)
    && forall id: nat :: RowOk(table, first, w, id)
  }

  // ----- Rows that a step does not change -------------------------------------------------------

  lemma {:induction false} SameWriters(h: History, g: History, key: ConflictKey, n: nat)
    requires n <= |h| && n <= |g|
    requires forall i :: 0 <= i < n ==> (key in h[i].writeSet <==> key in g[i].writeSet)
    ensures LastWriter(h, key, n) == LastWriter(g, key, n)
  {
    if n > 0 {
      SameWriters(h, g, key, n - 1);
    }
  }

  /** The history and what it left agree on the row. */
  ghost predicate SamePast(table: string, a: World, b: World, id: nat) {
    && |a.mgr.history| <= |b.mgr.history| && |a.left| <= |b.left|
    && (forall i :: 0 <= i < |a.mgr.history| ==>
         (KeyOf(table, id) in a.mgr.history[i].writeSet <==> KeyOf(table, id) in b.mgr.history[i].writeSet))
    && (forall i :: 0 <= i < |a.left| ==> (id in a.left[i] <==> id in b.left[i]))
    && (forall i :: 0 <= i < |a.left| && id in a.left[i] && id in b.left[i] ==> a.left[i][id] == b.left[i][id])
  }

  lemma SameValue(table: string, first: map<RowId, Row>, a: World, b: World, n: nat, id: nat)
    requires SamePast(table, a, b, id) && n <= |a.mgr.history| == |a.left|
    ensures ValueAt(table, first, a.mgr.history, a.left, n, id) == ValueAt(table, first, b.mgr.history, b.left, n, id)
  {
    hide KeyOf;
    SameWriters(a.mgr.history, b.mgr.history, KeyOf(table, id), n);
  }

  lemma SameRead(s: State, m: State, c: Chain, self: TxnId, n: CommitSeq, other: TxnId, k: CommitSeq)
    requires 0 <= n <= s.now && 0 <= k <= m.now
    requires forall t :: Mentions(c, t) ==> (When(s, t) <= n || t == self <==> When(m, t) <= k || t == other)
    ensures ReadAt(s, c, self, n) == ReadAt(m, c, other, k)
  {
    hide Mentions, CreatorVisible, When;
    var a, b := SeesOf(s.txns, ReadSnapshot(self, n)), SeesOf(m.txns, ReadSnapshot(other, k));
    forall t | Mentions(c, t) ensures a(t) == b(t) {
      SeenIs(s, self, n, t);
      SeenIs(m, other, k, t);
    }
    SameMarks(c, a, b);
  }

  /** A step that leaves the chain and its marks alone keeps the row in order. */
  lemma RowKept(table: string, first: map<RowId, Row>, a: World, b: World, id: nat)
    requires RowOk(table, first, a, id) && Drafted(b, id)
    requires ChainOf(a.rows, id) == ChainOf(b.rows, id) && SamePast(table, a, b, id)
    requires 0 <= a.mgr.now == b.mgr.now == |a.mgr.history| == |b.mgr.history| == |a.left|
    requires forall t :: Mentions(ChainOf(a.rows, id), t) ==>
      When(a.mgr, t) == When(b.mgr, t) && (Owns(a, id, t) ==> Owns(b, id, t))
    ensures RowOk(table, first, b, id)
  {
    hide KeyOf, When, Mentions, Drafted, ValueAt, ReadAt, SamePast, Climbs;
    var c := ChainOf(a.rows, id);
    forall n: nat | n <= b.mgr.now && n <= |b.mgr.history|
      ensures ReadAt(b.mgr, c, SYSTEM, n) == ValueAt(table, first, b.mgr.history, b.left, n, id)
    {
      SameRead(a.mgr, b.mgr, c, SYSTEM, n, SYSTEM, n);
      SameValue(table, first, a, b, n, id);
    }
    ClimbsOn(c, a.mgr, b.mgr);
    NotedOn(table, a, b, id);
  }

  lemma NotedOn(table: string, a: World, b: World, id: nat)
    requires Noted(table, a, id) && SamePast(table, a, b, id) && |a.mgr.history| == |b.mgr.history|
    requires ChainOf(a.rows, id) == ChainOf(b.rows, id)
    requires forall t :: Mentions(ChainOf(a.rows, id), t) ==> When(a.mgr, t) == When(b.mgr, t)
    ensures Noted(table, b, id)
  {
    hide KeyOf, When, Mentions;
    forall n | 1 <= n <= |b.mgr.history| ensures CommitMarked(a, id, n) <==> CommitMarked(b, id, n) {
      if t :| Mentions(ChainOf(a.rows, id), t) && t != SYSTEM && When(a.mgr, t) == n {
        assert When(b.mgr, t) == n;
      }
      if t :| Mentions(ChainOf(b.rows, id), t) && t != SYSTEM && When(b.mgr, t) == n {
        assert When(a.mgr, t) == n;
      }
    }
  }

  // ----- Rows that an open transaction changes ------------------------------------------------------

  lemma LiveIs(s: State, t: TxnId)
    requires Invariant(s) && Live(s.txns, t)
    ensures t != SYSTEM && When(s, t) == s.now + 1 && t in s.writeSets && 0 <= s.now == |s.history|
  {
    hide Isolated, WellTimed, Retained;
  }

  lemma NowIs(s: State)
    requires Invariant(s)
    ensures 0 <= s.now == |s.history|
  {
  }

  /** A change by a transaction that no committed snapshot sees, and that leaves the marks of
      all others alone. */
  lemma RowChanged(table: string, first: map<RowId, Row>, a: World, b: World, id: nat, t: TxnId)
    requires RowOk(table, first, a, id) && Drafted(b, id) && Climbs(ChainOf(b.rows, id), b.mgr)
    requires a.mgr.txns == b.mgr.txns && a.mgr.history == b.mgr.history && a.left == b.left
    requires 0 <= a.mgr.now == b.mgr.now == |a.mgr.history| && When(a.mgr, t) > a.mgr.now
    requires forall u :: u != t ==> (Mentions(ChainOf(a.rows, id), u) <==> Mentions(ChainOf(b.rows, id), u))
    requires Owns(b, id, t) && forall u :: Owns(a, id, u) ==> u == t
    requires forall n :: 0 <= n <= a.mgr.now ==>
      ReadAt(a.mgr, ChainOf(a.rows, id), SYSTEM, n) == ReadAt(a.mgr, ChainOf(b.rows, id), SYSTEM, n)
    ensures RowOk(table, first, b, id)
  {
    hide KeyOf, Mentions, Drafted, ValueAt, ReadChain, SeesOf, Climbs;
    forall n | 1 <= n <= |b.mgr.history| ensures CommitMarked(a, id, n) <==> CommitMarked(b, id, n) {
      if u :| Mentions(ChainOf(a.rows, id), u) && u != SYSTEM && When(a.mgr, u) == n {
        assert When(b.mgr, u) == n && Mentions(ChainOf(b.rows, id), u);
      }
      if u :| Mentions(ChainOf(b.rows, id), u) && u != SYSTEM && When(b.mgr, u) == n {
        assert When(a.mgr, u) == n && Mentions(ChainOf(a.rows, id), u);
      }
    }
  }

  lemma Unseen(s: State, t: TxnId, n: CommitSeq)
    requires 0 <= n <= s.now && When(s, t) > n && t != SYSTEM
    ensures !SeesOf(s.txns, ReadSnapshot(SYSTEM, n))(t)
  {
  }

  lemma OwnerIsLast(table: string, first: map<RowId, Row>, w: World, id: nat, t: TxnId)
    requires RowOk(table, first, w, id) && MayChange(w, id, t) && Invariant(w.mgr)
    ensures ComesLast(ChainOf(w.rows, id), w.mgr, t)
  {
    hide KeyOf, Mentions, Drafted, Reads, Climbs, Noted, Invariant;
    LiveIs(w.mgr, t);
  }

  lemma SameClimbs(c: Chain, s: State, m: State)
    requires Climbs(c, s) && s.txns == m.txns && s.now == m.now
    ensures Climbs(c, m)
  {
    hide Climbs, Mentions;
    forall t ensures When(s, t) == When(m, t) {}
    hide When;
    ClimbsOn(c, s, m);
  }

  lemma LiveWrote(s: State, t: TxnId, key: ConflictKey)
    requires Invariant(s) && Live(s.txns, t)
    ensures t in s.writeSets && Wrote(s, t, key) == s.(writeSets := s.writeSets[t := s.writeSets[t] + {key}])
  {
    hide Isolated, WellTimed, Retained;
  }

  lemma RowWritten(table: string, first: map<RowId, Row>, a: World, b: World, t: TxnId, id: nat, row: Row)
    requires WorldOk(table, first, a) && Acts(table, a, b, Action.Write(t, id, row))
    ensures RowOk(table, first, b, id)
  {
    hide KeyOf, Mentions, ReadChain, SeesOf, CreatorVisible, Climbs, When, Invariant, Reads, Owned, Noted, Drafted,
         Books, WriteChain;
    var c := ChainOf(a.rows, id);
    assert RowOk(table, first, a, id);
    LiveIs(a.mgr, t);
    LiveWrote(a.mgr, t, KeyOf(table, id));
    assert ChainOf(b.rows, id) == WriteChain(c, row, t);
    OwnerIsLast(table, first, a, id, t);
    WriteClimbs(c, a.mgr, row, t);
    SameClimbs(WriteChain(c, row, t), a.mgr, b.mgr);
    forall u ensures Mentions(WriteChain(c, row, t), u) <==> Mentions(c, u) || u == t { WriteMarks(c, row, t, u); }
    forall n | 0 <= n <= a.mgr.now
      ensures ReadAt(a.mgr, c, SYSTEM, n) == ReadAt(a.mgr, WriteChain(c, row, t), SYSTEM, n)
    {
      Unseen(a.mgr, t, n);
      WriteUnseen(c, row, t, SeesOf(a.mgr.txns, ReadSnapshot(SYSTEM, n)));
    }
    WrittenDraft(b, c, row, t, id);
    RowChanged(table, first, a, b, id, t);
  }

  lemma WrittenDraft(b: World, c: Chain, row: Row, t: TxnId, id: RowId)
    requires ChainOf(b.rows, id) == WriteChain(c, row, t) && Owns(b, id, t)
    requires id in b.drafts && b.drafts[id] == Some(row)
    ensures Drafted(b, id)
  {
  }

  lemma ErasedDraft(b: World, c: Chain, t: TxnId, id: RowId)
    requires ChainOf(b.rows, id) == EraseChain(c, t) && Owns(b, id, t) && c != []
    requires id in b.drafts && b.drafts[id] == None
    ensures Drafted(b, id)
  {
  }

  lemma RowErased(table: string, first: map<RowId, Row>, a: World, b: World, t: TxnId, id: nat)
    requires WorldOk(table, first, a) && Acts(table, a, b, Action.Erase(t, id))
    ensures RowOk(table, first, b, id)
  {
    hide KeyOf, Mentions, ReadChain, SeesOf, CreatorVisible, Climbs, When, Invariant, Reads, Owned, Noted, Drafted,
         Books, EraseChain;
    var c := ChainOf(a.rows, id);
    assert RowOk(table, first, a, id);
    LiveIs(a.mgr, t);
    LiveWrote(a.mgr, t, KeyOf(table, id));
    assert ChainOf(b.rows, id) == EraseChain(c, t);
    OwnerIsLast(table, first, a, id, t);
    EraseClimbs(c, a.mgr, t);
    SameClimbs(EraseChain(c, t), a.mgr, b.mgr);
    forall u ensures Mentions(EraseChain(c, t), u) <==> Mentions(c, u) || u == t { EraseMarks(c, t, u); }
    forall n | 0 <= n <= a.mgr.now
      ensures ReadAt(a.mgr, c, SYSTEM, n) == ReadAt(a.mgr, EraseChain(c, t), SYSTEM, n)
    {
      Unseen(a.mgr, t, n);
      EraseUnseen(c, t, SeesOf(a.mgr.txns, ReadSnapshot(SYSTEM, n)));
    }
    ErasedDraft(b, c, t, id);
    RowChanged(table, first, a, b, id, t);
  }

  /** The newest version of an owner's row is closed by nobody else. */
  lemma OwnMark(table: string, first: map<RowId, Row>, w: World, id: nat, t: TxnId)
    requires RowOk(table, first, w, id) && Owns(w, id, t) && Live(w.mgr.txns, t) && Invariant(w.mgr)
    requires ChainOf(w.rows, id) != [] && Last(ChainOf(w.rows, id)).createdBy == t
    ensures Last(ChainOf(w.rows, id)).deletedBy in {None, Some(t)}
  {
    hide KeyOf, Mentions, Drafted, Reads, Noted, Invariant, When;
    var c := ChainOf(w.rows, id);
    LiveIs(w.mgr, t);
    MarkOf(c, |c| - 1);
  }

  lemma RowPopped(table: string, first: map<RowId, Row>, a: World, b: World, t: TxnId, id: nat)
    requires WorldOk(table, first, a) && Acts(table, a, b, UndoVersion(t, id))
    ensures RowOk(table, first, b, id)
  {
    hide KeyOf, Mentions, ReadChain, SeesOf, CreatorVisible, Climbs, When, Invariant, Reads, Owned, Noted, PopChain,
         StoreOk, Popped;
    var c := ChainOf(a.rows, id);
    assert RowOk(table, first, a, id);
    LiveIs(a.mgr, t);
    PoppedIs(a.rows, id);
    OwnMark(table, first, a, id, t);
    PopClimbs(c, a.mgr);
    forall u | u != t ensures Mentions(PopChain(c), u) <==> Mentions(c, u) { PopMarks(c, t, u); }
    forall n | 0 <= n <= a.mgr.now
      ensures ReadAt(a.mgr, c, SYSTEM, n) == ReadAt(a.mgr, PopChain(c), SYSTEM, n)
    {
      Unseen(a.mgr, t, n);
      PopUnseen(c, t, SeesOf(a.mgr.txns, ReadSnapshot(SYSTEM, n)));
    }
    RowChanged(table, first, a, b, id, t);
  }

  lemma RowCleared(table: string, first: map<RowId, Row>, a: World, b: World, t: TxnId, id: nat)
    requires WorldOk(table, first, a) && Acts(table, a, b, UndoErase(t, id))
    ensures RowOk(table, first, b, id)
  {
    hide KeyOf, Mentions, ReadChain, SeesOf, CreatorVisible, Climbs, When, Invariant, Reads, Owned, Noted, ClearChain,
         StoreOk, Cleared;
    var c := ChainOf(a.rows, id);
    assert RowOk(table, first, a, id);
    LiveIs(a.mgr, t);
    ClearedIs(a.rows, id);
    ClearClimbs(c, a.mgr);
    forall u | u != t ensures Mentions(ClearChain(c), u) <==> Mentions(c, u) { ClearMarks(c, t, u); }
    forall n | 0 <= n <= a.mgr.now
      ensures ReadAt(a.mgr, c, SYSTEM, n) == ReadAt(a.mgr, ClearChain(c), SYSTEM, n)
    {
      Unseen(a.mgr, t, n);
      ClearUnseen(c, t, SeesOf(a.mgr.txns, ReadSnapshot(SYSTEM, n)));
    }
    RowChanged(table, first, a, b, id, t);
  }

  // ----- Rows that a statement stamps after its commit ----------------------------------------------

  lemma StampIs(s: State, t: TxnId, key: ConflictKey)
    requires Invariant(s) && JustCommitted(s, t)
    ensures t != SYSTEM && When(s, t) == s.now == |s.history| && s.now > 0
    ensures var m := Wrote(s, t, key);
      m.txns == s.txns && m.now == s.now && m.writeSets == s.writeSets && m.history == LastWrote(s.history, key)
  {
    hide Isolated, WellTimed, Retained;
    NotActive(s, t);
  }

  ghost predicate Stamps(table: string, a: World, b: World, id: nat, t: TxnId, v: Option<Row>) {
    && a.mgr.history != [] && a.left != []
    && b.mgr.txns == a.mgr.txns && b.mgr.now == a.mgr.now == |a.mgr.history| == |a.left|
    && b.mgr.history == LastWrote(a.mgr.history, KeyOf(table, id)) && b.left == LastLeft(a.left, id, v)
    && t != SYSTEM && When(a.mgr, t) == a.mgr.now && id !in a.owners && b.owners == a.owners
  }

  lemma StampedValue(
      table: string, first: map<RowId, Row>, a: World, b: World, id: nat, t: TxnId, v: Option<Row>, n: nat)
    requires Stamps(table, a, b, id, t, v) && n <= a.mgr.now
    ensures ValueAt(table, first, b.mgr.history, b.left, n, id) ==
      if n == a.mgr.now then v else ValueAt(table, first, a.mgr.history, a.left, n, id)
  {
    hide KeyOf, When;
    if n < a.mgr.now {
      SameWriters(a.mgr.history, b.mgr.history, KeyOf(table, id), n);
    }
  }

  lemma RowStampedBy(table: string, first: map<RowId, Row>, a: World, b: World, id: nat, t: TxnId, v: Option<Row>)
    requires RowOk(table, first, a, id) && Stamps(table, a, b, id, t, v)
    requires Climbs(ChainOf(b.rows, id), b.mgr)
    requires forall u :: Mentions(ChainOf(b.rows, id), u) <==> Mentions(ChainOf(a.rows, id), u) || u == t
    requires forall n :: 0 <= n < a.mgr.now ==>
      ReadAt(a.mgr, ChainOf(a.rows, id), SYSTEM, n) == ReadAt(a.mgr, ChainOf(b.rows, id), SYSTEM, n)
    requires ReadAt(a.mgr, ChainOf(b.rows, id), SYSTEM, a.mgr.now) == v
    ensures RowOk(table, first, b, id)
  {
    hide KeyOf, Mentions, ValueAt, ReadChain, SeesOf, Climbs;
    forall n: nat | n <= b.mgr.now
      ensures ReadAt(b.mgr, ChainOf(b.rows, id), SYSTEM, n) ==
        ValueAt(table, first, b.mgr.history, b.left, n, id)
    {
      StampedValue(table, first, a, b, id, t, v, n);
    }
    forall n | 1 <= n <= |b.mgr.history|
      ensures KeyOf(table, id) in b.mgr.history[n - 1].writeSet <==> CommitMarked(b, id, n)
    {
      StampedMark(table, a, b, id, t, v, n);
    }
  }

  lemma StampedMark(table: string, a: World, b: World, id: nat, t: TxnId, v: Option<Row>, n: int)
    requires Noted(table, a, id) && Stamps(table, a, b, id, t, v) && 1 <= n <= |b.mgr.history|
    requires forall u :: Mentions(ChainOf(b.rows, id), u) <==> Mentions(ChainOf(a.rows, id), u) || u == t
    ensures KeyOf(table, id) in b.mgr.history[n - 1].writeSet <==> CommitMarked(b, id, n)
  {
    hide KeyOf, Mentions;
    if n == a.mgr.now {
      assert When(b.mgr, t) == n && Mentions(ChainOf(b.rows, id), t);
    } else {
      assert b.mgr.history[n - 1] == a.mgr.history[n - 1];
      assert KeyOf(table, id) in a.mgr.history[n - 1].writeSet <==> CommitMarked(a, id, n);
      if u :| Mentions(ChainOf(a.rows, id), u) && u != SYSTEM && When(a.mgr, u) == n {
        assert When(b.mgr, u) == n && Mentions(ChainOf(b.rows, id), u);
      }
      if u :| Mentions(ChainOf(b.rows, id), u) && u != SYSTEM && When(b.mgr, u) == n {
        assert When(a.mgr, u) == n && u != t && Mentions(ChainOf(a.rows, id), u);
        assert CommitMarked(a, id, n);
      }
    }
  }

  lemma StamperIsLast(table: string, first: map<RowId, Row>, w: World, id: nat, t: TxnId)
    requires RowOk(table, first, w, id) && id !in w.owners && When(w.mgr, t) == w.mgr.now
    ensures ComesLast(ChainOf(w.rows, id), w.mgr, t)
  {
    hide KeyOf, Mentions, Drafted, Reads, Climbs, Noted, When;
  }

  lemma RowStamped(table: string, first: map<RowId, Row>, a: World, b: World, t: TxnId, id: nat, row: Row)
    requires WorldOk(table, first, a) && Acts(table, a, b, Stamp(t, id, row))
    ensures RowOk(table, first, b, id)
  {
    hide KeyOf, Mentions, Climbs, When, Invariant, Reads, Owned, Noted, Drafted, JustCommitted, Wrote, WriteChain,
         ReadChain, SeesOf;
    var c := ChainOf(a.rows, id);
    assert RowOk(table, first, a, id);
    StampIs(a.mgr, t, KeyOf(table, id));
    StamperIsLast(table, first, a, id, t);
    WriteClimbs(c, a.mgr, row, t);
    SameClimbs(WriteChain(c, row, t), a.mgr, b.mgr);
    forall u ensures Mentions(WriteChain(c, row, t), u) <==> Mentions(c, u) || u == t { WriteMarks(c, row, t, u); }
    forall n | 0 <= n < a.mgr.now
      ensures ReadAt(a.mgr, c, SYSTEM, n) == ReadAt(a.mgr, WriteChain(c, row, t), SYSTEM, n)
    {
      Unseen(a.mgr, t, n);
      WriteUnseen(c, row, t, SeesOf(a.mgr.txns, ReadSnapshot(SYSTEM, n)));
    }
    StampedReads(a.mgr, c, row, t);
    RowStampedBy(table, first, a, b, id, t, Some(row));
  }

  lemma StampedReads(s: State, c: Chain, row: Row, t: TxnId)
    requires 0 <= s.now && When(s, t) <= s.now
    ensures ReadAt(s, WriteChain(c, row, t), SYSTEM, s.now) == Some(row)
  {
    SeenIs(s, SYSTEM, s.now, t);
  }

  /** When every mark is seen, a closed chain shows nothing. */
  lemma ClosedReads(s: State, c: Chain, self: TxnId, t: TxnId)
    requires 0 <= s.now && Layered(c) && c != [] && Last(c).deletedBy == Some(t)
    requires forall u :: Mentions(c, u) ==> When(s, u) <= s.now || u == self
    ensures ReadAt(s, c, self, s.now) == None
  {
    hide When, CreatorVisible, ReadChain, Mentions;
    var sees := SeesOf(s.txns, ReadSnapshot(self, s.now));
    forall i | 0 <= i < |c| ensures !Visible(c[i], sees) {
      MarkOf(c, i);
      SeenIs(s, self, s.now, c[i].deletedBy.value);
    }
    NothingVisible(c, sees);
  }

  lemma RowStampErased(table: string, first: map<RowId, Row>, a: World, b: World, t: TxnId, id: nat)
    requires WorldOk(table, first, a) && Acts(table, a, b, StampErase(t, id))
    ensures RowOk(table, first, b, id)
  {
    hide KeyOf, Mentions, Climbs, When, Invariant, Reads, Noted, Drafted, JustCommitted, Wrote, EraseChain,
         ReadChain, SeesOf, Closed;
    var c := ChainOf(a.rows, id);
    assert RowOk(table, first, a, id);
    StampIs(a.mgr, t, KeyOf(table, id));
    StamperIsLast(table, first, a, id, t);
    ClosedIs(a.rows, id, t);
    EraseClimbs(c, a.mgr, t);
    SameClimbs(EraseChain(c, t), a.mgr, b.mgr);
    forall u ensures Mentions(EraseChain(c, t), u) <==> Mentions(c, u) || u == t { EraseMarks(c, t, u); }
    forall n | 0 <= n < a.mgr.now
      ensures ReadAt(a.mgr, c, SYSTEM, n) == ReadAt(a.mgr, EraseChain(c, t), SYSTEM, n)
    {
      Unseen(a.mgr, t, n);
      EraseUnseen(c, t, SeesOf(a.mgr.txns, ReadSnapshot(SYSTEM, n)));
    }
    EraseCloses(c, t);
    assert Layered(EraseChain(c, t)) by { LayeredIn(b.rows, id); }
    ClosedReads(a.mgr, EraseChain(c, t), SYSTEM, t);
    RowStampedBy(table, first, a, b, id, t, None);
  }

  lemma EraseCloses(c: Chain, t: TxnId)
    requires c != []
    ensures EraseChain(c, t) != [] && Last(EraseChain(c, t)).deletedBy == Some(t)
  {
  }

  lemma LayeredIn(m: Store, id: RowId)
    requires StoreOk(m)
    ensures Layered(ChainOf(m, id))
  {
  }

  // ----- Rows at a commit ------------------------------------------------------------------------------

  /** The owner reads its draft when it sees all commits. */
  lemma DraftIsRead(table: string, first: map<RowId, Row>, w: World, id: nat, t: TxnId)
    requires RowOk(table, first, w, id) && StoreOk(w.rows) && 0 <= w.mgr.now
    requires Owns(w, id, t) && t !in w.dying
    ensures id in w.drafts && ReadAt(w.mgr, ChainOf(w.rows, id), t, w.mgr.now) == w.drafts[id]
    ensures Mentions(ChainOf(w.rows, id), t)
  {
    hide KeyOf, When, Reads, Climbs, Noted;
    var c := ChainOf(w.rows, id);
    MarkOf(c, |c| - 1);
    if w.drafts[id].None? {
      LayeredIn(w.rows, id);
      ClosedReads(w.mgr, c, t, t);
    }
  }

  lemma CommitIs(s: State, m: State, t: TxnId, u: TxnId)
    requires Invariant(s) && Live(s.txns, t) && Tracked(s, t) && Prunes(Published(s, t), m)
    ensures m.now == s.now + 1 == |m.history| && m.history == s.history + [FootprintOf(s, t)]
    ensures m.writeSets == s.writeSets - {t} && FootprintOf(s, t).writeSet == s.writeSets[t]
    ensures When(m, u) == if u == t then s.now + 1 else if When(s, u) <= s.now then When(s, u) else s.now + 2
    ensures forall x :: Live(m.txns, x) <==> Live(s.txns, x) && x != t
  {
    hide Isolated, WellTimed, Retained, Keyed;
  }

  /** What a commit does to one row. */
  ghost predicate Commits(table: string, a: World, b: World, id: nat, t: TxnId, f: Footprint) {
    && 0 <= a.mgr.now == |a.mgr.history| == |a.left| && b.mgr.now == a.mgr.now + 1
    && b.mgr.history == a.mgr.history + [f] && b.left == a.left + [DraftsOf(a, t)]
    && b.rows == a.rows && t != SYSTEM && When(a.mgr, t) == a.mgr.now + 1
    && (Owns(a, id, t) <==> KeyOf(table, id) in f.writeSet)
    && (forall u :: When(b.mgr, u) ==
         if u == t then a.mgr.now + 1 else if When(a.mgr, u) <= a.mgr.now then When(a.mgr, u) else a.mgr.now + 2)
  }

  lemma CommitPast(table: string, a: World, b: World, id: nat, t: TxnId, f: Footprint)
    requires Commits(table, a, b, id, t, f)
    ensures SamePast(table, a, b, id)
  {
    hide KeyOf, When;
  }

  lemma CommitReads(
      table: string, first: map<RowId, Row>, a: World, b: World, id: nat, t: TxnId, f: Footprint, n: nat)
    requires RowOk(table, first, a, id) && StoreOk(a.rows) && t !in a.dying && Commits(table, a, b, id, t, f)
    requires n <= b.mgr.now
    ensures ReadAt(b.mgr, ChainOf(b.rows, id), SYSTEM, n) == ValueAt(table, first, b.mgr.history, b.left, n, id)
  {
    hide KeyOf, When, Mentions, Drafted, ReadAt, Climbs, Noted, SamePast;
    var c, now := ChainOf(a.rows, id), a.mgr.now;
    CommitPast(table, a, b, id, t, f);
    if n <= now {
      SameRead(a.mgr, b.mgr, c, SYSTEM, n, SYSTEM, n);
      SameValue(table, first, a, b, n, id);
    } else if Owns(a, id, t) {
      DraftIsRead(table, first, a, id, t);
      SameRead(a.mgr, b.mgr, c, t, now, SYSTEM, n);
      assert b.left[now] == DraftsOf(a, t);
    } else {
      SameRead(a.mgr, b.mgr, c, SYSTEM, now, SYSTEM, n);
      SameValue(table, first, a, b, now, id);
    }
  }

  lemma CommitNoted(table: string, first: map<RowId, Row>, a: World, b: World, id: nat, t: TxnId, f: Footprint)
    requires RowOk(table, first, a, id) && StoreOk(a.rows) && t !in a.dying && Commits(table, a, b, id, t, f)
    ensures Noted(table, b, id)
  {
    hide KeyOf, When, Mentions, Drafted, Climbs, Reads;
    forall n | 1 <= n <= |b.mgr.history|
      ensures KeyOf(table, id) in b.mgr.history[n - 1].writeSet <==> CommitMarked(b, id, n)
    {
      if n <= a.mgr.now {
        assert CommitMarked(a, id, n) <==> CommitMarked(b, id, n) by {
          if u :| Mentions(ChainOf(a.rows, id), u) && u != SYSTEM && When(a.mgr, u) == n {
            assert When(b.mgr, u) == n;
          }
          if u :| Mentions(ChainOf(b.rows, id), u) && u != SYSTEM && When(b.mgr, u) == n {
            assert When(a.mgr, u) == n;
          }
        }
      } else {
        if Owns(a, id, t) {
          DraftIsRead(table, first, a, id, t);
          assert When(b.mgr, t) == n;
        }
        if u :| Mentions(ChainOf(b.rows, id), u) && u != SYSTEM && When(b.mgr, u) == n {
          assert u == t;
        }
      }
    }
  }

  lemma RowCommitted(table: string, first: map<RowId, Row>, a: World, b: World, t: TxnId, id: nat)
    requires WorldOk(table, first, a) && Acts(table, a, b, Action.Commit(t))
    ensures RowOk(table, first, b, id)
  {
    hide KeyOf, When, Mentions, ReadAt, Climbs, Noted, Invariant, Conflicted, Prunes, Published, ValueAt;
    var c, f := ChainOf(a.rows, id), FootprintOf(a.mgr, t);
    assert RowOk(table, first, a, id);
    LiveIs(a.mgr, t);
    forall u
      ensures When(b.mgr, u) ==
        if u == t then a.mgr.now + 1 else if When(a.mgr, u) <= a.mgr.now then When(a.mgr, u) else a.mgr.now + 2
    {
      CommitIs(a.mgr, b.mgr, t, u);
    }
    CommitIs(a.mgr, b.mgr, t, t);
    assert Commits(table, a, b, id, t, f);
    forall n: nat | n <= b.mgr.now && n <= |b.mgr.history|
      ensures ReadAt(b.mgr, ChainOf(b.rows, id), SYSTEM, n) == ValueAt(table, first, b.mgr.history, b.left, n, id)
    {
      CommitReads(table, first, a, b, id, t, f, n);
    }
    CommitNoted(table, first, a, b, id, t, f);
    ClimbsOn(c, a.mgr, b.mgr);
  }

  // ----- Every action keeps every world in order ---------------------------------------------------------

  lemma OtherKey(table: string, id: nat, other: nat)
    requires id != other
    ensures KeyOf(table, id) != KeyOf(table, other)
  {
    if KeyOf(table, id) == KeyOf(table, other) {
      KeysAreInjective(table, id, table, other);
    }
  }

  lemma OtherKeys(table: string, id: nat)
    ensures forall other: nat :: other != id ==> KeyOf(table, other) != KeyOf(table, id)
  {
    hide KeyOf;
    forall other: nat | other != id ensures KeyOf(table, other) != KeyOf(table, id) {
      OtherKey(table, id, other);
    }
  }

  lemma ChangeKeepsOthers(table: string, first: map<RowId, Row>, a: World, b: World, id: RowId, t: TxnId, other: nat)
    requires RowOk(table, first, a, other) && other != id
    requires a.mgr.txns == b.mgr.txns && a.mgr.history == b.mgr.history && a.left == b.left && a.dying == b.dying
    requires 0 <= a.mgr.now == b.mgr.now == |a.mgr.history| == |a.left|
    requires ChainOf(a.rows, other) == ChainOf(b.rows, other)
    requires b.owners == a.owners || b.owners == a.owners[id := t]
    requires other in b.drafts <==> other in a.drafts
    requires other in a.drafts && other in b.drafts ==> b.drafts[other] == a.drafts[other]
    ensures RowOk(table, first, b, other)
  {
    hide KeyOf, Mentions, Reads, Climbs, Noted, Owned;
    RowKept(table, first, a, b, other);
  }

  lemma WriteBooks(table: string, a: World, b: World, id: nat, t: TxnId)
    requires Books(table, a) && MayChange(a, id, t) && t in a.mgr.writeSets
    requires b.mgr == a.mgr.(writeSets := a.mgr.writeSets[t := a.mgr.writeSets[t] + {KeyOf(table, id)}])
    requires b.left == a.left && b.dying == a.dying && b.owners == a.owners[id := t]
    ensures Books(table, b)
  {
    hide KeyOf;
    OtherKeys(table, id);
  }

  lemma WriteStep(table: string, first: map<RowId, Row>, a: World, b: World, t: TxnId, id: nat, row: Row)
    requires WorldOk(table, first, a) && Acts(table, a, b, Action.Write(t, id, row))
    ensures WorldOk(table, first, b)
  {
    hide KeyOf, RowOk, Invariant, StoreOk, Books, Written;
    RowWritten(table, first, a, b, t, id, row);
    LiveIs(a.mgr, t);
    LiveWrote(a.mgr, t, KeyOf(table, id));
    WriteKeeps(a.mgr, t, KeyOf(table, id));
    WrittenIs(a.rows, id, row, t);
    BooksLength(table, a);
    forall other: nat ensures RowOk(table, first, b, other) {
      if other != id {
        ChangeKeepsOthers(table, first, a, b, id, t, other);
      }
    }
    WriteBooks(table, a, b, id, t);
  }

  lemma BooksLength(table: string, w: World)
    requires Books(table, w)
    ensures |w.left| == |w.mgr.history|
  {
  }

  lemma EraseStep(table: string, first: map<RowId, Row>, a: World, b: World, t: TxnId, id: nat)
    requires WorldOk(table, first, a) && Acts(table, a, b, Action.Erase(t, id))
    ensures WorldOk(table, first, b)
  {
    hide KeyOf, RowOk, Invariant, StoreOk, Books, Closed;
    RowErased(table, first, a, b, t, id);
    LiveIs(a.mgr, t);
    LiveWrote(a.mgr, t, KeyOf(table, id));
    WriteKeeps(a.mgr, t, KeyOf(table, id));
    ClosedIs(a.rows, id, t);
    BooksLength(table, a);
    forall other: nat ensures RowOk(table, first, b, other) {
      if other != id {
        ChangeKeepsOthers(table, first, a, b, id, t, other);
      }
    }
    WriteBooks(table, a, b, id, t);
  }

  lemma StampKeepsOthers(
      table: string, first: map<RowId, Row>, a: World, b: World, id: nat, t: TxnId, v: Option<Row>, other: nat)
    requires RowOk(table, first, a, other) && other != id && Stamps(table, a, b, id, t, v)
    requires ChainOf(a.rows, other) == ChainOf(b.rows, other) && b.drafts == a.drafts && b.dying == a.dying
    ensures RowOk(table, first, b, other)
  {
    hide KeyOf, Mentions, Reads, Climbs, Noted, Owned;
    OtherKey(table, id, other);
    RowKept(table, first, a, b, other);
  }

  lemma StampBooks(table: string, a: World, b: World, id: nat, t: TxnId, v: Option<Row>)
    requires Books(table, a) && Stamps(table, a, b, id, t, v) && b.mgr.writeSets == a.mgr.writeSets
    requires b.dying == a.dying
    ensures Books(table, b)
  {
    hide KeyOf, When;
    OtherKeys(table, id);
  }

  lemma StampStep(table: string, first: map<RowId, Row>, a: World, b: World, t: TxnId, id: nat, action: Action)
    requires WorldOk(table, first, a) && Acts(table, a, b, action)
    requires (action.Stamp? || action.StampErase?) && action.t == t && action.id == id
    ensures WorldOk(table, first, b)
  {
    hide KeyOf, RowOk, Invariant, StoreOk, Books, Closed, Written, JustCommitted, Wrote, When;
    var v := if action.Stamp? then Some(action.row) else None;
    if action.Stamp? {
      RowStamped(table, first, a, b, t, id, action.row);
      WrittenIs(a.rows, id, action.row, t);
    } else {
      RowStampErased(table, first, a, b, t, id);
      ClosedIs(a.rows, id, t);
    }
    BooksLength(table, a);
    StampIs(a.mgr, t, KeyOf(table, id));
    WriteKeeps(a.mgr, t, KeyOf(table, id));
    assert Stamps(table, a, b, id, t, v);
    forall other: nat ensures RowOk(table, first, b, other) {
      if other != id {
        StampKeepsOthers(table, first, a, b, id, t, v, other);
      }
    }
    StampBooks(table, a, b, id, t, v);
  }

  lemma UndoStep(table: string, first: map<RowId, Row>, a: World, b: World, t: TxnId, id: nat, action: Action)
    requires WorldOk(table, first, a) && Acts(table, a, b, action)
    requires (action.UndoVersion? || action.UndoErase?) && action.t == t && action.id == id
    ensures WorldOk(table, first, b)
  {
    hide KeyOf, RowOk, Invariant, StoreOk, Books, Popped, Cleared;
    if action.UndoVersion? {
      RowPopped(table, first, a, b, t, id);
      PoppedIs(a.rows, id);
    } else {
      RowCleared(table, first, a, b, t, id);
      ClearedIs(a.rows, id);
    }
    NowIs(a.mgr);
    BooksLength(table, a);
    forall other: nat ensures RowOk(table, first, b, other) {
      if other != id {
        ChangeKeepsOthers(table, first, a, b, id, t, other);
      }
    }
    SameBooks(table, a, b);
  }

  lemma SameBooks(table: string, a: World, b: World)
    requires Books(table, a) && b == a.(rows := b.rows)
    ensures Books(table, b)
  {
  }

  lemma CommitBooks(table: string, first: map<RowId, Row>, a: World, b: World, t: TxnId)
    requires WorldOk(table, first, a) && Acts(table, a, b, Action.Commit(t))
    ensures Books(table, b)
  {
    hide KeyOf, Invariant, Conflicted, Prunes, Published, Reads, Climbs, Noted, Owned, Mentions;
    CommitIs(a.mgr, b.mgr, t, t);
    LiveIs(a.mgr, t);
    forall id: nat ensures id in DraftsOf(a, t) <==> KeyOf(table, id) in FootprintOf(a.mgr, t).writeSet {
      assert RowOk(table, first, a, id);
    }
    CommitBooksBy(table, a, b, t, FootprintOf(a.mgr, t));
  }

  lemma CommitBooksBy(table: string, a: World, b: World, t: TxnId, f: Footprint)
    requires Books(table, a) && t !in a.dying
    requires b.mgr.history == a.mgr.history + [f] && b.mgr.writeSets == a.mgr.writeSets - {t}
    requires b == a.(mgr := b.mgr, owners := Without(a.owners, t), left := a.left + [DraftsOf(a, t)])
    requires forall x :: Live(b.mgr.txns, x) <==> Live(a.mgr.txns, x) && x != t
    requires forall id: nat :: id in DraftsOf(a, t) <==> KeyOf(table, id) in f.writeSet
    ensures Books(table, b)
  {
    hide KeyOf;
  }

  lemma CommitStep(table: string, first: map<RowId, Row>, a: World, b: World, t: TxnId)
    requires WorldOk(table, first, a) && Acts(table, a, b, Action.Commit(t))
    ensures WorldOk(table, first, b)
  {
    hide RowOk, Invariant, StoreOk, Books, Conflicted, Prunes, Published;
    CommitKeeps(a.mgr, t);
    PruneKeeps(Published(a.mgr, t), b.mgr);
    CommitBooks(table, first, a, b, t);
    forall id: nat ensures RowOk(table, first, b, id) {
      RowCommitted(table, first, a, b, t, id);
    }
  }

  // ----- Steps of the manager alone ------------------------------------------------------------------------

  /** The manager goes on, and nothing that concerns the table is different. */
  ghost predicate Quiet(table: string, a: World, b: World) {
    && b == a.(mgr := b.mgr) && b.mgr.now == a.mgr.now && |b.mgr.history| == |a.mgr.history|
    && (forall t :: When(b.mgr, t) == When(a.mgr, t))
    && (forall i, id: nat :: 0 <= i < |a.mgr.history| ==>
         (KeyOf(table, id) in a.mgr.history[i].writeSet <==> KeyOf(table, id) in b.mgr.history[i].writeSet))
  }

  lemma QuietRow(table: string, first: map<RowId, Row>, a: World, b: World, id: nat)
    requires RowOk(table, first, a, id) && Quiet(table, a, b) && 0 <= a.mgr.now == |a.mgr.history| == |a.left|
    ensures RowOk(table, first, b, id)
  {
    hide KeyOf, Mentions, Reads, Climbs, Noted, Owned, When;
    RowKept(table, first, a, b, id);
  }

  /** The manager's books differ at most by the given key. */
  ghost predicate SameBut(s: State, m: State, key: Option<ConflictKey>) {
    && m.txns == s.txns && m.now == s.now && |m.history| == |s.history| && m.writeSets.Keys == s.writeSets.Keys
    && (forall i, k :: 0 <= i < |s.history| && Some(k) != key ==>
         (k in s.history[i].writeSet <==> k in m.history[i].writeSet))
    && (forall t, k :: t in s.writeSets && t in m.writeSets && Some(k) != key ==>
         (k in s.writeSets[t] <==> k in m.writeSets[t]))
  }

  lemma InsertedIs(s: State, t: TxnId, image: SsiInsert)
    ensures SameBut(s, Inserted(s, t, image), None)
  {
    hide JustCommitted;
    if t !in s.inserts && JustCommitted(s, t) {
      assert s.history != [] by { JustCommittedLast(s, t); }
    }
  }

  lemma WroteIs(s: State, t: TxnId, key: ConflictKey)
    ensures SameBut(s, Wrote(s, t, key), Some(key))
  {
    hide JustCommitted;
    if t !in s.writeSets && JustCommitted(s, t) {
      assert s.history != [] by { JustCommittedLast(s, t); }
    }
  }

  lemma JustCommittedLast(s: State, t: TxnId)
    requires JustCommitted(s, t)
    ensures s.history != []
  {
  }

  lemma NoteIsSame(table: string, s: State, m: State)
    requires Invariant(s) && Notes(table, s, m)
    ensures Invariant(m)
    ensures SameBut(s, m, None) || exists key :: SameBut(s, m, Some(key)) && forall id: nat :: key != KeyOf(table, id)
  {
    hide KeyOf, Invariant, SameBut, Inserted, Wrote;
    if t, image :| m == Inserted(s, t, image) {
      InsertKeeps(s, t, image);
      InsertedIs(s, t, image);
    } else if t, key :| m == Wrote(s, t, key) && forall id: nat :: key != KeyOf(table, id) {
      WriteKeeps(s, t, key);
      WroteIs(s, t, key);
    } else {
      ReadKeeps(s, m);
      ReadIsSame(s, m);
    }
  }

  lemma ReadIsSame(s: State, m: State)
    requires m == s.(readSets := m.readSets, preds := m.preds)
    ensures SameBut(s, m, None)
  {
  }

  lemma NoteIsQuiet(table: string, a: World, b: World)
    requires Invariant(a.mgr) && Notes(table, a.mgr, b.mgr) && b == a.(mgr := b.mgr)
    ensures Invariant(b.mgr) && Quiet(table, a, b) && b.mgr.txns == a.mgr.txns
    ensures b.mgr.writeSets.Keys == a.mgr.writeSets.Keys
    ensures forall t, id: nat :: t in a.mgr.writeSets && t in b.mgr.writeSets ==>
      (KeyOf(table, id) in a.mgr.writeSets[t] <==> KeyOf(table, id) in b.mgr.writeSets[t])
  {
    hide KeyOf, Invariant, Notes, SameBut;
    NoteIsSame(table, a.mgr, b.mgr);
    if SameBut(a.mgr, b.mgr, None) {
      SameButQuiet(table, a, b, None);
    } else {
      var key :| SameBut(a.mgr, b.mgr, Some(key)) && forall id: nat :: key != KeyOf(table, id);
      SameButQuiet(table, a, b, Some(key));
    }
  }

  lemma SameButQuiet(table: string, a: World, b: World, key: Option<ConflictKey>)
    requires SameBut(a.mgr, b.mgr, key) && b == a.(mgr := b.mgr)
    requires forall id: nat :: Some(KeyOf(table, id)) != key
    ensures Quiet(table, a, b) && b.mgr.txns == a.mgr.txns
    ensures b.mgr.writeSets.Keys == a.mgr.writeSets.Keys
    ensures forall t, id: nat :: t in a.mgr.writeSets && t in b.mgr.writeSets ==>
      (KeyOf(table, id) in a.mgr.writeSets[t] <==> KeyOf(table, id) in b.mgr.writeSets[t])
  {
    hide KeyOf;
  }

  lemma QuietBooks(table: string, a: World, b: World)
    requires Books(table, a) && Quiet(table, a, b) && b.mgr.txns == a.mgr.txns
    requires b.mgr.writeSets.Keys == a.mgr.writeSets.Keys
    requires forall t, id: nat :: t in a.mgr.writeSets && t in b.mgr.writeSets ==>
      (KeyOf(table, id) in a.mgr.writeSets[t] <==> KeyOf(table, id) in b.mgr.writeSets[t])
    ensures Books(table, b)
  {
    hide KeyOf, When;
  }

  lemma NoteStep(table: string, first: map<RowId, Row>, a: World, b: World)
    requires WorldOk(table, first, a) && Acts(table, a, b, Note(b.mgr))
    ensures WorldOk(table, first, b)
  {
    hide RowOk, Invariant, StoreOk, Books, Notes, Quiet, KeyOf;
    NowIs(a.mgr);
    BooksLength(table, a);
    NoteIsQuiet(table, a, b);
    forall id: nat ensures RowOk(table, first, b, id) {
      QuietRow(table, first, a, b, id);
    }
    assert Books(table, b) by { QuietBooks(table, a, b); }
  }

  lemma BeginIsQuiet(table: string, a: World, b: World)
    requires Invariant(a.mgr) && Books(table, a) && b == a.(mgr := Begun(a.mgr))
    ensures Quiet(table, a, b) && Books(table, b)
  {
    hide Isolated, WellTimed, Retained, KeyOf, Keyed;
  }

  lemma BeginStep(table: string, first: map<RowId, Row>, a: World, b: World)
    requires WorldOk(table, first, a) && Acts(table, a, b, Action.Begin)
    ensures WorldOk(table, first, b)
  {
    hide RowOk, Invariant, StoreOk, Books, Quiet, KeyOf, Begun;
    NowIs(a.mgr);
    BooksLength(table, a);
    BeginKeeps(a.mgr);
    BeginIsQuiet(table, a, b);
    forall id: nat ensures RowOk(table, first, b, id) {
      QuietRow(table, first, a, b, id);
    }
  }

  lemma RollbackStep(table: string, first: map<RowId, Row>, a: World, b: World, t: TxnId)
    requires WorldOk(table, first, a) && Acts(table, a, b, Action.Rollback(t))
    ensures WorldOk(table, first, b)
  {
    hide KeyOf, Invariant, StoreOk, Reads, Climbs, Noted, Mentions;
    NowIs(a.mgr);
    forall id: nat ensures RowOk(table, first, b, id) {
      assert RowOk(table, first, a, id);
      RowKept(table, first, a, b, id);
    }
  }

  lemma AbortIs(s: State, m: State, t: TxnId)
    requires Invariant(s) && Live(s.txns, t) && Prunes(Ended(s, t, RolledBack), m)
    ensures m.now == s.now && m.history == s.history && m.writeSets == s.writeSets - {t}
    ensures forall u :: When(m, u) == When(s, u)
    ensures forall x :: Live(m.txns, x) <==> Live(s.txns, x) && x != t
  {
    hide Isolated, WellTimed, Retained, Keyed;
  }

  lemma AbortBooks(table: string, a: World, b: World, t: TxnId)
    requires Books(table, a) && b.mgr.history == a.mgr.history && b.mgr.writeSets == a.mgr.writeSets - {t}
    requires b == a.(mgr := b.mgr, owners := Without(a.owners, t), dying := a.dying - {t})
    requires forall x :: Live(b.mgr.txns, x) <==> Live(a.mgr.txns, x) && x != t
    ensures Books(table, b)
  {
    hide KeyOf;
  }

  lemma AbortStep(table: string, first: map<RowId, Row>, a: World, b: World, t: TxnId)
    requires WorldOk(table, first, a) && Acts(table, a, b, Action.Abort(t))
    ensures WorldOk(table, first, b)
  {
    hide KeyOf, Invariant, StoreOk, Reads, Climbs, Noted, Mentions, When, Prunes, Ended, Books;
    NowIs(a.mgr);
    BooksLength(table, a);
    AbortIs(a.mgr, b.mgr, t);
    RollbackKeeps(a.mgr, t);
    PruneKeeps(Ended(a.mgr, t, RolledBack), b.mgr);
    forall id: nat ensures RowOk(table, first, b, id) {
      assert RowOk(table, first, a, id);
      RowKept(table, first, a, b, id);
    }
    AbortBooks(table, a, b, t);
  }

  lemma OneAction(table: string, first: map<RowId, Row>, a: World, b: World, action: Action)
    requires WorldOk(table, first, a) && Acts(table, a, b, action)
    ensures WorldOk(table, first, b)
  {
    hide WorldOk, Acts;
    match action {
      case Begin => BeginStep(table, first, a, b);
      case Note(m) =>
        assert m == b.mgr by { NoteMgr(table, a, b, m); }
        NoteStep(table, first, a, b);
      case Write(t, id, row) => WriteStep(table, first, a, b, t, id, row);
      case Erase(t, id) => EraseStep(table, first, a, b, t, id);
      case Stamp(t, id, row) => StampStep(table, first, a, b, t, id, action);
      case StampErase(t, id) => StampStep(table, first, a, b, t, id, action);
      case Commit(t) => CommitStep(table, first, a, b, t);
      case Rollback(t) => RollbackStep(table, first, a, b, t);
      case UndoVersion(t, id) => UndoStep(table, first, a, b, t, id, action);
      case UndoErase(t, id) => UndoStep(table, first, a, b, t, id, action);
      case Abort(t) => AbortStep(table, first, a, b, t);
    }
  }

  lemma NoteMgr(table: string, a: World, b: World, m: State)
    requires Acts(table, a, b, Note(m))
    ensures m == b.mgr
  {
  }

  // ----- Runs -------------------------------------------------------------------------------------------------

  ghost function Start(first: map<RowId, Row>): World {
    World(INITIAL, map id | id in first :: [Version(SYSTEM, None, first[id])], map[], map[], [], {})
  }

  lemma StartOk(table: string, first: map<RowId, Row>)
    ensures WorldOk(table, first, Start(first))
  {
    InitialKeeps();
    var w := Start(first);
    forall id: nat ensures RowOk(table, first, w, id) {
      var c := ChainOf(w.rows, id);
      if id in first {
        assert c == [Version(SYSTEM, None, first[id])];
      }
    }
  }

  ghost predicate Runs(table: string, first: map<RowId, Row>, run: seq<World>, actions: seq<Action>) {
    && |run| == |actions| + 1 && run[0] == Start(first)
    && forall k :: 0 <= k < |actions| ==> Acts(table, run[k], run[k + 1], actions[k])
  }

  lemma {:induction false} EveryWorld(
      table: string, first: map<RowId, Row>, run: seq<World>, actions: seq<Action>, k: nat)
    requires Runs(table, first, run, actions) && k < |run|
    ensures WorldOk(table, first, run[k])
  {
    hide Acts, WorldOk, Start;
    if k == 0 {
      StartOk(table, first);
    } else {
      EveryWorld(table, first, run, actions, k - 1);
      assert Acts(table, run[k - 1], run[k - 1 + 1], actions[k - 1]);
      OneAction(table, first, run[k - 1], run[k], actions[k - 1]);
    }
  }

  // ----- What a read returns --------------------------------------------------------------------------------

  /** The reader is nobody in particular, or an open transaction that has not changed the row. */
  ghost predicate Bystander(w: World, self: TxnId, id: RowId) {
    self == SYSTEM || (Live(w.mgr.txns, self) && !Owns(w, id, self))
  }

  /** In every world that a run reaches, reading a row that the reader has not changed gives
      what the last commit within the snapshot that wrote the row left in it. */
  lemma ReadIsLastCommit(
      table: string, first: map<RowId, Row>, run: seq<World>, actions: seq<Action>, k: nat,
      self: TxnId, n: nat, id: nat)
    requires Runs(table, first, run, actions) && k < |run| && Bystander(run[k], self, id) && n <= run[k].mgr.now
    ensures n <= |run[k].mgr.history|
    ensures ReadAt(run[k].mgr, ChainOf(run[k].rows, id), self, n) ==
      ValueAt(table, first, run[k].mgr.history, run[k].left, n, id)
  {
    hide Runs, KeyOf, Mentions, When, ReadAt, ValueAt, Climbs, Noted, Drafted, Invariant, StoreOk, Books;
    EveryWorld(table, first, run, actions, k);
    var w := run[k];
    NowIs(w.mgr);
    SystemFirst(w.mgr);
    assert RowOk(table, first, w, id);
    if self != SYSTEM {
      LiveIs(w.mgr, self);
    }
    SameRead(w.mgr, w.mgr, ChainOf(w.rows, id), self, n, SYSTEM, n);
  }

  lemma SystemFirst(s: State)
    ensures When(s, SYSTEM) == 0
  {
  }

  /** A transaction reads what it wrote; a row that it erased it reads as gone if and only if
      nobody has committed a change of the row since the snapshot, or the snapshot has none. */
  lemma ReadIsOwnDraft(
      table: string, first: map<RowId, Row>, run: seq<World>, actions: seq<Action>, k: nat, t: TxnId, n: nat, id: nat)
    requires Runs(table, first, run, actions) && k < |run| && n <= run[k].mgr.now
    requires Owns(run[k], id, t) && t !in run[k].dying
    ensures n <= run[k].mgr.now == |run[k].mgr.history| && id in run[k].drafts
    ensures var w := run[k]; var read := ReadAt(w.mgr, ChainOf(w.rows, id), t, n);
      match w.drafts[id]
      case Some(row) => read == Some(row)
      case None =>
        read == None <==>
          || LastWriter(w.mgr.history, KeyOf(table, id), w.mgr.now) <= n
          || ValueAt(table, first, w.mgr.history, w.left, n, id) == None
  {
    hide Runs, KeyOf, WorldOk;
    EveryWorld(table, first, run, actions, k);
    var w := run[k];
    WorldFacts(table, first, w, id, t);
    if w.drafts[id].None? {
      ErasedRead(table, first, w, id, t, n);
    } else {
      DraftRow(w, id, t, n);
    }
  }

  lemma WorldFacts(table: string, first: map<RowId, Row>, w: World, id: nat, t: TxnId)
    requires WorldOk(table, first, w) && Owns(w, id, t) && t !in w.dying
    ensures RowOk(table, first, w, id) && Layered(ChainOf(w.rows, id)) && id in w.drafts
    ensures 0 <= w.mgr.now == |w.mgr.history| && t != SYSTEM && When(w.mgr, t) == w.mgr.now + 1
  {
    hide KeyOf, Invariant, Climbs, Mentions, When, Reads, Noted;
    assert RowOk(table, first, w, id);
    NowIs(w.mgr);
    LiveIs(w.mgr, t);
    LayeredIn(w.rows, id);
  }

  lemma DraftRow(w: World, id: RowId, t: TxnId, n: nat)
    requires Drafted(w, id) && Owns(w, id, t) && t !in w.dying && w.drafts[id].Some?
    ensures ReadAt(w.mgr, ChainOf(w.rows, id), t, n) == w.drafts[id]
  {
  }

  /** A version as the snapshot shows it to others: begun within it, closed after it. */
  ghost predicate Current(s: State, v: Version, n: int) {
    When(s, v.createdBy) <= n && v.deletedBy.Some? && n < When(s, v.deletedBy.value)
  }

  lemma ClosedVersion(w: World, c: Chain, t: TxnId, n: nat, i: int)
    requires 0 <= i < |c| && n <= w.mgr.now && Climbs(c, w.mgr) && c[i].deletedBy.Some?
    requires t != SYSTEM && When(w.mgr, t) == w.mgr.now + 1
    requires forall u :: Mentions(c, u) ==> When(w.mgr, u) <= w.mgr.now || u == t
    ensures Visible(c[i], SeesOf(w.mgr.txns, ReadSnapshot(SYSTEM, n))) <==> Current(w.mgr, c[i], n)
    ensures Visible(c[i], SeesOf(w.mgr.txns, ReadSnapshot(t, n))) <==>
      Current(w.mgr, c[i], n) && c[i].deletedBy != Some(t)
  {
    hide CreatorVisible, When, Mentions;
    MarkOf(c, i);
    SystemFirst(w.mgr);
    SeenIs(w.mgr, SYSTEM, n, c[i].createdBy);
    SeenIs(w.mgr, SYSTEM, n, c[i].deletedBy.value);
    SeenIs(w.mgr, t, n, c[i].createdBy);
    SeenIs(w.mgr, t, n, c[i].deletedBy.value);
  }

  lemma ErasedRead(table: string, first: map<RowId, Row>, w: World, id: nat, t: TxnId, n: nat)
    requires RowOk(table, first, w, id) && Layered(ChainOf(w.rows, id)) && Owns(w, id, t) && t !in w.dying
    requires 0 <= w.mgr.now == |w.mgr.history| && t != SYSTEM && When(w.mgr, t) == w.mgr.now + 1
    requires id in w.drafts && w.drafts[id].None? && n <= w.mgr.now
    ensures ReadAt(w.mgr, ChainOf(w.rows, id), t, n) == None <==>
      || LastWriter(w.mgr.history, KeyOf(table, id), w.mgr.now) <= n
      || ValueAt(table, first, w.mgr.history, w.left, n, id) == None
  {
    hide CreatorVisible, When, Mentions, ReadChain, KeyOf, ValueAt, Climbs, Visible, Current;
    var c := ChainOf(w.rows, id);
    var mine, all := SeesOf(w.mgr.txns, ReadSnapshot(t, n)), SeesOf(w.mgr.txns, ReadSnapshot(SYSTEM, n));
    forall i | 0 <= i < |c|
      ensures Visible(c[i], all) <==> Current(w.mgr, c[i], n)
      ensures Visible(c[i], mine) <==> Current(w.mgr, c[i], n) && c[i].deletedBy != Some(t)
    {
      ClosedVersion(w, c, t, n, i);
    }
    NothingVisible(c, mine);
    NothingVisible(c, all);
    forall i | 0 <= i < |c| && Current(w.mgr, c[i], n)
      ensures c[i].deletedBy == Some(t) <==> LastWriter(w.mgr.history, KeyOf(table, id), w.mgr.now) <= n
    {
      CurrentCloser(table, w, c, t, n, id, i);
    }
  }

  /** The version that a snapshot shows is closed by the owner exactly when no later commit
      wrote the row. */
  lemma CurrentCloser(table: string, w: World, c: Chain, t: TxnId, n: nat, id: nat, i: int)
    requires c == ChainOf(w.rows, id) && Climbs(c, w.mgr) && Noted(table, w, id) && Owned(w, id) && Owns(w, id, t)
    requires 0 <= i < |c| && Current(w.mgr, c[i], n) && n <= w.mgr.now == |w.mgr.history|
    requires t != SYSTEM && When(w.mgr, t) == w.mgr.now + 1
    ensures c[i].deletedBy == Some(t) <==> LastWriter(w.mgr.history, KeyOf(table, id), w.mgr.now) <= n
  {
    hide KeyOf, When, Mentions, Climbs;
    var s := LastWriter(w.mgr.history, KeyOf(table, id), w.mgr.now);
    var u := c[i].deletedBy.value;
    MarkOf(c, i);
    if u != t {
      assert When(w.mgr, u) <= w.mgr.now;
      NotSystem(w.mgr, u, n);
      assert CommitMarked(w, id, When(w.mgr, u));
      assert KeyOf(table, id) in w.mgr.history[When(w.mgr, u) - 1].writeSet;
    } else if s > n {
      assert KeyOf(table, id) in w.mgr.history[s - 1].writeSet;
      assert CommitMarked(w, id, s);
      var x :| Mentions(c, x) && x != SYSTEM && When(w.mgr, x) == s;
      NoMarkBetween(c, w.mgr, i, x);
    }
  }

  lemma NotSystem(s: State, u: TxnId, n: nat)
    requires n < When(s, u)
    ensures u != SYSTEM
  {
  }

  /** Every mark lies at or before the opening of a version, or at or after its closing. */
  lemma NoMarkBetween(c: Chain, s: State, i: int, x: TxnId)
    requires Climbs(c, s) && 0 <= i < |c| && c[i].deletedBy.Some? && Mentions(c, x)
    ensures When(s, x) <= When(s, c[i].createdBy) || When(s, c[i].deletedBy.value) <= When(s, x)
  {
    hide When;
    var j :| 0 <= j < |c| && (c[j].createdBy == x || c[j].deletedBy == Some(x));
  }

  // ----- Reads and the serial run -------------------------------------------------------------------------------

  /** The transactions leave in the rows of the table what the given programs compute. */
  ghost predicate Explains(
      table: string, first: map<RowId, Row>, w: World, init: ConflictKey -> Option<Row>, run: Programs<Option<Row>>)
    requires WellTimed(w.mgr.history)
  {
    && (forall id: nat :: init(KeyOf(table, id)) == if id in first then Some(first[id]) else None)
    && (forall s, id: nat :: 1 <= s <= |w.left| && s <= |w.mgr.history| && id in w.left[s - 1] ==>
         w.left[s - 1][id] == VersionValue(w.mgr.history, init, run, s, KeyOf(table, id)))
  }

  /** A read within a snapshot of n commits gives what running the first n transactions one
      after another leaves in the row. */
  lemma ReadIsSerial(
      table: string, first: map<RowId, Row>, trace: seq<World>, actions: seq<Action>, k: nat,
      init: ConflictKey -> Option<Row>, run: Programs<Option<Row>>, self: TxnId, n: nat, id: nat)
    requires Runs(table, first, trace, actions) && k < |trace|
    requires Bystander(trace[k], self, id) && n <= trace[k].mgr.now
    requires WellTimed(trace[k].mgr.history) && Explains(table, first, trace[k], init, run)
    ensures n <= |trace[k].mgr.history|
    ensures ReadAt(trace[k].mgr, ChainOf(trace[k].rows, id), self, n) ==
      SerialState(trace[k].mgr.history, init, run, n, KeyOf(table, id))
  {
    hide Runs, KeyOf, WorldOk, ReadAt, VersionValue, SerialState, Bystander;
    var w := trace[k];
    ReadIsLastCommit(table, first, trace, actions, k, self, n, id);
    EveryWorld(table, first, trace, actions, k);
    HistoryFacts(table, first, w);
    var key := KeyOf(table, id);
    var s := LastWriter(w.mgr.history, key, n);
    SerialEquivalence(w.mgr.history, init, run, n, key);
    if s == 0 {
      FirstVersion(w.mgr.history, init, run, key);
    } else {
      assert id in w.left[s - 1] by { LeftThere(table, w, s, id); }
    }
  }

  lemma FirstVersion(h: History, init: ConflictKey -> Option<Row>, run: Programs<Option<Row>>, key: ConflictKey)
    requires WellTimed(h)
    ensures VersionValue(h, init, run, 0, key) == init(key)
  {
  }

  lemma HistoryFacts(table: string, first: map<RowId, Row>, w: World)
    requires WorldOk(table, first, w)
    ensures Isolated(w.mgr.history) && WellTimed(w.mgr.history) && Books(table, w) && |w.left| == |w.mgr.history|
  {
  }

  lemma LeftThere(table: string, w: World, s: int, id: nat)
    requires Books(table, w) && 1 <= s <= |w.mgr.history| && KeyOf(table, id) in w.mgr.history[s - 1].writeSet
    ensures |w.left| == |w.mgr.history| && id in w.left[s - 1]
  {
    hide KeyOf;
  }

  /** So the reads of every committed transaction are those of the serial run. */
  lemma CommittedViewIsSerial(
      table: string, first: map<RowId, Row>, trace: seq<World>, actions: seq<Action>, k: nat,
      init: ConflictKey -> Option<Row>, run: Programs<Option<Row>>, j: nat, id: nat)
    requires Runs(table, first, trace, actions) && k < |trace| && j < |trace[k].mgr.history|
    requires WellTimed(trace[k].mgr.history) && Explains(table, first, trace[k], init, run)
    requires KeyOf(table, id) in trace[k].mgr.history[j].readSet
    ensures ReadAt(trace[k].mgr, ChainOf(trace[k].rows, id), SYSTEM, trace[k].mgr.history[j].snapshot) ==
      SerialView(trace[k].mgr.history, init, run, j)[KeyOf(table, id)]
  {
    hide Runs, KeyOf, WorldOk, ReadAt, VersionValue, SerialState, Explains;
    var w := trace[k];
    EveryWorld(table, first, trace, actions, k);
    HistoryFacts(table, first, w);
    assert w.mgr.now == |w.mgr.history| by { WorldNow(table, first, w); }
    var n := w.mgr.history[j].snapshot;
    ReadIsSerial(table, first, trace, actions, k, init, run, SYSTEM, n, id);
    SnapshotReadsAreCurrent(w.mgr.history, j, KeyOf(table, id), j);
    SerialEquivalence(w.mgr.history, init, run, n, KeyOf(table, id));
    SerialEquivalence(w.mgr.history, init, run, j, KeyOf(table, id));
  }

  lemma WorldNow(table: string, first: map<RowId, Row>, w: World)
    requires WorldOk(table, first, w)
    ensures w.mgr.now == |w.mgr.history|
  {
    NowIs(w.mgr);
  }
}
