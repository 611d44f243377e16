/** Version chains: how a row's versions are written, closed, undone and read
    through a snapshot. */
module Versions {
  import opened Values
  import opened Serializability
  import opened Transactions

  datatype Version = Version(createdBy: TxnId, deletedBy: Option<TxnId>, row: Row)

  /** Oldest version first. */
  type Chain = seq<Version>

  // ----- Visibility ------------------------------------------------------------

  predicate CreatorVisible(txns: map<TxnId, Txn>, snapshot: ReadSnapshot, creator: TxnId) {
    || creator == SYSTEM
    || creator == snapshot.self
    || (creator in txns && txns[creator].state.Committed? && txns[creator].state.seqno <= snapshot.maxCommitSeq)
  }

  /** The transactions whose effects a snapshot shows. */
  type Sees = TxnId -> bool

  function SeesOf(txns: map<TxnId, Txn>, snapshot: ReadSnapshot): Sees {
    creator => CreatorVisible(txns, snapshot, creator)
  }

  predicate Visible(v: Version, sees: Sees) {
    sees(v.createdBy) && !(v.deletedBy.Some? && sees(v.deletedBy.value))
  }

  /** The newest visible version. */
  function ReadChain(c: Chain, sees: Sees): Option<Row> {
    if c == [] then None
    else if Visible(c[|c| - 1], sees) then Some(c[|c| - 1].row)
    else ReadChain(c[..|c| - 1], sees)
  }

  // ----- Operations on one chain --------------------------------------------------

  function Last(c: Chain): Version
    requires c != []
  {
    c[|c| - 1]
  }

  predicate Open(c: Chain) {
    c != [] && Last(c).deletedBy.None?
  }

  function Marked(c: Chain, mark: Option<TxnId>): Chain
    requires c != []
  {
    c[|c| - 1 := Last(c).(deletedBy := mark)]
  }

  /** A new version closes the one it replaces. */
  function WriteChain(c: Chain, row: Row, txn: TxnId): Chain {
    (if Open(c) then Marked(c, Some(txn)) else c) + [Version(txn, None, row)]
  }

  function EraseChain(c: Chain, txn: TxnId): Chain {
    if c == [] then c else Marked(c, Some(txn))
  }

  /** Undoing a version always reopens the one below it. */
  function PopChain(c: Chain): Chain
    requires c != []
  {
    var rest := c[..|c| - 1];
    if rest == [] then rest else Marked(rest, None)
  }

  function ClearChain(c: Chain): Chain {
    if c == [] then c else Marked(c, None)
  }

  // ----- Undo --------------------------------------------------------------------------

  /** Undoing a write gives the chain back, except that a version which was
      closed before the write comes back open. */
  lemma PopUndoesWrite(c: Chain, row: Row, txn: TxnId)
    ensures PopChain(WriteChain(c, row, txn)) == ClearChain(c)
    ensures PopChain(WriteChain(c, row, txn)) == c <==> c == [] || Open(c)
  {
    var closed := if Open(c) then Marked(c, Some(txn)) else c;
    var w := WriteChain(c, row, txn);
    assert w[..|w| - 1] == closed;
    if c != [] {
      assert Marked(closed, None) == Marked(c, None);
      assert Marked(c, None)[|c| - 1] == Last(c).(deletedBy := None);
      if Open(c) {
        assert Marked(c, None) == c;
      }
    }
  }

  lemma ClearUndoesErase(c: Chain, txn: TxnId)
    requires Open(c)
    ensures ClearChain(EraseChain(c, txn)) == c
    ensures ClearChain(ClearChain(EraseChain(c, txn))) == c
  {
    assert Marked(c, None) == c;
    assert Marked(Marked(c, Some(txn)), None) == Marked(c, None);
  }

  // ----- A transaction's own steps ------------------------------------------------------

  /** A transaction reads what it wrote last, whatever its snapshot. */
  lemma ReadsOwnWrite(c: Chain, row: Row, txns: map<TxnId, Txn>, self: TxnId, seqno: CommitSeq)
    ensures ReadChain(WriteChain(c, row, self), SeesOf(txns, ReadSnapshot(self, seqno))) == Some(row)
  {
  }

  lemma {:induction false} NothingVisible(c: Chain, sees: Sees)
    ensures ReadChain(c, sees) == None <==> forall i :: 0 <= i < |c| ==> !Visible(c[i], sees)
  {
    if c != [] {
      NothingVisible(c[..|c| - 1], sees);
    }
  }

  /** A transaction can read a row that it has erased: here another one has written it since
      the snapshot. */
  lemma ErasedRowIsRead(old_: Row, new_: Row)
    ensures
      var txns := map[1 := Txn(Active, 0), 2 := Txn(Committed(1), 0)];
      var c := WriteChain([Version(SYSTEM, None, old_)], new_, 2);
      Open(c) && ReadChain(EraseChain(c, 1), SeesOf(txns, ReadSnapshot(1, 0))) == Some(old_)
  {
    var txns := map[1 := Txn(Active, 0), 2 := Txn(Committed(1), 0)];
    var c := [Version(SYSTEM, Some(2), old_), Version(2, None, new_)];
    assert WriteChain([Version(SYSTEM, None, old_)], new_, 2) == c;
    var d := [Version(SYSTEM, Some(2), old_), Version(2, Some(1), new_)];
    assert EraseChain(c, 1) == d;
    assert d[..1] == [d[0]];
    assert [d[0]][..0] == [];
  }

  /** Two open transactions must not change the same row: here one erases what the other has
      only drafted, commits, and the row is still read. */
  lemma OverlappingEraseIsLost(old_: Row, new_: Row)
    ensures
      var txns := map[1 := Txn(Active, 0), 2 := Txn(Committed(1), 0)];
      var c := WriteChain([Version(SYSTEM, None, old_)], new_, 1);
      Open(c) && ReadChain(EraseChain(c, 2), SeesOf(txns, ReadSnapshot(SYSTEM, 1))) == Some(old_)
  {
    var c := [Version(SYSTEM, Some(1), old_), Version(1, None, new_)];
    assert WriteChain([Version(SYSTEM, None, old_)], new_, 1) == c;
    var d := [Version(SYSTEM, Some(1), old_), Version(1, Some(2), new_)];
    assert EraseChain(c, 2) == d;
    assert d[..1] == [d[0]];
    assert [d[0]][..0] == [];
  }

  // ----- Steps of a transaction that a snapshot does not show -----------------------------

  lemma MarkedReads(c: Chain, mark: Option<TxnId>, sees: Sees)
    requires c != []
    requires (mark.Some? && sees(mark.value)) <==> (Last(c).deletedBy.Some? && sees(Last(c).deletedBy.value))
    ensures ReadChain(Marked(c, mark), sees) == ReadChain(c, sees)
  {
    assert Marked(c, mark)[..|c| - 1] == c[..|c| - 1];
  }

  lemma WriteUnseen(c: Chain, row: Row, txn: TxnId, sees: Sees)
    requires !sees(txn)
    ensures ReadChain(WriteChain(c, row, txn), sees) == ReadChain(c, sees)
  {
    var closed := if Open(c) then Marked(c, Some(txn)) else c;
    assert WriteChain(c, row, txn)[..|closed|] == closed;
    if Open(c) {
      MarkedReads(c, Some(txn), sees);
    }
  }

  /** An erase is unseen when the version it closes was open, which the caller's
      test of the heap row guarantees. */
  lemma EraseUnseen(c: Chain, txn: TxnId, sees: Sees)
    requires !sees(txn) && (c == [] || Open(c))
    ensures ReadChain(EraseChain(c, txn), sees) == ReadChain(c, sees)
  {
    if c != [] {
      MarkedReads(c, Some(txn), sees);
    }
  }

  /** Popping the transaction's own version is unseen when the version below was
      open or closed by the transaction itself. */
  predicate OwnTop(c: Chain, txn: TxnId) {
    && c != [] && Last(c).createdBy == txn
    && (|c| >= 2 ==> c[|c| - 2].deletedBy in {None, Some(txn)})
  }

  lemma PopUnseen(c: Chain, txn: TxnId, sees: Sees)
    requires !sees(txn) && OwnTop(c, txn)
    ensures ReadChain(PopChain(c), sees) == ReadChain(c, sees)
  {
    var rest := c[..|c| - 1];
    if rest != [] {
      MarkedReads(rest, None, sees);
    }
  }

  lemma ClearUnseen(c: Chain, txn: TxnId, sees: Sees)
    requires !sees(txn) && c != [] && Last(c).deletedBy in {None, Some(txn)}
    ensures ReadChain(ClearChain(c), sees) == ReadChain(c, sees)
  {
    MarkedReads(c, None, sees);
  }

  // ----- A snapshot keeps showing the same transactions -----------------------------------

  /** The transactions that appear in a chain have been begun. */
  ghost predicate MentionsBelow(c: Chain, nextId: TxnId) {
    forall i :: 0 <= i < |c| ==>
      c[i].createdBy < nextId && (c[i].deletedBy.Some? ==> c[i].deletedBy.value < nextId)
  }

  lemma {:induction false} SameSeen(c: Chain, a: Sees, b: Sees, nextId: TxnId)
    requires MentionsBelow(c, nextId) && forall t :: t < nextId ==> a(t) == b(t)
    ensures ReadChain(c, a) == ReadChain(c, b)
  {
    if c != [] {
      SameSeen(c[..|c| - 1], a, b, nextId);
    }
  }

  /** A begin, or a rollback or commit of somebody else, changes nothing for a
      snapshot taken earlier. */
  lemma SeesIsStable(s: State, t: State, snapshot: ReadSnapshot, creator: TxnId)
    requires Invariant(s) && snapshot.maxCommitSeq <= s.now && creator < s.nextId
    requires || t.txns == s.txns
             || t.txns == Begun(s).txns
             || exists id :: Live(s.txns, id) && id != snapshot.self &&
                  (t.txns == s.txns[id := Txn(RolledBack, s.txns[id].snapshot)] ||
                   t.txns == s.txns[id := Txn(Committed(s.now + 1), s.txns[id].snapshot)])
    ensures CreatorVisible(s.txns, snapshot, creator) == CreatorVisible(t.txns, snapshot, creator)
  {
    hide Isolated, WellTimed, Retained, Keyed;
  }

  // ----- The store ---------------------------------------------------------------------------

  type Store = map<RowId, Chain>

  function ChainOf(m: Store, id: RowId): Chain {
    if id in m then m[id] else []
  }

  /** Only the newest version of a row can be open. */
  ghost predicate Layered(c: Chain) {
    forall i :: 0 <= i < |c| - 1 ==> c[i].deletedBy.Some?
  }

  /** Every row in the map has at least one version. */
  ghost predicate StoreOk(m: Store) {
    forall id :: id in m ==> m[id] != [] && Layered(m[id])
  }

  function Written(m: Store, id: RowId, row: Row, txn: TxnId): Store {
    m[id := WriteChain(ChainOf(m, id), row, txn)]
  }

  function Closed(m: Store, id: RowId, txn: TxnId): Store {
    if id in m then m[id := EraseChain(m[id], txn)] else m
  }

  function Popped(m: Store, id: RowId): Store {
    if id !in m || m[id] == [] then m
    else if PopChain(m[id]) == [] then m - {id}
    else m[id := PopChain(m[id])]
  }

  function Cleared(m: Store, id: RowId): Store {
    if id in m then m[id := ClearChain(m[id])] else m
  }

  lemma WrittenIs(m: Store, id: RowId, row: Row, txn: TxnId)
    requires StoreOk(m)
    ensures StoreOk(Written(m, id, row, txn))
    ensures forall other :: ChainOf(Written(m, id, row, txn), other) ==
                            if other == id then WriteChain(ChainOf(m, id), row, txn) else ChainOf(m, other)
  {
    assert Layered(WriteChain(ChainOf(m, id), row, txn));
  }

  lemma ClosedIs(m: Store, id: RowId, txn: TxnId)
    requires StoreOk(m)
    ensures StoreOk(Closed(m, id, txn))
    ensures forall other :: ChainOf(Closed(m, id, txn), other) ==
                            if other == id then EraseChain(ChainOf(m, id), txn) else ChainOf(m, other)
  {
  }

  lemma PoppedIs(m: Store, id: RowId)
    requires StoreOk(m)
    ensures StoreOk(Popped(m, id))
    ensures forall other :: ChainOf(Popped(m, id), other) ==
                            if other == id && id in m then PopChain(ChainOf(m, id)) else ChainOf(m, other)
  {
  }

  lemma ClearedIs(m: Store, id: RowId)
    requires StoreOk(m)
    ensures StoreOk(Cleared(m, id))
    ensures forall other :: ChainOf(Cleared(m, id), other) ==
                            if other == id then ClearChain(ChainOf(m, id)) else ChainOf(m, other)
  {
  }

  class MVCCRowStore {
    var versions: Store

    constructor ()
      ensures versions == map[] && StoreOk(versions)
    {
      versions := map[];
    }

    method Write(rowId: RowId, row: Row, transactionId: TxnId)
      modifies this
      ensures versions == Written(old(versions), rowId, row, transactionId)
      ensures StoreOk(old(versions)) ==> StoreOk(versions)
    {
      var chain := if rowId in versions then versions[rowId] else [];
      if chain != [] && chain[|chain| - 1].deletedBy.None? {
        chain := chain[|chain| - 1 := chain[|chain| - 1].(deletedBy := Some(transactionId))];
      }
      versions := versions[rowId := chain + [Version(transactionId, None, row)]];
    }

    method Erase(rowId: RowId, transactionId: TxnId)
      modifies this
      ensures versions == Closed(old(versions), rowId, transactionId)
      ensures StoreOk(old(versions)) ==> StoreOk(versions)
    {
      if rowId !in versions {
        return;
      }
      var chain := versions[rowId];
      if chain != [] {
        chain := chain[|chain| - 1 := chain[|chain| - 1].(deletedBy := Some(transactionId))];
      }
      versions := versions[rowId := chain];
    }

    method PopLatestVersion(rowId: RowId) returns (ok: bool)
      modifies this
      ensures ok == (rowId in old(versions) && old(versions)[rowId] != [])
      ensures versions == Popped(old(versions), rowId)
      ensures StoreOk(old(versions)) ==> StoreOk(versions)
    {
      if rowId !in versions || versions[rowId] == [] {
        return false;
      }
      var chain := versions[rowId][..|versions[rowId]| - 1];
      if chain == [] {
        versions := versions - {rowId};
        return true;
      }
      versions := versions[rowId := chain[|chain| - 1 := chain[|chain| - 1].(deletedBy := None)]];
      return true;
    }

    method ClearLatestDeletedBy(rowId: RowId) returns (ok: bool)
      modifies this
      ensures ok == (rowId in old(versions) && old(versions)[rowId] != [] && !Open(old(versions)[rowId]))
      ensures versions == Cleared(old(versions), rowId)
      ensures StoreOk(old(versions)) ==> StoreOk(versions)
    {
      if rowId !in versions || versions[rowId] == [] || versions[rowId][|versions[rowId]| - 1].deletedBy.None? {
        assert rowId in versions && Open(versions[rowId]) ==> Marked(versions[rowId], None) == versions[rowId];
        return false;
      }
      var chain := versions[rowId];
      versions := versions[rowId := chain[|chain| - 1 := chain[|chain| - 1].(deletedBy := None)]];
      return true;
    }

    /** Walks the chain from the newest version down. */
    method Read(rowId: RowId, snapshot: ReadSnapshot, transactions: TransactionManager) returns (row: Option<Row>)
      ensures row == ReadChain(ChainOf(versions, rowId), SeesOf(transactions.transactions, snapshot))
    {
      if rowId !in versions {
        return None;
      }
      var chain := versions[rowId];
      var i := |chain|;
      assert chain[..i] == chain;
      ghost var sees := SeesOf(transactions.transactions, snapshot);
      while i > 0
        invariant 0 <= i <= |chain|
        invariant ReadChain(chain[..i], sees) == ReadChain(chain, sees)
      {
        i := i - 1;
        assert chain[..i + 1][..i] == chain[..i];
        var version := chain[i];
        if CreatorVisible(transactions.transactions, snapshot, version.createdBy) &&
           !(version.deletedBy.Some? && CreatorVisible(transactions.transactions, snapshot, version.deletedBy.value)) {
          return Some(version.row);
        }
      }
      return None;
    }
  }
}
