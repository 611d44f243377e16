/** A reader's snapshot against everything other transactions can do. */
module Snapshots {
  import opened Values
  import opened Serializability
  import opened Transactions
  import opened Versions

  datatype World = World(mgr: State, rows: Store)

  /** The transaction exists and the snapshot does not show it: it is still
      running, was rolled back, or committed later. */
  predicate Unseen(w: World, snapshot: ReadSnapshot, txn: TxnId) {
    txn < w.mgr.nextId && !CreatorVisible(w.mgr.txns, snapshot, txn)
  }

  datatype Action =
    | Begin
    | Commit(id: TxnId)
    | Abort(id: TxnId)
    | Write(id: TxnId, rowId: RowId, row: Row)
    | Erase(id: TxnId, rowId: RowId)
    | UndoVersion(id: TxnId, rowId: RowId)
    | UndoErase(id: TxnId, rowId: RowId)

  /** One action of a transaction other than the reader.  An erase is guarded by
      the liveness of the row; an undo touches the transaction's own version. */
  ghost predicate Acts(a: World, b: World, snapshot: ReadSnapshot, action: Action) {
    match action
    case Begin => b == a.(mgr := Begun(a.mgr))
    case Commit(id) =>
      && id != snapshot.self && b.rows == a.rows
      && Live(a.mgr.txns, id) && Tracked(a.mgr, id)
      && !Conflicted(a.mgr.history, FootprintOf(a.mgr, id))
      && Prunes(Published(a.mgr, id), b.mgr)
    case Abort(id) =>
      && id != snapshot.self && b.rows == a.rows
      && Live(a.mgr.txns, id) && Prunes(Ended(a.mgr, id, RolledBack), b.mgr)
    case Write(id, rowId, row) =>
      b.mgr == a.mgr && Unseen(a, snapshot, id) && b.rows == Written(a.rows, rowId, row, id)
    case Erase(id, rowId) =>
      && b.mgr == a.mgr && Unseen(a, snapshot, id) && b.rows == Closed(a.rows, rowId, id)
      && Open(ChainOf(a.rows, rowId))
    case UndoVersion(id, rowId) =>
      && b.mgr == a.mgr && Unseen(a, snapshot, id) && b.rows == Popped(a.rows, rowId)
      && OwnTop(ChainOf(a.rows, rowId), id)
    case UndoErase(id, rowId) =>
      && b.mgr == a.mgr && Unseen(a, snapshot, id) && b.rows == Cleared(a.rows, rowId)
      && ChainOf(a.rows, rowId) != [] && Last(ChainOf(a.rows, rowId)).deletedBy in {None, Some(id)}
  }

  ghost predicate WorldOk(w: World, snapshot: ReadSnapshot) {
    && Invariant(w.mgr) && StoreOk(w.rows) && snapshot.maxCommitSeq <= w.mgr.now
    && forall id :: MentionsBelow(ChainOf(w.rows, id), w.mgr.nextId)
  }

  function ReadRow(w: World, snapshot: ReadSnapshot, rowId: RowId): Option<Row> {
    ReadChain(ChainOf(w.rows, rowId), SeesOf(w.mgr.txns, snapshot))
  }

  lemma ManagerStep(a: World, b: World, snapshot: ReadSnapshot, action: Action)
    requires WorldOk(a, snapshot) && Acts(a, b, snapshot, action)
    requires action.Begin? || action.Commit? || action.Abort?
    ensures b.rows == a.rows && Invariant(b.mgr) && a.mgr.now <= b.mgr.now && a.mgr.nextId <= b.mgr.nextId
    ensures forall t :: t < a.mgr.nextId ==>
      CreatorVisible(a.mgr.txns, snapshot, t) == CreatorVisible(b.mgr.txns, snapshot, t)
  {
    hide Invariant, Conflicted, CreatorVisible, MentionsBelow;
    match action {
      case Begin => BeginKeeps(a.mgr);
      case Commit(id) =>
        CommitKeeps(a.mgr, id);
        PruneKeeps(Published(a.mgr, id), b.mgr);
      case Abort(id) =>
        RollbackKeeps(a.mgr, id);
        PruneKeeps(Ended(a.mgr, id, RolledBack), b.mgr);
    }
    forall t | t < a.mgr.nextId
      ensures CreatorVisible(a.mgr.txns, snapshot, t) == CreatorVisible(b.mgr.txns, snapshot, t)
    {
      SeesIsStable(a.mgr, b.mgr, snapshot, t);
    }
  }

  lemma MarkMentions(c: Chain, mark: Option<TxnId>, nextId: TxnId)
    requires c != [] && MentionsBelow(c, nextId) && (mark.Some? ==> mark.value < nextId)
    ensures MentionsBelow(Marked(c, mark), nextId)
  {
  }

  lemma WriteMentions(c: Chain, row: Row, txn: TxnId, nextId: TxnId)
    requires MentionsBelow(c, nextId) && txn < nextId
    ensures MentionsBelow(WriteChain(c, row, txn), nextId)
  {
    if c != [] {
      MarkMentions(c, Some(txn), nextId);
    }
  }

  lemma PopMentions(c: Chain, nextId: TxnId)
    requires c != [] && MentionsBelow(c, nextId)
    ensures MentionsBelow(PopChain(c), nextId)
  {
    var rest := c[..|c| - 1];
    if rest != [] {
      MarkMentions(rest, None, nextId);
    }
  }

  lemma RowStep(a: World, b: World, snapshot: ReadSnapshot, action: Action)
    requires WorldOk(a, snapshot) && Acts(a, b, snapshot, action)
    requires !(action.Begin? || action.Commit? || action.Abort?)
    ensures b.mgr == a.mgr && StoreOk(b.rows)
    ensures forall id :: MentionsBelow(ChainOf(b.rows, id), a.mgr.nextId)
    ensures forall id :: ReadRow(b, snapshot, id) == ReadRow(a, snapshot, id)
  {
    hide Invariant, StoreOk, Written, Closed, Popped, Cleared, WriteChain, PopChain, ReadChain, MentionsBelow;
    var sees := SeesOf(a.mgr.txns, snapshot);
    var c := ChainOf(a.rows, action.rowId);
    match action {
      case Write(id, rowId, row) =>
        WrittenIs(a.rows, rowId, row, id);
        WriteUnseen(c, row, id, sees);
        WriteMentions(c, row, id, a.mgr.nextId);
      case Erase(id, rowId) =>
        ClosedIs(a.rows, rowId, id);
        EraseUnseen(c, id, sees);
        MarkMentions(c, Some(id), a.mgr.nextId);
      case UndoVersion(id, rowId) =>
        PoppedIs(a.rows, rowId);
        PopUnseen(c, id, sees);
        PopMentions(c, a.mgr.nextId);
      case UndoErase(id, rowId) =>
        ClearedIs(a.rows, rowId);
        ClearUnseen(c, id, sees);
        MarkMentions(c, None, a.mgr.nextId);
    }
    forall other
      ensures MentionsBelow(ChainOf(b.rows, other), a.mgr.nextId)
      ensures ReadRow(b, snapshot, other) == ReadRow(a, snapshot, other)
    {
      assert MentionsBelow(ChainOf(a.rows, other), a.mgr.nextId);
    }
  }

  lemma MentionsGrow(c: Chain, low: TxnId, high: TxnId)
    requires MentionsBelow(c, low) && low <= high
    ensures MentionsBelow(c, high)
  {
  }

  lemma OneStep(a: World, b: World, snapshot: ReadSnapshot, action: Action)
    requires WorldOk(a, snapshot) && Acts(a, b, snapshot, action)
    ensures WorldOk(b, snapshot)
    ensures forall id :: ReadRow(b, snapshot, id) == ReadRow(a, snapshot, id)
  {
    hide Acts, Invariant, StoreOk, CreatorVisible, ReadChain, MentionsBelow;
    if action.Begin? || action.Commit? || action.Abort? {
      ManagerStep(a, b, snapshot, action);
      forall id
        ensures ReadRow(b, snapshot, id) == ReadRow(a, snapshot, id)
        ensures MentionsBelow(ChainOf(b.rows, id), b.mgr.nextId)
      {
        MentionsGrow(ChainOf(a.rows, id), a.mgr.nextId, b.mgr.nextId);
        SameSeen(ChainOf(a.rows, id), SeesOf(a.mgr.txns, snapshot), SeesOf(b.mgr.txns, snapshot), a.mgr.nextId);
      }
    } else {
      RowStep(a, b, snapshot, action);
    }
  }

  /** A run is a sequence of worlds with an action of somebody else between
      neighbours. */
  ghost predicate OthersRun(run: seq<World>, actions: seq<Action>, snapshot: ReadSnapshot) {
    && |run| == |actions| + 1
    && forall k :: 0 <= k < |actions| ==> Acts(run[k], run[k + 1], snapshot, actions[k])
  }

  /** While a reader keeps its snapshot, nothing that other transactions do
      changes what it reads in any row. */
  lemma {:induction false} SnapshotStability(run: seq<World>, actions: seq<Action>, snapshot: ReadSnapshot)
    requires OthersRun(run, actions, snapshot) && WorldOk(run[0], snapshot)
    ensures WorldOk(run[|actions|], snapshot)
    ensures forall id :: ReadRow(run[|actions|], snapshot, id) == ReadRow(run[0], snapshot, id)
  {
    hide Acts, WorldOk, ReadRow;
    if actions != [] {
      var n := |actions| - 1;
      forall k | 0 <= k < n ensures Acts(run[..n + 1][k], run[..n + 1][k + 1], snapshot, actions[..n][k]) {
        assert Acts(run[k], run[k + 1], snapshot, actions[k]);
      }
      SnapshotStability(run[..n + 1], actions[..n], snapshot);
      assert Acts(run[n], run[n + 1], snapshot, actions[n]);
      OneStep(run[n], run[n + 1], snapshot, actions[n]);
    }
  }
}
