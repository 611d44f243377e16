/** The transaction manager: snapshots, commit order, conflict sets and their
    pruning.  Every method is one atomic step. */
module Transactions {
  import opened Values
  import opened LikePatterns
  import opened Serializability

  const SYSTEM: TxnId := 0

  datatype TxnState = Active | Committed(seqno: CommitSeq) | RolledBack
  datatype Txn = Txn(state: TxnState, snapshot: CommitSeq)
  datatype ReadSnapshot = ReadSnapshot(self: TxnId, maxCommitSeq: CommitSeq)

  datatype CommitResult = Done(seqno: CommitSeq) | SerializationFailure | Inactive

  // ----- Reading the conflict sets ----------------------------------------------

  /** Walks the smaller set. */
  method Intersects(left: set<ConflictKey>, right: set<ConflictKey>) returns (found: bool)
    ensures found <==> left * right != {}
  {
    if left == {} || right == {} {
      return false;
    }
    var smaller := if |left| <= |right| then left else right;
    var larger := if |left| <= |right| then right else left;
    var rest := smaller;
    while rest != {}
      invariant rest <= smaller && (smaller - rest) * larger == {}
      decreases |rest|
    {
      var key := Pick(rest);
      rest := rest - {key};
      if key in larger {
        assert key in left * right;
        return true;
      }
    }
    assert smaller * larger == (smaller - rest) * larger;
    return false;
  }

  method InsertMatchesPredicate(image: SsiInsert, p: SsiPredicate) returns (matched: bool)
    ensures matched <==> ImageMatches(image, p)
  {
    if image.relation != p.relation {
      return false;
    }
    if p.column == "" {
      return true;
    }
    var k := 0;
    while k < |image.columns|
      invariant 0 <= k <= |image.columns|
      invariant forall j :: 0 <= j < k ==> image.columns[j].0 != p.column
    {
      var (name, value) := image.columns[k];
      if name == p.column {
        assert FirstNamed(image.columns, p.column, k);
        assert forall j :: FirstNamed(image.columns, p.column, j) ==> j == k;
        if p.like.Some? {
          if !value.Str? {
            return false;
          }
          matched := MatchLike(value.s, p.like.value);
          return;
        }
        if p.op.None? || p.value.None? {
          return true;
        }
        return Compare(value, p.op.value, p.value.value);
      }
      k := k + 1;
    }
    return false;
  }

  method PredicateConflictsWithInserts(preds: seq<SsiPredicate>, inserts: seq<SsiInsert>) returns (found: bool)
    ensures found <==> Phantom(preds, inserts)
  {
    var a := 0;
    while a < |preds|
      invariant 0 <= a <= |preds|
      invariant forall c, d :: 0 <= c < a && 0 <= d < |inserts| ==> !ImageMatches(inserts[d], preds[c])
    {
      var b := 0;
      while b < |inserts|
        invariant 0 <= b <= |inserts|
        invariant forall d :: 0 <= d < b ==> !ImageMatches(inserts[d], preds[a])
      {
        var hit := InsertMatchesPredicate(inserts[b], preds[a]);
        if hit {
          return true;
        }
        b := b + 1;
      }
      a := a + 1;
    }
    return false;
  }

  method PruneMap<T>(m: map<CommitSeq, T>, floor: CommitSeq) returns (r: map<CommitSeq, T>)
    ensures r == Above(m, floor)
  {
    r := m;
    var rest := m.Keys;
    while rest != {}
      invariant rest <= r.Keys <= m.Keys
      invariant forall s :: s in r ==> r[s] == m[s]
      invariant forall s :: s in m && s !in rest ==> (s in r <==> s > floor)
      decreases |rest|
    {
      var s := Pick(rest);
      rest := rest - {s};
      if s <= floor {
        r := r - {s};
      }
    }
    assert forall s :: s in m ==> (s in r <==> s > floor);
  }

  // ----- The manager's state ------------------------------------------------------------

  /** The conflict sets of committed transactions that are still retained. */
  datatype Kept = Kept(
    writes: map<CommitSeq, set<ConflictKey>>,
    preds: map<CommitSeq, seq<SsiPredicate>>,
    inserts: map<CommitSeq, seq<SsiInsert>>)

  /** The manager's fields, and every commit ever made with its full footprint. */
  datatype State = State(
    nextId: TxnId,
    now: CommitSeq,
    txns: map<TxnId, Txn>,
    readSets: map<TxnId, set<ConflictKey>>,
    writeSets: map<TxnId, set<ConflictKey>>,
    preds: map<TxnId, seq<SsiPredicate>>,
    inserts: map<TxnId, seq<SsiInsert>>,
    kept: Kept,
    history: History)

  predicate Live(txns: map<TxnId, Txn>, id: TxnId) {
    id in txns && txns[id].state == Active
  }

  ghost predicate Timed(s: State) {
    && 1 <= s.nextId && s.now == |s.history|
    && (forall id :: id in s.txns ==> 1 <= id < s.nextId && 0 <= s.txns[id].snapshot <= s.now)
    && (forall id :: id in s.txns && s.txns[id].state.Committed? ==>
         1 <= s.txns[id].state.seqno <= s.now && s.history[s.txns[id].state.seqno - 1].id == id)
  }

  ghost predicate Tracked(s: State, id: TxnId) {
    id in s.readSets && id in s.writeSets && id in s.preds && id in s.inserts
  }

  /** Exactly the active transactions have conflict sets. */
  ghost predicate Keyed(s: State) {
    forall id ::
      && (id in s.readSets <==> Live(s.txns, id))
      && (id in s.writeSets <==> Live(s.txns, id))
      && (id in s.preds <==> Live(s.txns, id))
      && (id in s.inserts <==> Live(s.txns, id))
  }

  /** What is retained is what was committed. */
  ghost predicate Honest(k: Kept, h: History) {
    && (forall n :: n in k.writes ==> 1 <= n <= |h| && k.writes[n] == h[n - 1].writeSet)
    && (forall n :: n in k.preds ==> 1 <= n <= |h| && k.preds[n] == h[n - 1].preds)
    && (forall n :: n in k.inserts ==> 1 <= n <= |h| && k.inserts[n] == h[n - 1].inserts)
  }

  ghost predicate Covers(k: Kept, f: Footprint, n: CommitSeq) {
    && (n in k.writes || f.writeSet == {})
    && (n in k.preds || f.preds == [])
    && (n in k.inserts || f.inserts == [])
  }

  /** Whatever committed after `floor` and is not retained was empty. */
  ghost predicate Since(k: Kept, h: History, floor: CommitSeq) {
    forall i :: 0 <= i < |h| && floor <= i ==> Covers(k, h[i], i + 1)
  }

  /** No active snapshot can conflict with anything that has been pruned. */
  ghost predicate Retained(k: Kept, txns: map<TxnId, Txn>, h: History) {
    && Honest(k, h)
    && forall id :: Live(txns, id) ==> Since(k, h, txns[id].snapshot)
  }

  ghost predicate Sound(s: State) {
    Timed(s) && Keyed(s) && Retained(s.kept, s.txns, s.history)
  }

  /** What every reachable state satisfies. */
  ghost predicate Invariant(s: State) {
    Sound(s) && WellTimed(s.history) && Isolated(s.history)
  }

  function FootprintOf(s: State, id: TxnId): Footprint
    requires id in s.txns && id in s.readSets && id in s.writeSets && id in s.preds && id in s.inserts
  {
    Footprint(id, s.txns[id].snapshot, s.readSets[id], s.writeSets[id], s.preds[id], s.inserts[id])
  }

  // ----- Steps ---------------------------------------------------------------------------

  const INITIAL := State(1, 0, map[], map[], map[], map[], map[], Kept(map[], map[], map[]), [])

  function Begun(s: State): State {
    var id := s.nextId;
    s.(nextId := id + 1, txns := s.txns[id := Txn(Active, s.now)],
       readSets := s.readSets[id := {}], writeSets := s.writeSets[id := {}],
       preds := s.preds[id := []], inserts := s.inserts[id := []])
  }

  /** The transaction leaves the active side in the given state. */
  function Ended(s: State, id: TxnId, outcome: TxnState): State
    requires id in s.txns
  {
    s.(txns := s.txns[id := Txn(outcome, s.txns[id].snapshot)],
       readSets := s.readSets - {id}, writeSets := s.writeSets - {id},
       preds := s.preds - {id}, inserts := s.inserts - {id})
  }

  /** Empty sets are not retained. */
  function WithSets(k: Kept, f: Footprint, n: CommitSeq): Kept {
    Kept(if f.writeSet != {} then k.writes[n := f.writeSet] else k.writes,
         if f.preds != [] then k.preds[n := f.preds] else k.preds,
         if f.inserts != [] then k.inserts[n := f.inserts] else k.inserts)
  }

  ghost function Published(s: State, id: TxnId): State
    requires Live(s.txns, id) && Tracked(s, id)
  {
    var f := FootprintOf(s, id);
    Ended(s, id, Committed(s.now + 1)).(
      now := s.now + 1, kept := WithSets(s.kept, f, s.now + 1), history := s.history + [f])
  }

  function Above<T>(m: map<CommitSeq, T>, floor: CommitSeq): map<CommitSeq, T> {
    map n | n in m && n > floor :: m[n]
  }

  function PrunedAt(k: Kept, floor: CommitSeq): Kept {
    Kept(Above(k.writes, floor), Above(k.preds, floor), Above(k.inserts, floor))
  }

  /** The oldest snapshot still in use, or the present when there is none. */
  ghost predicate Oldest(txns: map<TxnId, Txn>, now: CommitSeq, low: CommitSeq) {
    && low <= now
    && (forall id :: Live(txns, id) ==> low <= txns[id].snapshot)
    && (low == now || exists id :: Live(txns, id) && low == txns[id].snapshot)
  }

  /** Everything goes when nothing is active; otherwise what the oldest active
      snapshot has already seen. */
  ghost predicate Prunes(s: State, t: State) {
    && t == s.(kept := t.kept)
    && if s.readSets == map[] && s.preds == map[] && s.inserts == map[] && s.writeSets == map[]
       then t.kept == Kept(map[], map[], map[])
       else exists low :: Oldest(s.txns, s.now, low) && t.kept == PrunedAt(s.kept, low)
  }

  /** The latest commit, made by a transaction whose snapshot saw every other
      commit and whose conflict sets may still grow. */
  ghost predicate JustCommitted(s: State, id: TxnId) {
    && |s.history| > 0 && s.history[|s.history| - 1].id == id
    && s.history[|s.history| - 1].snapshot == |s.history| - 1
    && id in s.txns && s.txns[id].state == Committed(|s.history|)
    && (|s.history| in s.kept.writes || s.history[|s.history| - 1].writeSet == {})
    && (|s.history| in s.kept.inserts || s.history[|s.history| - 1].inserts == [])
  }

  /** The last footprint with one more key, and with one more image. */
  ghost function LastWrote(h: History, key: ConflictKey): History
    requires h != []
  {
    var f := h[|h| - 1];
    h[|h| - 1 := f.(writeSet := f.writeSet + {key})]
  }

  ghost function LastInserted(h: History, image: SsiInsert): History
    requires h != []
  {
    var f := h[|h| - 1];
    h[|h| - 1 := f.(inserts := f.inserts + [image])]
  }

  ghost function Wrote(s: State, id: TxnId, key: ConflictKey): State {
    if id in s.writeSets then s.(writeSets := s.writeSets[id := s.writeSets[id] + {key}])
    else if JustCommitted(s, id) then
      var was := if s.now in s.kept.writes then s.kept.writes[s.now] else {};
      s.(kept := s.kept.(writes := s.kept.writes[s.now := was + {key}]), history := LastWrote(s.history, key))
    else s
  }

  ghost function Inserted(s: State, id: TxnId, image: SsiInsert): State {
    if id in s.inserts then s.(inserts := s.inserts[id := s.inserts[id] + [image]])
    else if JustCommitted(s, id) then
      var was := if s.now in s.kept.inserts then s.kept.inserts[s.now] else [];
      s.(kept := s.kept.(inserts := s.kept.inserts[s.now := was + [image]]), history := LastInserted(s.history, image))
    else s
  }

  // ----- Every step keeps the invariant ----------------------------------------------------

  lemma InitialKeeps()
    ensures Invariant(INITIAL)
  {
  }

  lemma ActiveIsTracked(s: State, id: TxnId)
    requires Keyed(s) && Live(s.txns, id)
    ensures Tracked(s, id)
  {
  }

  lemma BeginKeeps(s: State)
    requires Invariant(s)
    ensures Invariant(Begun(s))
  {
    hide Isolated, WellTimed, Honest;
  }

  lemma EndKeyed(s: State, id: TxnId, outcome: TxnState)
    requires Keyed(s) && id in s.txns && outcome != Active
    ensures Keyed(Ended(s, id, outcome))
  {
  }

  lemma EndRetained(k: Kept, txns: map<TxnId, Txn>, h: History, id: TxnId, t: Txn)
    requires Retained(k, txns, h) && t.state != Active
    ensures Retained(k, txns[id := t], h)
  {
    hide Honest, Since;
    var ended := txns[id := t];
    forall other | Live(ended, other) ensures Since(k, h, ended[other].snapshot) {
      assert Live(txns, other);
    }
  }

  lemma RollbackKeeps(s: State, id: TxnId)
    requires Invariant(s) && id in s.txns
    ensures Invariant(Ended(s, id, RolledBack))
  {
    hide Isolated, WellTimed, Retained, Keyed;
    EndKeyed(s, id, RolledBack);
    EndRetained(s.kept, s.txns, s.history, id, Txn(RolledBack, s.txns[id].snapshot));
  }

  lemma PublishHonest(k: Kept, h: History, f: Footprint)
    requires Honest(k, h)
    ensures Honest(WithSets(k, f, |h| + 1), h + [f])
  {
    assert forall i :: 0 <= i < |h| ==> (h + [f])[i] == h[i];
  }

  lemma PublishSince(k: Kept, h: History, f: Footprint, floor: CommitSeq)
    requires Since(k, h, floor)
    ensures Since(WithSets(k, f, |h| + 1), h + [f], floor)
  {
    var k', g := WithSets(k, f, |h| + 1), h + [f];
    forall i | 0 <= i < |g| && floor <= i ensures Covers(k', g[i], i + 1) {
      assert i < |h| ==> g[i] == h[i] && Covers(k, h[i], i + 1);
    }
  }

  lemma PublishRetained(k: Kept, txns: map<TxnId, Txn>, h: History, f: Footprint)
    requires Retained(k, txns, h)
    ensures Retained(WithSets(k, f, |h| + 1), txns, h + [f])
  {
    hide Honest, Since, WithSets;
    PublishHonest(k, h, f);
    forall id | Live(txns, id) ensures Since(WithSets(k, f, |h| + 1), h + [f], txns[id].snapshot) {
      PublishSince(k, h, f, txns[id].snapshot);
    }
  }

  lemma PublishTimed(s: State, id: TxnId)
    requires Timed(s) && Live(s.txns, id) && Tracked(s, id)
    ensures Timed(Published(s, id))
  {
    var t := Published(s, id);
    assert forall i :: 0 <= i < |s.history| ==> t.history[i] == s.history[i];
  }

  /** A commit that passed the test leaves the history isolated. */
  lemma CommitKeeps(s: State, id: TxnId)
    requires Invariant(s) && Live(s.txns, id) && Tracked(s, id)
    requires !Conflicted(s.history, FootprintOf(s, id))
    ensures Invariant(Published(s, id))
  {
    hide Isolated, WellTimed, Retained, Keyed, Conflicted;
    var f := FootprintOf(s, id);
    IsolatedAppend(s.history, f);
    PublishTimed(s, id);
    EndKeyed(s, id, Committed(s.now + 1));
    KeyedFields(Ended(s, id, Committed(s.now + 1)), Published(s, id));
    PublishRetained(s.kept, s.txns, s.history, f);
    EndRetained(WithSets(s.kept, f, s.now + 1), s.txns, s.history + [f], id,
                Txn(Committed(s.now + 1), s.txns[id].snapshot));
  }

  lemma KeyedFields(s: State, t: State)
    requires Keyed(s)
    requires t.txns == s.txns && t.readSets.Keys == s.readSets.Keys && t.writeSets.Keys == s.writeSets.Keys
    requires t.preds.Keys == s.preds.Keys && t.inserts.Keys == s.inserts.Keys
    ensures Keyed(t)
  {
    forall id
      ensures (id in t.readSets <==> Live(t.txns, id)) && (id in t.writeSets <==> Live(t.txns, id))
      ensures (id in t.preds <==> Live(t.txns, id)) && (id in t.inserts <==> Live(t.txns, id))
    {
      assert id in s.readSets.Keys <==> id in t.readSets.Keys;
      assert id in s.writeSets.Keys <==> id in t.writeSets.Keys;
      assert id in s.preds.Keys <==> id in t.preds.Keys;
      assert id in s.inserts.Keys <==> id in t.inserts.Keys;
    }
  }

  lemma PruneRetained(k: Kept, txns: map<TxnId, Txn>, h: History, floor: CommitSeq)
    requires Retained(k, txns, h)
    requires forall id :: Live(txns, id) ==> floor <= txns[id].snapshot
    ensures Retained(PrunedAt(k, floor), txns, h)
  {
    forall id | Live(txns, id) ensures Since(PrunedAt(k, floor), h, txns[id].snapshot) {
      forall i | 0 <= i < |h| && txns[id].snapshot <= i ensures Covers(PrunedAt(k, floor), h[i], i + 1) {
        assert Covers(k, h[i], i + 1);
      }
    }
  }

  /** Pruning never drops a set that an active snapshot still needs. */
  lemma PruneKeeps(s: State, t: State)
    requires Invariant(s) && Prunes(s, t)
    ensures Invariant(t)
  {
    hide Isolated, WellTimed, PrunedAt, Honest;
    if s.readSets == map[] && s.preds == map[] && s.inserts == map[] && s.writeSets == map[] {
      assert forall id :: !Live(s.txns, id);
      NothingRetained(s.txns, s.history);
    } else {
      var low :| Oldest(s.txns, s.now, low) && t.kept == PrunedAt(s.kept, low);
      PruneRetained(s.kept, s.txns, s.history, low);
    }
  }

  lemma NothingRetained(txns: map<TxnId, Txn>, h: History)
    requires forall id :: !Live(txns, id)
    ensures Retained(Kept(map[], map[], map[]), txns, h)
  {
  }

  lemma GrowSince(k: Kept, k': Kept, h: History, f: Footprint, floor: CommitSeq)
    requires h != [] && Since(k, h, floor)
    requires k.writes.Keys <= k'.writes.Keys && k.preds == k'.preds && k.inserts.Keys <= k'.inserts.Keys
    requires Covers(k, h[|h| - 1], |h|) ==> Covers(k', f, |h|)
    ensures Since(k', h[|h| - 1 := f], floor)
  {
    var g := h[|h| - 1 := f];
    forall i | 0 <= i < |g| && floor <= i ensures Covers(k', g[i], i + 1) {
      assert Covers(k, h[i], i + 1);
    }
  }

  lemma GrowRetained(k: Kept, k': Kept, txns: map<TxnId, Txn>, h: History, f: Footprint)
    requires h != [] && Retained(k, txns, h) && Honest(k', h[|h| - 1 := f])
    requires k.writes.Keys <= k'.writes.Keys && k.preds == k'.preds && k.inserts.Keys <= k'.inserts.Keys
    requires Covers(k, h[|h| - 1], |h|) ==> Covers(k', f, |h|)
    ensures Retained(k', txns, h[|h| - 1 := f])
  {
    hide Honest, Since, Covers;
    forall id | Live(txns, id) ensures Since(k', h[|h| - 1 := f], txns[id].snapshot) {
      GrowSince(k, k', h, f, txns[id].snapshot);
    }
  }

  lemma GrowTimed(s: State, t: State, f: Footprint)
    requires s.history != [] && Timed(s) && f.id == s.history[|s.history| - 1].id
    requires t == s.(kept := t.kept, history := s.history[|s.history| - 1 := f])
    ensures Timed(t)
  {
  }

  lemma WriteKeeps(s: State, id: TxnId, key: ConflictKey)
    requires Invariant(s)
    ensures Invariant(Wrote(s, id, key))
    ensures JustCommitted(s, id) ==> JustCommitted(Wrote(s, id, key), id)
  {
    hide Isolated, WellTimed, Retained;
    var t := Wrote(s, id, key);
    if id in s.writeSets {
      KeyedFields(s, t);
    } else if JustCommitted(s, id) {
      var h := s.history;
      var f := t.history[|h| - 1];
      IsolatedExtend(h, f);
      GrowTimed(s, t, f);
      KeyedFields(s, t);
      assert Honest(s.kept, h) by { RetainedHonest(s.kept, s.txns, h); }
      GrowRetained(s.kept, t.kept, s.txns, h, f);
    }
  }

  lemma InsertKeeps(s: State, id: TxnId, image: SsiInsert)
    requires Invariant(s)
    ensures Invariant(Inserted(s, id, image))
    ensures JustCommitted(s, id) ==> JustCommitted(Inserted(s, id, image), id)
  {
    hide Isolated, WellTimed, Retained;
    var t := Inserted(s, id, image);
    if id in s.inserts {
      KeyedFields(s, t);
    } else if JustCommitted(s, id) {
      var h := s.history;
      var f := t.history[|h| - 1];
      IsolatedExtend(h, f);
      GrowTimed(s, t, f);
      KeyedFields(s, t);
      assert Honest(s.kept, h) by { RetainedHonest(s.kept, s.txns, h); }
      GrowRetained(s.kept, t.kept, s.txns, h, f);
    }
  }

  lemma RetainedHonest(k: Kept, txns: map<TxnId, Txn>, h: History)
    requires Retained(k, txns, h)
    ensures Honest(k, h)
  {
  }

  lemma ReadKeeps(s: State, t: State)
    requires Invariant(s)
    requires t == s.(readSets := t.readSets, preds := t.preds)
    requires t.readSets.Keys == s.readSets.Keys && t.preds.Keys == s.preds.Keys
    ensures Invariant(t)
  {
    hide Isolated, WellTimed, Retained;
    KeyedFields(s, t);
  }

  /** The retained sets show every conflict the full history shows. */
  lemma RetainedFinds(k: Kept, h: History, f: Footprint)
    requires Honest(k, h) && Since(k, h, f.snapshot)
    requires forall n :: n in k.writes && f.snapshot < n ==>
      k.writes[n] * f.readSet == {} && k.writes[n] * f.writeSet == {}
    requires forall n :: n in k.inserts && f.snapshot < n ==> !Phantom(f.preds, k.inserts[n])
    requires forall n :: n in k.preds && f.snapshot < n ==> !Phantom(k.preds[n], f.inserts)
    ensures !Conflicted(h, f)
  {
    forall i | 0 <= i < |h| && f.snapshot <= i ensures !Clash(h[i], f) {
      assert Covers(k, h[i], i + 1);
      assert i + 1 in k.writes ==> k.writes[i + 1] == h[i].writeSet;
      assert i + 1 in k.inserts ==> k.inserts[i + 1] == h[i].inserts;
      assert i + 1 in k.preds ==> k.preds[i + 1] == h[i].preds;
    }
  }

  // ----- The manager ------------------------------------------------------------------------

  lemma KeysStep(rows: seq<(string, nat)>, i: nat)
    requires i < |rows|
    ensures Keys(rows[..i + 1]) == Keys(rows[..i]) + {KeyOf(rows[i].0, rows[i].1)}
  {
    forall key | key in Keys(rows[..i + 1]) ensures key in Keys(rows[..i]) + {KeyOf(rows[i].0, rows[i].1)} {
      var j :| 0 <= j < i + 1 && key == KeyOf(rows[..i + 1][j].0, rows[..i + 1][j].1);
      assert j < i ==> rows[..i][j] == rows[j];
    }
    forall key | key in Keys(rows[..i]) ensures key in Keys(rows[..i + 1]) {
      var j :| 0 <= j < i && key == KeyOf(rows[..i][j].0, rows[..i][j].1);
      assert rows[..i + 1][j] == rows[j];
    }
    assert rows[..i + 1][i] == rows[i];
  }

  lemma NotActive(s: State, id: TxnId)
    requires Invariant(s) && JustCommitted(s, id)
    ensures id !in s.writeSets && id !in s.inserts
  {
    hide Isolated, WellTimed, Retained, Timed;
    assert !Live(s.txns, id);
  }

  class TransactionManager {
    var nextId: TxnId
    var nextCommitSeq: CommitSeq
    var transactions: map<TxnId, Txn>
    var activeReads: map<TxnId, set<ConflictKey>>
    var activeWrites: map<TxnId, set<ConflictKey>>
    var activePreds: map<TxnId, seq<SsiPredicate>>
    var activeInserts: map<TxnId, seq<SsiInsert>>
    var committedWrites: map<CommitSeq, set<ConflictKey>>
    var committedPreds: map<CommitSeq, seq<SsiPredicate>>
    var committedInserts: map<CommitSeq, seq<SsiInsert>>
    ghost var history: History

    ghost function View(): State
      reads this
    {
      State(nextId, nextCommitSeq, transactions, activeReads, activeWrites, activePreds, activeInserts,
            Kept(committedWrites, committedPreds, committedInserts), history)
    }

    ghost predicate Valid()
      reads this
    {
      Invariant(View())
    }

    constructor ()
      ensures Valid() && View() == INITIAL
    {
      nextId, nextCommitSeq := 1, 0;
      transactions, activeReads, activeWrites, activePreds, activeInserts := map[], map[], map[], map[], map[];
      committedWrites, committedPreds, committedInserts := map[], map[], map[];
      history := [];
      InitialKeeps();
    }

    /** The snapshot is the number of commits so far. */
    method Begin() returns (id: TxnId)
      requires Valid()
      modifies this
      ensures Valid() && id == old(nextId) && View() == Begun(old(View()))
    {
      hide Invariant;
      BeginKeeps(View());
      id := nextId;
      nextId := nextId + 1;
      transactions := transactions[id := Txn(Active, nextCommitSeq)];
      activeReads := activeReads[id := {}];
      activeWrites := activeWrites[id := {}];
      activePreds := activePreds[id := []];
      activeInserts := activeInserts[id := []];
    }

    /** The test made at commit.  It looks only at the retained sets, yet it finds
        a conflict exactly when the full history has one. */
    method IsSerializable(id: TxnId) returns (ok: bool)
      requires Valid()
      ensures Live(transactions, id) ==> Tracked(View(), id)
      ensures ok <==> Live(transactions, id) && !Conflicted(history, FootprintOf(View(), id))
    {
      hide Isolated, WellTimed, Timed;
      if !Live(transactions, id) {
        return false;
      }
      ActiveIsTracked(View(), id);
      var hit := WritesConflict(id);
      if hit {
        return false;
      }
      hit := InsertsConflict(id);
      if hit {
        return false;
      }
      hit := PredicatesConflict(id);
      if hit {
        return false;
      }
      RetainedFinds(View().kept, history, FootprintOf(View(), id));
      return true;
    }

    method WritesConflict(id: TxnId) returns (hit: bool)
      requires id in transactions && Tracked(View(), id) && Honest(View().kept, history)
      ensures hit ==> Conflicted(history, FootprintOf(View(), id))
      ensures !hit ==> forall n :: n in committedWrites && transactions[id].snapshot < n ==>
        committedWrites[n] * activeReads[id] == {} && committedWrites[n] * activeWrites[id] == {}
    {
      var rest := committedWrites.Keys;
      while rest != {}
        invariant rest <= committedWrites.Keys
        invariant forall n :: n in committedWrites && n !in rest && transactions[id].snapshot < n ==>
          committedWrites[n] * activeReads[id] == {} && committedWrites[n] * activeWrites[id] == {}
        decreases |rest|
      {
        var n := Pick(rest);
        rest := rest - {n};
        if transactions[id].snapshot < n {
          var a := Intersects(activeReads[id], committedWrites[n]);
          var b := Intersects(activeWrites[id], committedWrites[n]);
          if a || b {
            assert Clash(history[n - 1], FootprintOf(View(), id));
            return true;
          }
        }
      }
      return false;
    }

    method InsertsConflict(id: TxnId) returns (hit: bool)
      requires id in transactions && Tracked(View(), id) && Honest(View().kept, history)
      ensures hit ==> Conflicted(history, FootprintOf(View(), id))
      ensures !hit ==> forall n :: n in committedInserts && transactions[id].snapshot < n ==>
        !Phantom(activePreds[id], committedInserts[n])
    {
      var rest := committedInserts.Keys;
      while rest != {}
        invariant rest <= committedInserts.Keys
        invariant forall n :: n in committedInserts && n !in rest && transactions[id].snapshot < n ==>
          !Phantom(activePreds[id], committedInserts[n])
        decreases |rest|
      {
        var n := Pick(rest);
        rest := rest - {n};
        if transactions[id].snapshot < n {
          hit := PredicateConflictsWithInserts(activePreds[id], committedInserts[n]);
          if hit {
            assert Clash(history[n - 1], FootprintOf(View(), id));
            return;
          }
        }
      }
      return false;
    }

    method PredicatesConflict(id: TxnId) returns (hit: bool)
      requires id in transactions && Tracked(View(), id) && Honest(View().kept, history)
      ensures hit ==> Conflicted(history, FootprintOf(View(), id))
      ensures !hit ==> forall n :: n in committedPreds && transactions[id].snapshot < n ==>
        !Phantom(committedPreds[n], activeInserts[id])
    {
      var rest := committedPreds.Keys;
      while rest != {}
        invariant rest <= committedPreds.Keys
        invariant forall n :: n in committedPreds && n !in rest && transactions[id].snapshot < n ==>
          !Phantom(committedPreds[n], activeInserts[id])
        decreases |rest|
      {
        var n := Pick(rest);
        rest := rest - {n};
        if transactions[id].snapshot < n {
          hit := PredicateConflictsWithInserts(committedPreds[n], activeInserts[id]);
          if hit {
            assert Clash(history[n - 1], FootprintOf(View(), id));
            return;
          }
        }
      }
      return false;
    }

    /** The smallest snapshot among the given transactions and `floor`. */
    method LowestSnapshot(ids: set<TxnId>, floor: CommitSeq) returns (low: CommitSeq)
      ensures low <= floor
      ensures forall id :: id in ids && Live(transactions, id) ==> low <= transactions[id].snapshot
      ensures low == floor || exists id :: id in ids && Live(transactions, id) && low == transactions[id].snapshot
    {
      low := floor;
      var rest := ids;
      while rest != {}
        invariant rest <= ids && low <= floor
        invariant forall id :: id in ids && id !in rest && Live(transactions, id) ==> low <= transactions[id].snapshot
        invariant low == floor || exists id :: id in ids && Live(transactions, id) && low == transactions[id].snapshot
        decreases |rest|
      {
        var id := Pick(rest);
        rest := rest - {id};
        if Live(transactions, id) && transactions[id].snapshot < low {
          low := transactions[id].snapshot;
        }
      }
    }

    method OldestActive() returns (low: CommitSeq)
      requires Keyed(View())
      ensures Oldest(transactions, nextCommitSeq, low)
    {
      low := LowestSnapshot(activeReads.Keys, nextCommitSeq);
      low := LowestSnapshot(activePreds.Keys, low);
      low := LowestSnapshot(activeInserts.Keys, low);
      low := LowestSnapshot(activeWrites.Keys, low);
    }

    method PruneCommittedConflictSets()
      requires Valid()
      modifies this`committedWrites, this`committedPreds, this`committedInserts
      ensures Valid() && Prunes(old(View()), View())
    {
      hide Isolated, WellTimed, Timed, Retained, Above;
      ghost var s := View();
      if activeReads == map[] && activePreds == map[] && activeInserts == map[] && activeWrites == map[] {
        committedWrites, committedPreds, committedInserts := map[], map[], map[];
        PruneKeeps(s, View());
        return;
      }
      var low := OldestActive();
      committedWrites := PruneMap(committedWrites, low);
      committedPreds := PruneMap(committedPreds, low);
      committedInserts := PruneMap(committedInserts, low);
      assert View() == s.(kept := PrunedAt(s.kept, low));
      PruneKeeps(s, View());
    }

    method Rollback(id: TxnId) returns (ok: bool)
      requires Valid()
      modifies this
      ensures Valid() && ok == Live(old(transactions), id)
      ensures ok ==> Prunes(Ended(old(View()), id, RolledBack), View())
      ensures !ok ==> View() == old(View())
    {
      hide Invariant, Prunes;
      if !Live(transactions, id) {
        return false;
      }
      RollbackKeeps(View(), id);
      Finish(id, RolledBack);
      PruneCommittedConflictSets();
      return true;
    }

    /** Commits exactly when no transaction that committed since the snapshot
        clashes with this one; otherwise the transaction is rolled back. */
    method Commit(id: TxnId) returns (r: CommitResult)
      requires Valid()
      modifies this
      ensures Valid() && (Live(old(transactions), id) ==> Tracked(old(View()), id))
      ensures r == (if !Live(old(transactions), id) then Inactive
                    else if Conflicted(old(history), FootprintOf(old(View()), id)) then SerializationFailure
                    else Done(|old(history)| + 1))
      ensures match r
        case Inactive => View() == old(View())
        case SerializationFailure => Prunes(Ended(old(View()), id, RolledBack), View())
        case Done(_) => Prunes(Published(old(View()), id), View())
    {
      hide Invariant, Prunes, Conflicted;
      if !Live(transactions, id) {
        return Inactive;
      }
      var serializable := IsSerializable(id);
      if !serializable {
        var _ := Rollback(id);
        return SerializationFailure;
      }
      CommitKeeps(View(), id);
      CommitCounts(View());
      Publish(id);
      r := Done(nextCommitSeq);
      PruneCommittedConflictSets();
    }

    /** Moves the active sets of a transaction to the committed side. */
    method Publish(id: TxnId)
      requires Live(transactions, id) && Tracked(View(), id)
      modifies this
      ensures View() == Published(old(View()), id)
    {
      Retain(id, nextCommitSeq + 1);
      history := history + [FootprintOf(View(), id)];
      nextCommitSeq := nextCommitSeq + 1;
      Finish(id, Committed(nextCommitSeq));
    }

    method Retain(id: TxnId, n: CommitSeq)
      requires Live(transactions, id) && Tracked(View(), id)
      modifies this`committedWrites, this`committedPreds, this`committedInserts
      ensures View() == old(View()).(kept := WithSets(old(View()).kept, FootprintOf(old(View()), id), n))
    {
      if activeWrites[id] != {} {
        committedWrites := committedWrites[n := activeWrites[id]];
      }
      if activePreds[id] != [] {
        committedPreds := committedPreds[n := activePreds[id]];
      }
      if activeInserts[id] != [] {
        committedInserts := committedInserts[n := activeInserts[id]];
      }
    }

    method Finish(id: TxnId, outcome: TxnState)
      requires id in transactions
      modifies this`transactions, this`activeReads, this`activeWrites, this`activePreds, this`activeInserts
      ensures View() == Ended(old(View()), id, outcome)
    {
      transactions := transactions[id := Txn(outcome, transactions[id].snapshot)];
      activeWrites := activeWrites - {id};
      activeReads := activeReads - {id};
      activePreds := activePreds - {id};
      activeInserts := activeInserts - {id};
    }

    /** Begins and commits at once; the statement's writes are attached afterwards. */
    method BeginCommitted() returns (id: TxnId)
      requires Valid()
      modifies this
      ensures Valid() && id == old(nextId) && JustCommitted(View(), id)
      ensures history == old(history) + [Footprint(id, |old(history)|, {}, {}, [], [])]
    {
      hide Invariant, Prunes, JustCommitted;
      ghost var s := View();
      CommitCounts(s);
      id := Begin();
      assert FootprintOf(View(), id) == Footprint(id, |s.history|, {}, {}, [], []);
      var r := Commit(id);
      assert r.Done?;
      FreshCommit(s, View());
    }

    /** A statement outside any transaction, as one step. */
    method Autocommit(rows: seq<(string, nat)>, images: seq<SsiInsert>) returns (id: TxnId)
      requires Valid()
      modifies this
      ensures Valid() && id == old(nextId)
      ensures history == old(history) + [Footprint(id, |old(history)|, {}, Keys(rows), [], images)]
    {
      hide Invariant, KeyOf;
      id := BeginCommitted();
      ghost var h := old(history);
      assert Keys(rows[..0]) == {};
      for i := 0 to |rows|
        invariant Valid() && JustCommitted(View(), id)
        invariant history == h + [Footprint(id, |h|, {}, Keys(rows[..i]), [], [])]
      {
        NotActive(View(), id);
        RecordWrite(id, rows[i].0, rows[i].1);
        KeysStep(rows, i);
      }
      assert rows[..|rows|] == rows;
      for i := 0 to |images|
        invariant Valid() && JustCommitted(View(), id)
        invariant history == h + [Footprint(id, |h|, {}, Keys(rows), [], images[..i])]
      {
        NotActive(View(), id);
        RecordInsert(id, images[i]);
        assert images[..i + 1] == images[..i] + [images[i]];
      }
      assert images[..|images|] == images;
    }

    method RecordRead(id: TxnId, relation: string, rowId: nat)
      requires Valid()
      modifies this`activeReads
      ensures Valid()
      ensures activeReads == if id != SYSTEM && id in old(activeReads)
        then old(activeReads)[id := old(activeReads)[id] + {KeyOf(relation, rowId)}] else old(activeReads)
    {
      hide Invariant, KeyOf;
      if id == SYSTEM || id !in activeReads {
        return;
      }
      activeReads := activeReads[id := activeReads[id] + {KeyOf(relation, rowId)}];
      ReadKeeps(old(View()), View());
    }

    method RecordPredicateRead(id: TxnId, p: SsiPredicate)
      requires Valid()
      modifies this`activePreds
      ensures Valid()
      ensures activePreds == if id != SYSTEM && id in old(activePreds)
        then old(activePreds)[id := old(activePreds)[id] + [p]] else old(activePreds)
    {
      hide Invariant;
      if id == SYSTEM || id !in activePreds {
        return;
      }
      activePreds := activePreds[id := activePreds[id] + [p]];
      ReadKeeps(old(View()), View());
    }

    /** A write by a transaction that has already committed belongs to the
        statement that made that commit. */
    method RecordWrite(id: TxnId, relation: string, rowId: nat)
      requires Valid()
      requires id in transactions && transactions[id].state.Committed? ==> JustCommitted(View(), id)
      modifies this`activeWrites, this`committedWrites, this`history
      ensures Valid() && View() == Wrote(old(View()), id, KeyOf(relation, rowId))
      ensures JustCommitted(old(View()), id) ==> JustCommitted(View(), id)
    {
      hide Invariant, KeyOf;
      SystemIsNobody(View());
      WriteKeeps(View(), id, KeyOf(relation, rowId));
      if id == SYSTEM {
        return;
      }
      var key := KeyOf(relation, rowId);
      if id in activeWrites {
        activeWrites := activeWrites[id := activeWrites[id] + {key}];
        return;
      }
      if id !in transactions || !transactions[id].state.Committed? {
        return;
      }
      CommitCounts(View());
      var seqno := transactions[id].state.seqno;
      var was := if seqno in committedWrites then committedWrites[seqno] else {};
      committedWrites := committedWrites[seqno := was + {key}];
      history := LastWrote(history, key);
    }

    method RecordInsert(id: TxnId, image: SsiInsert)
      requires Valid()
      requires id in transactions && transactions[id].state.Committed? ==> JustCommitted(View(), id)
      modifies this`activeInserts, this`committedInserts, this`history
      ensures Valid() && View() == Inserted(old(View()), id, image)
      ensures JustCommitted(old(View()), id) ==> JustCommitted(View(), id)
    {
      hide Invariant;
      SystemIsNobody(View());
      InsertKeeps(View(), id, image);
      if id == SYSTEM {
        return;
      }
      if id in activeInserts {
        activeInserts := activeInserts[id := activeInserts[id] + [image]];
        return;
      }
      if id !in transactions || !transactions[id].state.Committed? {
        return;
      }
      CommitCounts(View());
      var seqno := transactions[id].state.seqno;
      var was := if seqno in committedInserts then committedInserts[seqno] else [];
      committedInserts := committedInserts[seqno := was + [image]];
      history := LastInserted(history, image);
    }
  }

  function Keys(rows: seq<(string, nat)>): set<ConflictKey> {
    set i | 0 <= i < |rows| :: KeyOf(rows[i].0, rows[i].1)
  }

  /** Key sets, compared as sets of strings, meet exactly when they name a row in common. */
  lemma KeysMeet(a: seq<(string, nat)>, b: seq<(string, nat)>)
    ensures Keys(a) * Keys(b) != {} <==> exists row :: row in a && row in b
  {
    hide KeyOf;
    if key :| key in Keys(a) * Keys(b) {
      var i :| 0 <= i < |a| && key == KeyOf(a[i].0, a[i].1);
      var j :| 0 <= j < |b| && key == KeyOf(b[j].0, b[j].1);
      KeysAreInjective(a[i].0, a[i].1, b[j].0, b[j].1);
      assert a[i] in a && a[i] in b;
    }
    if row :| row in a && row in b {
      assert KeyOf(row.0, row.1) in Keys(a) * Keys(b);
    }
  }

  lemma FreshCommit(s: State, t: State)
    requires Invariant(s) && Prunes(Published(Begun(s), s.nextId), t)
    ensures JustCommitted(t, s.nextId)
    ensures t.history == s.history + [Footprint(s.nextId, |s.history|, {}, {}, [], [])]
  {
    hide Isolated, WellTimed, Retained, Keyed;
  }

  /** One statement of an interleaved run. */
  datatype Step =
    | BeginTxn
    | Read(id: TxnId, relation: string, rowId: nat)
    | ReadWhere(id: TxnId, p: SsiPredicate)
    | Write(id: TxnId, relation: string, rowId: nat)
    | Insert(id: TxnId, image: SsiInsert)
    | CommitTxn(id: TxnId)
    | RollbackTxn(id: TxnId)
    | Autocommit(rows: seq<(string, nat)>, images: seq<SsiInsert>)

  method Perform(tm: TransactionManager, step: Step)
    requires tm.Valid()
    modifies tm
    ensures tm.Valid()
    ensures |old(tm.history)| <= |tm.history| && old(tm.history) == tm.history[..|old(tm.history)|]
  {
    hide Invariant, FootprintOf;
    match step {
      case BeginTxn => var _ := tm.Begin();
      case Read(id, relation, rowId) => tm.RecordRead(id, relation, rowId);
      case ReadWhere(id, p) => tm.RecordPredicateRead(id, p);
      case Write(id, relation, rowId) =>
        if Live(tm.transactions, id) {
          tm.RecordWrite(id, relation, rowId);
        }
      case Insert(id, image) =>
        if Live(tm.transactions, id) {
          tm.RecordInsert(id, image);
        }
      case CommitTxn(id) => var _ := tm.Commit(id);
      case RollbackTxn(id) => var _ := tm.Rollback(id);
      case Autocommit(rows, images) => var _ := tm.Autocommit(rows, images);
    }
  }

  /** Any interleaving of any statements, from an empty manager: the commits it
      made are isolated, so none of their dependencies runs backwards. */
  method Run(steps: seq<Step>) returns (tm: TransactionManager)
    ensures tm.Valid() && WellTimed(tm.history) && Isolated(tm.history)
    ensures forall i: nat, j: nat :: i < |tm.history| && j < |tm.history| && DependsOn(tm.history, i, j) ==> i < j
  {
    tm := new TransactionManager();
    for k := 0 to |steps|
      invariant tm.Valid() && fresh(tm)
    {
      Perform(tm, steps[k]);
    }
    forall i: nat, j: nat | i < |tm.history| && j < |tm.history| && DependsOn(tm.history, i, j) ensures i < j {
      DependenciesPointForward(tm.history, i, j);
    }
  }

  lemma CommitCounts(s: State)
    requires Invariant(s)
    ensures s.now == |s.history|
  {
  }

  lemma SystemIsNobody(s: State)
    requires Invariant(s)
    ensures SYSTEM !in s.txns && SYSTEM !in s.writeSets && SYSTEM !in s.inserts
  {
    hide Isolated, WellTimed, Retained;
    assert !Live(s.txns, SYSTEM);
  }
}
