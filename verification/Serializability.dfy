/** Conflict footprints of transactions and what the commit test guarantees
    about every history of commits. */
module Serializability {
  import opened Decimals
  import opened Values
  import opened LikePatterns

  type TxnId = int
  type CommitSeq = int
  type ConflictKey = string

  // ----- Conflict keys -------------------------------------------------------

  /** Relation name, a zero byte, then the row id in decimal. */
  function KeyOf(relation: string, rowId: nat): ConflictKey {
    relation + ['\0'] + Digits(rowId)
  }

  lemma LastZero(r: string, d: string, s: string, e: string)
    requires r + ['\0'] + d == s + ['\0'] + e
    requires '\0' !in d && '\0' !in e
    ensures r == s && d == e
  {
    var k := r + ['\0'] + d;
    assert k[|r|] == '\0' && k[|s|] == '\0';
    assert forall i :: |r| < i < |k| ==> k[i] == d[i - |r| - 1];
    assert forall i :: |s| < i < |k| ==> k[i] == e[i - |s| - 1];
    assert |r| == |s|;
    assert r == k[..|r|] == s;
    assert d == k[|r| + 1..] == e;
  }

  /** Distinct rows never share a key, whatever bytes the relation names hold. */
  lemma KeysAreInjective(r: string, m: nat, s: string, n: nat)
    requires KeyOf(r, m) == KeyOf(s, n)
    ensures r == s && m == n
  {
    LastZero(r, Digits(m), s, Digits(n));
    DigitsInjective(m, n);
  }

  // ----- Predicate reads against row images ----------------------------------

  /** An empty column means membership of the relation; a pattern means LIKE;
      otherwise the column is compared with a literal. */
  datatype SsiPredicate = SsiPredicate(
    relation: string, column: string, op: Option<CompareOp>, value: Option<Value>, like: Option<string>)

  /** The image of an inserted or updated row, as name/value pairs. */
  datatype SsiInsert = SsiInsert(relation: string, columns: seq<(string, Value)>)

  ghost predicate CellMatches(v: Value, p: SsiPredicate) {
    if p.like.Some? then v.Str? && Matches(v.s, p.like.value)
    else if p.op.None? || p.value.None? then true
    else Compare(v, p.op.value, p.value.value)
  }

  predicate FirstNamed(columns: seq<(string, Value)>, name: string, k: int) {
    0 <= k < |columns| && columns[k].0 == name && forall j :: 0 <= j < k ==> columns[j].0 != name
  }

  ghost predicate ImageMatches(image: SsiInsert, p: SsiPredicate) {
    && image.relation == p.relation
    && (p.column == "" ||
        exists k :: FirstNamed(image.columns, p.column, k) && CellMatches(image.columns[k].1, p))
  }

  ghost predicate Phantom(preds: seq<SsiPredicate>, inserts: seq<SsiInsert>) {
    exists a, b :: 0 <= a < |preds| && 0 <= b < |inserts| && ImageMatches(inserts[b], preds[a])
  }

  // ----- Histories --------------------------------------------------------------

  /** What a transaction touched, and the commit sequence its snapshot was taken at. */
  datatype Footprint = Footprint(
    id: TxnId, snapshot: CommitSeq,
    readSet: set<ConflictKey>, writeSet: set<ConflictKey>,
    preds: seq<SsiPredicate>, inserts: seq<SsiInsert>)

  /** Entry i of a history is the transaction with commit sequence i + 1. */
  type History = seq<Footprint>

  /** `later` must not commit if `earlier` committed after its snapshot. */
  ghost predicate Clash(earlier: Footprint, later: Footprint) {
    || earlier.writeSet * later.readSet != {}
    || earlier.writeSet * later.writeSet != {}
    || Phantom(later.preds, earlier.inserts)
    || Phantom(earlier.preds, later.inserts)
  }

  ghost predicate Conflicted(h: History, f: Footprint) {
    exists i :: 0 <= i < |h| && f.snapshot <= i && Clash(h[i], f)
  }

  ghost predicate WellTimed(h: History) {
    forall j :: 0 <= j < |h| ==> 0 <= h[j].snapshot <= j
  }

  /** No two concurrent committed transactions clash. */
  ghost predicate Isolated(h: History) {
    forall i, j :: 0 <= i < j < |h| && h[j].snapshot <= i ==> !Clash(h[i], h[j])
  }

  lemma IsolatedAppend(h: History, f: Footprint)
    requires Isolated(h) && WellTimed(h) && 0 <= f.snapshot <= |h| && !Conflicted(h, f)
    ensures Isolated(h + [f]) && WellTimed(h + [f])
  {
    var g := h + [f];
    forall i, j | 0 <= i < j < |g| && g[j].snapshot <= i ensures !Clash(g[i], g[j]) {
      assert g[i] == h[i];
      assert j < |h| ==> g[j] == h[j];
    }
  }

  /** Giving the latest commit a larger footprint is harmless when its snapshot
      saw every earlier commit. */
  lemma IsolatedExtend(h: History, f: Footprint)
    requires h != [] && Isolated(h) && WellTimed(h) && f.snapshot == |h| - 1
    ensures Isolated(h[|h| - 1 := f]) && WellTimed(h[|h| - 1 := f])
  {
    var g := h[|h| - 1 := f];
    forall i, j | 0 <= i < j < |g| && g[j].snapshot <= i ensures !Clash(g[i], g[j]) {
      assert j < |h| - 1 && g[j] == h[j] && g[i] == h[i];
    }
  }

  // ----- Dependencies point forward in commit order ------------------------------

  /** The commit sequence of the last of the first n commits that wrote the key. */
  function LastWriter(h: History, key: ConflictKey, n: nat): (s: nat)
    requires n <= |h|
    ensures s <= n
    ensures s > 0 ==> key in h[s - 1].writeSet
    ensures forall i :: s <= i < n ==> key !in h[i].writeSet
  {
    if n == 0 then 0
    else if key in h[n - 1].writeSet then n
    else LastWriter(h, key, n - 1)
  }

  /** i overwrote before j did. */
  ghost predicate WriteWrite(h: History, i: nat, j: nat, key: ConflictKey)
    requires i < |h| && j < |h|
  {
    key in h[i].writeSet && key in h[j].writeSet && i < j
  }

  /** j's snapshot shows it the version i wrote. */
  ghost predicate WriteRead(h: History, i: nat, j: nat, key: ConflictKey)
    requires i < |h| && j < |h| && WellTimed(h)
  {
    key in h[j].readSet && LastWriter(h, key, h[j].snapshot) == i + 1
  }

  /** i read a version that j replaced. */
  ghost predicate ReadWrite(h: History, i: nat, j: nat, key: ConflictKey)
    requires i < |h| && j < |h| && WellTimed(h)
  {
    i != j && key in h[i].readSet && key in h[j].writeSet && LastWriter(h, key, h[i].snapshot) < j + 1
  }

  /** i's predicate read missed an image that j produced. */
  ghost predicate PredicateWrite(h: History, i: nat, j: nat)
    requires i < |h| && j < |h|
  {
    i != j && h[i].snapshot <= j && Phantom(h[i].preds, h[j].inserts)
  }

  /** i's image was in view of j's predicate read. */
  ghost predicate WritePredicate(h: History, i: nat, j: nat)
    requires i < |h| && j < |h|
  {
    i < h[j].snapshot && Phantom(h[j].preds, h[i].inserts)
  }

  ghost predicate DependsOn(h: History, i: nat, j: nat)
    requires i < |h| && j < |h| && WellTimed(h)
  {
    || (exists key :: WriteWrite(h, i, j, key))
    || (exists key :: WriteRead(h, i, j, key))
    || (exists key :: ReadWrite(h, i, j, key))
    || PredicateWrite(h, i, j)
    || WritePredicate(h, i, j)
  }

  lemma DependenciesPointForward(h: History, i: nat, j: nat)
    requires WellTimed(h) && Isolated(h) && i < |h| && j < |h| && DependsOn(h, i, j)
    ensures i < j
  {
    if key :| ReadWrite(h, i, j, key) {
      assert h[i].snapshot <= j;
      assert key in h[j].writeSet * h[i].readSet;
      assert Clash(h[j], h[i]);
    } else if PredicateWrite(h, i, j) {
      assert Clash(h[j], h[i]);
    }
  }

  ghost predicate Path(h: History, p: seq<nat>)
    requires WellTimed(h)
  {
    && p != []
    && (forall k :: 0 <= k < |p| ==> p[k] < |h|)
    && forall k :: 0 <= k < |p| - 1 ==> DependsOn(h, p[k], p[k + 1])
  }

  lemma {:induction false} PathsClimb(h: History, p: seq<nat>)
    requires WellTimed(h) && Isolated(h) && Path(h, p)
    ensures p[0] + |p| - 1 <= p[|p| - 1]
  {
    if |p| > 1 {
      var q := p[..|p| - 1];
      forall k | 0 <= k < |q| - 1 ensures DependsOn(h, q[k], q[k + 1]) {
        assert DependsOn(h, p[k], p[k + 1]);
      }
      PathsClimb(h, q);
      assert DependsOn(h, p[|p| - 2], p[|p| - 2 + 1]);
      DependenciesPointForward(h, p[|p| - 2], p[|p| - 1]);
    }
  }

  /** The dependency graph of committed transactions has no cycle. */
  lemma NoDependencyCycle(h: History, p: seq<nat>)
    requires WellTimed(h) && Isolated(h) && Path(h, p) && |p| > 1
    ensures p[0] != p[|p| - 1]
  {
    PathsClimb(h, p);
  }

  /** First committer wins: of two writers of a row the later one saw the earlier. */
  lemma NoLostUpdate(h: History, i: nat, j: nat, key: ConflictKey)
    requires WellTimed(h) && Isolated(h) && i < j < |h|
    requires key in h[i].writeSet && key in h[j].writeSet
    ensures i + 1 <= h[j].snapshot
  {
    assert key in h[i].writeSet * h[j].writeSet;
    assert Clash(h[i], h[j]);
  }

  // ----- Equivalence with the serial run in commit order ---------------------------

  /** The version a snapshot read returns is the one a serial run would return. */
  lemma {:induction false} SnapshotReadsAreCurrent(h: History, j: nat, key: ConflictKey, n: nat)
    requires WellTimed(h) && Isolated(h) && j < |h| && key in h[j].readSet
    requires h[j].snapshot <= n <= j
    ensures LastWriter(h, key, h[j].snapshot) == LastWriter(h, key, n)
  {
    if h[j].snapshot < n {
      SnapshotReadsAreCurrent(h, j, key, n - 1);
      assert !Clash(h[n - 1], h[j]);
      assert key !in h[n - 1].writeSet * h[j].readSet;
    }
  }

  /** A predicate read saw every image that commits before its reader produced. */
  lemma PredicateReadsAreCurrent(h: History, i: nat, j: nat)
    requires WellTimed(h) && Isolated(h) && i < j < |h| && Phantom(h[j].preds, h[i].inserts)
    ensures i < h[j].snapshot
  {
    assert Clash(h[i], h[j]);
  }

  /** What the transactions compute: from the values a transaction read, the value
      it leaves in each row it writes. */
  type Programs<!V> = (nat, map<ConflictKey, V>, ConflictKey) -> V

  /** The values a transaction saw through its snapshot. */
  ghost function SnapshotView<V>(h: History, init: ConflictKey -> V, run: Programs<V>, j: nat): map<ConflictKey, V>
    requires WellTimed(h) && j < |h|
    decreases j, 1
  {
    map key | key in h[j].readSet :: VersionValue(h, init, run, LastWriter(h, key, h[j].snapshot), key)
  }

  /** The value of the version of a row that commit s wrote; 0 is the initial one. */
  ghost function VersionValue<V>(h: History, init: ConflictKey -> V, run: Programs<V>, s: nat, key: ConflictKey): V
    requires WellTimed(h) && s <= |h|
    decreases s, 0
  {
    if s == 0 then init(key) else run(s - 1, SnapshotView(h, init, run, s - 1), key)
  }

  /** The database after running the first n transactions one after another. */
  ghost function SerialState<V>(h: History, init: ConflictKey -> V, run: Programs<V>, n: nat, key: ConflictKey): V
    requires n <= |h|
    decreases n, 0
  {
    if n == 0 then init(key)
    else if key in h[n - 1].writeSet then run(n - 1, SerialView(h, init, run, n - 1), key)
    else SerialState(h, init, run, n - 1, key)
  }

  ghost function SerialView<V>(h: History, init: ConflictKey -> V, run: Programs<V>, j: nat): map<ConflictKey, V>
    requires j < |h|
    decreases j, 1
  {
    map key | key in h[j].readSet :: SerialState(h, init, run, j, key)
  }

  /** Every row holds, after every prefix of the commits, what running the
      transactions one at a time in commit order leaves in it. */
  lemma {:induction false} SerialEquivalence<V>(
      h: History, init: ConflictKey -> V, run: Programs<V>, n: nat, key: ConflictKey)
    requires WellTimed(h) && Isolated(h) && n <= |h|
    ensures VersionValue(h, init, run, LastWriter(h, key, n), key) == SerialState(h, init, run, n, key)
    decreases n, 0
  {
    if n > 0 {
      if key in h[n - 1].writeSet {
        ViewsAgree(h, init, run, n - 1);
      } else {
        SerialEquivalence(h, init, run, n - 1, key);
      }
    }
  }

  /** Every committed transaction read exactly what the serial run shows it. */
  lemma {:induction false} ViewsAgree<V>(h: History, init: ConflictKey -> V, run: Programs<V>, j: nat)
    requires WellTimed(h) && Isolated(h) && j < |h|
    ensures SnapshotView(h, init, run, j) == SerialView(h, init, run, j)
    decreases j, 1
  {
    forall key | key in h[j].readSet
      ensures VersionValue(h, init, run, LastWriter(h, key, h[j].snapshot), key)
           == SerialState(h, init, run, j, key)
    {
      SnapshotReadsAreCurrent(h, j, key, j);
      SerialEquivalence(h, init, run, j, key);
    }
  }
}
