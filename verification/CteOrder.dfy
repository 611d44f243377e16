/** The order in which recursive common table expressions are materialized. */
module CteOrder {
  import opened Values
  import opened Words
  import opened Graphs
  import opened Kosaraju

  // ----- References between recursive CTEs ---------------------------------------------

  /** The tables a SELECT reads: its own, those it joins, those of its set arms. */
  datatype Query = Query(table: string, joins: seq<string>, arms: seq<Query>)

  datatype Cte = Cte(name: string, recursive: bool, arm: Option<Query>)

  ghost predicate Mentions(q: Query, name: string) {
    || SameWord(q.table, name)
    || (exists i :: 0 <= i < |q.joins| && SameWord(q.joins[i], name))
    || (exists i :: 0 <= i < |q.arms| && Mentions(q.arms[i], name))
  }

  /** Every table reference of a query, with repetitions. */
  ghost function TablesOf(q: Query): seq<string>
    decreases q, 1
  {
    [q.table] + q.joins + ArmTables(q.arms)
  }

  ghost function ArmTables(arms: seq<Query>): seq<string>
    decreases arms, 0
  {
    if arms == [] then [] else ArmTables(arms[..|arms| - 1]) + TablesOf(arms[|arms| - 1])
  }

  ghost function Occurrences(names: seq<string>, name: string): nat {
    if names == [] then 0
    else Occurrences(names[..|names| - 1], name) + if SameWord(names[|names| - 1], name) then 1 else 0
  }

  lemma {:induction false} OccurrencesConcat(a: seq<string>, b: seq<string>, name: string)
    ensures Occurrences(a + b, name) == Occurrences(a, name) + Occurrences(b, name)
  {
    hide SameWord;
    if b == [] {
      assert a + b == a;
    } else {
      assert (a + b)[..|a + b| - 1] == a + b[..|b| - 1];
      OccurrencesConcat(a, b[..|b| - 1], name);
    }
  }

  lemma OccurrencesNext(names: seq<string>, i: nat, name: string)
    requires i < |names|
    ensures Occurrences(names[..i + 1], name) ==
      Occurrences(names[..i], name) + if SameWord(names[i], name) then 1 else 0
  {
    assert names[..i + 1][..i] == names[..i];
  }

  lemma ArmTablesNext(arms: seq<Query>, i: nat, name: string)
    requires i < |arms|
    ensures Occurrences(ArmTables(arms[..i + 1]), name) ==
      Occurrences(ArmTables(arms[..i]), name) + Occurrences(TablesOf(arms[i]), name)
  {
    hide TablesOf, Occurrences;
    assert arms[..i + 1][..i] == arms[..i];
    OccurrencesConcat(ArmTables(arms[..i]), TablesOf(arms[i]), name);
  }

  lemma TableCount(q: Query, name: string)
    ensures Occurrences(TablesOf(q), name) ==
      (if SameWord(q.table, name) then 1 else 0) + Occurrences(q.joins, name) + Occurrences(ArmTables(q.arms), name)
  {
    hide SameWord;
    OccurrencesConcat([q.table] + q.joins, ArmTables(q.arms), name);
    OccurrencesConcat([q.table], q.joins, name);
    assert [q.table][..0] == [];
    assert Occurrences([q.table], name) == if SameWord(q.table, name) then 1 else 0;
  }

  lemma {:induction false} Occurs(names: seq<string>, name: string)
    ensures Occurrences(names, name) > 0 <==> exists i :: 0 <= i < |names| && SameWord(names[i], name)
  {
    hide SameWord;
    if names != [] {
      Occurs(names[..|names| - 1], name);
    }
  }

  lemma {:induction false} MentionedOnce(q: Query, name: string)
    ensures Occurrences(TablesOf(q), name) > 0 <==> Mentions(q, name)
    decreases q, 1
  {
    hide SameWord, TablesOf, Occurrences;
    TableCount(q, name);
    Occurs(q.joins, name);
    ArmMentioned(q.arms, name);
  }

  lemma {:induction false} ArmMentioned(arms: seq<Query>, name: string)
    ensures Occurrences(ArmTables(arms), name) > 0 <==> exists i :: 0 <= i < |arms| && Mentions(arms[i], name)
    decreases arms, 0
  {
    hide SameWord, TablesOf, Mentions;
    if arms != [] {
      var n := |arms| - 1;
      ArmMentioned(arms[..n], name);
      MentionedOnce(arms[n], name);
      ArmTablesNext(arms, n, name);
      assert arms[..n + 1] == arms;
    }
  }

  method CountRefs(q: Query, name: string) returns (count: nat)
    ensures count == Occurrences(TablesOf(q), name)
    ensures count > 0 <==> Mentions(q, name)
  {
    hide SameWord, TablesOf, Occurrences, Mentions;
    MentionedOnce(q, name);
    TableCount(q, name);
    NoOccurrence(name);
    count := 0;
    if SameWord(q.table, name) {
      count := count + 1;
    }
    for i := 0 to |q.joins|
      invariant count == (if SameWord(q.table, name) then 1 else 0) + Occurrences(q.joins[..i], name)
    {
      OccurrencesNext(q.joins, i, name);
      if SameWord(q.joins[i], name) {
        count := count + 1;
      }
    }
    assert q.joins[..|q.joins|] == q.joins;
    ghost var direct := count;
    for i := 0 to |q.arms|
      invariant count == direct + Occurrences(ArmTables(q.arms[..i]), name)
    {
      ArmTablesNext(q.arms, i, name);
      var n := CountRefs(q.arms[i], name);
      count := count + n;
    }
    assert q.arms[..|q.arms|] == q.arms;
  }

  lemma NoOccurrence(name: string)
    ensures Occurrences([], name) == 0
  {
  }

  ghost predicate RefersTo(a: Cte, b: Cte) {
    a.arm.Some? && Mentions(a.arm.value, b.name)
  }

  method RecursiveCtes(ctes: seq<Cte>) returns (indexes: seq<nat>)
    ensures forall d :: 0 <= d < |indexes| ==> indexes[d] < |ctes| && ctes[indexes[d]].recursive
    ensures forall d, e :: 0 <= d < e < |indexes| ==> indexes[d] < indexes[e]
    ensures forall i: nat :: i < |ctes| && ctes[i].recursive ==> i in indexes
  {
    indexes := [];
    for i := 0 to |ctes|
      invariant forall d :: 0 <= d < |indexes| ==> indexes[d] < i && ctes[indexes[d]].recursive
      invariant forall d, e :: 0 <= d < e < |indexes| ==> indexes[d] < indexes[e]
      invariant forall k: nat :: k < i && ctes[k].recursive ==> k in indexes
    {
      if ctes[i].recursive {
        indexes := indexes + [i];
      }
    }
  }

  /** An edge for each reference from the arm of one CTE to another. */
  method BuildRefGraph(ctes: seq<Cte>, indexes: seq<nat>) returns (g: Graph)
    requires forall d :: 0 <= d < |indexes| ==> indexes[d] < |ctes|
    ensures |g| == |indexes| && WellFormed(g)
    ensures forall d: nat, e: nat ::
      d < |g| && e < |g| ==> (Edge(g, d, e) <==> RefersTo(ctes[indexes[d]], ctes[indexes[e]]))
  {
    g := [];
    for d := 0 to |indexes|
      invariant |g| == d
      invariant forall u, k :: 0 <= u < |g| && 0 <= k < |g[u]| ==> g[u][k] < |indexes|
      invariant forall u: nat, e: nat ::
        u < d && e < |indexes| ==> (e in g[u] <==> RefersTo(ctes[indexes[u]], ctes[indexes[e]]))
    {
      var out: seq<nat> := [];
      if ctes[indexes[d]].arm.Some? {
        for e := 0 to |indexes|
          invariant forall k :: 0 <= k < |out| ==> out[k] < e
          invariant forall k: nat :: k < e ==> (k in out <==> RefersTo(ctes[indexes[d]], ctes[indexes[k]]))
        {
          var n := CountRefs(ctes[indexes[d]].arm.value, ctes[indexes[e]].name);
          if n > 0 {
            out := out + [e];
          }
        }
      }
      g := g + [out];
    }
  }

  // ----- The condensation -----------------------------------------------------------------

  /** c depends on d: some member of c has an edge to a member of d. */
  ghost predicate Depends(g: Graph, scc: seq<nat>, c: nat, d: nat)
    requires |scc| == |g|
  {
    c != d && exists u: nat, v: nat :: Edge(g, u, v) && v < |g| && scc[u] == c && scc[v] == d
  }

  ghost predicate Condenses(g: Graph, scc: seq<nat>, cond: seq<set<nat>>)
    requires |scc| == |g|
  {
    forall c, d :: 0 <= c < |cond| ==> (d in cond[c] <==> Depends(g, scc, c, d))
  }

  /** Labels grow along edges, so a component depends only on higher labels. */
  ghost predicate Climbs(cond: seq<set<nat>>) {
    forall c, d :: 0 <= c < |cond| && d in cond[c] ==> c < d < |cond|
  }

  lemma DependsBy(g: Graph, scc: seq<nat>, u: nat, v: nat)
    requires |scc| == |g| && Edge(g, u, v) && v < |g| && scc[u] != scc[v]
    ensures Depends(g, scc, scc[u], scc[v])
  {
  }

  method Condense(g: Graph, scc: seq<nat>, count: nat) returns (cond: seq<set<nat>>)
    requires WellFormed(g) && |scc| == |g| && forall v :: 0 <= v < |g| ==> scc[v] < count
    ensures |cond| == count && Condenses(g, scc, cond)
  {
    hide Depends;
    cond := seq(count, _ => {});
    for u := 0 to |g|
      invariant |cond| == count
      invariant forall c, d :: 0 <= c < count && d in cond[c] ==> Depends(g, scc, c, d)
      invariant forall a, j :: 0 <= a < u && 0 <= j < |g[a]| && scc[a] != scc[g[a][j]] ==> scc[g[a][j]] in cond[scc[a]]
    {
      for k := 0 to |g[u]|
        invariant |cond| == count
        invariant forall c, d :: 0 <= c < count && d in cond[c] ==> Depends(g, scc, c, d)
        invariant forall a, j ::
          0 <= a < u && 0 <= j < |g[a]| && scc[a] != scc[g[a][j]] ==> scc[g[a][j]] in cond[scc[a]]
        invariant forall j :: 0 <= j < k && scc[u] != scc[g[u][j]] ==> scc[g[u][j]] in cond[scc[u]]
      {
        var v := g[u][k];
        if scc[u] != scc[v] {
          DependsBy(g, scc, u, v);
          cond := cond[scc[u] := cond[scc[u]] + {scc[v]}];
        }
      }
    }
    CondenseAll(g, scc, cond);
  }

  lemma CondenseAll(g: Graph, scc: seq<nat>, cond: seq<set<nat>>)
    requires WellFormed(g) && |scc| == |g| && forall v :: 0 <= v < |g| ==> scc[v] < |cond|
    requires forall c, d :: 0 <= c < |cond| && d in cond[c] ==> Depends(g, scc, c, d)
    requires forall a, j :: 0 <= a < |g| && 0 <= j < |g[a]| && scc[a] != scc[g[a][j]] ==> scc[g[a][j]] in cond[scc[a]]
    ensures Condenses(g, scc, cond)
  {
    forall c, d | 0 <= c < |cond| ensures d in cond[c] <==> Depends(g, scc, c, d) {
      if Depends(g, scc, c, d) {
        var u: nat, v: nat :| Edge(g, u, v) && v < |g| && scc[u] == c && scc[v] == d;
        var j :| 0 <= j < |g[u]| && g[u][j] == v;
      }
    }
  }

  lemma CondenseClimbs(g: Graph, scc: seq<nat>, count: nat, cond: seq<set<nat>>)
    requires WellFormed(g) && Labels(g, Nodes(g), scc, count) && |cond| == count && Condenses(g, scc, cond)
    ensures Climbs(cond)
  {
    forall c, d | 0 <= c < |cond| && d in cond[c] ensures c < d < |cond| {
      var u: nat, v: nat :| Edge(g, u, v) && v < |g| && scc[u] == c && scc[v] == d;
      assert u in Nodes(g) && v in Nodes(g);
    }
  }

  // ----- Dependencies first -------------------------------------------------------------------

  ghost function Elements(s: seq<nat>): set<nat> {
    set i | 0 <= i < |s| :: s[i]
  }

  /** Everything a component depends on comes before it. */
  ghost predicate DependenciesFirst(cond: seq<set<nat>>, topo: seq<nat>) {
    forall i :: 0 <= i < |topo| ==> topo[i] < |cond| && cond[topo[i]] <= Elements(topo[..i])
  }

  lemma ElementsAppend(s: seq<nat>, x: nat)
    ensures Elements(s + [x]) == Elements(s) + {x}
  {
    var t := s + [x];
    assert t[|s|] == x;
    forall v | v in Elements(s) ensures v in Elements(t) {
      var i :| 0 <= i < |s| && s[i] == v;
      assert t[i] == v;
    }
  }

  method Consumers(cond: seq<set<nat>>) returns (producers: seq<set<nat>>, remaining: seq<nat>)
    requires Climbs(cond)
    ensures Inverts(cond, producers) && |remaining| == |cond|
    ensures forall c :: 0 <= c < |cond| ==> remaining[c] == |cond[c]|
  {
    producers := seq(|cond|, _ => {});
    remaining := seq(|cond|, _ => 0);
    for u := 0 to |cond|
      invariant |producers| == |cond| && |remaining| == |cond|
      invariant forall c: nat, d: nat :: c < |cond| && d < |cond| ==> (c in producers[d] <==> c < u && d in cond[c])
      invariant forall c, d :: 0 <= d < |cond| && c in producers[d] ==> c < |cond|
      invariant forall c :: 0 <= c < |cond| ==> remaining[c] == if c < u then |cond[c]| else 0
    {
      var rest := cond[u];
      while rest != {}
        invariant rest <= cond[u] && |producers| == |cond| && |remaining| == |cond|
        invariant forall c: nat, d: nat :: c < |cond| && d < |cond| ==>
          (c in producers[d] <==> (c < u && d in cond[c]) || (c == u && d in cond[u] - rest))
        invariant forall c, d :: 0 <= d < |cond| && c in producers[d] ==> c < |cond|
        invariant forall c ::
          0 <= c < |cond| ==> remaining[c] == if c < u then |cond[c]| else if c == u then |cond[u]| - |rest| else 0
        decreases |rest|
      {
        var v := Pick(rest);
        rest := rest - {v};
        producers := producers[v := producers[v] + {u}];
        remaining := remaining[u := remaining[u] + 1];
      }
    }
  }

  /** How many dependencies of each component are not done. */
  ghost predicate Owed(cond: seq<set<nat>>, done: set<nat>, remaining: seq<nat>) {
    |remaining| == |cond| && forall c :: 0 <= c < |cond| ==> remaining[c] == |cond[c] - done|
  }

  /** What the queue loop maintains: the first `done` entries are processed, each
      counter says how many dependencies are still missing, and the queue holds
      the components that miss none. */
  ghost predicate Queued(cond: seq<set<nat>>, queue: seq<nat>, done: nat, remaining: seq<nat>) {
    && done <= |queue| && |remaining| == |cond| && Distinct(queue)
    && (forall i :: 0 <= i < |queue| ==> queue[i] < |cond| && cond[queue[i]] <= Elements(queue[..done]))
    && Owed(cond, Elements(queue[..done]), remaining)
    && (forall c: nat :: c < |cond| && remaining[c] == 0 ==> c in queue)
  }

  /** When the queue runs dry every component is in it: the highest one missing
      would depend on nothing that is missing. */
  lemma {:induction false} NothingLeft(cond: seq<set<nat>>, queue: seq<nat>, remaining: seq<nat>, c: nat)
    requires Climbs(cond) && Queued(cond, queue, |queue|, remaining) && c < |cond|
    ensures c in queue
    decreases |cond| - c
  {
    forall d | d in cond[c] ensures d in Elements(queue) {
      NothingLeft(cond, queue, remaining, d);
    }
    assert queue[..|queue|] == queue;
    assert cond[c] - Elements(queue) == {};
  }

  lemma Missing(all: set<nat>, done: set<nat>, id: nat)
    requires id !in done
    ensures |all - (done + {id})| == |all - done| - if id in all then 1 else 0
  {
    assert all - (done + {id}) == (all - done) - {id};
  }

  lemma TakeAppend(queue: seq<nat>, more: seq<nat>, done: nat)
    requires done < |queue|
    ensures (queue + more)[..done + 1] == queue[..done] + [queue[done]]
    ensures Elements((queue + more)[..done + 1]) == Elements(queue[..done]) + {queue[done]}
  {
    ElementsAppend(queue[..done], queue[done]);
  }

  /** Processing one component: its consumers miss one dependency less, and those
      that now miss none join the queue. */
  method Release(cond: seq<set<nat>>, producers: seq<set<nat>>, queue: seq<nat>, done: nat, remaining: seq<nat>)
    returns (queue': seq<nat>, remaining': seq<nat>)
    requires Queued(cond, queue, done, remaining) && done < |queue| && Inverts(cond, producers)
    ensures Queued(cond, queue', done + 1, remaining')
    ensures queue <= queue'
  {
    hide Queued, Owed, Elements;
    ghost var owed := ReleaseCounts(cond, queue, done, remaining);
    var id := queue[done];
    var more: seq<nat> := [];
    remaining' := remaining;
    var rest := producers[id];
    while rest != {}
      invariant rest <= producers[id] && |remaining'| == |cond|
      invariant forall c :: 0 <= c < |cond| ==>
        remaining'[c] == remaining[c] - if id in cond[c] && c !in rest then 1 else 0
      invariant Distinct(more)
      invariant forall k :: 0 <= k < |more| ==>
        more[k] < |cond| && more[k] in producers[id] && more[k] !in rest && remaining'[more[k]] == 0
      invariant forall c: nat :: c < |cond| && c in producers[id] && c !in rest && remaining'[c] == 0 ==> c in more
      decreases |rest|
    {
      var c := Pick(rest);
      rest := rest - {c};
      remaining' := remaining'[c := remaining'[c] - 1];
      if remaining'[c] == 0 {
        more := more + [c];
      }
    }
    queue' := queue + more;
    assert remaining' == owed;
    ReleaseQueued(cond, queue, more, done, remaining, remaining');
  }

  ghost predicate Inverts(cond: seq<set<nat>>, producers: seq<set<nat>>) {
    && |producers| == |cond|
    && (forall c: nat, d: nat :: c < |cond| && d < |cond| ==> (c in producers[d] <==> d in cond[c]))
    && (forall c, d :: 0 <= d < |cond| && c in producers[d] ==> c < |cond|)
  }

  lemma ReleaseCounts(cond: seq<set<nat>>, queue: seq<nat>, done: nat, remaining: seq<nat>) returns (owed: seq<nat>)
    requires Queued(cond, queue, done, remaining) && done < |queue|
    ensures |remaining| == |cond| && |owed| == |cond| && queue[done] < |cond|
    ensures forall c :: 0 <= c < |cond| ==> owed[c] == remaining[c] - if queue[done] in cond[c] then 1 else 0
    ensures Owed(cond, Elements(queue[..done]) + {queue[done]}, owed)
  {
    hide Elements;
    NotYet(queue, done);
    var after := Elements(queue[..done]) + {queue[done]};
    owed := seq(|cond|, c requires 0 <= c < |cond| => |cond[c] - after|);
    forall c | 0 <= c < |cond| ensures owed[c] == remaining[c] - if queue[done] in cond[c] then 1 else 0 {
      Missing(cond[c], Elements(queue[..done]), queue[done]);
    }
  }

  lemma NotYet(queue: seq<nat>, done: nat)
    requires Distinct(queue) && done < |queue|
    ensures queue[done] !in Elements(queue[..done])
  {
  }

  lemma ReleaseQueued(cond: seq<set<nat>>, queue: seq<nat>, more: seq<nat>, done: nat, remaining: seq<nat>,
                      remaining': seq<nat>)
    requires Queued(cond, queue, done, remaining) && done < |queue| && |remaining'| == |cond| && Distinct(more)
    requires Owed(cond, Elements(queue[..done]) + {queue[done]}, remaining')
    requires forall k ::
      0 <= k < |more| ==> more[k] < |cond| && remaining'[more[k]] == 0 && queue[done] in cond[more[k]]
    requires forall c: nat :: c < |cond| && queue[done] in cond[c] && remaining'[c] == 0 ==> c in more
    ensures Queued(cond, queue + more, done + 1, remaining')
  {
    var q, after := queue + more, Elements(queue[..done]) + {queue[done]};
    TakeAppend(queue, more, done);
    NotYet(queue, done);
    forall c | 0 <= c < |cond| && remaining'[c] == 0 ensures cond[c] <= after {
      EmptyDifference(cond[c], after);
    }
    forall i, j | 0 <= i < |queue| && 0 <= j < |more| ensures queue[i] != more[j] {
      assert cond[queue[i]] <= Elements(queue[..done]);
      assert queue[done] in cond[more[j]] && queue[done] !in Elements(queue[..done]);
    }
    forall c: nat | c < |cond| && remaining'[c] == 0 ensures c in q {
      if queue[done] !in cond[c] {
        assert cond[c] - after == cond[c] - Elements(queue[..done]);
        assert remaining[c] == 0;
      }
    }
  }

  lemma EmptyDifference(a: set<nat>, b: set<nat>)
    requires |a - b| == 0
    ensures a <= b
  {
    forall x | x in a ensures x in b {
      assert x !in a - b;
    }
  }

  /** The components without dependencies. */
  method FirstInLine(cond: seq<set<nat>>, remaining: seq<nat>) returns (queue: seq<nat>)
    requires |remaining| == |cond| && forall c :: 0 <= c < |cond| ==> remaining[c] == |cond[c]|
    ensures Queued(cond, queue, 0, remaining)
  {
    queue := [];
    for c := 0 to |cond|
      invariant Distinct(queue)
      invariant forall i :: 0 <= i < |queue| ==> queue[i] < c && cond[queue[i]] == {}
      invariant forall k: nat :: k < c && remaining[k] == 0 ==> k in queue
    {
      if remaining[c] == 0 {
        queue := queue + [c];
      }
    }
    assert Elements(queue[..0]) == {};
    assert forall c :: 0 <= c < |cond| ==> cond[c] - {} == cond[c];
  }

  lemma TopoAppend(cond: seq<set<nat>>, topo: seq<nat>, id: nat)
    requires DependenciesFirst(cond, topo) && id < |cond| && cond[id] <= Elements(topo)
    ensures DependenciesFirst(cond, topo + [id])
  {
    var t := topo + [id];
    forall i | 0 <= i < |t| ensures t[i] < |cond| && cond[t[i]] <= Elements(t[..i]) {
      if i < |topo| {
        assert t[..i] == topo[..i];
      } else {
        assert t[..i] == topo;
      }
    }
  }

  /** Kahn's algorithm visits every component, dependencies first. */
  method TopologicalOrder(cond: seq<set<nat>>) returns (topo: seq<nat>)
    requires Climbs(cond)
    ensures |topo| == |cond| && Distinct(topo) && DependenciesFirst(cond, topo)
    ensures forall c: nat :: c < |cond| ==> c in topo
  {
    hide DependenciesFirst, Climbs, Queued, Elements, Inverts;
    var producers, remaining := Consumers(cond);
    var queue := FirstInLine(cond, remaining);
    topo := [];
    NothingOrdered(cond);
    var qi := 0;
    while qi < |queue|
      invariant qi <= |queue| && Queued(cond, queue, qi, remaining) && topo == queue[..qi]
      invariant DependenciesFirst(cond, topo)
      decreases |cond| - qi
    {
      QueueFits(cond, queue, remaining, qi);
      var id := queue[qi];
      TopoAppend(cond, topo, id);
      queue, remaining := Release(cond, producers, queue, qi, remaining);
      topo := topo + [id];
      qi := qi + 1;
    }
    QueueEnds(cond, queue, qi, remaining);
    assert topo == queue;
    forall c: nat | c < |cond| ensures c in topo {
      NothingLeft(cond, queue, remaining, c);
    }
    Counted(topo, |cond|);
  }

  lemma QueueEnds(cond: seq<set<nat>>, queue: seq<nat>, qi: nat, remaining: seq<nat>)
    requires Queued(cond, queue, qi, remaining) && qi >= |queue|
    ensures qi == |queue| && Distinct(queue) && forall i :: 0 <= i < |queue| ==> queue[i] < |cond|
  {
  }

  lemma NothingOrdered(cond: seq<set<nat>>)
    ensures DependenciesFirst(cond, [])
  {
  }

  lemma QueueFits(cond: seq<set<nat>>, queue: seq<nat>, remaining: seq<nat>, qi: nat)
    requires Queued(cond, queue, qi, remaining) && qi < |queue|
    ensures qi < |cond| && queue[qi] < |cond| && cond[queue[qi]] <= Elements(queue[..qi])
  {
    Fits(queue, |cond|);
  }

  function Head(s: seq<nat>): nat {
    if s == [] then 0 else s[0]
  }

  /** A list of distinct numbers below n has at most n entries... */
  lemma {:induction false} Fits(s: seq<nat>, n: nat)
    requires Distinct(s) && forall i :: 0 <= i < |s| ==> s[i] < n
    ensures |s| <= n
  {
    if n > 0 && n - 1 in s {
      var k :| 0 <= k < |s| && s[k] == n - 1;
      var t := s[..k] + s[k + 1..];
      forall i | 0 <= i < |t| ensures t[i] < n - 1 {
        assert t[i] == if i < k then s[i] else s[i + 1];
      }
      Fits(t, n - 1);
    } else if n > 0 {
      Fits(s, n - 1);
    } else {
      assert s == [] || Head(s) < n;
    }
  }

  /** ...and exactly n if it holds them all. */
  lemma {:induction false} Counted(s: seq<nat>, n: nat)
    requires Distinct(s) && (forall i :: 0 <= i < |s| ==> s[i] < n) && forall c: nat :: c < n ==> c in s
    ensures |s| == n
  {
    Fits(s, n);
    if n > 0 {
      assert n - 1 in s;
      var k :| 0 <= k < |s| && s[k] == n - 1;
      var t := s[..k] + s[k + 1..];
      forall i | 0 <= i < |t| ensures t[i] < n - 1 {
        assert t[i] == if i < k then s[i] else s[i + 1];
      }
      forall c: nat | c < n - 1 ensures c in t {
        assert c in s;
        var i :| 0 <= i < |s| && s[i] == c;
        assert t[if i < k then i else i - 1] == c;
      }
      Counted(t, n - 1);
    }
  }

  // ----- The materialization order -------------------------------------------------------------

  /** No entry of the list has an edge to a later one in another component. */
  ghost predicate Grounded(g: Graph, ordered: seq<nat>) {
    forall p, q :: 0 <= p < q < |ordered| && Edge(g, ordered[p], ordered[q]) ==> Mutual(g, ordered[p], ordered[q])
  }

  /** The list reads the components in the order of `topo`. */
  ghost predicate Follows(scc: seq<nat>, topo: seq<nat>, ordered: seq<nat>) {
    && Distinct(ordered) && Distinct(topo)
    && Within(scc, topo, ordered) && InOrder(scc, topo, ordered)
  }

  ghost predicate Within(scc: seq<nat>, topo: seq<nat>, ordered: seq<nat>) {
    forall p :: 0 <= p < |ordered| ==> ordered[p] < |scc| && scc[ordered[p]] in topo
  }

  ghost predicate InOrder(scc: seq<nat>, topo: seq<nat>, ordered: seq<nat>)
    requires Within(scc, topo, ordered)
  {
    forall p, q, a, b ::
      0 <= p < q < |ordered| && 0 <= a < |topo| && 0 <= b < |topo| ==>
        (scc[ordered[p]] == topo[a] && scc[ordered[q]] == topo[b] ==> a <= b)
  }

  lemma DependencyBefore(cond: seq<set<nat>>, topo: seq<nat>, c: nat, d: nat)
    requires DependenciesFirst(cond, topo) && c in topo && c < |cond| && d in cond[c]
    ensures exists a, b :: 0 <= b < a < |topo| && topo[a] == c && topo[b] == d
  {
    var a :| 0 <= a < |topo| && topo[a] == c;
    assert d in Elements(topo[..a]);
    var b :| 0 <= b < |topo[..a]| && topo[..a][b] == d;
    assert topo[b] == d;
  }

  /** A group of mutually recursive CTEs is not interrupted. */
  ghost predicate Contiguous(g: Graph, ordered: seq<nat>) {
    forall p, q, r :: 0 <= p < q < r < |ordered| && Mutual(g, ordered[p], ordered[r]) ==>
      Mutual(g, ordered[p], ordered[q])
  }

  lemma FollowsContiguous(g: Graph, scc: seq<nat>, count: nat, topo: seq<nat>, ordered: seq<nat>)
    requires Labels(g, Nodes(g), scc, count) && Follows(scc, topo, ordered)
    ensures Contiguous(g, ordered)
  {
    forall p, q, r | 0 <= p < q < r < |ordered| && Mutual(g, ordered[p], ordered[r])
      ensures Mutual(g, ordered[p], ordered[q])
    {
      var u, v, w := ordered[p], ordered[q], ordered[r];
      assert u in Nodes(g) && v in Nodes(g) && w in Nodes(g);
      assert scc[u] == scc[w];
      var a :| 0 <= a < |topo| && topo[a] == scc[u];
      var b :| 0 <= b < |topo| && topo[b] == scc[v];
      assert a <= b <= a;
    }
  }

  lemma FollowsGrounded(g: Graph, scc: seq<nat>, count: nat, cond: seq<set<nat>>, topo: seq<nat>, ordered: seq<nat>)
    requires Labels(g, Nodes(g), scc, count) && Condenses(g, scc, cond) && |cond| == count
    requires DependenciesFirst(cond, topo) && Follows(scc, topo, ordered)
    ensures Grounded(g, ordered)
  {
    forall p, q | 0 <= p < q < |ordered| && Edge(g, ordered[p], ordered[q]) ensures Mutual(g, ordered[p], ordered[q]) {
      var u, v := ordered[p], ordered[q];
      assert u in Nodes(g) && v in Nodes(g);
      var c, d := scc[u], scc[v];
      if c != d {
        DependsBy(g, scc, u, v);
        DependencyBefore(cond, topo, c, d);
      }
    }
  }

  method GroupMembers(scc: seq<nat>, count: nat) returns (members: seq<seq<nat>>)
    requires forall v :: 0 <= v < |scc| ==> scc[v] < count
    ensures |members| == count && forall c :: 0 <= c < count ==> MembersOf(scc, c, members[c])
  {
    members := seq(count, _ => []);
    for d := 0 to |scc|
      invariant |members| == count
      invariant forall c :: 0 <= c < count ==> Distinct(members[c])
      invariant forall c, k :: 0 <= c < count && 0 <= k < |members[c]| ==> members[c][k] < d && scc[members[c][k]] == c
      invariant forall v: nat :: v < d ==> v in members[scc[v]]
    {
      var c := scc[d];
      members := members[c := members[c] + [d]];
    }
  }

  /** Exactly the nodes with the label, each once. */
  ghost predicate MembersOf(scc: seq<nat>, c: nat, nodes: seq<nat>) {
    && Distinct(nodes)
    && (forall k :: 0 <= k < |nodes| ==> nodes[k] < |scc| && scc[nodes[k]] == c)
    && (forall v: nat :: v < |scc| && scc[v] == c ==> v in nodes)
  }

  lemma WithinAppend(scc: seq<nat>, topo: seq<nat>, i: nat, ordered: seq<nat>, nodes: seq<nat>)
    requires i < |topo| && Within(scc, topo[..i], ordered) && MembersOf(scc, topo[i], nodes)
    ensures Within(scc, topo[..i + 1], ordered + nodes) && Within(scc, topo, ordered + nodes)
  {
    var all := ordered + nodes;
    forall p | 0 <= p < |all| ensures all[p] < |scc| && scc[all[p]] in topo[..i + 1] && scc[all[p]] in topo {
      if p < |ordered| {
        var a :| 0 <= a < |topo[..i]| && topo[..i][a] == scc[ordered[p]];
        assert topo[..i + 1][a] == topo[a];
      } else {
        assert all[p] == nodes[p - |ordered|];
        assert topo[..i + 1][i] == topo[i];
      }
    }
  }

  lemma InOrderAppend(scc: seq<nat>, topo: seq<nat>, i: nat, ordered: seq<nat>, nodes: seq<nat>)
    requires Distinct(topo) && i < |topo| && MembersOf(scc, topo[i], nodes)
    requires Within(scc, topo, ordered) && InOrder(scc, topo, ordered)
    requires Within(scc, topo[..i + 1], ordered + nodes) && Within(scc, topo, ordered + nodes)
    ensures InOrder(scc, topo, ordered + nodes)
  {
    var all := ordered + nodes;
    forall p, q, a, b |
      0 <= p < q < |all| && 0 <= a < |topo| && 0 <= b < |topo| && scc[all[p]] == topo[a] && scc[all[q]] == topo[b]
      ensures a <= b
    {
      if q >= |ordered| {
        assert all[q] == nodes[q - |ordered|];
        PositionBelow(topo, i, a, scc[all[p]]);
        PositionIs(topo, i, b);
      } else {
        assert all[p] == ordered[p] && all[q] == ordered[q];
      }
    }
  }

  lemma FollowsAppend(scc: seq<nat>, topo: seq<nat>, i: nat, ordered: seq<nat>, nodes: seq<nat>)
    requires i < |topo| && Follows(scc, topo, ordered) && MembersOf(scc, topo[i], nodes)
    requires Within(scc, topo[..i], ordered)
    ensures Follows(scc, topo, ordered + nodes) && Within(scc, topo[..i + 1], ordered + nodes)
  {
    hide InOrder;
    WithinAppend(scc, topo, i, ordered, nodes);
    InOrderAppend(scc, topo, i, ordered, nodes);
    var all := ordered + nodes;
    forall p, q | 0 <= p < q < |all| ensures all[p] != all[q] {
      AppendApart(scc, topo, i, ordered, nodes, p, q);
    }
  }

  lemma PositionBelow(topo: seq<nat>, i: nat, a: nat, c: nat)
    requires Distinct(topo) && i < |topo| && a < |topo| && topo[a] == c && c in topo[..i + 1]
    ensures a <= i
  {
  }

  lemma PositionIs(topo: seq<nat>, i: nat, b: nat)
    requires Distinct(topo) && i < |topo| && b < |topo| && topo[b] == topo[i]
    ensures b == i
  {
  }

  lemma AppendApart(scc: seq<nat>, topo: seq<nat>, i: nat, ordered: seq<nat>, nodes: seq<nat>, p: nat, q: nat)
    requires Distinct(topo) && i < |topo| && Distinct(ordered) && MembersOf(scc, topo[i], nodes)
    requires forall p :: 0 <= p < |ordered| ==> ordered[p] < |scc| && scc[ordered[p]] in topo[..i]
    requires p < q < |ordered + nodes|
    ensures (ordered + nodes)[p] != (ordered + nodes)[q]
  {
    if p < |ordered| <= q {
      var a :| 0 <= a < |topo[..i]| && topo[..i][a] == scc[ordered[p]];
      assert topo[a] != topo[i];
    }
  }

  /** The members of all components, component by component. */
  method Flatten(scc: seq<nat>, topo: seq<nat>, members: seq<seq<nat>>) returns (ordered: seq<nat>)
    requires Distinct(topo) && forall i :: 0 <= i < |topo| ==> topo[i] < |members|
    requires forall c :: 0 <= c < |members| ==> MembersOf(scc, c, members[c])
    ensures Follows(scc, topo, ordered)
    ensures forall v: nat :: v < |scc| && scc[v] in topo ==> v in ordered
  {
    hide Follows, MembersOf;
    ordered := [];
    assert topo[..0] == [];
    NothingFollows(scc, topo);
    for i := 0 to |topo|
      invariant Follows(scc, topo, ordered)
      invariant Within(scc, topo[..i], ordered)
      invariant forall v: nat :: v < |scc| && scc[v] in topo[..i] ==> v in ordered
    {
      var nodes := members[topo[i]];
      FollowsAppend(scc, topo, i, ordered, nodes);
      MembersIn(scc, topo[i], nodes);
      assert topo[..i + 1] == topo[..i] + [topo[i]];
      ordered := ordered + nodes;
    }
    assert topo[..|topo|] == topo;
  }

  lemma MembersIn(scc: seq<nat>, c: nat, nodes: seq<nat>)
    requires MembersOf(scc, c, nodes)
    ensures forall k :: 0 <= k < |nodes| ==> nodes[k] < |scc|
    ensures forall v: nat :: v < |scc| && scc[v] == c ==> v in nodes
  {
  }

  lemma NothingFollows(scc: seq<nat>, topo: seq<nat>)
    requires Distinct(topo)
    ensures Follows(scc, topo, [])
  {
  }

  lemma LabelsBelow(g: Graph, scc: seq<nat>, count: nat)
    requires Labels(g, Nodes(g), scc, count)
    ensures |scc| == |g| && forall v :: 0 <= v < |g| ==> scc[v] < count
  {
    forall v: nat | v < |g| ensures scc[v] < count {
      assert v in Nodes(g);
    }
  }

  /** Every recursive CTE once, each after the components it refers to, and each
      component in one piece. */
  method MaterializationOrder(ctes: seq<Cte>) returns (indexes: seq<nat>, ghost g: Graph, ordered: seq<nat>)
    ensures |ordered| == |indexes| == |g| && Distinct(ordered)
    ensures forall d: nat :: d < |indexes| ==> d in ordered && indexes[d] < |ctes| && ctes[indexes[d]].recursive
    ensures forall i: nat :: i < |ctes| && ctes[i].recursive ==> i in indexes
    ensures forall d: nat, e: nat ::
      d < |g| && e < |g| ==> (Edge(g, d, e) <==> RefersTo(ctes[indexes[d]], ctes[indexes[e]]))
    ensures Grounded(g, ordered) && Contiguous(g, ordered)
  {
    hide Labels, Condenses, DependenciesFirst, Follows, Climbs, MembersOf, RefersTo, Grounded, Contiguous;
    indexes := RecursiveCtes(ctes);
    var adj := BuildRefGraph(ctes, indexes);
    g := adj;
    var comps := new Components(adj);
    comps.StronglyConnected();
    var scc, count := comps.scc, comps.sccCount;
    LabelsBelow(adj, scc, count);
    var members := GroupMembers(scc, count);
    var cond := Condense(adj, scc, count);
    CondenseClimbs(adj, scc, count, cond);
    var topo := TopologicalOrder(cond);
    assert forall i :: 0 <= i < |topo| ==> topo[i] < |cond| by { TopoBelow(cond, topo); }
    ordered := Flatten(scc, topo, members);
    FollowsGrounded(adj, scc, count, cond, topo, ordered);
    FollowsContiguous(adj, scc, count, topo, ordered);
    FollowsDistinct(scc, topo, ordered);
    Counted(ordered, |scc|);
  }

  lemma TopoBelow(cond: seq<set<nat>>, topo: seq<nat>)
    requires DependenciesFirst(cond, topo)
    ensures forall i :: 0 <= i < |topo| ==> topo[i] < |cond|
  {
  }

  lemma FollowsDistinct(scc: seq<nat>, topo: seq<nat>, ordered: seq<nat>)
    requires Follows(scc, topo, ordered)
    ensures Distinct(ordered) && forall i :: 0 <= i < |ordered| ==> ordered[i] < |scc|
  {
  }

  // ----- The cycle check -----------------------------------------------------------------------

  class CycleCheck {
    const cond: seq<set<nat>>
    var visiting: set<nat>
    var visited: set<nat>

    constructor (cond: seq<set<nat>>)
      ensures this.cond == cond && visiting == {} && visited == {}
    {
      this.cond := cond;
      visiting, visited := {}, {};
    }

    /** Labels climb, so the components being visited lie below the one entered. */
    method Visit(u: nat) returns (cycle: bool)
      requires Climbs(cond) && u < |cond| && forall v :: v in visiting ==> v < u
      modifies this
      ensures !cycle && visiting == old(visiting)
      decreases |cond| - u
    {
      if u in visiting {
        return true;
      }
      if u in visited {
        return false;
      }
      visiting := visiting + {u};
      var rest := cond[u];
      while rest != {}
        invariant rest <= cond[u] && visiting == old(visiting) + {u}
        decreases |rest|
      {
        var v := Pick(rest);
        rest := rest - {v};
        var found := Visit(v);
        if found {
          return true;
        }
      }
      visiting := visiting - {u};
      visited := visited + {u};
      return false;
    }
  }

  /** The condensation has no cycle, so the dependency-cycle error cannot occur. */
  method HasDependencyCycle(ctes: seq<Cte>) returns (cycle: bool)
    ensures !cycle
  {
    hide Labels, Climbs;
    var indexes := RecursiveCtes(ctes);
    var adj := BuildRefGraph(ctes, indexes);
    var comps := new Components(adj);
    comps.StronglyConnected();
    LabelsBelow(adj, comps.scc, comps.sccCount);
    var cond := Condense(adj, comps.scc, comps.sccCount);
    CondenseClimbs(adj, comps.scc, comps.sccCount, cond);
    var check := new CycleCheck(cond);
    for id := 0 to |cond|
      invariant check.visiting == {} && check.cond == cond
    {
      cycle := check.Visit(id);
      if cycle {
        return;
      }
    }
    return false;
  }
}
