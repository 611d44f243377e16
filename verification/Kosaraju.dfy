/** Strongly connected components by two depth-first passes. */
module Kosaraju {
  import opened Graphs

  // ----- The first pass ---------------------------------------------------------------

  /** What the first pass knows about the nodes it has finished (in finishing
      order) and seen; the nodes seen but not finished are the open ones. */
  datatype Pass = Pass(seen: set<nat>, order: seq<nat>)

  ghost function Done(s: Pass): set<nat> {
    set i | 0 <= i < |s.order| :: s.order[i]
  }

  ghost function Open(s: Pass): set<nat> {
    s.seen - Done(s)
  }

  /** Each finished node appears once, and leads only to seen nodes. */
  ghost predicate Finished(g: Graph, s: Pass) {
    && (forall i, j :: 0 <= i < j < |s.order| ==> s.order[i] != s.order[j])
    && (forall v :: v in s.seen ==> v < |g|)
    && Done(s) <= s.seen
    && (forall v, w :: v in Done(s) && Edge(g, v, w) ==> w in s.seen)
  }

  /** A finished node that reaches an unfinished one is in a component with an
      open node. */
  ghost predicate Anchored(g: Graph, s: Pass) {
    forall w, x {:trigger Reach(g, w, x)} :: w in Done(s) && x !in Done(s) && Reach(g, w, x) ==>
      exists z :: z in Open(s) && Mutual(g, z, w)
  }

  /** z is open or finished at position j or later. */
  ghost predicate Late(s: Pass, z: nat, j: nat) {
    z in Open(s) || exists k :: j <= k < |s.order| && s.order[k] == z
  }

  /** If w reaches the node finished at position j, some node of w's component is
      not finished earlier. */
  ghost predicate Ranked(g: Graph, s: Pass) {
    forall w, j {:trigger Reach(g, w, s.order[j])} :: w in Done(s) && 0 <= j < |s.order| && Reach(g, w, s.order[j]) ==>
      exists z :: Mutual(g, z, w) && Late(s, z, j)
  }

  ghost predicate PassOk(g: Graph, s: Pass) {
    WellFormed(g) && Finished(g, s) && Anchored(g, s) && Ranked(g, s)
  }

  /** Every open node reaches u. */
  ghost predicate Stacked(g: Graph, s: Pass, u: nat) {
    forall z :: z in Open(s) ==> Reach(g, z, u)
  }

  function Enter(s: Pass, u: nat): Pass {
    s.(seen := s.seen + {u})
  }

  function Leave(s: Pass, u: nat): Pass {
    s.(order := s.order + [u])
  }

  lemma DoneLeave(s: Pass, u: nat)
    ensures Done(Leave(s, u)) == Done(s) + {u}
  {
    var t := Leave(s, u);
    assert t.order[|s.order|] == u;
    forall v | v in Done(s) ensures v in Done(t) {
      var i :| 0 <= i < |s.order| && s.order[i] == v;
      assert t.order[i] == v;
    }
  }

  lemma EnterKeeps(g: Graph, s: Pass, u: nat)
    requires PassOk(g, s) && u < |g| && u !in s.seen && Stacked(g, s, u)
    ensures PassOk(g, Enter(s, u)) && Stacked(g, Enter(s, u), u)
    ensures Open(Enter(s, u)) == Open(s) + {u}
  {
    var t := Enter(s, u);
    assert Done(t) == Done(s);
    assert Open(t) == Open(s) + {u};
    ReachSelf(g, u);
    forall w, x | w in Done(t) && x !in Done(t) && Reach(g, w, x) ensures exists z :: z in Open(t) && Mutual(g, z, w) {
      var z :| z in Open(s) && Mutual(g, z, w);
      assert z in Open(t);
    }
    forall w, j | w in Done(t) && 0 <= j < |t.order| && Reach(g, w, t.order[j])
      ensures exists z :: Mutual(g, z, w) && Late(t, z, j)
    {
      assert Reach(g, w, s.order[j]);
      var z :| Mutual(g, z, w) && Late(s, z, j);
      assert Late(t, z, j);
    }
  }

  /** If u can still reach an unfinished node when it finishes, it is in a
      component with an older open node. */
  lemma LeaveEscapes(g: Graph, s: Pass, u: nat, x: nat) returns (y: nat)
    requires PassOk(g, s) && u in Open(s) && Stacked(g, s, u)
    requires forall v :: Edge(g, u, v) ==> v in s.seen
    requires Reach(g, u, x) && x !in Done(s) && x != u
    ensures y in Open(s) && y != u && Mutual(g, y, u)
  {
    var a, b := Leaving(g, Done(s) + {u}, u, x);
    y := b;
  }

  lemma LeaveAnchored(g: Graph, s: Pass, u: nat)
    requires PassOk(g, s) && u in Open(s) && Stacked(g, s, u)
    requires forall v :: Edge(g, u, v) ==> v in s.seen
    ensures Anchored(g, Leave(s, u))
  {
    var t := Leave(s, u);
    DoneLeave(s, u);
    assert Open(t) == Open(s) - {u};
    forall w, x | w in Done(t) && x !in Done(t) && Reach(g, w, x) ensures exists z :: z in Open(t) && Mutual(g, z, w) {
      if w == u {
        var y := LeaveEscapes(g, s, u, x);
        assert y in Open(t);
      } else {
        var z :| z in Open(s) && Mutual(g, z, w);
        if z == u {
          ReachTrans(g, u, w, x);
          var y := LeaveEscapes(g, s, u, x);
          MutualTrans(g, y, u, w);
          assert y in Open(t);
        } else {
          assert z in Open(t);
        }
      }
    }
  }

  lemma LateLeave(s: Pass, u: nat, z: nat, j: nat)
    requires Late(s, z, j) && u in Open(s) && j <= |s.order|
    ensures Late(Leave(s, u), z, j)
  {
    var t := Leave(s, u);
    DoneLeave(s, u);
    if z in Open(s) {
      if z == u {
        assert t.order[|s.order|] == z;
      }
    } else {
      var k :| j <= k < |s.order| && s.order[k] == z;
      assert t.order[k] == z;
    }
  }

  lemma LeaveRanked(g: Graph, s: Pass, u: nat)
    requires PassOk(g, s) && u in Open(s) && Stacked(g, s, u)
    ensures Ranked(g, Leave(s, u))
  {
    var t := Leave(s, u);
    DoneLeave(s, u);
    var n := |s.order|;
    assert t.order[n] == u && u < |g|;
    ReachSelf(g, u);
    forall w, j | w in Done(t) && 0 <= j < |t.order| && Reach(g, w, t.order[j])
      ensures exists z :: Mutual(g, z, w) && Late(t, z, j)
    {
      if w == u {
        assert Late(t, u, j);
      } else if j == n {
        var z :| z in Open(s) && Mutual(g, z, w);
        assert Late(s, z, n);
        LateLeave(s, u, z, n);
      } else {
        assert t.order[j] == s.order[j];
        assert Reach(g, w, s.order[j]);
        var z :| Mutual(g, z, w) && Late(s, z, j);
        LateLeave(s, u, z, j);
      }
    }
  }

  lemma LeaveKeeps(g: Graph, s: Pass, u: nat)
    requires PassOk(g, s) && u in Open(s) && Stacked(g, s, u)
    requires forall v :: Edge(g, u, v) ==> v in s.seen
    ensures PassOk(g, Leave(s, u)) && Open(Leave(s, u)) == Open(s) - {u}
  {
    LeaveAnchored(g, s, u);
    LeaveRanked(g, s, u);
    DoneLeave(s, u);
    assert u !in Done(s);
  }

  // ----- The second pass -----------------------------------------------------------------

  ghost function Marked(seen: seq<bool>): set<nat> {
    set u: nat | u < |seen| && seen[u]
  }

  predicate IsNode(g: Graph, u: nat) {
    u < |g|
  }

  ghost function Nodes(g: Graph): set<nat> {
    set u: nat | u < |g| && IsNode(g, u)
  }

  ghost predicate InUse(done: set<nat>, scc: seq<nat>, c: nat) {
    exists v :: v in done && v < |scc| && scc[v] == c
  }

  /** r has the edges of g turned round. */
  ghost predicate Reversed(g: Graph, r: Graph) {
    |r| == |g| && WellFormed(r) && forall u: nat, v: nat :: u < |g| && v < |g| ==> (Edge(r, v, u) <==> Edge(g, u, v))
  }

  /** What a search against the edges from x adds to the nodes seen before it. */
  ghost predicate Backwards(g: Graph, before: set<nat>, after: set<nat>, x: nat) {
    && before <= after && x in after
    && (forall v :: v in after - before ==> v < |g| && Reach(g, v, x))
    && (forall v, w :: v in after - before && Edge(g, w, v) ==> w in after)
  }

  /** Whole components. */
  ghost predicate Whole(g: Graph, done: set<nat>) {
    forall v, w :: v in done && Mutual(g, v, w) ==> w in done
  }

  /** Labels so far: whole components with everything that leads to them, equal
      labels exactly inside a component, and labels grow along edges. */
  ghost predicate Labels(g: Graph, done: set<nat>, scc: seq<nat>, count: nat) {
    && |scc| == |g|
    && (forall v :: v in done ==> v < |g| && scc[v] < count)
    && Whole(g, done)
    && (forall v, w :: v in done && Edge(g, w, v) ==> w in done)
    && (forall v, w :: v in done && w in done ==> (scc[v] == scc[w] <==> Mutual(g, v, w)))
    && (forall c: nat :: c < count ==> InUse(done, scc, c))
    && (forall v, w :: v in done && w in done && Edge(g, v, w) ==> scc[v] <= scc[w])
  }

  /** Nothing outside the component of x is found... */
  lemma FindsOnly(g: Graph, s: Pass, i: nat, done: set<nat>, w: nat)
    requires PassOk(g, s) && Open(s) == {} && w in Done(s) && i < |s.order|
    requires forall k :: i < k < |s.order| ==> s.order[k] in done
    requires Whole(g, done)
    requires w !in done && Reach(g, w, s.order[i])
    ensures Mutual(g, w, s.order[i])
  {
    hide Finished, Anchored, Mutual, Reach;
    assert Reach(g, w, s.order[i]);
    var z :| Mutual(g, z, w) && Late(s, z, i);
    var k :| i <= k < |s.order| && s.order[k] == z;
    MutualSymmetric(g, z, w);
    assert k == i;
  }

  /** ...and everything in it is. */
  lemma FindsAll(g: Graph, done: set<nat>, after: set<nat>, x: nat, w: nat)
    requires WellFormed(g) && w < |g| && x < |g| && x !in done && Backwards(g, done, after, x)
    requires Whole(g, done)
    requires Mutual(g, w, x)
    ensures w in after - done
  {
    var added := after - done;
    if w !in added {
      var a, b := Leaving(g, Nodes(g) - added, w, x);
      ReachEdge(g, a, b);
      ReachTrans(g, a, b, x);
      ReachTrans(g, a, x, w);
      assert b in added && a in after;
      assert a in done && Mutual(g, a, w);
    }
  }

  /** Searching backwards from the latest unlabelled node finds its component. */
  lemma FindsComponent(g: Graph, s: Pass, i: nat, done: set<nat>, after: set<nat>, w: nat)
    requires PassOk(g, s) && Open(s) == {} && Done(s) == Nodes(g) && i < |s.order|
    requires forall k :: i < k < |s.order| ==> s.order[k] in done
    requires Whole(g, done)
    requires s.order[i] !in done && Backwards(g, done, after, s.order[i]) && w < |g|
    ensures w in after - done <==> Mutual(g, w, s.order[i])
  {
    hide Finished, Anchored, Ranked, Open, Mutual, Reach;
    assert s.order[i] in Done(s);
    assert w in Nodes(g);
    if w in after - done {
      FindsOnly(g, s, i, done, w);
    } else if Mutual(g, w, s.order[i]) {
      FindsAll(g, done, after, s.order[i], w);
    }
  }

  lemma LabelStep(g: Graph, done: set<nat>, after: set<nat>, scc: seq<nat>, scc': seq<nat>, count: nat, x: nat)
    requires WellFormed(g) && Labels(g, done, scc, count) && done <= after && x in after - done && x < |g|
    requires forall w: nat :: w < |g| ==> (w in after - done <==> Mutual(g, w, x))
    requires forall v :: v in after ==> v < |g|
    requires forall v, w :: v in after - done && Edge(g, w, v) ==> w in after
    requires |scc'| == |scc| && forall v :: 0 <= v < |g| ==> scc'[v] == if v in after - done then count else scc[v]
    ensures Labels(g, after, scc', count + 1)
  {
    var added := after - done;
    forall v, w | v in after && Mutual(g, v, w) ensures w in after {
      if v in added {
        assert Mutual(g, w, v) && Mutual(g, v, x);
        MutualTrans(g, w, v, x);
        ReachInside(g, v, w);
      }
    }
    forall v, w | v in after && w in after ensures scc'[v] == scc'[w] <==> Mutual(g, v, w) {
      if v in added && w in added {
        assert Mutual(g, x, w);
        MutualTrans(g, v, x, w);
      } else if Mutual(g, v, w) {
        assert Mutual(g, w, v);
        assert v in done <==> w in done;
      }
    }
    forall c: nat | c < count + 1 ensures InUse(after, scc', c) {
      if c == count {
        assert scc'[x] == c;
      } else {
        assert InUse(done, scc, c);
        var v :| v in done && v < |scc| && scc[v] == c;
        assert v in after && scc'[v] == c;
      }
    }
    forall v, w | v in after && w in after && Edge(g, v, w) ensures scc'[v] <= scc'[w] {
      if w in done {
        assert v in done;
      }
    }
  }

  lemma ReachInside(g: Graph, u: nat, v: nat)
    requires Reach(g, u, v)
    ensures u < |g| && v < |g|
  {
    var p :| Connects(g, p, u, v);
  }

  // ----- The algorithm ----------------------------------------------------------------------

  class Components {
    const g: Graph
    var radj: Graph
    var seen: seq<bool>
    var order: seq<nat>
    var scc: seq<nat>
    var sccCount: nat

    ghost function View(): Pass
      reads this
    {
      Pass(Marked(seen), order)
    }

    constructor (g: Graph)
      ensures this.g == g && |seen| == |g| && |scc| == |g| && order == [] && sccCount == 0
      ensures forall u :: 0 <= u < |g| ==> !seen[u]
    {
      this.g := g;
      radj := [];
      seen := seq(|g|, _ => false);
      order := [];
      scc := seq(|g|, _ => 0);
      sccCount := 0;
    }

    method Dfs1(u: nat)
      requires |seen| == |g| && u < |g| && !seen[u]
      requires PassOk(g, View()) && Stacked(g, View(), u)
      modifies this`seen, this`order
      ensures |seen| == |g| && Marked(old(seen)) <= Marked(seen) && u in Marked(seen)
      ensures PassOk(g, View()) && Open(View()) == Open(old(View()))
      decreases Nodes(g) - Marked(seen)
    {
      hide PassOk, Done;
      ghost var s := View();
      EnterKeeps(g, s, u);
      seen := seen[u := true];
      assert View() == Enter(s, u);
      ghost var open := Open(View());
      for k := 0 to |g[u]|
        invariant |seen| == |g| && Marked(old(seen)) + {u} <= Marked(seen)
        invariant PassOk(g, View()) && Open(View()) == open
        invariant forall j :: 0 <= j < k ==> g[u][j] in Marked(seen)
      {
        var v := g[u][k];
        EdgeInside(g, View(), u, k);
        if !seen[v] {
          forall z | z in Open(View()) ensures Reach(g, z, v) {
            ReachEdge(g, u, v);
            ReachTrans(g, z, u, v);
          }
          Dfs1(v);
        }
      }
      assert forall v :: Edge(g, u, v) ==> v in Marked(seen);
      LeaveKeeps(g, View(), u);
      order := order + [u];
    }

    /** Finishing order of all nodes. */
    method FirstPass()
      requires WellFormed(g) && |seen| == |g| && order == [] && forall u :: 0 <= u < |g| ==> !seen[u]
      modifies this`seen, this`order
      ensures PassOk(g, View()) && Open(View()) == {} && Done(View()) == Nodes(g)
    {
      hide PassOk;
      NothingSeen(g);
      assert View() == Pass({}, []);
      for u := 0 to |g|
        invariant |seen| == |g| && PassOk(g, View()) && Open(View()) == {}
        invariant forall v: nat :: v < u ==> v in Marked(seen)
      {
        if !seen[u] {
          Dfs1(u);
        }
      }
      assert Marked(seen) == Nodes(g);
      AllDone(g, View());
    }

    method ReverseEdges()
      requires WellFormed(g)
      modifies this`radj
      ensures Reversed(g, radj)
    {
      radj := seq(|g|, _ => []);
      for u := 0 to |g|
        invariant |radj| == |g| && WellFormed(radj)
        invariant forall w: nat, v: nat :: w < |g| && v < |g| ==> (w in radj[v] <==> w < u && v in g[w])
      {
        for k := 0 to |g[u]|
          invariant |radj| == |g| && WellFormed(radj)
          invariant forall w: nat, v: nat :: w < |g| && v < |g| ==>
            (w in radj[v] <==> (w < u && v in g[w]) || (w == u && v in g[u][..k]))
        {
          var v := g[u][k];
          assert g[u][..k + 1] == g[u][..k] + [v];
          radj := radj[v := radj[v] + [u]];
        }
        assert g[u][..|g[u]|] == g[u];
      }
    }

    method Dfs2(u: nat, id: nat)
      requires |seen| == |g| && |scc| == |g| && u < |g| && !seen[u]
      requires WellFormed(g) && Reversed(g, radj)
      modifies this`seen, this`scc
      ensures |seen| == |g| && |scc| == |g| && Backwards(g, Marked(old(seen)), Marked(seen), u)
      ensures forall v :: 0 <= v < |g| ==>
        scc[v] == if v in Marked(seen) - Marked(old(seen)) then id else old(scc)[v]
      decreases Nodes(g) - Marked(seen)
    {
      ghost var before := Marked(seen);
      ReachSelf(g, u);
      seen := seen[u := true];
      scc := scc[u := id];
      assert Marked(seen) == before + {u};
      for k := 0 to |radj[u]|
        invariant |seen| == |g| && |scc| == |g| && before + {u} <= Marked(seen)
        invariant forall v :: v in Marked(seen) - before ==> Reach(g, v, u)
        invariant forall v, w :: v in Marked(seen) - before - {u} && Edge(g, w, v) ==> w in Marked(seen)
        invariant forall j :: 0 <= j < k ==> radj[u][j] in Marked(seen)
        invariant forall v :: 0 <= v < |g| ==> scc[v] == if v in Marked(seen) - before then id else old(scc)[v]
      {
        var v := radj[u][k];
        if !seen[v] {
          assert Edge(radj, u, v) && v < |g|;
          ReachEdge(g, v, u);
          ghost var mid := Marked(seen);
          Dfs2(v, id);
          forall w | w in Marked(seen) - mid ensures Reach(g, w, u) {
            ReachTrans(g, w, v, u);
          }
        }
      }
      forall w | Edge(g, w, u) ensures w in Marked(seen) {
        assert Edge(radj, u, w);
      }
    }

    /** Two nodes get the same id exactly when each reaches the other; the ids are
        0 to count - 1, and they never fall along an edge. */
    method StronglyConnected()
      requires WellFormed(g) && |seen| == |g| && |scc| == |g| && order == [] && sccCount == 0
      requires forall u :: 0 <= u < |g| ==> !seen[u]
      modifies this
      ensures Labels(g, Nodes(g), scc, sccCount)
    {
      hide Labels, PassOk, Mutual, Backwards, Open;
      FirstPass();
      ghost var s := View();
      ReverseEdges();
      ghost var turned := radj;
      seen := seq(|g|, _ => false);
      var i := |order|;
      NoLabels(g, scc);
      assert Marked(seen) == {};
      while i > 0
        invariant 0 <= i <= |order| && |seen| == |g| && |scc| == |g| && order == s.order && radj == turned
        invariant Labels(g, Marked(seen), scc, sccCount)
        invariant forall k :: i <= k < |order| ==> order[k] in Marked(seen)
      {
        i := i - 1;
        var x := order[i];
        assert x in Done(s) && x in Nodes(g);
        if !seen[x] {
          ghost var before, labels := Marked(seen), scc;
          Dfs2(x, sccCount);
          LabelsWhole(g, before, labels, sccCount);
          BackwardsInside(g, before, Marked(seen), x);
          forall w: nat | w < |g| ensures w in Marked(seen) - before <==> Mutual(g, w, x) {
            FindsComponent(g, s, i, before, Marked(seen), w);
          }
          LabelStep(g, before, Marked(seen), labels, scc, sccCount, x);
          sccCount := sccCount + 1;
        }
      }
      assert Marked(seen) == Nodes(g) by {
        forall v | v in Nodes(g) ensures v in Marked(seen) {
          assert v in Done(s);
        }
      }
    }
  }

  lemma LabelsWhole(g: Graph, done: set<nat>, scc: seq<nat>, count: nat)
    requires Labels(g, done, scc, count)
    ensures Whole(g, done) && |scc| == |g|
  {
  }

  lemma BackwardsInside(g: Graph, before: set<nat>, after: set<nat>, x: nat)
    requires Backwards(g, before, after, x)
    ensures before <= after && x in after
    ensures forall v, w :: v in after - before && Edge(g, w, v) ==> w in after
  {
  }

  lemma NoLabels(g: Graph, scc: seq<nat>)
    requires |scc| == |g|
    ensures Labels(g, {}, scc, 0)
  {
  }

  lemma NothingSeen(g: Graph)
    requires WellFormed(g)
    ensures PassOk(g, Pass({}, [])) && Open(Pass({}, [])) == {}
  {
  }

  lemma AllDone(g: Graph, s: Pass)
    requires PassOk(g, s) && Open(s) == {} && s.seen == Nodes(g)
    ensures Done(s) == Nodes(g)
  {
    forall v | v in s.seen ensures v in Done(s) {
      assert v !in Open(s);
    }
  }

  lemma EdgeInside(g: Graph, s: Pass, u: nat, k: nat)
    requires PassOk(g, s) && u < |g| && k < |g[u]|
    ensures g[u][k] < |g| && Edge(g, u, g[u][k]) && WellFormed(g)
  {
  }
}
