/** Reachability in directed graphs given by adjacency lists. */
module Graphs {

  /** Node u has an edge to each node in adj[u]. */
  type Graph = seq<seq<nat>>

  ghost predicate WellFormed(g: Graph) {
    forall u, k :: 0 <= u < |g| && 0 <= k < |g[u]| ==> g[u][k] < |g|
  }

  predicate Edge(g: Graph, u: nat, v: nat) {
    u < |g| && v in g[u]
  }

  ghost predicate IsPath(g: Graph, p: seq<nat>) {
    && p != []
    && (forall i :: 0 <= i < |p| ==> p[i] < |g|)
    && forall i :: 0 <= i < |p| - 1 ==> Edge(g, p[i], p[i + 1])
  }

  ghost predicate Connects(g: Graph, p: seq<nat>, u: nat, v: nat) {
    IsPath(g, p) && p[0] == u && p[|p| - 1] == v
  }

  ghost predicate Reach(g: Graph, u: nat, v: nat) {
    exists p :: Connects(g, p, u, v)
  }

  /** Each reaches the other. */
  ghost predicate Mutual(g: Graph, u: nat, v: nat) {
    Reach(g, u, v) && Reach(g, v, u)
  }

  lemma ReachSelf(g: Graph, u: nat)
    requires u < |g|
    ensures Reach(g, u, u)
  {
    assert Connects(g, [u], u, u);
  }

  lemma ReachEdge(g: Graph, u: nat, v: nat)
    requires WellFormed(g) && Edge(g, u, v)
    ensures v < |g| && Reach(g, u, v)
  {
    var k :| 0 <= k < |g[u]| && g[u][k] == v;
    assert Connects(g, [u, v], u, v);
  }

  lemma ReachTrans(g: Graph, u: nat, v: nat, w: nat)
    requires Reach(g, u, v) && Reach(g, v, w)
    ensures Reach(g, u, w)
  {
    var p :| Connects(g, p, u, v);
    var q :| Connects(g, q, v, w);
    var r := p + q[1..];
    forall i | 0 <= i < |r| - 1 ensures Edge(g, r[i], r[i + 1]) {
      if i >= |p| - 1 {
        assert r[i] == q[i - |p| + 1] && r[i + 1] == q[i - |p| + 2];
      }
    }
    assert Connects(g, r, u, w);
  }

  lemma MutualSymmetric(g: Graph, u: nat, v: nat)
    requires Mutual(g, u, v)
    ensures Mutual(g, v, u)
  {
  }

  lemma MutualTrans(g: Graph, u: nat, v: nat, w: nat)
    requires Mutual(g, u, v) && Mutual(g, v, w)
    ensures Mutual(g, u, w)
  {
    ReachTrans(g, u, v, w);
    ReachTrans(g, w, v, u);
  }

  /** Where a path that starts inside a set first leaves it. */
  lemma {:induction false} FirstExit(g: Graph, inside: set<nat>, p: seq<nat>) returns (i: nat)
    requires IsPath(g, p) && p[0] in inside && p[|p| - 1] !in inside
    ensures i + 1 < |p| && p[i] in inside && p[i + 1] !in inside
  {
    i := 0;
    while p[i + 1] in inside
      invariant i + 1 < |p| && p[i] in inside
      decreases |p| - i
    {
      i := i + 1;
    }
  }

  lemma PathPrefix(g: Graph, p: seq<nat>, i: nat)
    requires IsPath(g, p) && i < |p|
    ensures Reach(g, p[0], p[i]) && Reach(g, p[i], p[|p| - 1])
  {
    assert Connects(g, p[..i + 1], p[0], p[i]);
    assert Connects(g, p[i..], p[i], p[|p| - 1]);
  }

  /** A set that no edge leaves holds everything its members reach. */
  lemma Leaving(g: Graph, inside: set<nat>, u: nat, x: nat) returns (a: nat, b: nat)
    requires Reach(g, u, x) && u in inside && x !in inside
    ensures Edge(g, a, b) && a in inside && b !in inside && b < |g|
    ensures Reach(g, u, a) && Reach(g, u, b) && Reach(g, b, x)
  {
    var p :| Connects(g, p, u, x);
    var i := FirstExit(g, inside, p);
    a, b := p[i], p[i + 1];
    PathPrefix(g, p, i);
    PathPrefix(g, p, i + 1);
  }
}
