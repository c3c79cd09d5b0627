/** Undirected simple graphs over integer node identifiers, with walks and reachability. */
module Graphs {

  /** An undirected graph. Each edge {i, j} is stored once, as the pair (i, j) with i < j. */
  datatype Graph = Graph(nodes: set<int>, edges: set<(int, int)>)

  /** Every edge is normalised (so there are no self-loops) and joins two nodes of the graph. */
  ghost predicate Valid(g: Graph) {
    forall e :: e in g.edges ==> e.0 < e.1 && e.0 in g.nodes && e.1 in g.nodes
  }

  predicate Adjacent(g: Graph, u: int, v: int) {
    (u, v) in g.edges || (v, u) in g.edges
  }

  /** The subgraph induced by a set of nodes (networkx `Graph.subgraph`). */
  function Induced(g: Graph, c: set<int>): (h: Graph)
    ensures h.nodes == g.nodes * c
    ensures forall e :: e in h.edges <==> e in g.edges && e.0 in c && e.1 in c
  {
    Graph(g.nodes * c, set e | e in g.edges && e.0 in c && e.1 in c)
  }

  lemma InducedValid(g: Graph, c: set<int>)
    requires Valid(g)
    ensures Valid(Induced(g, c))
  {
  }

  /** A non-empty sequence of nodes of `g`, each adjacent to the next. */
  ghost predicate IsWalk(g: Graph, p: seq<int>) {
    |p| > 0 &&
    (forall i :: 0 <= i < |p| ==> p[i] in g.nodes) &&
    (forall i :: 0 <= i < |p| - 1 ==> Adjacent(g, p[i], p[i + 1]))
  }

  ghost predicate Reachable(g: Graph, u: int, v: int) {
    exists p :: IsWalk(g, p) && p[0] == u && p[|p| - 1] == v
  }

  /** Every node reaches every other node (vacuously true of the empty graph). */
  ghost predicate Connected(g: Graph) {
    forall u, v :: u in g.nodes && v in g.nodes ==> Reachable(g, u, v)
  }

  /** No edge leaves `c` towards another node of the graph. */
  ghost predicate Closed(g: Graph, c: set<int>) {
    forall u, v :: u in c && v in g.nodes && Adjacent(g, u, v) ==> v in c
  }

  lemma NonEmpty(s: set<int>)
    requires s != {}
    ensures exists x :: x in s
  {
    assert (forall x :: x !in s) ==> s == {};
  }

  lemma MissingNode(s: set<int>, t: set<int>)
    requires t <= s && s != t
    ensures exists x :: x in s && x !in t
  {
    assert (forall x :: x in s ==> x in t) ==> s == t;
  }

  lemma ReachableRefl(g: Graph, u: int)
    requires u in g.nodes
    ensures Reachable(g, u, u)
  {
    assert IsWalk(g, [u]);
  }

  lemma ReachableStep(g: Graph, u: int, v: int, w: int)
    requires Reachable(g, u, v) && w in g.nodes && Adjacent(g, v, w)
    ensures Reachable(g, u, w)
  {
    var p :| IsWalk(g, p) && p[0] == u && p[|p| - 1] == v;
    var q := p + [w];
    assert IsWalk(g, q);
  }

  lemma ReachableSym(g: Graph, u: int, v: int)
    requires Reachable(g, u, v)
    ensures Reachable(g, v, u)
  {
    var p :| IsWalk(g, p) && p[0] == u && p[|p| - 1] == v;
    var q := seq(|p|, i requires 0 <= i < |p| => p[|p| - 1 - i]);
    forall i | 0 <= i < |q| - 1
      ensures Adjacent(g, q[i], q[i + 1])
    {
      assert Adjacent(g, p[|p| - 2 - i], p[|p| - 1 - i]);
    }
    assert IsWalk(g, q);
  }

  lemma ReachableTrans(g: Graph, u: int, v: int, w: int)
    requires Reachable(g, u, v) && Reachable(g, v, w)
    ensures Reachable(g, u, w)
  {
    var p :| IsWalk(g, p) && p[0] == u && p[|p| - 1] == v;
    var q :| IsWalk(g, q) && q[0] == v && q[|q| - 1] == w;
    var r := p + q[1..];
    forall i | 0 <= i < |r| - 1
      ensures Adjacent(g, r[i], r[i + 1])
    {
      if i < |p| - 1 {
      } else {
        assert r[i] == q[i - |p| + 1] && r[i + 1] == q[i - |p| + 2];
      }
    }
    assert IsWalk(g, r);
  }

  /** A walk that starts inside a closed set never leaves it. */
  lemma {:induction false} WalkStaysInClosed(g: Graph, c: set<int>, p: seq<int>)
    requires Closed(g, c) && IsWalk(g, p) && p[0] in c
    ensures forall i :: 0 <= i < |p| ==> p[i] in c
  {
    if |p| > 1 {
      assert p[1] in c;
      var q := p[1..];
      assert IsWalk(g, q) by {
        forall i | 0 <= i < |q| - 1 ensures Adjacent(g, q[i], q[i + 1]) {
          assert q[i] == p[i + 1] && q[i + 1] == p[i + 2];
        }
      }
      WalkStaysInClosed(g, c, q);
      forall i | 0 <= i < |p| ensures p[i] in c {
        if i > 0 { assert p[i] == q[i - 1]; }
      }
    }
  }

  /** A walk of `g` that stays inside `c` is a walk of the subgraph induced by `c`. */
  lemma WalkInInduced(g: Graph, c: set<int>, p: seq<int>)
    requires IsWalk(g, p) && forall i :: 0 <= i < |p| ==> p[i] in c
    ensures IsWalk(Induced(g, c), p)
  {
    var h := Induced(g, c);
    forall i | 0 <= i < |p| - 1 ensures Adjacent(h, p[i], p[i + 1]) {
      assert p[i] in c && p[i + 1] in c;
    }
  }

  /** In a graph without edges a node reaches only itself. */
  lemma EdgelessReach(g: Graph, u: int, v: int)
    requires g.edges == {} && Reachable(g, u, v)
    ensures u == v
  {
    var p :| IsWalk(g, p) && p[0] == u && p[|p| - 1] == v;
    assert |p| > 1 ==> Adjacent(g, p[0], p[1]);
  }
}
