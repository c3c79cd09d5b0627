/**
  Connected components: the decomposition networkx performs for `get_subgraphs`
  (feature_extraction/extraction_utils.py) and the connectivity test `nx.is_connected`.
*/
module Components {
  import opened Outcomes
  import opened Graphs

  /** `c` is a connected component of `g`: a non-empty set of nodes holding exactly the nodes reachable from any of its members. */
  ghost predicate IsComponent(g: Graph, c: set<int>) {
    c != {} && c <= g.nodes &&
    forall u, v :: u in c && v in g.nodes ==> (v in c <==> Reachable(g, u, v))
  }

  /** `subs` lists the connected components of `g` as induced subgraphs: pairwise disjoint and covering every node. */
  ghost predicate IsComponentList(g: Graph, subs: seq<Graph>) {
    (forall i :: 0 <= i < |subs| ==> IsComponent(g, subs[i].nodes) && subs[i] == Induced(g, subs[i].nodes)) &&
    (forall i, j :: 0 <= i < j < |subs| ==> subs[i].nodes !! subs[j].nodes) &&
    (forall v :: v in g.nodes ==> exists i :: 0 <= i < |subs| && v in subs[i].nodes)
  }

  /** The set of nodes reached from `v` is the component of `v`. */
  lemma RootedComponent(g: Graph, v: int, c: set<int>)
    requires v in g.nodes && c <= g.nodes
    requires forall u :: u in g.nodes ==> (u in c <==> Reachable(g, v, u))
    ensures IsComponent(g, c)
  {
    ReachableRefl(g, v);
    forall u, w | u in c && w in g.nodes
      ensures w in c <==> Reachable(g, u, w)
    {
      if Reachable(g, v, w) {
        ReachableSym(g, v, u);
        ReachableTrans(g, u, v, w);
      }
      if Reachable(g, u, w) {
        ReachableTrans(g, v, u, w);
      }
    }
  }

  /** Two components that share a node are the same component. */
  lemma ComponentsMeet(g: Graph, a: set<int>, b: set<int>, x: int)
    requires IsComponent(g, a) && IsComponent(g, b) && x in a && x in b
    ensures a == b
  {
    forall y | y in a ensures y in b {
      assert Reachable(g, x, y);
    }
    forall y | y in b ensures y in a {
      assert Reachable(g, x, y);
    }
  }

  /** Two components are equal or share no node. */
  lemma ComponentsDisjoint(g: Graph, a: set<int>, b: set<int>)
    requires IsComponent(g, a) && IsComponent(g, b)
    ensures a == b || a !! b
  {
    if a * b != {} {
      NonEmpty(a * b);
      var x :| x in a * b;
      ComponentsMeet(g, a, b, x);
    } else {
      forall x | x in a ensures x !in b {
        assert x !in a * b;
      }
    }
  }

  /** A component induces a connected subgraph. */
  lemma ComponentConnected(g: Graph, c: set<int>)
    requires IsComponent(g, c)
    ensures Connected(Induced(g, c))
  {
    var h := Induced(g, c);
    assert Closed(g, c) by {
      forall u, v | u in c && v in g.nodes && Adjacent(g, u, v)
        ensures v in c
      {
        assert IsWalk(g, [u, v]);
      }
    }
    forall u, v | u in h.nodes && v in h.nodes
      ensures Reachable(h, u, v)
    {
      var p :| IsWalk(g, p) && p[0] == u && p[|p| - 1] == v;
      WalkStaysInClosed(g, c, p);
      WalkInInduced(g, c, p);
    }
  }

  /** The nodes reached from `v` by a breadth-first traversal. */
  method ComponentOf(g: Graph, v: int) returns (c: set<int>)
    requires v in g.nodes
    ensures v in c && c <= g.nodes
    ensures forall u :: u in g.nodes ==> (u in c <==> Reachable(g, v, u))
  {
    ReachableRefl(g, v);
    c := {v};
    var frontier := {v};
    while frontier != {}
      invariant frontier <= c && c <= g.nodes && v in c
      invariant forall u :: u in c ==> Reachable(g, v, u)
      invariant forall u, w :: u in c - frontier && w in g.nodes && Adjacent(g, u, w) ==> w in c
      decreases g.nodes - c, frontier
    {
      NonEmpty(frontier);
      var u :| u in frontier;
      var found := set w | w in g.nodes && Adjacent(g, u, w) && w !in c;
      forall w | w in found
        ensures Reachable(g, v, w)
      {
        ReachableStep(g, v, u, w);
      }
      c := c + found;
      frontier := frontier - {u} + found;
    }
    forall u | u in g.nodes && Reachable(g, v, u)
      ensures u in c
    {
      var p :| IsWalk(g, p) && p[0] == v && p[|p| - 1] == u;
      WalkStaysInClosed(g, c, p);
    }
  }

  /** `nx.connected_components`: the node sets of the components, each once, covering every node. */
  method ConnectedComponents(g: Graph) returns (cs: seq<set<int>>)
    ensures forall i :: 0 <= i < |cs| ==> IsComponent(g, cs[i])
    ensures forall i, j :: 0 <= i < j < |cs| ==> cs[i] !! cs[j]
    ensures forall v :: v in g.nodes ==> exists i :: 0 <= i < |cs| && v in cs[i]
  {
    cs := [];
    var seen: set<int> := {};
    while seen != g.nodes
      invariant seen <= g.nodes
      invariant forall i :: 0 <= i < |cs| ==> IsComponent(g, cs[i]) && cs[i] <= seen
      invariant forall i, j :: 0 <= i < j < |cs| ==> cs[i] !! cs[j]
      invariant forall v :: v in seen ==> exists i :: 0 <= i < |cs| && v in cs[i]
      decreases g.nodes - seen
    {
      MissingNode(g.nodes, seen);
      var v :| v in g.nodes && v !in seen;
      var c := ComponentOf(g, v);
      RootedComponent(g, v, c);
      forall i | 0 <= i < |cs|
        ensures cs[i] !! c
      {
        assert v in c && v !in cs[i];
        ComponentsDisjoint(g, cs[i], c);
      }
      var extended := cs + [c];
      forall x | x in seen + c
        ensures exists i :: 0 <= i < |extended| && x in extended[i]
      {
        if x in c {
          assert x in extended[|cs|];
        } else {
          var i :| 0 <= i < |cs| && x in cs[i];
          assert x in extended[i];
        }
      }
      cs := extended;
      seen := seen + c;
    }
  }

  /** `get_subgraphs`: the subgraph induced by each connected component, appended one by one. */
  method GetSubgraphs(g: Graph) returns (subs: seq<Graph>)
    ensures IsComponentList(g, subs)
    ensures forall i :: 0 <= i < |subs| ==> Connected(subs[i])
  {
    var cs := ConnectedComponents(g);
    subs := [];
    for i := 0 to |cs|
      invariant |subs| == i
      invariant forall k :: 0 <= k < i ==> subs[k] == Induced(g, cs[k])
    {
      subs := subs + [Induced(g, cs[i])];
    }
    forall i | 0 <= i < |subs|
      ensures subs[i].nodes == cs[i] && Connected(subs[i])
    {
      ComponentConnected(g, cs[i]);
    }
  }

  /** `nx.is_connected`: raises on a graph without nodes, otherwise tells whether one traversal reaches every node. */
  method IsConnected(g: Graph) returns (r: Result<bool>)
    ensures g.nodes == {} ==> r == Err(NullGraph)
    ensures g.nodes != {} ==> r == Ok(Connected(g))
  {
    if g.nodes == {} {
      return Err(NullGraph);
    }
    NonEmpty(g.nodes);
    var v :| v in g.nodes;
    var c := ComponentOf(g, v);
    if c != g.nodes {
      MissingNode(g.nodes, c);
      var w :| w in g.nodes && w !in c;
      assert !Reachable(g, v, w);
    }
    if c == g.nodes {
      forall u, w | u in g.nodes && w in g.nodes
        ensures Reachable(g, u, w)
      {
        ReachableSym(g, v, u);
        ReachableTrans(g, u, v, w);
      }
    }
    r := Ok(c == g.nodes);
  }

  /** The nodes reachable from `v`. */
  ghost function ReachSet(g: Graph, v: int): set<int> {
    set u | u in g.nodes && Reachable(g, v, u)
  }

  /** A node of `g` outside `seen`. */
  ghost function Unseen(g: Graph, seen: set<int>): (v: int)
    requires seen <= g.nodes && seen != g.nodes
    ensures v in g.nodes && v !in seen
  {
    MissingNode(g.nodes, seen);
    var v :| v in g.nodes && v !in seen; v
  }

  /** The node sets of the components outside `seen`, in the order a traversal from unseen nodes finds them. */
  ghost function ComponentsOutside(g: Graph, seen: set<int>): seq<set<int>>
    requires seen <= g.nodes
    decreases g.nodes - seen
  {
    if seen == g.nodes then []
    else
      var v := Unseen(g, seen);
      ReachableRefl(g, v);
      assert v in ReachSet(g, v);
      [ReachSet(g, v)] + ComponentsOutside(g, seen + ReachSet(g, v))
  }

  /** One list of the connected components of `g`, as induced subgraphs; every other list is a permutation of it. */
  ghost function ComponentSubgraphs(g: Graph): seq<Graph> {
    var cs := ComponentsOutside(g, {});
    seq(|cs|, i requires 0 <= i < |cs| => Induced(g, cs[i]))
  }

  /** No walk leaves `seen`: it is a union of components. */
  ghost predicate ReachClosed(g: Graph, seen: set<int>) {
    forall u, w :: u in seen && w in g.nodes && Reachable(g, u, w) ==> w in seen
  }

  /** The component of the first unseen node is a component outside `seen`, and adding it keeps `seen` a union of components. */
  lemma PeelComponent(g: Graph, seen: set<int>)
    requires seen <= g.nodes && seen != g.nodes && ReachClosed(g, seen)
    ensures var v := Unseen(g, seen); var c := ReachSet(g, v);
      v in c && IsComponent(g, c) && c !! seen && seen + c <= g.nodes && ReachClosed(g, seen + c)
  {
    var v := Unseen(g, seen);
    var c := ReachSet(g, v);
    ReachableRefl(g, v);
    RootedComponent(g, v, c);
    forall x | x in c
      ensures x !in seen
    {
      if x in seen {
        ReachableSym(g, v, x);
      }
    }
    var seen' := seen + c;
    forall u, w | u in seen' && w in g.nodes && Reachable(g, u, w)
      ensures w in seen'
    {
      if u in c {
        ReachableTrans(g, v, u, w);
      }
    }
  }

  /** Every set listed is a component that avoids `seen`. */
  ghost predicate ComponentsAvoid(g: Graph, cs: seq<set<int>>, seen: set<int>) {
    forall i :: 0 <= i < |cs| ==> IsComponent(g, cs[i]) && cs[i] !! seen
  }

  ghost predicate PairwiseDisjoint(cs: seq<set<int>>) {
    forall i, j :: 0 <= i < j < |cs| ==> cs[i] !! cs[j]
  }

  /** Every node of `g` outside `seen` is in a listed set. */
  ghost predicate CoversOutside(g: Graph, cs: seq<set<int>>, seen: set<int>) {
    forall v :: v in g.nodes && v !in seen ==> exists i :: 0 <= i < |cs| && v in cs[i]
  }

  /** Listing one more component in front of the components outside it keeps the list's three properties. */
  lemma ConsComponent(g: Graph, seen: set<int>, c: set<int>, rest: seq<set<int>>)
    requires IsComponent(g, c) && c !! seen
    requires ComponentsAvoid(g, rest, seen + c) && PairwiseDisjoint(rest) && CoversOutside(g, rest, seen + c)
    ensures var cs := [c] + rest;
      ComponentsAvoid(g, cs, seen) && PairwiseDisjoint(cs) && CoversOutside(g, cs, seen)
  {
    var cs := [c] + rest;
    forall i | 0 <= i < |cs|
      ensures IsComponent(g, cs[i]) && cs[i] !! seen
    {
      if i > 0 {
        assert cs[i] == rest[i - 1];
      }
    }
    forall i, j | 0 <= i < j < |cs|
      ensures cs[i] !! cs[j]
    {
      assert cs[j] == rest[j - 1];
      if i > 0 {
        assert cs[i] == rest[i - 1];
      }
    }
    forall x | x in g.nodes && x !in seen
      ensures exists i :: 0 <= i < |cs| && x in cs[i]
    {
      if x in c {
        assert x in cs[0];
      } else {
        var i :| 0 <= i < |rest| && x in rest[i];
        assert x in cs[i + 1];
      }
    }
  }

  lemma {:induction false} ComponentsOutsideSpec(g: Graph, seen: set<int>)
    requires seen <= g.nodes && ReachClosed(g, seen)
    ensures var cs := ComponentsOutside(g, seen);
      ComponentsAvoid(g, cs, seen) && PairwiseDisjoint(cs) && CoversOutside(g, cs, seen)
    decreases g.nodes - seen
  {
    if seen != g.nodes {
      var c := ReachSet(g, Unseen(g, seen));
      PeelComponent(g, seen);
      ComponentsOutsideSpec(g, seen + c);
      ConsComponent(g, seen, c, ComponentsOutside(g, seen + c));
    }
  }

  /** Every graph has a list of its connected components. */
  lemma ComponentSubgraphsSpec(g: Graph)
    ensures IsComponentList(g, ComponentSubgraphs(g))
  {
    assert ReachClosed(g, {});
    ComponentsOutsideSpec(g, {});
    InducedComponents(g, ComponentsOutside(g, {}));
  }

  /** The induced subgraphs of a disjoint, covering list of components form a component list. */
  lemma InducedComponents(g: Graph, cs: seq<set<int>>)
    requires ComponentsAvoid(g, cs, {}) && PairwiseDisjoint(cs) && CoversOutside(g, cs, {})
    ensures IsComponentList(g, seq(|cs|, i requires 0 <= i < |cs| => Induced(g, cs[i])))
  {
    var subs := seq(|cs|, i requires 0 <= i < |cs| => Induced(g, cs[i]));
    forall i | 0 <= i < |subs|
      ensures subs[i].nodes == cs[i]
      ensures IsComponent(g, subs[i].nodes) && subs[i] == Induced(g, subs[i].nodes)
    {
      assert subs[i] == Induced(g, cs[i]);
    }
    forall i, j | 0 <= i < j < |subs|
      ensures subs[i].nodes !! subs[j].nodes
    {
      assert subs[i].nodes == cs[i] && subs[j].nodes == cs[j];
    }
    forall v | v in g.nodes
      ensures exists i :: 0 <= i < |subs| && v in subs[i].nodes
    {
      var i :| 0 <= i < |cs| && v in cs[i];
      assert v in subs[i].nodes;
    }
  }

  ghost predicate Distinct(s: seq<Graph>) {
    forall i, j :: 0 <= i < j < |s| ==> s[i] != s[j]
  }

  /** Removing one element from a duplicate-free sequence leaves it duplicate-free. */
  lemma DropDistinct(b: seq<Graph>, k: nat)
    requires Distinct(b) && k < |b|
    ensures Distinct(b[..k] + b[k + 1..])
  {
    var b' := b[..k] + b[k + 1..];
    forall i, j | 0 <= i < j < |b'|
      ensures b'[i] != b'[j]
    {
      var i' := if i < k then i else i + 1;
      var j' := if j < k then j else j + 1;
      assert b'[i] == b[i'] && b'[j] == b[j'];
    }
  }

  /** Removing one element from a duplicate-free sequence removes exactly that element. */
  lemma DropMembers(b: seq<Graph>, k: nat, y: Graph)
    requires Distinct(b) && k < |b|
    ensures y in b[..k] + b[k + 1..] <==> y in b && y != b[k]
  {
    var b' := b[..k] + b[k + 1..];
    if y in b' {
      var i :| 0 <= i < |b'| && b'[i] == y;
      var i' := if i < k then i else i + 1;
      assert b[i'] == y;
    }
    if y in b && y != b[k] {
      var m :| 0 <= m < |b| && b[m] == y;
      if m < k {
        assert b'[m] == y;
      } else {
        assert b'[m - 1] == y;
      }
    }
  }

  /** Taking an element out of a sequence takes it out of its multiset. */
  lemma DropMultiset(b: seq<Graph>, k: nat)
    requires k < |b|
    ensures multiset(b) == multiset(b[..k] + b[k + 1..]) + multiset{b[k]}
  {
    assert b == b[..k] + [b[k]] + b[k + 1..];
  }

  /** Two duplicate-free sequences with the same elements are permutations of each other. */
  lemma {:induction false} DistinctPermutation(a: seq<Graph>, b: seq<Graph>)
    requires Distinct(a) && Distinct(b)
    requires forall x :: x in a <==> x in b
    ensures multiset(a) == multiset(b)
    decreases |a|
  {
    if a == [] {
      forall y
        ensures multiset(b)[y] == 0
      {
        assert y !in a;
      }
    } else {
      var x := a[0];
      assert x in b;
      var k :| 0 <= k < |b| && b[k] == x;
      var a' := a[1..];
      var b' := b[..k] + b[k + 1..];
      assert Distinct(a') && Distinct(b') by {
        assert a[..0] + a[1..] == a';
        DropDistinct(a, 0);
        DropDistinct(b, k);
      }
      assert forall y :: y in a' <==> y in b' by {
        forall y
          ensures y in a' <==> y in b'
        {
          assert a[..0] + a[1..] == a';
          DropMembers(a, 0, y);
          DropMembers(b, k, y);
        }
      }
      DistinctPermutation(a', b');
      assert multiset(a) == multiset(a') + multiset{x} by {
        assert a[..0] + a[1..] == a';
        DropMultiset(a, 0);
      }
      assert multiset(b) == multiset(b') + multiset{x} by {
        DropMultiset(b, k);
      }
    }
  }

  /** Any two lists of the connected components of one graph hold the same subgraphs, each once. */
  lemma ComponentListsPermute(g: Graph, a: seq<Graph>, b: seq<Graph>)
    requires IsComponentList(g, a) && IsComponentList(g, b)
    ensures multiset(a) == multiset(b)
  {
    forall x | x in a
      ensures x in b
    {
      var i :| 0 <= i < |a| && a[i] == x;
      NonEmpty(x.nodes);
      var v :| v in x.nodes;
      var j :| 0 <= j < |b| && v in b[j].nodes;
      ComponentsMeet(g, x.nodes, b[j].nodes, v);
      assert b[j] == x;
    }
    forall x | x in b
      ensures x in a
    {
      var j :| 0 <= j < |b| && b[j] == x;
      NonEmpty(x.nodes);
      var v :| v in x.nodes;
      var i :| 0 <= i < |a| && v in a[i].nodes;
      ComponentsMeet(g, x.nodes, a[i].nodes, v);
      assert a[i] == x;
    }
    ListDistinct(g, a);
    ListDistinct(g, b);
    DistinctPermutation(a, b);
  }

  lemma ListDistinct(g: Graph, subs: seq<Graph>)
    requires IsComponentList(g, subs)
    ensures Distinct(subs)
  {
    forall i, j | 0 <= i < j < |subs|
      ensures subs[i] != subs[j]
    {
      NonEmpty(subs[i].nodes);
      var v :| v in subs[i].nodes;
      assert v !in subs[j].nodes;
    }
  }
}
