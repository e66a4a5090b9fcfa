/** How edges, nodes, components and cycles constrain one another. */
module Forests {
  import opened Sequences
  import opened Topology
  import opened EdgeCount
  import opened Components

  /** At least three distinct nodes, each adjacent to the next and the last to the first. */
  ghost predicate IsCycle(adj: Adjacency, p: seq<GeoNodeId>) {
    |p| >= 3 && IsPath(adj, p) && Distinct(p) && Adjacent(adj, p[|p| - 1], p[0])
  }

  ghost predicate Acyclic(adj: Adjacency) {
    forall p :: !IsCycle(adj, p)
  }

  // ----- an edge lies on a cycle exactly when its ends stay connected without it

  lemma {:induction false} Tail(adj: Adjacency, p: seq<GeoNodeId>, k: nat)
    requires IsPath(adj, p) && k < |p|
    ensures IsPath(adj, p[k..])
  {
    if k > 0 {
      Tail(adj, p[1..], k - 1);
      assert p[1..][k - 1..] == p[k..];
    }
  }

  /** Connected nodes are joined by a path that visits no node twice. */
  lemma {:induction false} SimplePath(adj: Adjacency, p: seq<GeoNodeId>) returns (q: seq<GeoNodeId>)
    requires IsPath(adj, p)
    ensures Joins(adj, q, p[0], p[|p| - 1]) && Distinct(q)
  {
    if |p| == 1 {
      q := p;
    } else {
      var rest := SimplePath(adj, p[1..]);
      if p[0] in rest {
        var k: nat :| k < |rest| && rest[k] == p[0];
        Tail(adj, rest, k);
        q := rest[k..];
      } else {
        q := [p[0]] + rest;
        assert q[1..] == rest;
      }
    }
  }

  lemma RedundantEdgeLiesOnCycle(adj: Adjacency, a: GeoNodeId, b: GeoNodeId)
    requires Symmetric(adj) && Adjacent(adj, a, b) && a != b
    requires Connected(WithoutEdge(adj, a, b), a, b)
    ensures !Acyclic(adj)
  {
    var less := WithoutEdge(adj, a, b);
    WithoutEdgeMeaning(adj, a, b);
    var p :| Joins(less, p, a, b);
    var q := SimplePath(less, p);
    assert |q| == 2 ==> Adjacent(less, a, b);
    assert SamePair(a, b, a, b);
    PathInLarger(less, adj, q);
    assert IsCycle(adj, q);
  }

  lemma {:induction false} PathAvoidsEdge(adj: Adjacency, p: seq<GeoNodeId>, a: GeoNodeId, b: GeoNodeId)
    requires Symmetric(adj) && IsPath(adj, p) && Distinct(p) && p[|p| - 1] == a
    requires b in p ==> p[0] == b && |p| >= 3
    ensures IsPath(WithoutEdge(adj, a, b), p)
  {
    WithoutEdgeMeaning(adj, a, b);
    if |p| > 1 {
      assert b !in p[1..];
      PathAvoidsEdge(adj, p[1..], a, b);
    }
  }

  /** The closing edge of a cycle is redundant. */
  lemma CycleHasRedundantEdge(adj: Adjacency, p: seq<GeoNodeId>)
    requires Symmetric(adj) && IsCycle(adj, p)
    ensures var a, b := p[|p| - 1], p[0];
            a != b && Adjacent(adj, a, b) && Connected(WithoutEdge(adj, a, b), a, b)
  {
    var a, b := p[|p| - 1], p[0];
    PathAvoidsEdge(adj, p, a, b);
    var less := WithoutEdge(adj, a, b);
    WithoutEdgeMeaning(adj, a, b);
    assert Joins(less, p, b, a);
    ConnectedSymmetric(less, b, a);
  }

  // ----- counting

  /** With no edge between two nodes, every node is a component of its own. */
  lemma NoEdgesClasses(adj: Adjacency)
    requires Symmetric(adj) && Edges(adj) == {}
    ensures |Classes(adj)| == |adj|
  {
    forall a | a in adj ensures ClassOf(adj, a) == {a} {
      ConnectedReflexive(adj, a);
      forall b | b in ClassOf(adj, a) ensures b == a {
        var p :| Joins(adj, p, a, b);
        forall x, y | x in {a} && Adjacent(adj, x, y) ensures y in {a} {
          EdgeMembership(adj, x, y);
        }
        ClosedSetKeepsPaths(adj, {a}, p);
      }
    }
    SingletonsSize(adj.Keys, Classes(adj));
  }

  lemma {:induction false} SingletonsSize(nodes: set<GeoNodeId>, classes: set<set<GeoNodeId>>)
    requires forall c :: c in classes <==> exists a :: a in nodes && c == {a}
    ensures |classes| == |nodes|
  {
    if nodes == {} {
      assert classes == {};
    } else {
      var a :| a in nodes;
      assert {a} in classes;
      SingletonsSize(nodes - {a}, classes - {{a}});
    }
  }

  /** One inductive pass over the edges: there are at least as many edges as nodes less
      components, and no more when the graph has no cycle. */
  lemma {:induction false} EdgeBound(adj: Adjacency)
    requires Symmetric(adj)
    ensures |Edges(adj)| >= |adj| - |Classes(adj)|
    ensures Acyclic(adj) ==> |Edges(adj)| == |adj| - |Classes(adj)|
    decreases |Edges(adj)|
  {
    if Edges(adj) == {} {
      NoEdgesClasses(adj);
    } else {
      var e :| e in Edges(adj);
      var a, b :| a in adj && b in adj[a] && a != b && e == {a, b};
      assert Adjacent(adj, a, b);
      var less := WithoutEdge(adj, a, b);
      WithoutEdgeMeaning(adj, a, b);
      EdgeGone(adj, a, b);
      RemovingAnEdge(adj, a, b);
      SameNodes(adj, less);
      EdgeBound(less);
      if Acyclic(adj) {
        AcyclicSmaller(less, adj);
        if Connected(less, a, b) {
          RedundantEdgeLiesOnCycle(adj, a, b);
        }
      }
    }
  }

  lemma SameNodes(left: Adjacency, right: Adjacency)
    requires left.Keys == right.Keys
    ensures |left| == |right|
  {
    assert |left| == |left.Keys| && |right| == |right.Keys|;
  }

  lemma AcyclicSmaller(less: Adjacency, adj: Adjacency)
    requires less.Keys <= adj.Keys && Acyclic(adj)
    requires forall x, y :: Adjacent(less, x, y) ==> Adjacent(adj, x, y)
    ensures Acyclic(less)
  {
    forall p ensures !IsCycle(less, p) {
      if IsCycle(less, p) {
        PathInLarger(less, adj, p);
        assert IsCycle(adj, p);
      }
    }
  }

  /** Nodes less components is a lower bound on the edges, met exactly by the forests. */
  lemma ForestCount(adj: Adjacency)
    requires Symmetric(adj)
    ensures |Edges(adj)| >= |adj| - |Classes(adj)|
    ensures |Edges(adj)| == |adj| - |Classes(adj)| <==> Acyclic(adj)
  {
    EdgeBound(adj);
    if !Acyclic(adj) {
      var p :| IsCycle(adj, p);
      CycleHasRedundantEdge(adj, p);
      var a, b := p[|p| - 1], p[0];
      var less := WithoutEdge(adj, a, b);
      WithoutEdgeMeaning(adj, a, b);
      EdgeGone(adj, a, b);
      RemovingAnEdge(adj, a, b);
      SameNodes(adj, less);
      EdgeBound(less);
    }
  }

  /** A triangle is a cycle, so a forest has none. */
  lemma ForestHasNoTriangle(adj: Adjacency)
    requires Acyclic(adj)
    ensures Triangles(adj) == {}
  {
    forall t | t in Triangles(adj) ensures false {
      var a, b, c :| a in adj && b in adj && c in adj && IsTriangle(adj, a, b, c) && t == {a, b, c};
      TriangleIsCycle(adj, a, b, c);
    }
  }

  lemma TriangleIsCycle(adj: Adjacency, a: GeoNodeId, b: GeoNodeId, c: GeoNodeId)
    requires IsTriangle(adj, a, b, c)
    ensures IsCycle(adj, [a, b, c])
  {
    var p := [a, b, c];
    assert p[1..] == [b, c] && [b, c][1..] == [c];
    assert IsPath(adj, [c]);
    assert IsPath(adj, [b, c]);
  }

  // ----- the number the engine reports

  /** What `betti_number` returns, in terms of the graph's own edges and triangles. */
  ghost function Betti(adj: Adjacency): int {
    if |adj| > 0 then CountedEdges(adj) - |adj| + |Triangles(adj)| + 1 else 0
  }

  /** On every non-empty table the reported number is at least triangles + 1 - components. It
      equals 1 - components exactly for a forest with at most one self-loop: the half-sum of
      degrees does not see a lone loop. */
  lemma BettiBounds(adj: Adjacency)
    requires Symmetric(adj) && |adj| > 0
    ensures Betti(adj) >= |Triangles(adj)| + 1 - |Classes(adj)|
    ensures Betti(adj) == 1 - |Classes(adj)| <==> Acyclic(adj) && |Loops(adj)| <= 1
  {
    CountIsExactWithoutLoops(adj);
    ForestCount(adj);
    if Acyclic(adj) {
      ForestHasNoTriangle(adj);
    }
  }

  /** On a connected graph without self-loops the reported number is 0 exactly for a tree. */
  lemma BettiZeroIffTree(adj: Adjacency)
    requires Symmetric(adj) && Loops(adj) == {} && |Classes(adj)| == 1
    ensures Betti(adj) == 0 <==> Acyclic(adj)
    ensures Betti(adj) >= |Triangles(adj)|
  {
    assert |adj| == 0 ==> adj.Keys == {} && Classes(adj) == {};
    BettiBounds(adj);
  }

  /** The number of independent cycles: the edges left over when every component has been spanned
      by a tree. A self-loop joins no two nodes and is not counted as an edge here. */
  ghost function CycleRank(adj: Adjacency): int {
    |Edges(adj)| - |adj| + |Classes(adj)|
  }

  /** It is never negative, and 0 exactly when there is no cycle. */
  lemma CycleRankMeaning(adj: Adjacency)
    requires Symmetric(adj)
    ensures CycleRank(adj) >= 0
    ensures CycleRank(adj) == 0 <==> Acyclic(adj)
  {
    ForestCount(adj);
  }

  /** The reported number is the number of independent cycles exactly when what it adds (a half for
      each self-loop, one for each triangle, and one) happens to be the number of components. */
  lemma BettiIsCycleRankIff(adj: Adjacency)
    requires Symmetric(adj)
    ensures Betti(adj) == CycleRank(adj) <==>
            |adj| == 0 || |Loops(adj)| / 2 + |Triangles(adj)| + 1 == |Classes(adj)|
  {
    CountIsExactWithoutLoops(adj);
    if |adj| == 0 {
      assert adj.Keys == {};
      assert Edges(adj) == {} && Classes(adj) == {};
    }
  }

  /** On a connected graph without self-loops they agree exactly when there is no triangle. */
  lemma ConnectedBettiIsCycleRankIff(adj: Adjacency)
    requires Symmetric(adj) && Loops(adj) == {} && |Classes(adj)| == 1
    ensures Betti(adj) == CycleRank(adj) <==> Triangles(adj) == {}
  {
    BettiIsCycleRankIff(adj);
    assert |adj| == 0 ==> adj.Keys == {} && Classes(adj) == {};
  }

  /** A lone triangle has one independent cycle and is reported as 2. */
  lemma TriangleReportsTwo(a: GeoNodeId, b: GeoNodeId, c: GeoNodeId)
    requires a != b && b != c && c != a
    ensures var adj := WithEdge(WithEdge(WithEdge(map[], a, b), b, c), c, a); Betti(adj) == 2 && CycleRank(adj) == 1
  {
    var adj := WithEdge(WithEdge(WithEdge(map[], a, b), b, c), c, a);
    assert adj.Keys == {a, b, c};
    assert adj[a] == {b, c} && adj[b] == {a, c} && adj[c] == {a, b};
    ThreeNodes(adj, a, b, c);
  }

  lemma ThreeNodes(adj: Adjacency, a: GeoNodeId, b: GeoNodeId, c: GeoNodeId)
    requires a != b && b != c && c != a
    requires adj.Keys == {a, b, c} && adj[a] == {b, c} && adj[b] == {a, c} && adj[c] == {a, b}
    ensures Betti(adj) == 2 && CycleRank(adj) == 1
  {
    assert |adj| == |adj.Keys| == 3;
    ThreeEdges(adj, a, b, c);
    assert IsTriangle(adj, a, b, c);
    OneTriangle(adj, a, b, c);
    OneComponent(adj, a, b, c);
  }

  lemma ThreeEdges(adj: Adjacency, a: GeoNodeId, b: GeoNodeId, c: GeoNodeId)
    requires a != b && b != c && c != a
    requires adj.Keys == {a, b, c} && adj[a] == {b, c} && adj[b] == {a, c} && adj[c] == {a, b}
    ensures Symmetric(adj) && CountedEdges(adj) == |Edges(adj)| == 3
  {
    assert Arcs(adj, {}) == {};
    ArcsOfOneMore(adj, {}, a);
    ArcsOfOneMore(adj, {a}, b);
    ArcsOfOneMore(adj, {a, b}, c);
    assert {} + {a} == {a} && {a} + {b} == {a, b} && {a, b} + {c} == {a, b, c};
    assert Loops(adj) == {};
    CountIsExactWithoutLoops(adj);
  }

  lemma OneComponent(adj: Adjacency, a: GeoNodeId, b: GeoNodeId, c: GeoNodeId)
    requires Symmetric(adj) && adj.Keys == {a, b, c} && IsTriangle(adj, a, b, c)
    ensures |Classes(adj)| == 1
  {
    AdjacentConnected(adj, a, b);
    AdjacentConnected(adj, c, a);
    ConnectedSymmetric(adj, c, a);
    forall x | x in adj ensures ClassOf(adj, x) == ClassOf(adj, a) {
      SameClass(adj, a, x);
    }
    assert Classes(adj) == {ClassOf(adj, a)};
  }

  lemma OneTriangle(adj: Adjacency, a: GeoNodeId, b: GeoNodeId, c: GeoNodeId)
    requires adj.Keys == {a, b, c} && IsTriangle(adj, a, b, c)
    ensures |Triangles(adj)| == 1
  {
    forall t ensures t in Triangles(adj) <==> t == {a, b, c} {
      if t in Triangles(adj) {
        var x, y, z :| x in adj && y in adj && z in adj && IsTriangle(adj, x, y, z) && t == {x, y, z};
        assert x in {a, b, c} && y in {a, b, c} && z in {a, b, c};
      }
    }
    assert Triangles(adj) == {{a, b, c}};
  }
}
