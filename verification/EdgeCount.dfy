/** What the degree sum counts, and how one edge changes it. */
module EdgeCount {
  import opened Topology

  /** The ordered pairs (a, b) with a in `from` and b among a's neighbours. */
  ghost function Arcs(adj: Adjacency, from: set<GeoNodeId>): set<(GeoNodeId, GeoNodeId)>
    requires from <= adj.Keys
  {
    set a, b | a in from && b in adj[a] :: (a, b)
  }

  lemma ArcsOfOneMore(adj: Adjacency, from: set<GeoNodeId>, a: GeoNodeId)
    requires from <= adj.Keys && a in adj && a !in from
    ensures |Arcs(adj, from + {a})| == |Arcs(adj, from)| + |adj[a]|
  {
    var star := set b | b in adj[a] :: (a, b);
    StarSize(a, adj[a], star);
    assert Arcs(adj, from + {a}) == Arcs(adj, from) + star;
    assert Arcs(adj, from) !! star;
  }

  lemma {:induction false} StarSize(a: GeoNodeId, ends: set<GeoNodeId>, star: set<(GeoNodeId, GeoNodeId)>)
    requires star == set b | b in ends :: (a, b)
    ensures |star| == |ends|
  {
    if ends != {} {
      var b :| b in ends;
      var fewer := star - {(a, b)};
      assert fewer == set c | c in ends - {b} :: (a, c);
      StarSize(a, ends - {b}, fewer);
    } else {
      assert star == {};
    }
  }

  /** The degree sum counts every edge between two nodes twice and every self-loop once. */
  lemma {:induction false} Handshake(adj: Adjacency)
    requires Symmetric(adj)
    ensures |Arcs(adj, adj.Keys)| == 2 * |Edges(adj)| + |Loops(adj)|
    decreases |Arcs(adj, adj.Keys)|
  {
    var arcs := Arcs(adj, adj.Keys);
    if arcs == {} {
      assert forall a, b :: Adjacent(adj, a, b) ==> (a, b) in arcs;
      assert Edges(adj) == {} && Loops(adj) == {};
    } else {
      var arc :| arc in arcs;
      var (a, b) := arc;
      assert Adjacent(adj, a, b) && Adjacent(adj, b, a);
      var less := WithoutEdge(adj, a, b);
      WithoutEdgeMeaning(adj, a, b);
      ArcsWithoutEdge(adj, a, b);
      Handshake(less);
      if a == b {
        SelfLoopGone(adj, a);
      } else {
        EdgeGone(adj, a, b);
      }
    }
  }

  lemma ArcsWithoutEdge(adj: Adjacency, a: GeoNodeId, b: GeoNodeId)
    requires Symmetric(adj) && Adjacent(adj, a, b)
    ensures var less := WithoutEdge(adj, a, b);
            |Arcs(less, less.Keys)| == |Arcs(adj, adj.Keys)| - if a == b then 1 else 2
  {
    var less := WithoutEdge(adj, a, b);
    WithoutEdgeMeaning(adj, a, b);
    var arcs, arcs' := Arcs(adj, adj.Keys), Arcs(less, less.Keys);
    assert Adjacent(adj, b, a);
    forall x, y ensures (x, y) in arcs' <==> (x, y) in arcs - {(a, b), (b, a)} {
      assert (x, y) in arcs' <==> Adjacent(less, x, y);
      assert (x, y) in arcs <==> Adjacent(adj, x, y);
    }
    RemovePairSize(arcs, arcs', (a, b), (b, a));
  }

  lemma RemovePairSize(arcs: set<(GeoNodeId, GeoNodeId)>, less: set<(GeoNodeId, GeoNodeId)>,
                       f: (GeoNodeId, GeoNodeId), g: (GeoNodeId, GeoNodeId))
    requires f in arcs && g in arcs
    requires forall e :: e in less <==> e in arcs - {f, g}
    ensures |less| == |arcs| - if f == g then 1 else 2
  {
    assert less == arcs - {f} - {g};
  }

  lemma PairEquality(x: GeoNodeId, y: GeoNodeId, a: GeoNodeId, b: GeoNodeId)
    ensures {x, y} == {a, b} <==> SamePair(x, y, a, b)
  {
    assert {x, y} == {a, b} ==> x in {a, b} && y in {a, b} && a in {x, y} && b in {x, y};
  }

  lemma EdgeMembership(adj: Adjacency, a: GeoNodeId, b: GeoNodeId)
    requires Symmetric(adj)
    ensures {a, b} in Edges(adj) <==> a != b && Adjacent(adj, a, b)
  {
    if {a, b} in Edges(adj) {
      var x, y :| x in adj && y in adj[x] && x != y && {x, y} == {a, b};
      PairEquality(x, y, a, b);
      assert Adjacent(adj, x, y);
    }
  }

  /** Removing an edge between two nodes removes one edge and no self-loop. */
  lemma EdgeGone(adj: Adjacency, a: GeoNodeId, b: GeoNodeId)
    requires Symmetric(adj) && Adjacent(adj, a, b) && a != b
    ensures {a, b} in Edges(adj)
    ensures Edges(WithoutEdge(adj, a, b)) == Edges(adj) - {{a, b}}
    ensures |Edges(WithoutEdge(adj, a, b))| == |Edges(adj)| - 1
    ensures Loops(WithoutEdge(adj, a, b)) == Loops(adj)
  {
    var less := WithoutEdge(adj, a, b);
    WithoutEdgeMeaning(adj, a, b);
    EdgeMembership(adj, a, b);
    forall e ensures e in Edges(less) <==> e in Edges(adj) - {{a, b}} {
      if e in Edges(less) {
        var x, y :| x in less && y in less[x] && x != y && e == {x, y};
        assert Adjacent(less, x, y);
        EdgeMembership(adj, x, y);
        PairEquality(x, y, a, b);
      }
      if e in Edges(adj) - {{a, b}} {
        var x, y :| x in adj && y in adj[x] && x != y && e == {x, y};
        assert Adjacent(adj, x, y);
        PairEquality(x, y, a, b);
        EdgeMembership(less, x, y);
      }
    }
    forall x ensures x in Loops(less) <==> x in Loops(adj) {
      assert Adjacent(less, x, x) <==> Adjacent(adj, x, x);
    }
  }

  /** Removing a self-loop removes no edge. */
  lemma SelfLoopGone(adj: Adjacency, a: GeoNodeId)
    requires Symmetric(adj) && Adjacent(adj, a, a)
    ensures Edges(WithoutEdge(adj, a, a)) == Edges(adj)
    ensures |Loops(WithoutEdge(adj, a, a))| == |Loops(adj)| - 1
  {
    var less := WithoutEdge(adj, a, a);
    WithoutEdgeMeaning(adj, a, a);
    forall e ensures e in Edges(less) <==> e in Edges(adj) {
      if e in Edges(less) {
        var x, y :| x in less && y in less[x] && x != y && e == {x, y};
        assert Adjacent(less, x, y);
        EdgeMembership(adj, x, y);
      }
      if e in Edges(adj) {
        var x, y :| x in adj && y in adj[x] && x != y && e == {x, y};
        assert Adjacent(adj, x, y);
        EdgeMembership(less, x, y);
      }
    }
    forall x ensures x in Loops(less) <==> x in Loops(adj) - {a} {
      assert Adjacent(less, x, x) <==> Adjacent(adj, x, x) && x != a;
    }
    assert Loops(less) == Loops(adj) - {a};
  }

  /** What `count_edges` returns: half the degree sum, rounded down. */
  ghost function CountedEdges(adj: Adjacency): nat {
    |Arcs(adj, adj.Keys)| / 2
  }

  /** The count equals the number of edges, self-loops included, exactly when there is no
      self-loop: each edge between two nodes counts for one, two self-loops count for one. */
  lemma CountIsExactWithoutLoops(adj: Adjacency)
    requires Symmetric(adj)
    ensures CountedEdges(adj) == |Edges(adj)| + |Loops(adj)| / 2
    ensures CountedEdges(adj) == |Edges(adj)| + |Loops(adj)| <==> Loops(adj) == {}
  {
    Handshake(adj);
  }

  /** The count misses a lone self-loop. */
  lemma LoneLoopIsNotCounted(a: GeoNodeId)
    ensures var adj := WithEdge(map[], a, a); Adjacent(adj, a, a) && CountedEdges(adj) == 0
  {
    var adj := WithEdge(map[], a, a);
    assert Arcs(adj, adj.Keys) == {(a, a)};
  }
}
