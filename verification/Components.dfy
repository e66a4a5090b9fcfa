/** How adding or removing one edge changes the connected components. */
module Components {
  import opened Topology
  import opened EdgeCount

  /** A way from x to y that takes the new edge once, from a to b. */
  ghost predicate Crosses(adj: Adjacency, a: GeoNodeId, b: GeoNodeId, x: GeoNodeId, y: GeoNodeId) {
    Connected(adj, x, a) && Connected(adj, b, y)
  }

  lemma ConnectedWithEdge(adj: Adjacency, a: GeoNodeId, b: GeoNodeId, x: GeoNodeId, y: GeoNodeId)
    requires Symmetric(adj) && a in adj && b in adj
    ensures Connected(WithEdge(adj, a, b), x, y) <==>
            Connected(adj, x, y) || Crosses(adj, a, b, x, y) || Crosses(adj, b, a, x, y)
  {
    var more := WithEdge(adj, a, b);
    WithEdgeMeaning(adj, a, b);
    if Connected(more, x, y) {
      var p :| Joins(more, p, x, y);
      PathWithEdge(adj, a, b, p);
    }
    StaysConnected(adj, a, b, x, y);
    AdjacentConnected(more, a, b);
    AdjacentConnected(more, b, a);
    if Crosses(adj, a, b, x, y) {
      StaysConnected(adj, a, b, x, a);
      StaysConnected(adj, a, b, b, y);
      ConnectedTransitive(more, x, a, b);
      ConnectedTransitive(more, x, b, y);
    }
    if Crosses(adj, b, a, x, y) {
      StaysConnected(adj, a, b, x, b);
      StaysConnected(adj, a, b, a, y);
      ConnectedTransitive(more, x, b, a);
      ConnectedTransitive(more, x, a, y);
    }
  }

  lemma StaysConnected(adj: Adjacency, a: GeoNodeId, b: GeoNodeId, x: GeoNodeId, y: GeoNodeId)
    ensures Connected(adj, x, y) ==> Connected(WithEdge(adj, a, b), x, y)
  {
    var more := WithEdge(adj, a, b);
    WithEdgeMeaning(adj, a, b);
    if Connected(adj, x, y) {
      var p :| Joins(adj, p, x, y);
      PathInLarger(adj, more, p);
      assert Joins(more, p, x, y);
    }
  }

  lemma {:induction false} PathWithEdge(adj: Adjacency, a: GeoNodeId, b: GeoNodeId, p: seq<GeoNodeId>)
    requires Symmetric(adj) && a in adj && b in adj
    requires IsPath(WithEdge(adj, a, b), p)
    ensures var x, y := p[0], p[|p| - 1];
            Connected(adj, x, y) || Crosses(adj, a, b, x, y) || Crosses(adj, b, a, x, y)
  {
    WithEdgeMeaning(adj, a, b);
    var x := p[0];
    if |p| == 1 {
      ConnectedReflexive(adj, x);
    } else {
      PathWithEdge(adj, a, b, p[1..]);
      var next, y := p[1], p[|p| - 1];
      ConnectedReflexive(adj, x);
      ConnectedReflexive(adj, a);
      ConnectedReflexive(adj, b);
      if Adjacent(adj, x, next) {
        AdjacentConnected(adj, x, next);
        Extend(adj, x, next, y);
        Extend(adj, x, next, a);
        Extend(adj, x, next, b);
      } else {
        assert SamePair(x, next, a, b);
      }
    }
  }

  lemma Extend(adj: Adjacency, x: GeoNodeId, next: GeoNodeId, y: GeoNodeId)
    requires Connected(adj, x, next)
    ensures Connected(adj, next, y) ==> Connected(adj, x, y)
  {
    if Connected(adj, next, y) {
      ConnectedTransitive(adj, x, next, y);
    }
  }

  /** Adding an edge between two existing nodes merges the components of its ends and touches
      no other: the number of components falls by one exactly when the ends were apart. */
  lemma AddingAnEdge(adj: Adjacency, a: GeoNodeId, b: GeoNodeId)
    requires Symmetric(adj) && a in adj && b in adj
    ensures Classes(WithEdge(adj, a, b)) ==
            Classes(adj) - {ClassOf(adj, a), ClassOf(adj, b)} + {ClassOf(adj, a) + ClassOf(adj, b)}
    ensures |Classes(WithEdge(adj, a, b))| == |Classes(adj)| - if Connected(adj, a, b) then 0 else 1
  {
    var more := WithEdge(adj, a, b);
    WithEdgeMeaning(adj, a, b);
    var A, B := ClassOf(adj, a), ClassOf(adj, b);
    forall x | x in adj
      ensures ClassOf(more, x) == if x in A + B then A + B else ClassOf(adj, x)
    {
      ClassAfterAdding(adj, a, b, x);
    }
    ClassesAfterMerge(adj, more, a, b);
    SameClass(adj, a, b);
    SameClass(adj, b, a);
    if !Connected(adj, a, b) {
      UnionIsNoClass(adj, a, b);
    }
    MergeSize(Classes(adj), A, B, Connected(adj, a, b), a, b);
  }

  lemma UnionIsNoClass(adj: Adjacency, a: GeoNodeId, b: GeoNodeId)
    requires Symmetric(adj) && a in adj && b in adj && !Connected(adj, a, b)
    ensures ClassOf(adj, a) + ClassOf(adj, b) !in Classes(adj)
  {
    var union := ClassOf(adj, a) + ClassOf(adj, b);
    SameClass(adj, a, b);
    SameClass(adj, b, a);
    forall x | x in adj ensures ClassOf(adj, x) != union {
      SameClass(adj, x, a);
      SameClass(adj, x, b);
    }
  }

  lemma ClassAfterAdding(adj: Adjacency, a: GeoNodeId, b: GeoNodeId, x: GeoNodeId)
    requires Symmetric(adj) && a in adj && b in adj && x in adj
    ensures var A, B := ClassOf(adj, a), ClassOf(adj, b);
            ClassOf(WithEdge(adj, a, b), x) == if x in A + B then A + B else ClassOf(adj, x)
  {
    var more := WithEdge(adj, a, b);
    WithEdgeMeaning(adj, a, b);
    SameClass(adj, x, a);
    SameClass(adj, x, b);
    SameClass(adj, a, x);
    SameClass(adj, b, x);
    forall y | y in adj
      ensures y in ClassOf(more, x) <==>
              Connected(adj, x, y) || Crosses(adj, a, b, x, y) || Crosses(adj, b, a, x, y)
    {
      ConnectedWithEdge(adj, a, b, x, y);
    }
  }

  lemma ClassesAfterMerge(adj: Adjacency, more: Adjacency, a: GeoNodeId, b: GeoNodeId)
    requires Symmetric(adj) && a in adj && b in adj && more.Keys == adj.Keys
    requires var A, B := ClassOf(adj, a), ClassOf(adj, b);
             forall x :: x in adj ==> ClassOf(more, x) == if x in A + B then A + B else ClassOf(adj, x)
    ensures Classes(more) == Classes(adj) - {ClassOf(adj, a), ClassOf(adj, b)} + {ClassOf(adj, a) + ClassOf(adj, b)}
  {
    var A, B := ClassOf(adj, a), ClassOf(adj, b);
    forall c | c in Classes(more) ensures c in Classes(adj) - {A, B} + {A + B} {
      var x :| x in more && c == ClassOf(more, x);
      if x !in A + B {
        OtherClass(adj, a, b, x);
      }
    }
    forall c | c in Classes(adj) - {A, B} ensures c in Classes(more) {
      var x :| x in adj && c == ClassOf(adj, x);
      OtherClass(adj, a, b, x);
      assert c == ClassOf(more, x);
    }
    SameClass(adj, a, a);
    assert A + B == ClassOf(more, a);
  }

  lemma OtherClass(adj: Adjacency, a: GeoNodeId, b: GeoNodeId, x: GeoNodeId)
    requires Symmetric(adj) && a in adj && b in adj && x in adj
    ensures var A, B := ClassOf(adj, a), ClassOf(adj, b);
            x !in A + B <==> ClassOf(adj, x) !in {A, B}
  {
    SameClass(adj, x, x);
    SameClass(adj, a, x);
    SameClass(adj, b, x);
  }

  lemma MergeSize(classes: set<set<GeoNodeId>>, A: set<GeoNodeId>, B: set<GeoNodeId>, same: bool,
                  a: GeoNodeId, b: GeoNodeId)
    requires A in classes && B in classes && a in A && b in B
    requires if same then A == B else A !! B
    requires !same ==> A + B !in classes
    ensures |classes - {A, B} + {A + B}| == |classes| - if same then 0 else 1
  {
    if same {
      assert A + B == A;
      assert classes - {A, B} + {A + B} == classes;
    } else {
      assert classes - {A, B} == classes - {A} - {B};
    }
  }

  /** Removing an edge leaves the number of components as it was when its ends stay connected,
      and raises it by exactly one when they do not. */
  lemma RemovingAnEdge(adj: Adjacency, a: GeoNodeId, b: GeoNodeId)
    requires Symmetric(adj) && Adjacent(adj, a, b)
    ensures var less := WithoutEdge(adj, a, b);
            |Classes(less)| == |Classes(adj)| + if Connected(less, a, b) then 0 else 1
  {
    var less := WithoutEdge(adj, a, b);
    WithoutEdgeMeaning(adj, a, b);
    assert Adjacent(adj, b, a);
    RemoveThenAdd(adj, a, b);
    AddingAnEdge(less, a, b);
  }

  // ----- nodes that the edge brings with it

  function WithNode(adj: Adjacency, x: GeoNodeId): Adjacency {
    if x in adj then adj else adj[x := {}]
  }

  lemma {:induction false} PathWithoutNode(adj: Adjacency, x: GeoNodeId, p: seq<GeoNodeId>)
    requires Symmetric(adj) && IsPath(WithNode(adj, x), p) && p[0] in adj
    ensures IsPath(adj, p)
  {
    if |p| > 1 {
      assert Adjacent(adj, p[0], p[1]) && Adjacent(adj, p[1], p[0]);
      PathWithoutNode(adj, x, p[1..]);
    }
  }

  lemma WithNodeMeaning(adj: Adjacency, x: GeoNodeId)
    ensures WithNode(adj, x).Keys == adj.Keys + {x}
    ensures forall a, b :: Adjacent(WithNode(adj, x), a, b) <==> Adjacent(adj, a, b)
    ensures Symmetric(adj) ==> Symmetric(WithNode(adj, x))
  {
    var more := WithNode(adj, x);
    forall a, b ensures Adjacent(more, a, b) <==> Adjacent(adj, a, b) {
    }
  }

  /** A new node without edges is connected to itself only, and connects no others. */
  lemma NewNodeConnections(adj: Adjacency, x: GeoNodeId, a: GeoNodeId, b: GeoNodeId)
    requires Symmetric(adj) && x !in adj
    ensures a in adj ==> (Connected(WithNode(adj, x), a, b) <==> Connected(adj, a, b))
    ensures Connected(WithNode(adj, x), x, b) <==> b == x
  {
    var more := WithNode(adj, x);
    WithNodeMeaning(adj, x);
    ConnectedReflexive(more, x);
    if a in adj && Connected(more, a, b) {
      var p :| Joins(more, p, a, b);
      PathWithoutNode(adj, x, p);
      assert Joins(adj, p, a, b);
    }
    if Connected(adj, a, b) {
      var p :| Joins(adj, p, a, b);
      PathInLarger(adj, more, p);
      assert Joins(more, p, a, b);
    }
    if Connected(more, x, b) {
      var p :| Joins(more, p, x, b);
      ClosedSetKeepsPaths(more, {x}, p);
    }
  }

  lemma NewNodeClasses(adj: Adjacency, x: GeoNodeId)
    requires Symmetric(adj) && x !in adj
    ensures Classes(WithNode(adj, x)) == Classes(adj) + {{x}}
    ensures {x} !in Classes(adj)
  {
    var more := WithNode(adj, x);
    forall a | a in more ensures ClassOf(more, a) == if a == x then {x} else ClassOf(adj, a) {
      forall b | b in more ensures b in ClassOf(more, a) <==> b in if a == x then {x} else ClassOf(adj, a) {
        NewNodeConnections(adj, x, a, b);
        if Connected(adj, a, b) { ConnectedKeys(adj, a, b); }
      }
    }
    forall c | c in Classes(adj) + {{x}} ensures c in Classes(more) {
      if c in Classes(adj) {
        var a :| a in adj && c == ClassOf(adj, a);
        assert c == ClassOf(more, a);
      } else {
        assert c == ClassOf(more, x);
      }
    }
    assert forall a :: a in adj ==> x !in ClassOf(adj, a);
  }

  lemma WithEdgeAfterNodes(adj: Adjacency, a: GeoNodeId, b: GeoNodeId)
    ensures WithEdge(WithNode(WithNode(adj, a), b), a, b) == WithEdge(adj, a, b)
  {
    var nodes := WithNode(WithNode(adj, a), b);
    WithEdgeMeaning(adj, a, b);
    WithEdgeMeaning(nodes, a, b);
    SameTable(WithEdge(nodes, a, b), WithEdge(adj, a, b));
  }

  lemma WithNodeClasses(adj: Adjacency, x: GeoNodeId)
    requires Symmetric(adj)
    ensures Symmetric(WithNode(adj, x))
    ensures forall a, b :: a != b ==> (Connected(WithNode(adj, x), a, b) <==> Connected(adj, a, b))
    ensures |Classes(WithNode(adj, x))| == |Classes(adj)| + if x in adj then 0 else 1
  {
    WithNodeMeaning(adj, x);
    if x !in adj {
      NewNodeClasses(adj, x);
      forall a, b | a != b ensures Connected(WithNode(adj, x), a, b) <==> Connected(adj, a, b) {
        NewNodeConnections(adj, x, a, b);
        if Connected(WithNode(adj, x), a, b) { ConnectedKeys(WithNode(adj, x), a, b); }
        if Connected(adj, a, b) { ConnectedKeys(adj, a, b); }
      }
    }
  }

  // ----- the two updates, as the engine's counters see them

  /** Adding an absent edge between two distinct nodes, old or new, raises the edge count by one.
      Each new node brings a component, and the two ends' components become one. */
  lemma AddEdgeEffect(adj: Adjacency, a: GeoNodeId, b: GeoNodeId)
    requires Symmetric(adj) && a != b && !Adjacent(adj, a, b)
    ensures CountedEdges(WithEdge(adj, a, b)) == CountedEdges(adj) + 1
    ensures |Classes(WithEdge(adj, a, b))| ==
            |Classes(adj)| + (if a in adj then 0 else 1) + (if b in adj then 0 else 1)
            - if Connected(adj, a, b) then 0 else 1
  {
    AddedEdgeIsCounted(adj, a, b);
    WithNodeClasses(adj, a);
    var one := WithNode(adj, a);
    assert b in one <==> b in adj;
    WithNodeClasses(one, b);
    var both := WithNode(one, b);
    WithEdgeAfterNodes(adj, a, b);
    assert Connected(both, a, b) <==> Connected(one, a, b);
    AddingAnEdge(both, a, b);
  }

  lemma AddedEdgeIsCounted(adj: Adjacency, a: GeoNodeId, b: GeoNodeId)
    requires Symmetric(adj) && a != b && !Adjacent(adj, a, b)
    ensures CountedEdges(WithEdge(adj, a, b)) == CountedEdges(adj) + 1
  {
    var more := WithEdge(adj, a, b);
    WithEdgeMeaning(adj, a, b);
    assert Adjacent(more, a, b) && !Adjacent(adj, b, a);
    WithoutEdgeMeaning(more, a, b);
    EdgeGone(more, a, b);
    SameEdges(adj, WithoutEdge(more, a, b));
    CountIsExactWithoutLoops(adj);
    CountIsExactWithoutLoops(more);
  }

  lemma SameEdges(left: Adjacency, right: Adjacency)
    requires forall x, y :: Adjacent(left, x, y) <==> Adjacent(right, x, y)
    ensures Edges(left) == Edges(right) && Loops(left) == Loops(right)
  {
    forall e ensures e in Edges(left) <==> e in Edges(right) {
      if e in Edges(left) {
        var a, b :| a in left && b in left[a] && a != b && e == {a, b};
        assert Adjacent(right, a, b);
      }
      if e in Edges(right) {
        var a, b :| a in right && b in right[a] && a != b && e == {a, b};
        assert Adjacent(left, a, b);
      }
    }
    assert forall a :: a in Loops(left) <==> Adjacent(left, a, a);
    assert forall a :: a in Loops(right) <==> Adjacent(right, a, a);
  }

  /** Removing an edge between two distinct nodes lowers the edge count by one, and adds a
      component exactly when the ends fall apart. */
  lemma RemoveEdgeEffect(adj: Adjacency, a: GeoNodeId, b: GeoNodeId)
    requires Symmetric(adj) && a != b && Adjacent(adj, a, b)
    ensures CountedEdges(WithoutEdge(adj, a, b)) == CountedEdges(adj) - 1
    ensures |Classes(WithoutEdge(adj, a, b))| ==
            |Classes(adj)| + if Connected(WithoutEdge(adj, a, b), a, b) then 0 else 1
  {
    WithoutEdgeMeaning(adj, a, b);
    EdgeGone(adj, a, b);
    CountIsExactWithoutLoops(adj);
    CountIsExactWithoutLoops(WithoutEdge(adj, a, b));
    RemovingAnEdge(adj, a, b);
  }
}
