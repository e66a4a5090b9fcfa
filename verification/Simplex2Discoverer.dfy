/** The topology engine: a mutable adjacency table and the four analyses that read it. */
module Simplex2Discoverers {
  import opened Sequences
  import opened Topology
  import opened EdgeCount
  import opened Forests

  // ----- what a listing of the components is

  function PartSets(parts: seq<seq<GeoNodeId>>): seq<set<GeoNodeId>> {
    seq(|parts|, i requires 0 <= i < |parts| => set x | x in parts[i])
  }

  /** Every connected component exactly once, each as a list without repetition. */
  ghost predicate ListsComponents(adj: Adjacency, parts: seq<seq<GeoNodeId>>) {
    && (forall part :: part in parts ==> Distinct(part))
    && Distinct(PartSets(parts))
    && Elements(PartSets(parts)) == Classes(adj)
  }

  /** Read node by node: no list is empty, no node is in two, every node is in one, and two
      nodes share a list exactly when a path joins them. The number of lists is fixed by the graph. */
  lemma ComponentsMeaning(adj: Adjacency, parts: seq<seq<GeoNodeId>>)
    requires Symmetric(adj) && ListsComponents(adj, parts)
    ensures |parts| == |Classes(adj)|
    ensures forall i :: 0 <= i < |parts| ==> parts[i] != []
    ensures forall i, j :: 0 <= i < j < |parts| ==> Elements(parts[i]) !! Elements(parts[j])
    ensures forall a :: a in adj <==> exists part :: part in parts && a in part
    ensures forall part, a, b :: part in parts && a in part ==> (b in part <==> Connected(adj, a, b))
  {
    var sets := PartSets(parts);
    DistinctSize(sets);
    forall i | 0 <= i < |parts| ensures parts[i] != [] {
      var a := PartIsClass(adj, parts, i);
      SameClass(adj, a, a);
    }
    forall i, j | 0 <= i < j < |parts| ensures Elements(parts[i]) !! Elements(parts[j]) {
      var a := PartIsClass(adj, parts, i);
      var b := PartIsClass(adj, parts, j);
      assert sets[i] != sets[j];
      SameClass(adj, a, b);
    }
    forall a ensures a in adj <==> exists part :: part in parts && a in part {
      if a in adj {
        SameClass(adj, a, a);
        assert ClassOf(adj, a) in Elements(sets);
        var i :| 0 <= i < |sets| && sets[i] == ClassOf(adj, a);
        assert a in parts[i];
      }
      if part :| part in parts && a in part {
        var i :| 0 <= i < |parts| && parts[i] == part;
        var x := PartIsClass(adj, parts, i);
        assert a in ClassOf(adj, x);
      }
    }
    forall part, a, b | part in parts && a in part ensures b in part <==> Connected(adj, a, b) {
      var i :| 0 <= i < |parts| && parts[i] == part;
      var x := PartIsClass(adj, parts, i);
      assert a in ClassOf(adj, x);
      SameClass(adj, x, a);
      assert b in part <==> b in ClassOf(adj, a);
      if Connected(adj, a, b) { ConnectedKeys(adj, a, b); }
    }
  }

  lemma PartIsClass(adj: Adjacency, parts: seq<seq<GeoNodeId>>, i: nat) returns (a: GeoNodeId)
    requires ListsComponents(adj, parts) && i < |parts|
    ensures a in adj && Elements(parts[i]) == ClassOf(adj, a)
  {
    var c := PartSets(parts)[i];
    assert c in Elements(PartSets(parts));
    a :| a in adj && c == ClassOf(adj, a);
  }

  // ----- what a listing of the triangles is

  type Triple = (GeoNodeId, GeoNodeId, GeoNodeId)

  function Corners(t: Triple): set<GeoNodeId> {
    {t.0, t.1, t.2}
  }

  function CornerSets(found: seq<Triple>): seq<set<GeoNodeId>> {
    seq(|found|, n requires 0 <= n < |found| => Corners(found[n]))
  }

  /** Every set of three distinct, pairwise adjacent nodes exactly once, and nothing else. */
  ghost predicate ListsTriangles(adj: Adjacency, found: seq<Triple>) {
    && (forall t :: t in found ==> IsTriangle(adj, t.0, t.1, t.2))
    && Distinct(CornerSets(found))
    && Elements(CornerSets(found)) == Triangles(adj)
  }

  class Simplex2Discoverer {
    var adjacency: Adjacency

    ghost predicate Valid()
      reads this
    {
      Symmetric(adjacency)
    }

    constructor ()
      ensures Valid() && adjacency == map[]
    {
      adjacency := map[];
    }

    method AddEdge(a: GeoNodeId, b: GeoNodeId)
      requires Valid()
      modifies this
      ensures Valid() && adjacency == WithEdge(old(adjacency), a, b)
      ensures adjacency.Keys == old(adjacency).Keys + {a, b}
      ensures forall x, y :: Adjacent(adjacency, x, y) <==> Adjacent(old(adjacency), x, y) || SamePair(x, y, a, b)
    {
      adjacency := adjacency[a := (if a in adjacency then adjacency[a] else {}) + {b}];
      adjacency := adjacency[b := (if b in adjacency then adjacency[b] else {}) + {a}];
      WithEdgeMeaning(old(adjacency), a, b);
    }

    method RemoveEdge(a: GeoNodeId, b: GeoNodeId)
      requires Valid()
      modifies this
      ensures Valid() && adjacency == WithoutEdge(old(adjacency), a, b)
      ensures adjacency.Keys == old(adjacency).Keys
      ensures forall x, y :: Adjacent(adjacency, x, y) <==> Adjacent(old(adjacency), x, y) && !SamePair(x, y, a, b)
    {
      if a in adjacency {
        adjacency := adjacency[a := adjacency[a] - {b}];
      }
      if b in adjacency {
        adjacency := adjacency[b := adjacency[b] - {a}];
      }
      WithoutEdgeMeaning(old(adjacency), a, b);
    }

    predicate IsConnected(a: GeoNodeId, b: GeoNodeId)
      reads this
    {
      if a in adjacency then b in adjacency[a] else false
    }

    /** Every triple of distinct, pairwise adjacent nodes once, whatever the walk order. */
    method FindTriangles() returns (triangles: seq<Triple>)
      requires Valid()
      ensures ListsTriangles(adjacency, triangles)
      ensures |triangles| == |Triangles(adjacency)|
    {
      triangles := [];
      var nodes := Enumerate(adjacency.Keys);
      SearchStart(adjacency, nodes);
      for i := 0 to |nodes|
        invariant Searched(adjacency, nodes, triangles, i, 0, 0)
      {
        RowStart(adjacency, nodes, triangles, i);
        for j := i + 1 to |nodes|
          invariant Searched(adjacency, nodes, triangles, i, j, 0)
        {
          PairStart(adjacency, nodes, triangles, i, j);
          for k := j + 1 to |nodes|
            invariant Searched(adjacency, nodes, triangles, i, j, k)
          {
            var a, b, c := nodes[i], nodes[j], nodes[k];
            var isTriangle := IsConnected(a, b) && IsConnected(b, c) && IsConnected(c, a);
            SearchStep(adjacency, nodes, triangles, i, j, k);
            if isTriangle {
              triangles := triangles + [(a, b, c)];
            }
          }
          PairEnd(adjacency, nodes, triangles, i, j);
        }
        RowEnd(adjacency, nodes, triangles, i);
      }
      SearchListsTriangles(adjacency, nodes, triangles);
    }

    method CountEdges() returns (count: nat)
      requires Valid()
      ensures count == CountedEdges(adjacency) == |Edges(adjacency)| + |Loops(adjacency)| / 2
    {
      count := 0;
      var nodes := Enumerate(adjacency.Keys);
      for i := 0 to |nodes|
        invariant Elements(nodes[..i]) <= adjacency.Keys
        invariant count == |Arcs(adjacency, Elements(nodes[..i]))|
      {
        assert Elements(nodes[..i + 1]) == Elements(nodes[..i]) + {nodes[i]};
        assert nodes[i] !in nodes[..i];
        ArcsOfOneMore(adjacency, Elements(nodes[..i]), nodes[i]);
        count := count + |adjacency[nodes[i]]|;
      }
      assert nodes[..|nodes|] == nodes;
      count := count / 2;
      CountIsExactWithoutLoops(adjacency);
    }

    method BettiNumber() returns (betti: int)
      requires Valid()
      ensures betti == Betti(adjacency)
    {
      var triangles := FindTriangles();
      var edges := CountEdges();
      var nodes := |adjacency|;
      if nodes > 0 {
        betti := edges - nodes + |triangles| + 1;
      } else {
        betti := 0;
      }
    }

    /** Lists exactly the connected components, whatever the walk order. */
    method Partitions() returns (parts: seq<seq<GeoNodeId>>)
      requires Valid()
      ensures ListsComponents(adjacency, parts)
    {
      var visited: set<GeoNodeId> := {};
      parts := [];
      var nodes := Enumerate(adjacency.Keys);
      for i := 0 to |nodes|
        invariant visited <= adjacency.Keys && Elements(nodes[..i]) <= visited
        invariant Closed(adjacency, visited)
        invariant ListsClasses(adjacency, parts, visited)
      {
        if nodes[i] !in visited {
          ghost var seen := visited;
          var component: seq<GeoNodeId> := [];
          visited, component := DfsCollect(nodes[i], visited, component);
          assert component == component[0..];
          assert nodes[i] in Elements(component);
          ComponentIsClass(adjacency, nodes[i], seen, visited, component);
          OneMoreClass(adjacency, nodes[i], parts, seen, visited, component);
          parts := parts + [component];
        }
        assert Elements(nodes[..i + 1]) == Elements(nodes[..i]) + {nodes[i]};
      }
      assert nodes[..|nodes|] == nodes;
    }

    /** Visits `node` and everything reachable from it through nodes not yet visited. */
    method DfsCollect(node: GeoNodeId, visited: set<GeoNodeId>, component: seq<GeoNodeId>)
      returns (visited': set<GeoNodeId>, component': seq<GeoNodeId>)
      requires Valid() && node in adjacency && node !in visited && visited <= adjacency.Keys
      ensures visited < visited' <= adjacency.Keys && node in visited'
      ensures component <= component'
      ensures var added := component'[|component|..];
              Distinct(added) && Elements(added) == visited' - visited
      ensures forall x :: x in visited' - visited ==> Connected(adjacency, node, x)
      ensures forall x, y :: x in visited' - visited && Adjacent(adjacency, x, y) ==> y in visited'
      decreases adjacency.Keys - visited
    {
      visited' := visited + {node};
      component' := component + [node];
      assert component'[|component|..] == [node];
      ConnectedReflexive(adjacency, node);
      if node in adjacency {
        var neighbors := adjacency[node];
        while neighbors != {}
          invariant neighbors <= adjacency[node]
          invariant visited < visited' <= adjacency.Keys && node in visited'
          invariant component <= component'
          invariant Distinct(component'[|component|..])
          invariant Elements(component'[|component|..]) == visited' - visited
          invariant forall x :: x in visited' - visited ==> Connected(adjacency, node, x)
          invariant forall x, y :: x in visited' - visited && x != node && Adjacent(adjacency, x, y) ==> y in visited'
          invariant forall y :: y in adjacency[node] - neighbors ==> y in visited'
          decreases neighbors
        {
          var neighbor :| neighbor in neighbors;
          neighbors := neighbors - {neighbor};
          assert Adjacent(adjacency, node, neighbor) && Adjacent(adjacency, neighbor, node);
          if neighbor !in visited' {
            ghost var before, collected := visited', component';
            visited', component' := DfsCollect(neighbor, visited', component');
            AddedGrows(component, collected, component', visited, before, visited');
            AdjacentConnected(adjacency, node, neighbor);
            forall x | x in visited' - before ensures Connected(adjacency, node, x) {
              ConnectedTransitive(adjacency, node, neighbor, x);
            }
          }
        }
      }
    }
  }

  // ----- the search for triangles

  predicate Before(s: Index, t: Index) {
    s.0 < t.0 || (s.0 == t.0 && (s.1 < t.1 || (s.1 == t.1 && s.2 < t.2)))
  }

  type Index = (int, int, int)

  predicate InOrder(nodes: seq<GeoNodeId>, t: Index) {
    0 <= t.0 < t.1 < t.2 < |nodes|
  }

  function TripleAt(nodes: seq<GeoNodeId>, t: Index): Triple
    requires InOrder(nodes, t)
  {
    (nodes[t.0], nodes[t.1], nodes[t.2])
  }

  ghost predicate IsHit(adj: Adjacency, nodes: seq<GeoNodeId>, t: Index) {
    InOrder(nodes, t) && var (a, b, c) := TripleAt(nodes, t); IsTriangle(adj, a, b, c)
  }

  /** The increasing index triples before `bound` at which there is a triangle. */
  ghost function Hits(adj: Adjacency, nodes: seq<GeoNodeId>, bound: Index): set<Index> {
    set x, y, z | 0 <= x < |nodes| && 0 <= y < |nodes| && 0 <= z < |nodes|
                  && IsHit(adj, nodes, (x, y, z)) && Before((x, y, z), bound) :: (x, y, z)
  }

  ghost function HitCorners(adj: Adjacency, nodes: seq<GeoNodeId>, hits: set<Index>): set<set<GeoNodeId>> {
    set t | t in hits && InOrder(nodes, t) :: Corners(TripleAt(nodes, t))
  }

  lemma HitsMeaning(adj: Adjacency, nodes: seq<GeoNodeId>, bound: Index)
    ensures forall t :: t in Hits(adj, nodes, bound) <==> IsHit(adj, nodes, t) && Before(t, bound)
  {
    forall t | IsHit(adj, nodes, t) && Before(t, bound) ensures t in Hits(adj, nodes, bound) {
      var (x, y, z) := t;
      assert (x, y, z) in Hits(adj, nodes, bound);
    }
  }

  ghost predicate Searched(adj: Adjacency, nodes: seq<GeoNodeId>, found: seq<Triple>, i: int, j: int, k: int) {
    && (forall t :: t in found ==> IsTriangle(adj, t.0, t.1, t.2))
    && Distinct(CornerSets(found))
    && Elements(CornerSets(found)) == HitCorners(adj, nodes, Hits(adj, nodes, (i, j, k)))
  }

  /** A bound may move past index triples that are out of range or out of order. */
  lemma Skip(adj: Adjacency, nodes: seq<GeoNodeId>, from: Index, to: Index)
    requires forall t :: InOrder(nodes, t) ==> (Before(t, to) <==> Before(t, from))
    ensures Hits(adj, nodes, to) == Hits(adj, nodes, from)
  {
    HitsMeaning(adj, nodes, from);
    HitsMeaning(adj, nodes, to);
  }

  lemma SearchStart(adj: Adjacency, nodes: seq<GeoNodeId>)
    ensures Searched(adj, nodes, [], 0, 0, 0)
  {
    HitsMeaning(adj, nodes, (0, 0, 0));
    assert Hits(adj, nodes, (0, 0, 0)) == {};
  }

  lemma RowStart(adj: Adjacency, nodes: seq<GeoNodeId>, found: seq<Triple>, i: nat)
    requires Searched(adj, nodes, found, i, 0, 0)
    ensures Searched(adj, nodes, found, i, i + 1, 0)
  {
    Skip(adj, nodes, (i, 0, 0), (i, i + 1, 0));
  }

  lemma RowEnd(adj: Adjacency, nodes: seq<GeoNodeId>, found: seq<Triple>, i: nat)
    requires Searched(adj, nodes, found, i, |nodes|, 0)
    ensures Searched(adj, nodes, found, i + 1, 0, 0)
  {
    Skip(adj, nodes, (i, |nodes|, 0), (i + 1, 0, 0));
  }

  lemma PairStart(adj: Adjacency, nodes: seq<GeoNodeId>, found: seq<Triple>, i: nat, j: nat)
    requires Searched(adj, nodes, found, i, j, 0)
    ensures Searched(adj, nodes, found, i, j, j + 1)
  {
    Skip(adj, nodes, (i, j, 0), (i, j, j + 1));
  }

  lemma PairEnd(adj: Adjacency, nodes: seq<GeoNodeId>, found: seq<Triple>, i: nat, j: nat)
    requires Searched(adj, nodes, found, i, j, |nodes|)
    ensures Searched(adj, nodes, found, i, j + 1, 0)
  {
    Skip(adj, nodes, (i, j, |nodes|), (i, j + 1, 0));
  }

  lemma SearchStep(adj: Adjacency, nodes: seq<GeoNodeId>, found: seq<Triple>, i: nat, j: nat, k: nat)
    requires Distinct(nodes) && i < j < k < |nodes| && Searched(adj, nodes, found, i, j, k)
    ensures var a, b, c := nodes[i], nodes[j], nodes[k];
            if Adjacent(adj, a, b) && Adjacent(adj, b, c) && Adjacent(adj, c, a) then
              Searched(adj, nodes, found + [(a, b, c)], i, j, k + 1)
            else
              Searched(adj, nodes, found, i, j, k + 1)
  {
    var a, b, c := nodes[i], nodes[j], nodes[k];
    var t := (i, j, k);
    var before, after := Hits(adj, nodes, (i, j, k)), Hits(adj, nodes, (i, j, k + 1));
    HitsStep(adj, nodes, i, j, k);
    if IsHit(adj, nodes, t) {
      assert after == before + {t};
      assert HitCorners(adj, nodes, after) == HitCorners(adj, nodes, before) + {{a, b, c}};
      NewTriangle(adj, nodes, t);
      DistinctAppend(CornerSets(found), {a, b, c});
      assert CornerSets(found + [(a, b, c)]) == CornerSets(found) + [{a, b, c}];
    }
  }

  lemma HitsStep(adj: Adjacency, nodes: seq<GeoNodeId>, i: nat, j: nat, k: nat)
    ensures Hits(adj, nodes, (i, j, k + 1)) ==
            Hits(adj, nodes, (i, j, k)) + if IsHit(adj, nodes, (i, j, k)) then {(i, j, k)} else {}
  {
    HitsMeaning(adj, nodes, (i, j, k));
    HitsMeaning(adj, nodes, (i, j, k + 1));
    forall t: Index ensures Before(t, (i, j, k + 1)) <==> Before(t, (i, j, k)) || t == (i, j, k) {
      assert t == (t.0, t.1, t.2);
    }
  }

  lemma NewTriangle(adj: Adjacency, nodes: seq<GeoNodeId>, t: Index)
    requires Distinct(nodes) && InOrder(nodes, t)
    ensures Corners(TripleAt(nodes, t)) !in HitCorners(adj, nodes, Hits(adj, nodes, t))
  {
    HitsMeaning(adj, nodes, t);
    forall s | s in Hits(adj, nodes, t) ensures Corners(TripleAt(nodes, s)) != Corners(TripleAt(nodes, t)) {
      CornersDiffer(nodes, s, t);
    }
  }

  lemma CornersDiffer(nodes: seq<GeoNodeId>, s: Index, t: Index)
    requires Distinct(nodes) && s != t && InOrder(nodes, s) && InOrder(nodes, t)
    ensures Corners(TripleAt(nodes, s)) != Corners(TripleAt(nodes, t))
  {
    var S, T := Corners(TripleAt(nodes, s)), Corners(TripleAt(nodes, t));
    if s.0 !in {t.0, t.1, t.2} {
      assert nodes[s.0] in S && nodes[s.0] !in T;
    } else if s.1 !in {t.0, t.1, t.2} {
      assert nodes[s.1] in S && nodes[s.1] !in T;
    } else {
      assert nodes[s.2] in S && nodes[s.2] !in T;
    }
  }

  lemma AllTrianglesFound(adj: Adjacency, nodes: seq<GeoNodeId>)
    requires Symmetric(adj) && Elements(nodes) == adj.Keys
    ensures HitCorners(adj, nodes, Hits(adj, nodes, (|nodes|, 0, 0))) == Triangles(adj)
  {
    var hits := Hits(adj, nodes, (|nodes|, 0, 0));
    HitsMeaning(adj, nodes, (|nodes|, 0, 0));
    forall e ensures e in HitCorners(adj, nodes, hits) <==> e in Triangles(adj) {
      if e in HitCorners(adj, nodes, hits) {
        var t :| t in hits && e == Corners(TripleAt(nodes, t));
        var (a, b, c) := TripleAt(nodes, t);
        assert IsTriangle(adj, a, b, c);
      }
      if e in Triangles(adj) {
        var a, b, c :| a in adj && b in adj && c in adj && IsTriangle(adj, a, b, c) && e == {a, b, c};
        var t := TriangleIndex(adj, nodes, a, b, c);
        assert t in hits;
      }
    }
  }

  /** When the search is over, all triangles are listed. */
  lemma SearchListsTriangles(adj: Adjacency, nodes: seq<GeoNodeId>, found: seq<Triple>)
    requires Symmetric(adj) && Elements(nodes) == adj.Keys && Searched(adj, nodes, found, |nodes|, 0, 0)
    ensures ListsTriangles(adj, found) && |found| == |Triangles(adj)|
  {
    AllTrianglesFound(adj, nodes);
    DistinctSize(CornerSets(found));
  }

  lemma TriangleIndex(adj: Adjacency, nodes: seq<GeoNodeId>, a: GeoNodeId, b: GeoNodeId, c: GeoNodeId) returns (t: Index)
    requires Symmetric(adj) && Elements(nodes) == adj.Keys && IsTriangle(adj, a, b, c)
    ensures IsHit(adj, nodes, t) && Corners(TripleAt(nodes, t)) == {a, b, c}
  {
    assert a in Elements(nodes) && b in Elements(nodes) && c in Elements(nodes);
    var x :| 0 <= x < |nodes| && nodes[x] == a;
    var y :| 0 <= y < |nodes| && nodes[y] == b;
    var z :| 0 <= z < |nodes| && nodes[z] == c;
    assert Adjacent(adj, b, a) && Adjacent(adj, c, b) && Adjacent(adj, a, c);
    t := if x < y < z then (x, y, z) else if x < z < y then (x, z, y) else if y < x < z then (y, x, z)
         else if y < z < x then (y, z, x) else if z < x < y then (z, x, y) else (z, y, x);
  }

  // ----- the search for components

  /** No edge leaves `visited`. */
  ghost predicate Closed(adj: Adjacency, visited: set<GeoNodeId>) {
    forall x, y :: x in visited && Adjacent(adj, x, y) ==> y in visited
  }

  /** `parts` lists the components of the visited nodes. */
  ghost predicate ListsClasses(adj: Adjacency, parts: seq<seq<GeoNodeId>>, visited: set<GeoNodeId>) {
    && (forall part :: part in parts ==> Distinct(part))
    && Distinct(PartSets(parts))
    && Elements(PartSets(parts)) == set a | a in visited :: ClassOf(adj, a)
  }

  lemma AddedGrows(base: seq<GeoNodeId>, mid: seq<GeoNodeId>, end: seq<GeoNodeId>,
                   v0: set<GeoNodeId>, v1: set<GeoNodeId>, v2: set<GeoNodeId>)
    requires base <= mid <= end && v0 <= v1 <= v2
    requires Distinct(mid[|base|..]) && Elements(mid[|base|..]) == v1 - v0
    requires Distinct(end[|mid|..]) && Elements(end[|mid|..]) == v2 - v1
    ensures Distinct(end[|base|..]) && Elements(end[|base|..]) == v2 - v0
  {
    var left, right := mid[|base|..], end[|mid|..];
    var both := left + right;
    assert end[|base|..] == both;
    forall x ensures x in both <==> x in Elements(left) + Elements(right) {
      assert x in both <==> x in left || x in right;
    }
    forall i, j | 0 <= i < j < |both| ensures both[i] != both[j] {
      if i < |left| <= j {
        assert left[i] in Elements(left) && right[j - |left|] in Elements(right);
      } else if |left| <= i {
        assert right[i - |left|] != right[j - |left|];
      }
    }
  }

  lemma ComponentIsClass(adj: Adjacency, node: GeoNodeId, seen: set<GeoNodeId>, visited: set<GeoNodeId>,
                         component: seq<GeoNodeId>)
    requires Symmetric(adj) && Closed(adj, seen) && node in adj && node !in seen
    requires seen < visited <= adj.Keys && node in visited && Elements(component) == visited - seen
    requires forall x :: x in visited - seen ==> Connected(adj, node, x)
    requires forall x, y :: x in visited - seen && Adjacent(adj, x, y) ==> y in visited
    ensures Closed(adj, visited)
    ensures Elements(component) == ClassOf(adj, node)
  {
    forall b | b in ClassOf(adj, node) ensures b in visited - seen {
      var p :| Joins(adj, p, node, b);
      ClosedSetKeepsPaths(adj, visited, p);
      if b in seen {
        ConnectedSymmetric(adj, node, b);
        var q :| Joins(adj, q, b, node);
        ClosedSetKeepsPaths(adj, seen, q);
      }
    }
  }

  lemma OneMoreClass(adj: Adjacency, node: GeoNodeId, parts: seq<seq<GeoNodeId>>,
                     seen: set<GeoNodeId>, visited: set<GeoNodeId>, component: seq<GeoNodeId>)
    requires Symmetric(adj) && ListsClasses(adj, parts, seen) && seen <= visited <= adj.Keys && node in visited - seen
    requires Distinct(component) && Elements(component) == visited - seen == ClassOf(adj, node)
    ensures ListsClasses(adj, parts + [component], visited)
  {
    var sets := PartSets(parts);
    var c := ClassOf(adj, node);
    forall a | a in seen ensures ClassOf(adj, a) != c {
      SameClass(adj, a, a);
    }
    forall a | a in visited - seen ensures ClassOf(adj, a) == c {
      SameClass(adj, node, a);
    }
    assert c !in Elements(sets);
    DistinctAppend(sets, c);
    assert PartSets(parts + [component]) == sets + [c] by {
      assert (set x | x in component) == Elements(component);
    }
    assert (set a | a in visited :: ClassOf(adj, a)) == (set a | a in seen :: ClassOf(adj, a)) + {c};
  }
}
