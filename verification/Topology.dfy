/** The undirected graph kept by the topology engine, as a value, and what its shape means. */
module Topology {

  datatype GeoNodeId = GeoNodeId(name: string)

  type Adjacency = map<GeoNodeId, set<GeoNodeId>>

  predicate Adjacent(adj: Adjacency, a: GeoNodeId, b: GeoNodeId) {
    a in adj && b in adj[a]
  }

  /** The invariant of every table that the engine builds. */
  ghost predicate Symmetric(adj: Adjacency) {
    forall a, b :: Adjacent(adj, a, b) ==> Adjacent(adj, b, a)
  }

  // ----- the two updates

  function Insert(adj: Adjacency, a: GeoNodeId, b: GeoNodeId): Adjacency {
    adj[a := (if a in adj then adj[a] else {}) + {b}]
  }

  function Delete(adj: Adjacency, a: GeoNodeId, b: GeoNodeId): Adjacency {
    if a in adj then adj[a := adj[a] - {b}] else adj
  }

  function WithEdge(adj: Adjacency, a: GeoNodeId, b: GeoNodeId): Adjacency {
    Insert(Insert(adj, a, b), b, a)
  }

  function WithoutEdge(adj: Adjacency, a: GeoNodeId, b: GeoNodeId): Adjacency {
    Delete(Delete(adj, a, b), b, a)
  }

  ghost predicate SamePair(x: GeoNodeId, y: GeoNodeId, a: GeoNodeId, b: GeoNodeId) {
    (x == a && y == b) || (x == b && y == a)
  }

  lemma WithEdgeMeaning(adj: Adjacency, a: GeoNodeId, b: GeoNodeId)
    ensures WithEdge(adj, a, b).Keys == adj.Keys + {a, b}
    ensures forall x, y :: Adjacent(WithEdge(adj, a, b), x, y) <==> Adjacent(adj, x, y) || SamePair(x, y, a, b)
    ensures Symmetric(adj) ==> Symmetric(WithEdge(adj, a, b))
  {
  }

  lemma WithoutEdgeMeaning(adj: Adjacency, a: GeoNodeId, b: GeoNodeId)
    ensures WithoutEdge(adj, a, b).Keys == adj.Keys
    ensures forall x, y :: Adjacent(WithoutEdge(adj, a, b), x, y) <==> Adjacent(adj, x, y) && !SamePair(x, y, a, b)
    ensures Symmetric(adj) ==> Symmetric(WithoutEdge(adj, a, b))
  {
  }

  /** Removing an edge that is there, then adding it, gives back the same table. */
  lemma RemoveThenAdd(adj: Adjacency, a: GeoNodeId, b: GeoNodeId)
    requires Symmetric(adj) && Adjacent(adj, a, b)
    ensures WithEdge(WithoutEdge(adj, a, b), a, b) == adj
  {
    assert Adjacent(adj, b, a);
    SameTable(WithEdge(WithoutEdge(adj, a, b), a, b), adj);
  }

  lemma SameTable(left: Adjacency, right: Adjacency)
    requires left.Keys == right.Keys
    requires forall x, y :: Adjacent(left, x, y) <==> Adjacent(right, x, y)
    ensures left == right
  {
    forall x | x in left ensures left[x] == right[x] {
      assert forall y :: y in left[x] <==> Adjacent(left, x, y);
      assert forall y :: y in right[x] <==> Adjacent(right, x, y);
    }
  }

  // ----- runs of updates

  datatype Update = Add(a: GeoNodeId, b: GeoNodeId) | Remove(a: GeoNodeId, b: GeoNodeId)

  function Apply(adj: Adjacency, u: Update): Adjacency {
    match u
    case Add(a, b) => WithEdge(adj, a, b)
    case Remove(a, b) => WithoutEdge(adj, a, b)
  }

  /** The table after a run of updates on an empty engine. */
  function Built(run: seq<Update>): Adjacency {
    if run == [] then map[] else Apply(Built(run[..|run| - 1]), run[|run| - 1])
  }

  /** The last update of the run that names the pair is an `Add`. */
  ghost predicate LastWordIsAdd(run: seq<Update>, x: GeoNodeId, y: GeoNodeId) {
    exists i :: 0 <= i < |run| && run[i].Add? && SamePair(run[i].a, run[i].b, x, y)
             && forall j :: i < j < |run| ==> !SamePair(run[j].a, run[j].b, x, y)
  }

  /** After any run the table is symmetric, it holds exactly the pairs whose last update added
      them, and its keys are all endpoints ever added: removing an edge never forgets a node. */
  lemma {:induction false} BuiltMeaning(run: seq<Update>)
    ensures Symmetric(Built(run))
    ensures forall x, y :: Adjacent(Built(run), x, y) <==> LastWordIsAdd(run, x, y)
    ensures forall x :: x in Built(run) <==> exists i :: 0 <= i < |run| && run[i].Add? && x in {run[i].a, run[i].b}
  {
    if run != [] {
      var n := |run| - 1;
      var before, u := run[..n], run[n];
      BuiltMeaning(before);
      WithEdgeMeaning(Built(before), u.a, u.b);
      WithoutEdgeMeaning(Built(before), u.a, u.b);
      forall x, y ensures LastWordIsAdd(run, x, y) <==>
                          if SamePair(u.a, u.b, x, y) then u.Add? else LastWordIsAdd(before, x, y)
      {
        LastWordStep(run, x, y);
      }
      forall x ensures x in Built(run) <==> exists i :: 0 <= i < |run| && run[i].Add? && x in {run[i].a, run[i].b} {
        if x in Built(run) {
          if x in Built(before) {
            var i :| 0 <= i < |before| && before[i].Add? && x in {before[i].a, before[i].b};
            assert run[i] == before[i];
          } else {
            assert run[n].Add? && x in {run[n].a, run[n].b};
          }
        } else {
          forall i | 0 <= i < |run| && run[i].Add? ensures x !in {run[i].a, run[i].b} {
            if i < n {
              assert run[i] == before[i];
            }
          }
        }
      }
    }
  }

  lemma LastWordStep(run: seq<Update>, x: GeoNodeId, y: GeoNodeId)
    requires run != []
    ensures var n := |run| - 1;
            LastWordIsAdd(run, x, y) <==>
            if SamePair(run[n].a, run[n].b, x, y) then run[n].Add? else LastWordIsAdd(run[..n], x, y)
  {
    var n := |run| - 1;
    var before := run[..n];
    if SamePair(run[n].a, run[n].b, x, y) {
      if run[n].Add? {
        assert LastWordIsAdd(run, x, y);
      }
    } else if LastWordIsAdd(before, x, y) {
      var i :| 0 <= i < |before| && before[i].Add? && SamePair(before[i].a, before[i].b, x, y)
               && forall j :: i < j < |before| ==> !SamePair(before[j].a, before[j].b, x, y);
      assert run[i] == before[i];
      assert forall j :: i < j < n ==> run[j] == before[j];
    }
  }

  // ----- paths and connectedness

  ghost predicate IsPath(adj: Adjacency, p: seq<GeoNodeId>) {
    p != [] && p[0] in adj && (|p| > 1 ==> Adjacent(adj, p[0], p[1]) && IsPath(adj, p[1..]))
  }

  ghost predicate Joins(adj: Adjacency, p: seq<GeoNodeId>, a: GeoNodeId, b: GeoNodeId) {
    IsPath(adj, p) && p[0] == a && p[|p| - 1] == b
  }

  ghost predicate Connected(adj: Adjacency, a: GeoNodeId, b: GeoNodeId) {
    exists p :: Joins(adj, p, a, b)
  }

  lemma ConnectedReflexive(adj: Adjacency, a: GeoNodeId)
    requires a in adj
    ensures Connected(adj, a, a)
  {
    assert Joins(adj, [a], a, a);
  }

  lemma {:induction false} ConnectedTransitive(adj: Adjacency, a: GeoNodeId, b: GeoNodeId, c: GeoNodeId)
    requires Connected(adj, a, b) && Connected(adj, b, c)
    ensures Connected(adj, a, c)
  {
    var p :| Joins(adj, p, a, b);
    var q :| Joins(adj, q, b, c);
    Concatenate(adj, p, q);
  }

  lemma {:induction false} Concatenate(adj: Adjacency, p: seq<GeoNodeId>, q: seq<GeoNodeId>)
    requires IsPath(adj, p) && IsPath(adj, q) && p[|p| - 1] == q[0]
    ensures Joins(adj, p + q[1..], p[0], q[|q| - 1])
  {
    if |p| == 1 {
      assert p + q[1..] == q;
    } else {
      Concatenate(adj, p[1..], q);
      assert (p + q[1..])[1..] == p[1..] + q[1..];
    }
  }

  lemma AdjacentConnected(adj: Adjacency, a: GeoNodeId, b: GeoNodeId)
    requires Symmetric(adj) && Adjacent(adj, a, b)
    ensures Connected(adj, a, b)
  {
    assert Adjacent(adj, b, a);
    assert [a, b][1..] == [b];
    assert Joins(adj, [a, b], a, b);
  }

  lemma {:induction false} ConnectedSymmetric(adj: Adjacency, a: GeoNodeId, b: GeoNodeId)
    requires Symmetric(adj) && Connected(adj, a, b)
    ensures Connected(adj, b, a)
  {
    var p :| Joins(adj, p, a, b);
    Backwards(adj, p);
  }

  lemma {:induction false} Backwards(adj: Adjacency, p: seq<GeoNodeId>)
    requires Symmetric(adj) && IsPath(adj, p)
    ensures Connected(adj, p[|p| - 1], p[0])
  {
    if |p| == 1 {
      ConnectedReflexive(adj, p[0]);
    } else {
      Backwards(adj, p[1..]);
      AdjacentConnected(adj, p[1], p[0]);
      ConnectedTransitive(adj, p[|p| - 1], p[1], p[0]);
    }
  }

  lemma ConnectedKeys(adj: Adjacency, a: GeoNodeId, b: GeoNodeId)
    requires Symmetric(adj) && Connected(adj, a, b)
    ensures a in adj && b in adj
  {
    ConnectedSymmetric(adj, a, b);
  }

  /** A set of nodes that no edge leaves holds everything connected to its members. */
  lemma {:induction false} ClosedSetKeepsPaths(adj: Adjacency, s: set<GeoNodeId>, p: seq<GeoNodeId>)
    requires IsPath(adj, p) && p[0] in s
    requires forall x, y :: x in s && Adjacent(adj, x, y) ==> y in s
    ensures p[|p| - 1] in s
  {
    if |p| > 1 {
      ClosedSetKeepsPaths(adj, s, p[1..]);
    }
  }

  /** A path of a table is a path of every table with more edges. */
  lemma {:induction false} PathInLarger(small: Adjacency, large: Adjacency, p: seq<GeoNodeId>)
    requires small.Keys <= large.Keys && IsPath(small, p)
    requires forall x, y :: Adjacent(small, x, y) ==> Adjacent(large, x, y)
    ensures IsPath(large, p)
  {
    if |p| > 1 {
      PathInLarger(small, large, p[1..]);
    }
  }

  // ----- components

  ghost function ClassOf(adj: Adjacency, a: GeoNodeId): set<GeoNodeId> {
    set b | b in adj && Connected(adj, a, b)
  }

  /** The connected components, as a set of node sets. */
  ghost function Classes(adj: Adjacency): set<set<GeoNodeId>> {
    set a | a in adj :: ClassOf(adj, a)
  }

  lemma SameClass(adj: Adjacency, a: GeoNodeId, b: GeoNodeId)
    requires Symmetric(adj) && a in adj && b in adj
    ensures a in ClassOf(adj, a)
    ensures Connected(adj, a, b) <==> ClassOf(adj, a) == ClassOf(adj, b)
    ensures Connected(adj, a, b) || ClassOf(adj, a) !! ClassOf(adj, b)
  {
    ConnectedReflexive(adj, a);
    ConnectedReflexive(adj, b);
    if Connected(adj, a, b) {
      ConnectedSymmetric(adj, a, b);
      forall x | x in adj ensures Connected(adj, a, x) <==> Connected(adj, b, x) {
        if Connected(adj, a, x) { ConnectedTransitive(adj, b, a, x); }
        if Connected(adj, b, x) { ConnectedTransitive(adj, a, b, x); }
      }
    } else {
      forall x | x in ClassOf(adj, a) ensures x !in ClassOf(adj, b) {
        if Connected(adj, b, x) {
          ConnectedSymmetric(adj, b, x);
          ConnectedTransitive(adj, a, x, b);
        }
      }
    }
  }

  // ----- edges, self-loops and triangles

  /** The unordered pairs of distinct neighbours. */
  ghost function Edges(adj: Adjacency): set<set<GeoNodeId>> {
    set a, b | a in adj && b in adj[a] && a != b :: {a, b}
  }

  ghost function Loops(adj: Adjacency): set<GeoNodeId> {
    set a | a in adj && a in adj[a]
  }

  ghost predicate IsTriangle(adj: Adjacency, a: GeoNodeId, b: GeoNodeId, c: GeoNodeId) {
    a != b && b != c && c != a && Adjacent(adj, a, b) && Adjacent(adj, b, c) && Adjacent(adj, c, a)
  }

  /** The sets of three distinct, pairwise adjacent nodes. */
  ghost function Triangles(adj: Adjacency): set<set<GeoNodeId>> {
    set a, b, c | a in adj && b in adj && c in adj && IsTriangle(adj, a, b, c) :: {a, b, c}
  }
}
