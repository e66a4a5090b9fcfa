/** The graph store and idempotent submission, one call after the other. */
module GraphStores {
  import opened Graphs

  datatype Store = Store(graphs: map<GraphId, Graph>, keys: map<string, GraphId>)

  datatype Request = Request(graph: Graph, key: Option<string>)

  class GraphStore {
    var graphs: map<GraphId, Graph>
    var idempotencyKeys: map<string, GraphId>

    ghost function View(): Store
      reads this
    {
      Store(graphs, idempotencyKeys)
    }

    constructor ()
      ensures View() == Store(map[], map[])
    {
      graphs, idempotencyKeys := map[], map[];
    }

    method CreateGraph(graph: Graph) returns (id: GraphId)
      modifies this
      ensures View() == old(View()).(graphs := old(graphs)[graph.id := graph]) && id == graph.id
    {
      graphs := graphs[graph.id := graph];
      id := graph.id;
    }

    method UpdateStatus(id: GraphId, status: GraphStatus) returns (result: Result<()>)
      modifies this
      ensures id !in old(graphs) ==> View() == old(View()) && result == Err(GraphNotFound(id))
      ensures id in old(graphs) ==>
                View() == old(View()).(graphs := old(graphs)[id := old(graphs)[id].(status := status)]) && result == Ok(())
    {
      if id !in graphs {
        return Err(GraphNotFound(id));
      }
      graphs := graphs[id := graphs[id].(status := status)];
      return Ok(());
    }

    function CheckIdempotency(key: string): Option<GraphId>
      reads this
    {
      if key in idempotencyKeys then Some(idempotencyKeys[key]) else None
    }

    method RegisterIdempotency(key: string, id: GraphId)
      modifies this
      ensures View() == old(View()).(keys := old(idempotencyKeys)[key := id])
    {
      idempotencyKeys := idempotencyKeys[key := id];
    }
  }

  /** What an uninterrupted `submit` does to the store. */
  function Submitted(s: Store, r: Request): Store {
    if r.key.Some? && r.key.value in s.keys then s
    else Store(s.graphs[r.graph.id := r.graph], if r.key.Some? then s.keys[r.key.value := r.graph.id] else s.keys)
  }

  function ReturnedId(s: Store, r: Request): GraphId {
    if r.key.Some? && r.key.value in s.keys then s.keys[r.key.value] else r.graph.id
  }

  class DistributedGraphExecutor {
    const store: GraphStore

    constructor (store: GraphStore)
      ensures this.store == store
    {
      this.store := store;
    }

    method Submit(graph: Graph, idempotencyKey: Option<string>) returns (id: GraphId)
      modifies store
      ensures store.View() == Submitted(old(store.View()), Request(graph, idempotencyKey))
      ensures id == ReturnedId(old(store.View()), Request(graph, idempotencyKey))
    {
      if idempotencyKey.Some? {
        var existing := store.CheckIdempotency(idempotencyKey.value);
        if existing.Some? {
          return existing.value;
        }
      }
      var graphId := store.CreateGraph(graph);
      if idempotencyKey.Some? {
        store.RegisterIdempotency(idempotencyKey.value, graphId);
      }
      return graphId;
    }

    method Cancel(id: GraphId) returns (result: Result<()>)
      modifies store
      ensures id !in old(store.graphs) ==> store.View() == old(store.View()) && result == Err(GraphNotFound(id))
      ensures id in old(store.graphs) ==>
                && result == Ok(()) && store.idempotencyKeys == old(store.idempotencyKeys)
                && store.graphs == old(store.graphs)[id := old(store.graphs)[id].(status := Cancelled)]
    {
      result := store.UpdateStatus(id, Cancelled);
    }
  }

  // ----- runs of submissions

  function AfterAll(requests: seq<Request>): Store {
    if requests == [] then Store(map[], map[]) else Submitted(AfterAll(requests[..|requests| - 1]), requests[|requests| - 1])
  }

  /** The first request that carries the key, or the number of requests when none does. */
  function FirstUse(requests: seq<Request>, key: string): (f: nat)
    ensures f <= |requests|
    ensures f < |requests| ==> requests[f].key == Some(key)
    ensures forall j :: 0 <= j < f ==> requests[j].key != Some(key)
  {
    if requests == [] then 0
    else
      var n := |requests| - 1;
      var f := FirstUse(requests[..n], key);
      assert forall j :: 0 <= j < n ==> requests[..n][j] == requests[j];
      if f < n || requests[n].key == Some(key) then f else n + 1
  }

  /** Every key used resolves to the graph of the first request that carried it. */
  lemma {:induction false} KeysNameFirst(requests: seq<Request>, key: string)
    ensures var keys, f := AfterAll(requests).keys, FirstUse(requests, key);
            && (key in keys <==> f < |requests|)
            && (key in keys ==> keys[key] == requests[f].graph.id)
  {
    if requests != [] {
      KeysNameFirst(requests[..|requests| - 1], key);
    }
  }

  /** Repeating a key returns the id that the first request with that key got, however many other
      submissions came between; a request without a key always gets its own graph. */
  lemma RepeatReturnsFirst(requests: seq<Request>, i: nat)
    requires i < |requests|
    ensures ReturnedId(AfterAll(requests[..i]), requests[i]) ==
            match requests[i].key
            case None => requests[i].graph.id
            case Some(key) => requests[FirstUse(requests, key)].graph.id
  {
    if requests[i].key.Some? {
      var key := requests[i].key.value;
      var before := requests[..i];
      KeysNameFirst(before, key);
      var f, g := FirstUse(before, key), FirstUse(requests, key);
      assert forall j :: 0 <= j < i ==> before[j] == requests[j];
      assert f == g;
    }
  }

  /** No earlier request carried the same key. */
  ghost predicate IsFirst(requests: seq<Request>, i: nat)
    requires i < |requests|
  {
    requests[i].key.Some? ==> forall j :: 0 <= j < i ==> requests[j].key != requests[i].key
  }

  /** The request is the last first one whose graph has this id. */
  ghost predicate LastFirst(requests: seq<Request>, i: nat, id: GraphId)
    requires i < |requests|
  {
    && IsFirst(requests, i) && requests[i].graph.id == id
    && forall j :: i < j < |requests| && requests[j].graph.id == id ==> !IsFirst(requests, j)
  }

  lemma FirstIsStored(requests: seq<Request>)
    requires requests != []
    ensures var n := |requests| - 1;
            var before, r := AfterAll(requests[..n]).graphs, requests[n].graph;
            AfterAll(requests).graphs == if IsFirst(requests, n) then before[r.id := r] else before
  {
    var n := |requests| - 1;
    if requests[n].key.Some? {
      var key := requests[n].key.value;
      KeysNameFirst(requests[..n], key);
      var f := FirstUse(requests[..n], key);
      assert forall j :: 0 <= j < n ==> requests[..n][j] == requests[j];
    }
  }

  lemma FirstInPrefix(requests: seq<Request>, n: nat, i: nat)
    requires i < n <= |requests|
    ensures IsFirst(requests[..n], i) <==> IsFirst(requests, i)
  {
  }

  /** What is stored under an id: the very graph of the last request, among those that no earlier
      one shared a key with, whose graph has that id. */
  lemma {:induction false} StoredIs(requests: seq<Request>, i: nat, id: GraphId)
    requires i < |requests| && LastFirst(requests, i, id)
    ensures id in AfterAll(requests).graphs && AfterAll(requests).graphs[id] == requests[i].graph
  {
    var n := |requests| - 1;
    FirstIsStored(requests);
    if i < n {
      assert LastFirst(requests[..n], i, id) by {
        forall j | i <= j < n ensures IsFirst(requests[..n], j) <==> IsFirst(requests, j) {
          FirstInPrefix(requests, n, j);
        }
      }
      StoredIs(requests[..n], i, id);
    }
  }

  /** And nothing else is stored. */
  lemma {:induction false} StoredComesFrom(requests: seq<Request>, id: GraphId) returns (i: nat)
    requires id in AfterAll(requests).graphs
    ensures i < |requests| && LastFirst(requests, i, id)
  {
    var n := |requests| - 1;
    FirstIsStored(requests);
    if IsFirst(requests, n) && requests[n].graph.id == id {
      i := n;
    } else {
      i := StoredComesFrom(requests[..n], id);
      forall j | i <= j < n ensures IsFirst(requests[..n], j) <==> IsFirst(requests, j) {
        FirstInPrefix(requests, n, j);
      }
    }
  }

  /** With fresh graph ids, a request's graph is stored, unchanged, exactly when it is the first with
      its key or has none. */
  lemma StoredIff(requests: seq<Request>, i: nat)
    requires FreshIds(requests) && i < |requests|
    ensures var graphs, g := AfterAll(requests).graphs, requests[i].graph;
            (g.id in graphs <==> IsFirst(requests, i)) && (g.id in graphs ==> graphs[g.id] == g)
  {
    var id := requests[i].graph.id;
    if IsFirst(requests, i) {
      StoredIs(requests, i, id);
    } else if id in AfterAll(requests).graphs {
      var j := StoredComesFrom(requests, id);
      assert false;
    }
  }

  function KeylessCount(requests: seq<Request>): nat {
    if requests == [] then 0
    else KeylessCount(requests[..|requests| - 1]) + if requests[|requests| - 1].key.None? then 1 else 0
  }

  function KeysUsed(requests: seq<Request>): set<string> {
    if requests == [] then {}
    else KeysUsed(requests[..|requests| - 1]) + match requests[|requests| - 1].key case None => {} case Some(key) => {key}
  }

  ghost predicate FreshIds(requests: seq<Request>) {
    forall i, j :: 0 <= i < j < |requests| ==> requests[i].graph.id != requests[j].graph.id
  }

  lemma {:induction false} GraphsComeFromRequests(requests: seq<Request>, id: GraphId)
    requires id in AfterAll(requests).graphs
    ensures exists i :: 0 <= i < |requests| && requests[i].graph.id == id
  {
    var n := |requests| - 1;
    if requests[n].graph.id != id {
      GraphsComeFromRequests(requests[..n], id);
      var i :| 0 <= i < n && requests[..n][i].graph.id == id;
      assert requests[i].graph.id == id;
    }
  }

  lemma FreshIdIsNew(requests: seq<Request>)
    requires requests != [] && FreshIds(requests)
    ensures requests[|requests| - 1].graph.id !in AfterAll(requests[..|requests| - 1]).graphs
  {
    var before, id := requests[..|requests| - 1], requests[|requests| - 1].graph.id;
    assert forall i :: 0 <= i < |before| ==> before[i].graph.id != id;
    if id in AfterAll(before).graphs {
      GraphsComeFromRequests(before, id);
    }
  }

  /** With fresh graph ids there are exactly as many graphs as keyless requests and distinct keys. */
  lemma {:induction false} OneGraphPerKey(requests: seq<Request>)
    requires FreshIds(requests)
    ensures AfterAll(requests).keys.Keys == KeysUsed(requests)
    ensures |AfterAll(requests).graphs| == KeylessCount(requests) + |KeysUsed(requests)|
  {
    if requests != [] {
      FreshIdIsNew(requests);
      OneGraphPerKey(requests[..|requests| - 1]);
    }
  }
}
