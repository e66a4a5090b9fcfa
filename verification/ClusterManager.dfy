/** The cluster's nodes: their states, who is ready, and allocation. */
module Clusters {
  import opened Sequences
  import opened Graphs

  datatype NodeId = NodeId(name: string)

  datatype NodeState = Starting | Ready | Executing(graph: GraphId) | ShuttingDown | Failed(reason: string)

  datatype NodeCapacity = NodeCapacity(maxConcurrent: nat, memoryMb: nat, cpuCores: nat)

  const DEFAULT_CAPACITY: NodeCapacity := NodeCapacity(4, 2048, 4)

  datatype ClusterNode = ClusterNode(id: NodeId, state: NodeState, capacity: NodeCapacity, currentLoad: real)

  type Nodes = map<NodeId, ClusterNode>

  /** The invariant of every node table: a node sits under its own id. */
  ghost predicate Keyed(nodes: Nodes) {
    forall id :: id in nodes ==> nodes[id].id == id
  }

  ghost function ReadyNodes(nodes: Nodes): set<NodeId> {
    set id | id in nodes && nodes[id].state.Ready?
  }

  function WithState(nodes: Nodes, id: NodeId, state: NodeState): Nodes {
    if id in nodes then nodes[id := nodes[id].(state := state)] else nodes
  }

  /** Setting one node after the other to executing the graph. */
  function Marked(nodes: Nodes, picked: seq<NodeId>, graph: GraphId): Nodes {
    if picked == [] then nodes
    else WithState(Marked(nodes, picked[..|picked| - 1], graph), picked[|picked| - 1], Executing(graph))
  }

  /** Exactly the picked nodes execute the graph, and nothing else about any node has changed. */
  lemma {:induction false} MarkedMeaning(nodes: Nodes, picked: seq<NodeId>, graph: GraphId)
    ensures Marked(nodes, picked, graph).Keys == nodes.Keys
    ensures forall id :: id in nodes ==>
              Marked(nodes, picked, graph)[id] == if id in picked then nodes[id].(state := Executing(graph)) else nodes[id]
    ensures Keyed(nodes) ==> Keyed(Marked(nodes, picked, graph))
  {
    if picked != [] {
      var n := |picked| - 1;
      MarkedMeaning(nodes, picked[..n], graph);
      assert forall id :: id in picked <==> id in picked[..n] || id == picked[n];
    }
  }

  function Min(a: nat, b: nat): nat {
    if a < b then a else b
  }

  class ClusterManager {
    var nodes: Nodes
    const selfNode: NodeId

    ghost predicate Valid()
      reads this
    {
      Keyed(nodes)
    }

    constructor (selfNode: NodeId)
      ensures Valid() && this.selfNode == selfNode
      ensures nodes == map[selfNode := ClusterNode(selfNode, Ready, DEFAULT_CAPACITY, 0.0)]
    {
      this.selfNode := selfNode;
      nodes := map[selfNode := ClusterNode(selfNode, Ready, DEFAULT_CAPACITY, 0.0)];
    }

    method RegisterNode(node: ClusterNode)
      requires Valid()
      modifies this
      ensures Valid() && nodes == old(nodes)[node.id := node]
    {
      nodes := nodes[node.id := node];
    }

    /** The ids of the ready nodes, each once, in the table's own order. */
    method GetReadyNodes() returns (ready: seq<NodeId>)
      requires Valid()
      ensures Distinct(ready) && Elements(ready) == ReadyNodes(nodes)
      ensures forall id :: id in ready <==> IsReady(nodes, id)
    {
      ready := [];
      var ids := Enumerate(nodes.Keys);
      for i := 0 to |ids|
        invariant Distinct(ready)
        invariant Elements(ready) == ReadyNodes(nodes) * Elements(ids[..i])
      {
        assert ids[i] in Elements(ids) && ids[i] !in ids[..i];
        assert Elements(ids[..i + 1]) == Elements(ids[..i]) + {ids[i]};
        if nodes[ids[i]].state.Ready? {
          assert nodes[ids[i]].id !in ready by {
            assert ids[i] !in Elements(ready);
          }
          DistinctAppend(ready, nodes[ids[i]].id);
          ready := ready + [nodes[ids[i]].id];
        }
      }
      assert ids[..|ids|] == ids;
      forall id ensures id in ready <==> IsReady(nodes, id) {
        assert id in ready <==> id in Elements(ready);
      }
    }

    /** As many distinct ready nodes as required, or all of them when there are fewer. */
    method AllocateNodes(required: nat) returns (picked: seq<NodeId>)
      requires Valid()
      ensures Distinct(picked) && Elements(picked) <= ReadyNodes(nodes)
      ensures |picked| == Min(required, |ReadyNodes(nodes)|)
    {
      var ready := GetReadyNodes();
      DistinctSize(ready);
      picked := ready[..Min(required, |ready|)];
      forall id | id in Elements(picked) ensures id in ReadyNodes(nodes) {
        assert id in Elements(ready);
      }
    }

    method UpdateNodeState(id: NodeId, state: NodeState)
      requires Valid()
      modifies this
      ensures Valid() && nodes == WithState(old(nodes), id, state)
    {
      if id in nodes {
        nodes := nodes[id := nodes[id].(state := state)];
      }
    }

    method HandleRejoin(id: NodeId)
      requires Valid()
      modifies this
      ensures Valid() && nodes == Rejoined(old(nodes), id)
      ensures IsReady(nodes, id) && nodes.Keys == old(nodes).Keys + {id}
      ensures forall x :: x in nodes && x != id ==> nodes[x] == old(nodes)[x]
    {
      if id in nodes {
        nodes := nodes[id := nodes[id].(state := Ready)];
      } else {
        nodes := nodes[id := ClusterNode(id, Ready, DEFAULT_CAPACITY, 0.0)];
      }
    }
  }

  function Rejoined(nodes: Nodes, id: NodeId): Nodes {
    if id in nodes then WithState(nodes, id, Ready) else nodes[id := ClusterNode(id, Ready, DEFAULT_CAPACITY, 0.0)]
  }

  // ----- whole runs of the public methods

  /** `Allocate` stands for the node part of a submission or of a reallocation after a failure. */
  datatype Op =
    | Register(node: ClusterNode)
    | SetState(id: NodeId, state: NodeState)
    | Rejoin(id: NodeId)
    | Allocate(picked: seq<NodeId>, graph: GraphId)

  function Apply(nodes: Nodes, op: Op): Nodes {
    match op
    case Register(node) => nodes[node.id := node]
    case SetState(id, state) => WithState(nodes, id, state)
    case Rejoin(id) => Rejoined(nodes, id)
    case Allocate(picked, graph) => Marked(nodes, picked, graph)
  }

  function After(nodes: Nodes, ops: seq<Op>): Nodes {
    if ops == [] then nodes else Apply(After(nodes, ops[..|ops| - 1]), ops[|ops| - 1])
  }

  /** Every allocation of the run took ready nodes, as `AllocateNodes` guarantees. */
  ghost predicate IsRun(nodes: Nodes, ops: seq<Op>) {
    forall k :: 0 <= k < |ops| && ops[k].Allocate? ==> Elements(ops[k].picked) <= ReadyNodes(After(nodes, ops[..k]))
  }

  ghost predicate IsReady(nodes: Nodes, id: NodeId) {
    id in nodes && nodes[id].state.Ready?
  }

  // ----- the state of a node after a run

  predicate Names(op: Op, id: NodeId) {
    match op
    case Register(node) => node.id == id
    case SetState(x, _) => x == id
    case Rejoin(x) => x == id
    case Allocate(picked, _) => id in picked
  }

  /** The state that the operation gives the nodes it names. */
  function Given(op: Op): NodeState {
    match op
    case Register(node) => node.state
    case SetState(_, state) => state
    case Rejoin(_) => Ready
    case Allocate(_, graph) => Executing(graph)
  }

  lemma NotNamedStep(nodes: Nodes, op: Op, id: NodeId)
    requires !Names(op, id)
    ensures id in Apply(nodes, op) <==> id in nodes
    ensures id in nodes ==> Apply(nodes, op)[id] == nodes[id]
  {
    if op.Allocate? {
      MarkedMeaning(nodes, op.picked, op.graph);
    }
  }

  lemma NamedStep(nodes: Nodes, op: Op, id: NodeId)
    requires Names(op, id)
    ensures id in nodes ==>
              id in Apply(nodes, op) && Apply(nodes, op)[id] == if op.Register? then op.node else nodes[id].(state := Given(op))
    ensures id !in nodes ==> (id in Apply(nodes, op) <==> op.Register? || op.Rejoin?)
    ensures id !in nodes && op.Register? ==> Apply(nodes, op)[id] == op.node
    ensures id !in nodes && op.Rejoin? ==> Apply(nodes, op)[id] == ClusterNode(id, Ready, NodeCapacity(4, 2048, 4), 0.0)
  {
    if op.Allocate? {
      MarkedMeaning(nodes, op.picked, op.graph);
    }
  }

  /** A node that no operation of a run names is as it was, or as unknown as it was. */
  lemma {:induction false} NotNamedOverRun(nodes: Nodes, ops: seq<Op>, id: NodeId)
    requires forall k :: 0 <= k < |ops| ==> !Names(ops[k], id)
    ensures id in After(nodes, ops) <==> id in nodes
    ensures id in nodes ==> After(nodes, ops)[id] == nodes[id]
  {
    if ops != [] {
      var n := |ops| - 1;
      NotNamedOverRun(nodes, ops[..n], id);
      NotNamedStep(After(nodes, ops[..n]), ops[n], id);
    }
  }

  /** After any run a node is in the state that the last operation naming it gave, be it registered,
      set, rejoined or allocated: in particular one that rejoined last is ready. All else about it
      is as the operation found it, unless it was registered anew or rejoined unknown. */
  lemma {:induction false} StateOverRun(nodes: Nodes, ops: seq<Op>, k: nat, id: NodeId)
    requires k < |ops| && Names(ops[k], id) && forall j :: k < j < |ops| ==> !Names(ops[j], id)
    ensures var found, end := After(nodes, ops[..k]), After(nodes, ops);
            && (id in end <==> id in found || ops[k].Register? || ops[k].Rejoin?)
            && (id in end ==>
                  && end[id].state == Given(ops[k])
                  && end[id] == if ops[k].Register? then ops[k].node
                                else if id in found then found[id].(state := Given(ops[k]))
                                else ClusterNode(id, Ready, NodeCapacity(4, 2048, 4), 0.0))
  {
    var n := |ops| - 1;
    if k < n {
      assert ops[..n][..k] == ops[..k];
      StateOverRun(nodes, ops[..n], k, id);
      NotNamedStep(After(nodes, ops[..n]), ops[n], id);
    } else {
      NamedStep(After(nodes, ops[..n]), ops[n], id);
    }
  }

  // ----- returning to ready

  /** The operations that can return a node to ready. */
  predicate MakesReady(op: Op, id: NodeId) {
    match op
    case Register(node) => node.id == id && node.state.Ready?
    case SetState(x, state) => x == id && state.Ready?
    case Rejoin(x) => x == id
    case Allocate(_, _) => false
  }

  lemma OnlyTheseMakeReady(nodes: Nodes, op: Op, id: NodeId)
    requires !IsReady(nodes, id) && IsReady(Apply(nodes, op), id)
    ensures MakesReady(op, id)
  {
    if op.Allocate? {
      MarkedMeaning(nodes, op.picked, op.graph);
    }
  }

  lemma {:induction false} BecameReady(nodes: Nodes, ops: seq<Op>, id: NodeId, from: nat, to: nat) returns (m: nat)
    requires from <= to <= |ops|
    requires !IsReady(After(nodes, ops[..from]), id) && IsReady(After(nodes, ops[..to]), id)
    ensures from <= m < to && MakesReady(ops[m], id)
  {
    assert from < to;
    assert ops[..to][..to - 1] == ops[..to - 1];
    if IsReady(After(nodes, ops[..to - 1]), id) {
      m := BecameReady(nodes, ops, id, from, to - 1);
    } else {
      OnlyTheseMakeReady(After(nodes, ops[..to - 1]), ops[to - 1], id);
      m := to - 1;
    }
  }

  /** Two allocations of one run share a node only if some operation in between returned it to
      ready: with whole methods as steps no node is given away twice. */
  lemma SharedNodeBecameReady(nodes: Nodes, ops: seq<Op>, i: nat, j: nat, id: NodeId) returns (m: nat)
    requires IsRun(nodes, ops) && i < j < |ops| && ops[i].Allocate? && ops[j].Allocate?
    requires id in ops[i].picked && id in ops[j].picked
    ensures i < m < j && MakesReady(ops[m], id)
  {
    var now := After(nodes, ops[..i]);
    assert ops[..i + 1][..i] == ops[..i];
    assert id in Elements(ops[i].picked) && id in Elements(ops[j].picked);
    MarkedMeaning(now, ops[i].picked, ops[i].graph);
    m := BecameReady(nodes, ops, id, i + 1, j);
  }
}
