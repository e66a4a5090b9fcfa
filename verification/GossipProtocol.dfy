/** Membership at one node: the handlers, the events they emit, and whole runs of them. */
module GossipProtocols {
  import opened Sequences
  import opened GossipMerge

  datatype MembershipEvent = Join(node: NodeInfo) | Leave(id: NetNodeId) | Failure(id: NetNodeId) | Rejoin(node: NodeInfo)

  datatype Replica = Replica(members: Members, pending: seq<MembershipEvent>)

  datatype Op =
    | Register(node: NodeInfo)
    | HandleLeave(id: NetNodeId)
    | HandleFailure(id: NetNodeId)
    | HandleRejoin(node: NodeInfo)
    | Gossip(records: seq<NodeInfo>)
    | GetEvents

  function Step(s: Replica, op: Op): Replica {
    match op
    case Register(node) => Replica(s.members[node.id := node], s.pending + [Join(node)])
    case HandleLeave(id) => if id in s.members then Replica(s.members - {id}, s.pending + [Leave(id)]) else s
    case HandleFailure(id) =>
      if id in s.members then Replica(s.members[id := s.members[id].(status := Disconnected)], s.pending + [Failure(id)])
      else s
    case HandleRejoin(node) => Replica(s.members[node.id := node], s.pending + [Rejoin(node)])
    case Gossip(records) => s.(members := Merge(s.members, records))
    case GetEvents => s.(pending := [])
  }

  function Run(s: Replica, ops: seq<Op>): Replica {
    if ops == [] then s else Step(Run(s, ops[..|ops| - 1]), ops[|ops| - 1])
  }

  /** All that the run's `get_events` calls returned, in order. */
  function Drained(s: Replica, ops: seq<Op>): seq<MembershipEvent> {
    if ops == [] then []
    else Drained(s, ops[..|ops| - 1]) + if ops[|ops| - 1].GetEvents? then Run(s, ops[..|ops| - 1]).pending else []
  }

  /** The alive members other than the node itself. */
  ghost function AliveMembers(m: Members, self: NetNodeId): set<NodeInfo> {
    set id | id in m && m[id].IsAlive() && m[id].id != self :: m[id]
  }

  class GossipProtocol {
    const selfNode: NetNodeId
    var members: Members
    var pendingEvents: seq<MembershipEvent>

    ghost predicate Valid()
      reads this
    {
      Keyed(members)
    }

    ghost function View(): Replica
      reads this
    {
      Replica(members, pendingEvents)
    }

    constructor (selfNode: NetNodeId, now: int)
      ensures Valid() && this.selfNode == selfNode
      ensures View() == Replica(map[selfNode := NodeInfo(selfNode, NetworkAddress("localhost", 0), Connected, now, 0, map[])], [])
    {
      this.selfNode := selfNode;
      members := map[selfNode := NodeInfo(selfNode, NetworkAddress("localhost", 0), Connected, now, 0, map[])];
      pendingEvents := [];
    }

    method RegisterNode(node: NodeInfo)
      requires Valid()
      modifies this
      ensures Valid() && View() == Step(old(View()), Op.Register(node))
    {
      members := members[node.id := node];
      pendingEvents := pendingEvents + [Join(node)];
    }

    method Leave(id: NetNodeId)
      requires Valid()
      modifies this
      ensures Valid() && View() == Step(old(View()), Op.HandleLeave(id))
    {
      if id in members {
        members := members - {id};
        pendingEvents := pendingEvents + [MembershipEvent.Leave(id)];
      }
    }

    method Fail(id: NetNodeId)
      requires Valid()
      modifies this
      ensures Valid() && View() == Step(old(View()), Op.HandleFailure(id))
    {
      if id in members {
        members := members[id := members[id].(status := Disconnected)];
        pendingEvents := pendingEvents + [Failure(id)];
      }
    }

    method Rejoin(node: NodeInfo)
      requires Valid()
      modifies this
      ensures Valid() && View() == Step(old(View()), Op.HandleRejoin(node))
    {
      members := members[node.id := node];
      pendingEvents := pendingEvents + [MembershipEvent.Rejoin(node)];
    }

    method ProcessGossip(records: seq<NodeInfo>)
      requires Valid()
      modifies this
      ensures Valid() && View() == Step(old(View()), Gossip(records))
      ensures HoldsLatest(members, Known(old(members), records))
    {
      for i := 0 to |records|
        invariant Valid() && members == Merge(old(members), records[..i])
        invariant pendingEvents == old(pendingEvents)
      {
        assert records[..i + 1][..i] == records[..i];
        var info := records[i];
        if info.id in members {
          if info.lastHeartbeat > members[info.id].lastHeartbeat {
            members := members[info.id := info];
          }
        } else {
          members := members[info.id := info];
        }
      }
      assert records[..|records|] == records;
      MergeHoldsLatest(old(members), records);
    }

    method DrainEvents() returns (events: seq<MembershipEvent>)
      requires Valid()
      modifies this
      ensures Valid() && View() == Step(old(View()), GetEvents) && events == old(pendingEvents)
    {
      events := pendingEvents;
      pendingEvents := [];
    }

    /** Each alive member other than the node itself once, in the table's own order. */
    method GetAliveMembers() returns (alive: seq<NodeInfo>)
      requires Valid()
      ensures Distinct(alive) && Elements(alive) == AliveMembers(members, selfNode)
      ensures forall r :: r in alive <==>
                r.id in members && members[r.id] == r && r.status.Connected? && r.id != selfNode
    {
      alive := [];
      var ids := Enumerate(members.Keys);
      for i := 0 to |ids|
        invariant Distinct(alive)
        invariant forall r :: r in alive <==> exists j :: 0 <= j < i && r == members[ids[j]] && r.IsAlive() && r.id != selfNode
      {
        assert ids[i] in Elements(ids);
        var info := members[ids[i]];
        if info.IsAlive() && info.id != selfNode {
          assert forall j :: 0 <= j < i ==> ids[j] in Elements(ids) && members[ids[j]].id == ids[j];
          DistinctAppend(alive, info);
          alive := alive + [info];
        }
      }
      forall r ensures r in alive <==> r in AliveMembers(members, selfNode) {
        if r in AliveMembers(members, selfNode) {
          var id :| id in members && r == members[id] && r.IsAlive() && r.id != selfNode;
          assert id in Elements(ids);
        }
      }
      assert forall r :: r in alive <==> r in AliveMembers(members, selfNode);
    }
  }

  // ----- the event log

  /** What an event says happened to the table. */
  function ApplyEvent(m: Members, e: MembershipEvent): Members {
    match e
    case Join(node) => m[node.id := node]
    case Leave(id) => m - {id}
    case Failure(id) => if id in m then m[id := m[id].(status := Disconnected)] else m
    case Rejoin(node) => m[node.id := node]
  }

  function Replay(m: Members, events: seq<MembershipEvent>): Members {
    if events == [] then m else ApplyEvent(Replay(m, events[..|events| - 1]), events[|events| - 1])
  }

  /** Everything emitted so far: what has been drained, then what is pending. */
  function Emitted(s: Replica, ops: seq<Op>): seq<MembershipEvent> {
    Drained(s, ops) + Run(s, ops).pending
  }

  /** Each operation appends its own events, if any, to everything emitted before. */
  lemma EmittedStep(s: Replica, ops: seq<Op>)
    requires ops != []
    ensures var n := |ops| - 1;
            var m := Run(s, ops[..n]).members;
            var before := Emitted(s, ops[..n]);
            Emitted(s, ops) == match ops[n]
                               case Register(node) => before + [Join(node)]
                               case HandleLeave(id) => if id in m then before + [Leave(id)] else before
                               case HandleFailure(id) => if id in m then before + [Failure(id)] else before
                               case HandleRejoin(node) => before + [Rejoin(node)]
                               case Gossip(_) => before
                               case GetEvents => before
  {
  }

  ghost predicate RebuildsAfter(s: Replica, base: Members, ops: seq<Op>, k: nat)
    requires k <= |ops|
  {
    Replay(base, Emitted(s, ops[..k])) == Run(s, ops[..k]).members
  }

  /** The call, if it merges, meets no record of an unknown node and none newer than the one held. */
  predicate BringsNothingNew(s: Replica, ops: seq<Op>, k: nat)
    requires k < |ops|
  {
    ops[k].Gossip? ==> NothingNewer(Run(s, ops[..k]).members, ops[k].records)
  }

  lemma ReplayAppend(base: Members, before: seq<MembershipEvent>, e: MembershipEvent)
    ensures Replay(base, before + [e]) == ApplyEvent(Replay(base, before), e)
  {
    assert (before + [e])[..|before|] == before;
  }

  lemma ReplayOneMore(s: Replica, base: Members, ops: seq<Op>, k: nat)
    requires k < |ops| && RebuildsAfter(s, base, ops, k)
    ensures RebuildsAfter(s, base, ops, k + 1) <==> BringsNothingNew(s, ops, k)
  {
    var now, m, before := ops[..k + 1], Run(s, ops[..k]).members, Emitted(s, ops[..k]);
    assert now[..k] == ops[..k];
    EmittedStep(s, now);
    match ops[k]
    case Register(node) => ReplayAppend(base, before, Join(node));
    case HandleLeave(id) => ReplayAppend(base, before, Leave(id));
    case HandleFailure(id) => ReplayAppend(base, before, Failure(id));
    case HandleRejoin(node) => ReplayAppend(base, before, Rejoin(node));
    case Gossip(records) => MergeChangesNothingIff(m, records);
    case GetEvents =>
  }

  /** Replaying the drained events and then the pending ones rebuilds the table after every step of
      a run exactly when no merge in the run meets an unknown node or a newer record: merges leave no
      trace in the log, and every other operation leaves exactly the one it needs. */
  lemma {:induction false} EventLogIff(s: Replica, base: Members, ops: seq<Op>)
    requires Replay(base, s.pending) == s.members
    ensures (forall k :: 0 <= k <= |ops| ==> RebuildsAfter(s, base, ops, k)) <==>
            (forall k :: 0 <= k < |ops| ==> BringsNothingNew(s, ops, k))
  {
    assert Emitted(s, ops[..0]) == s.pending;
    assert RebuildsAfter(s, base, ops, 0);
    if forall k :: 0 <= k <= |ops| ==> RebuildsAfter(s, base, ops, k) {
      forall k | 0 <= k < |ops| ensures BringsNothingNew(s, ops, k) {
        assert RebuildsAfter(s, base, ops, k + 1);
        ReplayOneMore(s, base, ops, k);
      }
    }
    if forall k :: 0 <= k < |ops| ==> BringsNothingNew(s, ops, k) {
      var k := 0;
      while k < |ops|
        invariant 0 <= k <= |ops|
        invariant forall j :: 0 <= j <= k ==> RebuildsAfter(s, base, ops, j)
      {
        assert BringsNothingNew(s, ops, k);
        ReplayOneMore(s, base, ops, k);
        k := k + 1;
      }
    }
  }

  /** In particular, without gossip merges no event is ever lost, duplicated or reordered. */
  lemma EventLogRebuilds(s: Replica, ops: seq<Op>)
    requires s.pending == [] && forall op :: op in ops ==> !op.Gossip?
    ensures Replay(s.members, Drained(s, ops) + Run(s, ops).pending) == Run(s, ops).members
  {
    forall k | 0 <= k < |ops| ensures BringsNothingNew(s, ops, k) {
      assert ops[k] in ops;
    }
    EventLogIff(s, s.members, ops);
    assert RebuildsAfter(s, s.members, ops, |ops|);
    assert ops[..|ops|] == ops;
  }

  // ----- the failure mark

  /** The operation replaces or drops the node's record by itself. */
  predicate Touches(op: Op, id: NetNodeId) {
    match op
    case Register(node) => node.id == id
    case HandleLeave(x) => x == id
    case HandleRejoin(node) => node.id == id
    case HandleFailure(_) => false
    case Gossip(_) => false
    case GetEvents => false
  }

  predicate BringsNewer(op: Op, id: NetNodeId, heartbeat: int) {
    op.Gossip? && exists r :: r in op.records && r.id == id && r.lastHeartbeat > heartbeat
  }

  /** One merge keeps a record exactly when it brings none with a greater heartbeat. */
  lemma {:induction false} MergeKeepsIff(m: Members, records: seq<NodeInfo>, id: NetNodeId)
    requires id in m
    ensures id in Merge(m, records) && m[id].lastHeartbeat <= Merge(m, records)[id].lastHeartbeat
    ensures Merge(m, records)[id].lastHeartbeat == m[id].lastHeartbeat <==>
            forall r :: r in records && r.id == id ==> r.lastHeartbeat <= m[id].lastHeartbeat
    ensures Merge(m, records)[id].lastHeartbeat == m[id].lastHeartbeat ==> Merge(m, records)[id] == m[id]
  {
    if records != [] {
      var n := |records| - 1;
      MergeKeepsIff(m, records[..n], id);
      assert forall q :: q in records <==> q in records[..n] || q == records[n];
    }
  }

  lemma HeartbeatStep(s: Replica, op: Op, id: NetNodeId)
    requires id in s.members && !Touches(op, id)
    ensures var was := s.members[id];
            var m := Step(s, op).members;
            && id in m && was.lastHeartbeat <= m[id].lastHeartbeat
            && (m[id].lastHeartbeat == was.lastHeartbeat <==> !BringsNewer(op, id, was.lastHeartbeat))
            && (m[id].lastHeartbeat == was.lastHeartbeat && !was.IsAlive() ==> !m[id].IsAlive())
  {
    if op.Gossip? {
      MergeKeepsIff(s.members, op.records, id);
    }
  }

  /** Through any run that does not register, rejoin or remove the node, its heartbeat never
      decreases, and it changes exactly when some merge brings a greater one. */
  lemma {:induction false} HeartbeatOverRun(s: Replica, ops: seq<Op>, id: NetNodeId)
    requires id in s.members && forall op :: op in ops ==> !Touches(op, id)
    ensures id in Run(s, ops).members
    ensures s.members[id].lastHeartbeat <= Run(s, ops).members[id].lastHeartbeat
    ensures Run(s, ops).members[id].lastHeartbeat == s.members[id].lastHeartbeat <==>
            forall op :: op in ops ==> !BringsNewer(op, id, s.members[id].lastHeartbeat)
    ensures Run(s, ops).members[id].lastHeartbeat == s.members[id].lastHeartbeat && !s.members[id].IsAlive()
            ==> !Run(s, ops).members[id].IsAlive()
  {
    if ops != [] {
      var n := |ops| - 1;
      assert forall op :: op in ops <==> op in ops[..n] || op == ops[n];
      assert !Touches(ops[n], id) by {
        assert ops[n] in ops;
      }
      HeartbeatOverRun(s, ops[..n], id);
      HeartbeatStep(Run(s, ops[..n]), ops[n], id);
    }
  }

  /** A node marked as failed stays out of the alive members, whatever is merged and whatever
      happens to other nodes, until it is registered, rejoins, leaves, or is gossiped with a
      strictly greater heartbeat. */
  lemma FailureMarkPersists(s: Replica, ops: seq<Op>, id: NetNodeId, self: NetNodeId)
    requires Keyed(s.members) && id in s.members
    requires forall op :: op in ops ==> !Touches(op, id) && !BringsNewer(op, id, s.members[id].lastHeartbeat)
    ensures var m := Run(Step(s, HandleFailure(id)), ops).members;
            && id in m && !m[id].IsAlive() && m[id].lastHeartbeat == s.members[id].lastHeartbeat
            && forall r :: r in AliveMembers(m, self) ==> r.id != id
  {
    var marked := Step(s, HandleFailure(id));
    HeartbeatOverRun(marked, ops, id);
    RunKeyed(marked, ops);
  }

  lemma {:induction false} RunKeyed(s: Replica, ops: seq<Op>)
    requires Keyed(s.members)
    ensures Keyed(Run(s, ops).members)
  {
    if ops != [] {
      var n := |ops| - 1;
      RunKeyed(s, ops[..n]);
      if ops[n].Gossip? {
        MergeHoldsLatest(Run(s, ops[..n]).members, ops[n].records);
      }
    }
  }

  /** A newer record lifts the mark: the node is alive again exactly when the record says so. */
  lemma NewerRecordDecides(s: Replica, r: NodeInfo)
    requires r.id in s.members && r.lastHeartbeat > s.members[r.id].lastHeartbeat
    ensures Step(Step(s, HandleFailure(r.id)), Gossip([r])).members[r.id] == r
  {
    var m := Step(s, HandleFailure(r.id)).members;
    assert [r][..|[r]| - 1] == [];
    assert Merge(m, [r]) == MergeOne(m, r);
  }

  /** The records of the node that the run's merges bring, in order. */
  function Brought(ops: seq<Op>, id: NetNodeId): seq<NodeInfo> {
    if ops == [] then []
    else
      var n := |ops| - 1;
      Brought(ops[..n], id) + if ops[n].Gossip? then OfNode(ops[n].records, id) else []
  }

  predicate Marks(op: Op, id: NetNodeId) {
    op == HandleFailure(id)
  }

  lemma {:induction false} RecordOverRun(s: Replica, ops: seq<Op>, id: NetNodeId)
    requires id in s.members && forall op :: op in ops ==> !Touches(op, id) && !Marks(op, id)
    ensures id in Run(s, ops).members && Run(s, ops).members[id] == Newest(s.members[id], Brought(ops, id))
  {
    if ops != [] {
      var n := |ops| - 1;
      assert forall op :: op in ops[..n] ==> op in ops;
      assert !Touches(ops[n], id) && !Marks(ops[n], id) by {
        assert ops[n] in ops;
      }
      RecordOverRun(s, ops[..n], id);
      var now := Run(s, ops[..n]).members;
      if ops[n].Gossip? {
        MergeIsNewest(now, ops[n].records, id);
        NewestAppend(s.members[id], Brought(ops[..n], id), OfNode(ops[n].records, id));
      } else {
        assert Brought(ops[..n], id) + [] == Brought(ops[..n], id);
      }
    }
  }

  /** Over any run without a registration, rejoin, leave or mark of it, a node is listed as alive
      exactly when it is not the listing node itself and is connected according to the newest record
      of it: the one held at first, or the first of those with the greatest heartbeat brought. */
  lemma ListedIff(s: Replica, ops: seq<Op>, id: NetNodeId, self: NetNodeId)
    requires Keyed(s.members) && id in s.members && forall op :: op in ops ==> !Touches(op, id) && !Marks(op, id)
    ensures (exists r :: r in AliveMembers(Run(s, ops).members, self) && r.id == id) <==>
            id != self && Newest(s.members[id], Brought(ops, id)).status.Connected?
  {
    RecordOverRun(s, ops, id);
    RunKeyed(s, ops);
    var m := Run(s, ops).members;
    if id != self && m[id].status.Connected? {
      assert m[id] in AliveMembers(m, self) && m[id].id == id;
    }
  }

  /** After the last of its failure marks, and until it is registered, rejoins or leaves, a node is
      alive exactly when merges brought a record with a greater heartbeat than it had, and of those
      with the greatest heartbeat the first to arrive is a connected one. */
  lemma AliveAfterFailureIff(s: Replica, ops: seq<Op>, id: NetNodeId)
    requires id in s.members && forall op :: op in ops ==> !Touches(op, id) && !Marks(op, id)
    ensures var m, arriving := Run(Step(s, HandleFailure(id)), ops).members, Brought(ops, id);
            id in m && (m[id].IsAlive() <==> exists i: nat :: Wins(s.members[id], arriving, i) && arriving[i].IsAlive())
  {
    var marked := Step(s, HandleFailure(id));
    var held, arriving := marked.members[id], Brought(ops, id);
    RecordOverRun(marked, ops, id);
    var i := NewestWins(held, arriving);
    forall j: nat | Wins(s.members[id], arriving, j) ensures j == i {
      assert Wins(held, arriving, j);
      if i < |arriving| {
        OneWins(held, arriving, i, j);
      }
    }
    assert i < |arriving| ==> Wins(s.members[id], arriving, i);
  }

  /** Leaving does not keep a node out: it is back exactly when some later merge carries any record
      of it, however old. */
  lemma {:induction false} LeftNodeReturnsIff(s: Replica, ops: seq<Op>, id: NetNodeId)
    requires Keyed(s.members) && id !in s.members && forall op :: op in ops ==> !Touches(op, id)
    ensures id in Run(s, ops).members <==> exists op :: op in ops && Mentions(op, id)
  {
    if ops != [] {
      var n := |ops| - 1;
      assert forall op :: op in ops <==> op in ops[..n] || op == ops[n];
      assert !Touches(ops[n], id) by {
        assert ops[n] in ops;
      }
      LeftNodeReturnsIff(s, ops[..n], id);
      RunKeyed(s, ops[..n]);
      var now := Run(s, ops[..n]);
      assert id in Run(s, ops).members <==> id in now.members || Mentions(ops[n], id) by {
        if ops[n].Gossip? {
          MergedIds(now.members, ops[n].records, id);
        }
      }
      if Mentions(ops[n], id) {
        assert ops[n] in ops;
      } else if op :| op in ops && Mentions(op, id) {
        assert op in ops[..n];
      }
    }
  }

  ghost predicate Mentions(op: Op, id: NetNodeId) {
    op.Gossip? && exists r :: r in op.records && r.id == id
  }

  lemma MergedIds(m: Members, records: seq<NodeInfo>, id: NetNodeId)
    requires Keyed(m)
    ensures id in Merge(m, records) <==> id in m || exists r :: r in records && r.id == id
  {
    MergeHoldsLatest(m, records);
    var known := Known(m, records);
    if id in m {
      assert m[id] in known;
    }
    if r :| r in records && r.id == id {
      assert r in known;
    }
  }

  // ----- what goes wrong, by example

  /** Marking a failure keeps the heartbeat, so it makes a second latest record: two replicas that
      agreed on the node, and of which one has marked it, never agree again by exchanging what they
      hold, however much and in whatever order. */
  lemma FailureSplitsLatest(s1: Replica, s2: Replica, id: NetNodeId)
    requires Keyed(s1.members) && Keyed(s2.members)
    requires id in s1.members && id in s2.members && s1.members[id] == s2.members[id] && !s1.members[id].status.Disconnected?
    ensures var marked := Step(s1, HandleFailure(id)).members;
            var known := Known(marked, []) + Known(s2.members, []);
            && !LatestUnique(known)
            && forall a, b :: Elements(a) <= known && Elements(b) <= known ==> Merge(marked, a) != Merge(s2.members, b)
  {
    var marked := Step(s1, HandleFailure(id)).members;
    var known := Known(marked, []) + Known(s2.members, []);
    assert marked[id] in known && s2.members[id] in known;
    assert Latest(known, marked[id]) && Latest(known, s2.members[id]);
    forall a, b | Elements(a) <= known && Elements(b) <= known ensures Merge(marked, a) != Merge(s2.members, b) {
      MarkDoesNotSpread(marked, s2.members, id, a, b);
    }
  }

  /** A merged newcomer is a member that no event explains. */
  lemma MergeLeavesNoEvent(s: Replica, r: NodeInfo)
    requires s.pending == [] && r.id !in s.members
    ensures var ops := [Gossip([r])];
            r.id in Run(s, ops).members && Replay(s.members, Emitted(s, ops)) == s.members != Run(s, ops).members
  {
    RecordReachesIff(s.members, r);
    var ops := [Gossip([r])];
    assert ops[..|ops| - 1] == [];
    EmittedStep(s, ops);
  }

  /** A node leaves, and a record of it older than any ever held brings it back. */
  lemma OldRecordBringsBack(s: Replica, r: NodeInfo)
    requires r.id in s.members && r.lastHeartbeat < s.members[r.id].lastHeartbeat
    ensures r.id !in Step(s, HandleLeave(r.id)).members
    ensures Step(Step(s, HandleLeave(r.id)), Gossip([r])).members == s.members[r.id := r]
  {
    assert [r][..|[r]| - 1] == [];
    var left := Step(s, HandleLeave(r.id)).members;
    assert Merge(left, [r]) == MergeOne(left, r);
  }
}
