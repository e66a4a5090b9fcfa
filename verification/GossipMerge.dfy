/** The last-writer-wins merge of membership records, and when replicas that use it agree. */
module GossipMerge {
  import opened Sequences

  datatype NetNodeId = NetNodeId(uuid: nat)

  datatype NetworkAddress = NetworkAddress(host: string, port: nat)

  datatype ConnectionStatus = Connected | Disconnected | Connecting | Failed(reason: string)

  datatype NodeInfo = NodeInfo(id: NetNodeId, address: NetworkAddress, status: ConnectionStatus,
                               lastHeartbeat: int, incarnation: nat, metadata: map<string, string>)
  {
    predicate IsAlive() {
      status.Connected?
    }
  }

  type Members = map<NetNodeId, NodeInfo>

  /** The invariant of every membership table: a record sits under its own id. */
  ghost predicate Keyed(m: Members) {
    forall id :: id in m ==> m[id].id == id
  }

  function MergeOne(m: Members, r: NodeInfo): Members {
    if r.id in m && r.lastHeartbeat <= m[r.id].lastHeartbeat then m else m[r.id := r]
  }

  /** `process_gossip` on a list of records. */
  function Merge(m: Members, records: seq<NodeInfo>): Members {
    if records == [] then m else MergeOne(Merge(m, records[..|records| - 1]), records[|records| - 1])
  }

  lemma {:induction false} MergeAppend(m: Members, a: seq<NodeInfo>, b: seq<NodeInfo>)
    ensures Merge(Merge(m, a), b) == Merge(m, a + b)
  {
    if b == [] {
      assert a + b == a;
    } else {
      var n := |b| - 1;
      MergeAppend(m, a, b[..n]);
      assert (a + b)[..|a + b| - 1] == a + b[..n];
    }
  }

  // ----- what a merge holds

  /** Everything a replica has ever known: what it started with and what it received. */
  ghost function Known(m: Members, records: seq<NodeInfo>): set<NodeInfo> {
    (set id | id in m :: m[id]) + Elements(records)
  }

  ghost function Ids(known: set<NodeInfo>): set<NetNodeId> {
    set r | r in known :: r.id
  }

  /** No record of the same node has a greater heartbeat. */
  ghost predicate Latest(known: set<NodeInfo>, r: NodeInfo) {
    r in known && forall q :: q in known && q.id == r.id ==> q.lastHeartbeat <= r.lastHeartbeat
  }

  /** The members are the nodes known, each with a record of the greatest heartbeat known for it. */
  ghost predicate HoldsLatest(m: Members, known: set<NodeInfo>) {
    Keyed(m) && m.Keys == Ids(known) && forall id :: id in m ==> Latest(known, m[id])
  }

  lemma HoldsOneMore(m: Members, known: set<NodeInfo>, r: NodeInfo)
    requires HoldsLatest(m, known)
    ensures HoldsLatest(MergeOne(m, r), known + {r})
  {
    var m', known' := MergeOne(m, r), known + {r};
    assert Ids(known') == Ids(known) + {r.id};
    forall id | id in m' ensures Latest(known', m'[id]) {
      if id in m {
        assert Latest(known, m[id]);
      }
    }
  }

  lemma {:induction false} MergeHoldsLatest(m: Members, records: seq<NodeInfo>)
    requires Keyed(m)
    ensures HoldsLatest(Merge(m, records), Known(m, records))
  {
    if records == [] {
      var known := Known(m, records);
      forall id | id in m ensures id in Ids(known) && Latest(known, m[id]) {
        assert m[id] in known;
      }
    } else {
      var n := |records| - 1;
      MergeHoldsLatest(m, records[..n]);
      HoldsOneMore(Merge(m, records[..n]), Known(m, records[..n]), records[n]);
      assert forall q :: q in records <==> q in records[..n] || q == records[n];
      assert Known(m, records) == Known(m, records[..n]) + {records[n]};
    }
  }

  // ----- when order, duplication and batching do not matter

  /** Each node has one latest record: its identity and greatest heartbeat fix the rest. */
  ghost predicate LatestUnique(known: set<NodeInfo>) {
    forall p, q :: Latest(known, p) && Latest(known, q) && p.id == q.id ==> p == q
  }

  /** Replicas that know the same records hold the same table, however the records arrived. */
  lemma SameKnowledgeSameTable(m1: Members, a: seq<NodeInfo>, m2: Members, b: seq<NodeInfo>)
    requires Keyed(m1) && Keyed(m2) && Known(m1, a) == Known(m2, b)
    requires LatestUnique(Known(m1, a))
    ensures Merge(m1, a) == Merge(m2, b)
  {
    MergeHoldsLatest(m1, a);
    MergeHoldsLatest(m2, b);
    var left, right := Merge(m1, a), Merge(m2, b);
    forall id | id in left ensures left[id] == right[id] {
      assert Latest(Known(m1, a), left[id]) && Latest(Known(m1, a), right[id]);
    }
  }

  function Flatten(batches: seq<seq<NodeInfo>>): seq<NodeInfo> {
    if batches == [] then [] else Flatten(batches[..|batches| - 1]) + batches[|batches| - 1]
  }

  /** A sequence of `process_gossip` calls. */
  function Deliver(m: Members, batches: seq<seq<NodeInfo>>): Members {
    if batches == [] then m else Merge(Deliver(m, batches[..|batches| - 1]), batches[|batches| - 1])
  }

  lemma {:induction false} DeliverIsOneMerge(m: Members, batches: seq<seq<NodeInfo>>)
    ensures Deliver(m, batches) == Merge(m, Flatten(batches))
  {
    if batches != [] {
      var n := |batches| - 1;
      DeliverIsOneMerge(m, batches[..n]);
      MergeAppend(m, Flatten(batches[..n]), batches[n]);
    }
  }

  /** Over a network that reorders, duplicates and regroups records, two replicas converge as soon
      as the records they started with and received are the same set. */
  lemma ReplicasConverge(m1: Members, a: seq<seq<NodeInfo>>, m2: Members, b: seq<seq<NodeInfo>>)
    requires Keyed(m1) && Keyed(m2) && Known(m1, Flatten(a)) == Known(m2, Flatten(b))
    requires LatestUnique(Known(m1, Flatten(a)))
    ensures Deliver(m1, a) == Deliver(m2, b)
  {
    DeliverIsOneMerge(m1, a);
    DeliverIsOneMerge(m2, b);
    SameKnowledgeSameTable(m1, Flatten(a), m2, Flatten(b));
  }

  /** A latest record that is held stays, whatever arrives: ties keep the record already there. */
  lemma {:induction false} LatestStays(m: Members, records: seq<NodeInfo>, id: NetNodeId)
    requires id in m
    requires forall r :: r in records && r.id == id ==> r.lastHeartbeat <= m[id].lastHeartbeat
    ensures id in Merge(m, records) && Merge(m, records)[id] == m[id]
  {
    if records != [] {
      var n := |records| - 1;
      assert forall q :: q in records <==> q in records[..n] || q == records[n];
      LatestStays(m, records[..n], id);
    }
  }

  lemma {:induction false} SomeOrder(known: set<NodeInfo>) returns (order: seq<NodeInfo>)
    ensures Elements(order) == known
  {
    if known == {} {
      order := [];
    } else {
      var r :| r in known;
      var rest := SomeOrder(known - {r});
      order := rest + [r];
      assert forall q :: q in order <==> q in rest || q == r;
      assert Elements(order) == Elements(rest) + {r};
    }
  }

  /** The replica holds one of the latest records of the node. */
  ghost predicate HoldsOne(m: Members, known: set<NodeInfo>, id: NetNodeId) {
    id in m && Latest(known, m[id])
  }

  ghost predicate UniqueFor(known: set<NodeInfo>, id: NetNodeId) {
    forall p, q :: Latest(known, p) && Latest(known, q) && p.id == id && q.id == id ==> p == q
  }

  /** Two replicas cannot come to differ on the node: its latest record is unique, or both hold the
      same one already. */
  ghost predicate Decided(m1: Members, m2: Members, known: set<NodeInfo>, id: NetNodeId) {
    UniqueFor(known, id) || (HoldsOne(m1, known, id) && HoldsOne(m2, known, id) && m1[id] == m2[id])
  }

  /** A replica that holds no latest record of the node ends up with the one that arrives first. */
  lemma ArrivesFirstWins(m: Members, known: set<NodeInfo>, p: NodeInfo) returns (order: seq<NodeInfo>)
    requires Keyed(m) && Known(m, []) <= known && Latest(known, p)
    requires HoldsOne(m, known, p.id) ==> m[p.id] == p
    ensures Known(m, order) == known && p.id in Merge(m, order) && Merge(m, order)[p.id] == p
  {
    var rest := SomeOrder(known);
    order := [p] + rest;
    assert forall q :: q in order <==> q == p || q in Elements(rest);
    assert Known(m, order) == known;
    var one := Merge(m, [p]);
    RecordReachesIff(m, p);
    assert one[p.id] == p by {
      if p.id in m {
        assert m[p.id] in Known(m, []);
      }
    }
    forall r | r in rest && r.id == p.id ensures r.lastHeartbeat <= p.lastHeartbeat {
      assert r in Elements(rest);
    }
    LatestStays(one, rest, p.id);
    MergeAppend(m, [p], rest);
  }

  lemma DecidedAgree(m1: Members, a: seq<NodeInfo>, m2: Members, b: seq<NodeInfo>, known: set<NodeInfo>, id: NetNodeId)
    requires Keyed(m1) && Keyed(m2) && Known(m1, a) == known == Known(m2, b)
    requires id in Ids(known) && Decided(m1, m2, known, id)
    ensures id in Merge(m1, a) && id in Merge(m2, b) && Merge(m1, a)[id] == Merge(m2, b)[id]
  {
    MergeHoldsLatest(m1, a);
    MergeHoldsLatest(m2, b);
    if UniqueFor(known, id) {
      assert Latest(known, Merge(m1, a)[id]) && Latest(known, Merge(m2, b)[id]);
    } else {
      assert forall r :: r in a ==> r in Known(m1, a);
      assert forall r :: r in b ==> r in Known(m2, b);
      LatestStays(m1, a, id);
      LatestStays(m2, b, id);
    }
  }

  lemma UndecidedDiffer(m1: Members, m2: Members, known: set<NodeInfo>, id: NetNodeId) returns (a: seq<NodeInfo>, b: seq<NodeInfo>)
    requires Keyed(m1) && Keyed(m2) && Known(m1, []) <= known && Known(m2, []) <= known
    requires !Decided(m1, m2, known, id)
    ensures Known(m1, a) == known == Known(m2, b) && Merge(m1, a) != Merge(m2, b)
  {
    var p, q :| Latest(known, p) && Latest(known, q) && p.id == id && q.id == id && p != q;
    var x, y := p, q;
    if HoldsOne(m1, known, id) {
      x := m1[id];
      y := if HoldsOne(m2, known, id) then m2[id] else if x == p then q else p;
    } else if HoldsOne(m2, known, id) {
      y := m2[id];
      x := if y == p then q else p;
    }
    a := ArrivesFirstWins(m1, known, x);
    b := ArrivesFirstWins(m2, known, y);
  }

  /** However the records known are delivered to the two replicas, they end up equal. */
  ghost predicate AlwaysAgree(m1: Members, m2: Members, known: set<NodeInfo>) {
    forall a, b :: Known(m1, a) == known && Known(m2, b) == known ==> Merge(m1, a) == Merge(m2, b)
  }

  lemma MergedIdsAreKnown(m: Members, records: seq<NodeInfo>)
    requires Keyed(m)
    ensures Merge(m, records).Keys == Ids(Known(m, records))
  {
    MergeHoldsLatest(m, records);
  }

  lemma WhereTheyDiffer(m1: Members, a: seq<NodeInfo>, m2: Members, b: seq<NodeInfo>) returns (id: NetNodeId)
    requires Keyed(m1) && Keyed(m2) && Known(m1, a) == Known(m2, b) && Merge(m1, a) != Merge(m2, b)
    ensures id in Merge(m1, a) && id in Merge(m2, b) && Merge(m1, a)[id] != Merge(m2, b)[id]
    ensures id in Ids(Known(m1, a))
  {
    MergedIdsAreKnown(m1, a);
    MergedIdsAreKnown(m2, b);
    id :| id in Merge(m1, a) && Merge(m1, a)[id] != Merge(m2, b)[id];
  }

  /** Two replicas that come to know the same records hold the same table, whatever the order,
      duplication and grouping, exactly when for every node either its latest record is unique or
      both already hold the same latest record of it. */
  lemma ReplicasAgreeIff(m1: Members, m2: Members, known: set<NodeInfo>)
    requires Keyed(m1) && Keyed(m2) && Known(m1, []) <= known && Known(m2, []) <= known
    ensures AlwaysAgree(m1, m2, known) <==> forall id :: id in Ids(known) ==> Decided(m1, m2, known, id)
  {
    if id :| id in Ids(known) && !Decided(m1, m2, known, id) {
      var a, b := UndecidedDiffer(m1, m2, known, id);
    } else {
      forall a, b | Known(m1, a) == known && Known(m2, b) == known ensures Merge(m1, a) == Merge(m2, b) {
        if Merge(m1, a) != Merge(m2, b) {
          var id := WhereTheyDiffer(m1, a, m2, b);
          DecidedAgree(m1, a, m2, b, known, id);
        }
      }
    }
  }

  lemma LatestUniqueByNode(known: set<NodeInfo>)
    ensures LatestUnique(known) <==> forall id :: id in Ids(known) ==> UniqueFor(known, id)
  {
    if forall id :: id in Ids(known) ==> UniqueFor(known, id) {
      forall p, q | Latest(known, p) && Latest(known, q) && p.id == q.id ensures p == q {
        assert UniqueFor(known, p.id);
      }
    }
  }

  /** From empty tables nothing is held yet, and unique latest records are all it takes. */
  lemma OrderIndependentIff(known: set<NodeInfo>)
    ensures AlwaysAgree(map[], map[], known) <==> LatestUnique(known)
  {
    ReplicasAgreeIff(map[], map[], known);
    LatestUniqueByNode(known);
  }

  /** A failure mark made at one replica does not spread by gossip: with equal heartbeats each
      replica keeps its own record, whatever part of their tables they exchange. */
  lemma MarkDoesNotSpread(m1: Members, m2: Members, id: NetNodeId, a: seq<NodeInfo>, b: seq<NodeInfo>)
    requires Keyed(m1) && Keyed(m2) && id in m1 && id in m2
    requires m1[id].lastHeartbeat == m2[id].lastHeartbeat
    requires Elements(a) <= Known(m1, []) + Known(m2, []) && Elements(b) <= Known(m1, []) + Known(m2, [])
    ensures id in Merge(m1, a) && Merge(m1, a)[id] == m1[id]
    ensures id in Merge(m2, b) && Merge(m2, b)[id] == m2[id]
  {
    forall r | r in a && r.id == id ensures r.lastHeartbeat <= m1[id].lastHeartbeat {
      assert r in Elements(a);
    }
    forall r | r in b && r.id == id ensures r.lastHeartbeat <= m2[id].lastHeartbeat {
      assert r in Elements(b);
    }
    LatestStays(m1, a, id);
    LatestStays(m2, b, id);
  }

  /** Every record merged is there, or one of the node at least as new. */
  lemma {:induction false} MergeReaches(m: Members, records: seq<NodeInfo>, r: NodeInfo)
    requires r in records
    ensures r.id in Merge(m, records) && r.lastHeartbeat <= Merge(m, records)[r.id].lastHeartbeat
  {
    var n := |records| - 1;
    if r != records[n] {
      assert r in records[..n];
      MergeReaches(m, records[..n], r);
    }
  }

  /** The replica knows all the nodes of the message, with heartbeats no smaller. */
  predicate NothingNewer(m: Members, records: seq<NodeInfo>) {
    forall r :: r in records ==> r.id in m && r.lastHeartbeat <= m[r.id].lastHeartbeat
  }

  lemma {:induction false} NothingNewerStays(m: Members, records: seq<NodeInfo>)
    requires NothingNewer(m, records)
    ensures Merge(m, records) == m
  {
    if records != [] {
      var n := |records| - 1;
      assert forall r :: r in records[..n] ==> r in records;
      NothingNewerStays(m, records[..n]);
      assert records[n] in records;
    }
  }

  /** A message changes nothing exactly when none of its records is of an unknown node or newer. */
  lemma MergeChangesNothingIff(m: Members, records: seq<NodeInfo>)
    ensures Merge(m, records) == m <==> NothingNewer(m, records)
  {
    if NothingNewer(m, records) {
      NothingNewerStays(m, records);
    }
    if Merge(m, records) == m {
      forall r | r in records ensures r.id in m && r.lastHeartbeat <= m[r.id].lastHeartbeat {
        MergeReaches(m, records, r);
      }
    }
  }

  /** A record reaches a replica that merges it exactly when the replica does not know the node,
      holds that very record, or holds one with a strictly smaller heartbeat. */
  lemma RecordReachesIff(m: Members, r: NodeInfo)
    ensures r.id in Merge(m, [r])
    ensures Merge(m, [r])[r.id] == r <==> r.id !in m || m[r.id] == r || m[r.id].lastHeartbeat < r.lastHeartbeat
  {
    assert [r][..|[r]| - 1] == [];
    assert Merge(m, [r]) == MergeOne(m, r);
  }

  /** The same within a whole message: a record that no other record of its node matches or beats
      reaches the replica exactly under that condition. */
  lemma RecordInMessageReachesIff(m: Members, records: seq<NodeInfo>, r: NodeInfo)
    requires Keyed(m) && r in records
    requires forall q :: q in records && q.id == r.id && q != r ==> q.lastHeartbeat < r.lastHeartbeat
    ensures r.id in Merge(m, records)
    ensures Merge(m, records)[r.id] == r <==> r.id !in m || m[r.id] == r || m[r.id].lastHeartbeat < r.lastHeartbeat
  {
    MergeHoldsLatest(m, records);
    var known, held := Known(m, records), Merge(m, records);
    assert r in known;
    assert Latest(known, held[r.id]);
    assert held[r.id] in known;
    if r.id in m {
      assert m[r.id] in known;
      if m[r.id].lastHeartbeat >= r.lastHeartbeat {
        LatestStays(m, records, r.id);
      }
    }
  }

  // ----- one node's record through merges

  function OfNode(records: seq<NodeInfo>, id: NetNodeId): (r: seq<NodeInfo>)
    ensures forall q :: q in r <==> q in records && q.id == id
  {
    if records == [] then []
    else
      var n := |records| - 1;
      assert forall q :: q in records <==> q in records[..n] || q == records[n];
      OfNode(records[..n], id) + if records[n].id == id then [records[n]] else []
  }

  /** The record that is left when these arrive one after the other. */
  function Newest(held: NodeInfo, arriving: seq<NodeInfo>): NodeInfo {
    if arriving == [] then held
    else
      var n := |arriving| - 1;
      var now := Newest(held, arriving[..n]);
      if arriving[n].lastHeartbeat > now.lastHeartbeat then arriving[n] else now
  }

  lemma {:induction false} NewestAppend(held: NodeInfo, a: seq<NodeInfo>, b: seq<NodeInfo>)
    ensures Newest(held, a + b) == Newest(Newest(held, a), b)
  {
    if b == [] {
      assert a + b == a;
    } else {
      var n := |b| - 1;
      assert (a + b)[..|a + b| - 1] == a + b[..n];
      NewestAppend(held, a, b[..n]);
    }
  }

  lemma {:induction false} MergeIsNewest(m: Members, records: seq<NodeInfo>, id: NetNodeId)
    requires id in m
    ensures id in Merge(m, records) && Merge(m, records)[id] == Newest(m[id], OfNode(records, id))
  {
    if records != [] {
      var n := |records| - 1;
      MergeIsNewest(m, records[..n], id);
      var before := OfNode(records[..n], id);
      if records[n].id == id {
        assert (before + [records[n]])[..|before|] == before;
      } else {
        assert before + [] == before;
      }
    }
  }

  /** This one of the arriving records beats the one held, all before it, and is beaten by none. */
  ghost predicate Wins(held: NodeInfo, arriving: seq<NodeInfo>, i: nat) {
    && i < |arriving| && arriving[i].lastHeartbeat > held.lastHeartbeat
    && (forall j :: 0 <= j < i ==> arriving[j].lastHeartbeat < arriving[i].lastHeartbeat)
    && (forall j :: i < j < |arriving| ==> arriving[j].lastHeartbeat <= arriving[i].lastHeartbeat)
  }

  lemma OneWins(held: NodeInfo, arriving: seq<NodeInfo>, i: nat, j: nat)
    requires Wins(held, arriving, i) && Wins(held, arriving, j)
    ensures i == j
  {
  }

  /** What is left is the first of those with the greatest heartbeat, if that beats the one held. */
  lemma {:induction false} NewestWins(held: NodeInfo, arriving: seq<NodeInfo>) returns (i: nat)
    ensures i < |arriving| ==> Wins(held, arriving, i) && Newest(held, arriving) == arriving[i]
    ensures i >= |arriving| ==>
              && Newest(held, arriving) == held
              && forall j :: 0 <= j < |arriving| ==> arriving[j].lastHeartbeat <= held.lastHeartbeat
  {
    i := 0;
    if arriving != [] {
      var n := |arriving| - 1;
      var before := arriving[..n];
      i := NewestWins(held, before);
      assert forall j :: 0 <= j < n ==> before[j] == arriving[j];
      if arriving[n].lastHeartbeat > Newest(held, before).lastHeartbeat {
        i := n;
      } else if i >= n {
        i := n + 1;
      }
    }
  }
}
