/** Whole runs of the control plane: quotas, cancellation and the nodes given out. */
module ControlRuns {
  import opened Sequences
  import opened Graphs
  import opened Clusters
  import opened NodeControls

  function Run(s: Control, ops: seq<ControlOp>): Control {
    if ops == [] then s else ControlStep(Run(s, ops[..|ops| - 1]), ops[|ops| - 1])
  }

  /** Every call of the run took nodes as the code does. */
  ghost predicate IsControlRun(s: Control, ops: seq<ControlOp>) {
    forall k :: 0 <= k < |ops| ==> Legal(Run(s, ops[..k]), ops[k])
  }

  lemma RunStep(s: Control, ops: seq<ControlOp>, k: nat)
    requires k < |ops|
    ensures Run(s, ops[..k + 1]) == ControlStep(Run(s, ops[..k]), ops[k])
  {
    assert ops[..k + 1][..k] == ops[..k];
  }

  // ----- authentication

  /** What authentication was last switched to. */
  function AuthOn(s: Control, ops: seq<ControlOp>): bool {
    if ops == [] then s.authEnabled
    else if ops[|ops| - 1].AuthSwitch? then ops[|ops| - 1].enabled
    else AuthOn(s, ops[..|ops| - 1])
  }

  lemma {:induction false} AuthOverRun(s: Control, ops: seq<ControlOp>)
    ensures Run(s, ops).authEnabled == AuthOn(s, ops)
  {
    if ops != [] {
      AuthOverRun(s, ops[..|ops| - 1]);
    }
  }

  // ----- quotas since the last registration

  predicate Asks(op: ControlOp, tenant: string) {
    (op.Validation? || op.Submission?) && op.request.tenantId == tenant
  }

  predicate Registers(op: ControlOp, tenant: string) {
    op.Registration? && op.quota.tenantId == tenant
  }

  function QuotaOf(s: Control, tenant: string): Option<TenantQuotaInfo> {
    if tenant in s.quotas then Some(s.quotas[tenant]) else None
  }

  /** The quota last installed for the tenant, as it was installed. */
  function Installed(s: Control, ops: seq<ControlOp>, tenant: string): Option<TenantQuotaInfo> {
    if ops == [] then QuotaOf(s, tenant)
    else
      var n := |ops| - 1;
      if Registers(ops[n], tenant) then Some(ops[n].quota) else Installed(s, ops[..n], tenant)
  }

  /** How many of the tenant's requests were let in since then. */
  function Admitted(s: Control, ops: seq<ControlOp>, tenant: string): nat {
    if ops == [] || Registers(ops[|ops| - 1], tenant) then 0
    else
      var n := |ops| - 1;
      var now := Run(s, ops[..n]);
      Admitted(s, ops[..n], tenant) + if Asks(ops[n], tenant) && RefusalOf(now, ops[n].request).None? then 1 else 0
  }

  /** How many of them carried what authentication asked for at the time. */
  function Authorised(s: Control, ops: seq<ControlOp>, tenant: string): nat {
    if ops == [] || Registers(ops[|ops| - 1], tenant) then 0
    else
      var n := |ops| - 1;
      Authorised(s, ops[..n], tenant)
      + if Asks(ops[n], tenant) && (AuthOn(s, ops[..n]) ==> ops[n].request.credentials.Some?) then 1 else 0
  }

  /** The places a quota leaves when it is installed. */
  function Places(q: TenantQuotaInfo): nat {
    if q.activeGraphs <= q.maxConcurrentGraphs then q.maxConcurrentGraphs - q.activeGraphs else 0
  }

  lemma RefusalIs(s: Control, r: SubmissionRequest)
    ensures RefusalOf(s, r).None? <==>
            && (s.authEnabled ==> r.credentials.Some?)
            && match QuotaOf(s, r.tenantId)
               case None => true
               case Some(q) => q.activeGraphs < q.maxConcurrentGraphs
  {
  }

  lemma QuotaStep(s: Control, op: ControlOp, tenant: string)
    requires !Registers(op, tenant)
    ensures QuotaOf(ControlStep(s, op), tenant) ==
            match QuotaOf(s, tenant)
            case None => None
            case Some(q) =>
              if Asks(op, tenant) && RefusalOf(s, op.request).None? then Some(q.(activeGraphs := q.activeGraphs + 1)) else Some(q)
  {
  }

  /** Only a new registration gives places back. Since the last one, of the tenant's authorised
      requests exactly as many are let in, the first ones, as the quota then left places; each stays
      counted, whatever else happens. A tenant never registered is never limited. */
  lemma {:induction false} QuotaSinceRegistration(s: Control, ops: seq<ControlOp>, tenant: string)
    ensures var end, admitted, authorised := QuotaOf(Run(s, ops), tenant), Admitted(s, ops, tenant), Authorised(s, ops, tenant);
            match Installed(s, ops, tenant)
            case None => end == None && admitted == authorised
            case Some(q) =>
              && admitted == Min(authorised, Places(q))
              && end == Some(q.(activeGraphs := q.activeGraphs + admitted))
              && (q.activeGraphs <= q.maxConcurrentGraphs ==> end.value.activeGraphs <= q.maxConcurrentGraphs)
  {
    if ops != [] && !Registers(ops[|ops| - 1], tenant) {
      var n := |ops| - 1;
      QuotaSinceRegistration(s, ops[..n], tenant);
      AuthOverRun(s, ops[..n]);
      if Asks(ops[n], tenant) {
        RefusalIs(Run(s, ops[..n]), ops[n].request);
      }
      QuotaStep(Run(s, ops[..n]), ops[n], tenant);
    }
  }

  /** The tenant's quota, as last installed, has been used up since. */
  predicate UsedUp(s: Control, ops: seq<ControlOp>, tenant: string) {
    match Installed(s, ops, tenant)
    case None => false
    case Some(q) => q.activeGraphs + Admitted(s, ops, tenant) >= q.maxConcurrentGraphs
  }

  /** Exactly why a request is refused after any run. While authentication is on, one without
      credentials is refused for lack of them, quota or not; one that carries them, or comes while
      authentication is off, is refused only when its tenant's quota is used up. */
  lemma RefusedExactly(s: Control, ops: seq<ControlOp>, r: SubmissionRequest)
    ensures RefusalOf(Run(s, ops), r) ==
            if AuthOn(s, ops) && r.credentials.None? then Some(AuthenticationRequired)
            else if UsedUp(s, ops, r.tenantId) then Some(QuotaExceeded(r.tenantId))
            else None
  {
    AuthOverRun(s, ops);
    QuotaSinceRegistration(s, ops, r.tenantId);
  }

  /** A refused request takes no place, stores nothing and takes no nodes. */
  lemma RefusedChangesNothing(s: Control, ops: seq<ControlOp>, r: SubmissionRequest, newId: GraphId, picked: seq<NodeId>)
    requires (AuthOn(s, ops) && r.credentials.None?) || UsedUp(s, ops, r.tenantId)
    ensures ControlStep(Run(s, ops), Validation(r)) == Run(s, ops) == ControlStep(Run(s, ops), Submission(r, newId, picked))
  {
    RefusedExactly(s, ops, r);
  }

  /** Every request let in while authentication was on carried credentials. */
  lemma AdmittedCarryCredentials(s: Control, ops: seq<ControlOp>, k: nat)
    requires k < |ops| && (ops[k].Validation? || ops[k].Submission?) && AuthOn(s, ops[..k])
    requires RefusalOf(Run(s, ops[..k]), ops[k].request).None?
    ensures ops[k].request.credentials.Some?
  {
    RefusedExactly(s, ops[..k], ops[k].request);
  }

  function Active(s: Control, tenant: string): nat {
    if tenant in s.quotas then s.quotas[tenant].activeGraphs else 0
  }

  /** The call registers the tenant with a smaller active count than it had. */
  predicate InstallsFewer(s: Control, ops: seq<ControlOp>, k: nat, tenant: string)
    requires k < |ops|
  {
    Registers(ops[k], tenant) && ops[k].quota.activeGraphs < Active(Run(s, ops[..k]), tenant)
  }

  lemma OnlyRegistrationLowers(s: Control, op: ControlOp, tenant: string)
    ensures Active(ControlStep(s, op), tenant) < Active(s, tenant)
            <==> Registers(op, tenant) && op.quota.activeGraphs < Active(s, tenant)
  {
  }

  lemma {:induction false} FewerWereInstalled(s: Control, ops: seq<ControlOp>, i: nat, j: nat, tenant: string) returns (k: nat)
    requires i <= j <= |ops| && Active(Run(s, ops[..j]), tenant) < Active(Run(s, ops[..i]), tenant)
    ensures i <= k < j && InstallsFewer(s, ops, k, tenant)
  {
    k := j - 1;
    RunStep(s, ops, k);
    OnlyRegistrationLowers(Run(s, ops[..k]), ops[k], tenant);
    if Active(Run(s, ops[..k]), tenant) < Active(Run(s, ops[..i]), tenant) {
      k := FewerWereInstalled(s, ops, i, k, tenant);
    }
  }

  /** The active count of a tenant falls somewhere in a run exactly when some registration of that
      tenant installs a smaller one: finished, failed and cancelled graphs never lower it. */
  lemma ActiveFallsIff(s: Control, ops: seq<ControlOp>, tenant: string)
    ensures (exists i, j :: 0 <= i <= j <= |ops| && Active(Run(s, ops[..j]), tenant) < Active(Run(s, ops[..i]), tenant))
            <==> (exists k :: 0 <= k < |ops| && InstallsFewer(s, ops, k, tenant))
  {
    if i, j :| 0 <= i <= j <= |ops| && Active(Run(s, ops[..j]), tenant) < Active(Run(s, ops[..i]), tenant) {
      var k := FewerWereInstalled(s, ops, i, j, tenant);
    }
    if k :| 0 <= k < |ops| && InstallsFewer(s, ops, k, tenant) {
      RunStep(s, ops, k);
    }
  }

  /** With a limit of one: admitted, refused, registered anew while the first graph is still counted,
      and admitted again. */
  lemma RegisteringAgainAdmitsAgain(s: Control, r: SubmissionRequest, first: GraphId, second: GraphId)
    returns (q: TenantQuotaInfo, ops: seq<ControlOp>)
    requires !s.authEnabled
    ensures q.maxConcurrentGraphs == 1 && q.activeGraphs == 0
    ensures ops == [Registration(q), Submission(r, first, []), Registration(q), Submission(r, second, [])]
    ensures RefusalOf(Run(s, ops[..1]), r) == None && RefusalOf(Run(s, ops[..2]), r) == Some(QuotaExceeded(r.tenantId))
    ensures RefusalOf(Run(s, ops[..3]), r) == None
    ensures Active(Run(s, ops), r.tenantId) == 1
    ensures first != second ==> {first, second} <= Run(s, ops).graphs.Keys
  {
    q := TenantQuotaInfo(r.tenantId, 1, 0, 0, 0);
    ops := [Registration(q), Submission(r, first, []), Registration(q), Submission(r, second, [])];
    RunStep(s, ops, 0);
    RunStep(s, ops, 1);
    RunStep(s, ops, 2);
    RunStep(s, ops, 3);
    assert ops[..4] == ops;
  }

  // ----- what is stored

  /** The call is a submission that is let in. */
  predicate LetsIn(s: Control, op: ControlOp) {
    op.Submission? && RefusalOf(s, op.request).None?
  }

  /** The last request let in whose graph got this id. */
  function LastFor(s: Control, ops: seq<ControlOp>, id: GraphId): Option<SubmissionRequest> {
    if ops == [] then None
    else
      var n := |ops| - 1;
      if LetsIn(Run(s, ops[..n]), ops[n]) && ops[n].newId == id then Some(ops[n].request) else LastFor(s, ops[..n], id)
  }

  /** The last request let in under this submission id. */
  function LastUnder(s: Control, ops: seq<ControlOp>, submissionId: string): Option<SubmissionRequest> {
    if ops == [] then None
    else
      var n := |ops| - 1;
      if LetsIn(Run(s, ops[..n]), ops[n]) && ops[n].request.submissionId == submissionId then Some(ops[n].request)
      else LastUnder(s, ops[..n], submissionId)
  }

  lemma StoreStep(s: Control, op: ControlOp, id: GraphId)
    requires !IsRunning(s, id)
    ensures var after := ControlStep(s, op).graphs;
            if LetsIn(s, op) && op.newId == id then id in after && Honours(after[id], id, op.request)
            else (id in after <==> id in s.graphs) && (id in after ==> after[id] == s.graphs[id])
  {
  }

  /** From an empty store, after any run, exactly the graphs of requests let in are stored, each as
      its request asked for it. */
  lemma {:induction false} StoredGraphs(s: Control, ops: seq<ControlOp>, id: GraphId)
    requires s.graphs == map[]
    ensures match LastFor(s, ops, id)
            case None => id !in Run(s, ops).graphs
            case Some(r) => id in Run(s, ops).graphs && Honours(Run(s, ops).graphs[id], id, r)
  {
    if ops != [] {
      var n := |ops| - 1;
      StoredGraphs(s, ops[..n], id);
      RunningIff(s, ops[..n], id);
      StoreStep(Run(s, ops[..n]), ops[n], id);
    }
  }

  /** And exactly the requests let in are on record, the last one under each submission id. */
  lemma {:induction false} StoredSubmissions(s: Control, ops: seq<ControlOp>, submissionId: string)
    requires s.submissions == map[]
    ensures match LastUnder(s, ops, submissionId)
            case None => submissionId !in Run(s, ops).submissions
            case Some(r) => submissionId in Run(s, ops).submissions && Run(s, ops).submissions[submissionId] == r
  {
    if ops != [] {
      StoredSubmissions(s, ops[..|ops| - 1], submissionId);
    }
  }

  // ----- what can be cancelled

  /** The call neither cancels the graph nor stores another one under its id. */
  predicate Leaves(s: Control, op: ControlOp, id: GraphId) {
    match op
    case Cancellation(x) => x != id
    case Submission(r, newId, _) => newId != id || RefusalOf(s, r).Some?
    case _ => true
  }

  ghost predicate AllLeave(s: Control, ops: seq<ControlOp>, id: GraphId) {
    forall k :: 0 <= k < |ops| ==> Leaves(Run(s, ops[..k]), ops[k], id)
  }

  lemma AllLeaveStep(s: Control, ops: seq<ControlOp>, id: GraphId)
    requires ops != []
    ensures var n := |ops| - 1;
            AllLeave(s, ops, id) <==> AllLeave(s, ops[..n], id) && Leaves(Run(s, ops[..n]), ops[n], id)
  {
    var n := |ops| - 1;
    assert forall k :: 0 <= k < n ==> ops[..n][..k] == ops[..k];
  }

  lemma RunningStep(s: Control, op: ControlOp, id: GraphId)
    ensures IsRunning(ControlStep(s, op), id) <==> IsRunning(s, id) && Leaves(s, op, id)
  {
  }

  /** No call of the control plane starts a graph: one is running, and so can be cancelled, after a
      run exactly when it was before and every call left it alone. */
  lemma {:induction false} RunningIff(s: Control, ops: seq<ControlOp>, id: GraphId)
    ensures IsRunning(Run(s, ops), id) <==> IsRunning(s, id) && AllLeave(s, ops, id)
  {
    if ops != [] {
      var n := |ops| - 1;
      RunningIff(s, ops[..n], id);
      RunningStep(Run(s, ops[..n]), ops[n], id);
      AllLeaveStep(s, ops, id);
    }
  }

  /** So from an empty store, as `new` leaves it, every cancellation is an error and changes nothing,
      and all graphs ever submitted stay pending. */
  lemma {:induction false} NothingToCancel(s: Control, ops: seq<ControlOp>)
    requires s.graphs == map[]
    ensures forall id :: id in Run(s, ops).graphs ==> Run(s, ops).graphs[id].status.Pending?
    ensures forall id :: ControlStep(Run(s, ops), Cancellation(id)) == Run(s, ops)
  {
    if ops != [] {
      NothingToCancel(s, ops[..|ops| - 1]);
    }
  }

  // ----- runs of the control plane are runs of its cluster

  /** The node operations that one call makes. */
  function NodeOps(s: Control, op: ControlOp): seq<Op> {
    match op
    case Submission(r, newId, picked) => if RefusalOf(s, r).Some? then [] else [Allocate(picked, newId)]
    case Cancellation(id) => if IsRunning(s, id) then [SetState(s.self, Ready)] else []
    case NodeFailure(failed, graph, picked) => [SetState(failed, NODE_FAILED), Allocate(picked, graph)]
    case NodeRejoin(node) => [Rejoin(node)]
    case Direct(call) => [call]
    case _ => []
  }

  function AllNodeOps(s: Control, ops: seq<ControlOp>): seq<Op> {
    if ops == [] then []
    else
      var n := |ops| - 1;
      AllNodeOps(s, ops[..n]) + NodeOps(Run(s, ops[..n]), ops[n])
  }

  lemma {:induction false} AfterConcat(nodes: Nodes, a: seq<Op>, b: seq<Op>)
    ensures After(nodes, a + b) == After(After(nodes, a), b)
  {
    if b == [] {
      assert a + b == a;
    } else {
      var n := |b| - 1;
      assert (a + b)[..|a + b| - 1] == a + b[..n];
      AfterConcat(nodes, a, b[..n]);
    }
  }

  lemma RunsConcat(nodes: Nodes, a: seq<Op>, b: seq<Op>)
    requires IsRun(nodes, a) && IsRun(After(nodes, a), b)
    ensures IsRun(nodes, a + b)
  {
    forall k | 0 <= k < |a + b| && (a + b)[k].Allocate?
      ensures Elements((a + b)[k].picked) <= ReadyNodes(After(nodes, (a + b)[..k]))
    {
      if k < |a| {
        assert (a + b)[..k] == a[..k];
      } else {
        assert (a + b)[..k] == a + b[..k - |a|];
        AfterConcat(nodes, a, b[..k - |a|]);
      }
    }
  }

  lemma RunOfOne(nodes: Nodes, op: Op)
    requires op.Allocate? ==> Elements(op.picked) <= ReadyNodes(nodes)
    ensures After(nodes, [op]) == Apply(nodes, op) && IsRun(nodes, [op])
  {
    assert [op][..0] == [];
  }

  lemma NodeOpsOfStep(s: Control, op: ControlOp)
    requires Legal(s, op)
    ensures ControlStep(s, op).nodes == After(s.nodes, NodeOps(s, op)) && IsRun(s.nodes, NodeOps(s, op))
  {
    match op
    case NodeFailure(failed, graph, picked) =>
      var mark, take := SetState(failed, NODE_FAILED), Allocate(picked, graph);
      RunOfOne(s.nodes, mark);
      RunOfOne(WithState(s.nodes, failed, NODE_FAILED), take);
      AfterConcat(s.nodes, [mark], [take]);
      RunsConcat(s.nodes, [mark], [take]);
      assert [mark] + [take] == NodeOps(s, op);
    case Submission(r, newId, picked) =>
      if RefusalOf(s, r).None? {
        RunOfOne(s.nodes, Allocate(picked, newId));
      }
    case Cancellation(id) => RunOfOne(s.nodes, SetState(s.self, Ready));
    case NodeRejoin(node) => RunOfOne(s.nodes, Rejoin(node));
    case Direct(call) => RunOfOne(s.nodes, call);
    case _ =>
  }

  /** What a run of the control plane does to the nodes is a legal run of the cluster, a reallocation
      being a `SetState` and an `Allocate`, so what holds of all runs of the cluster holds of it. */
  lemma {:induction false} ControlRunIsClusterRun(s: Control, ops: seq<ControlOp>)
    requires IsControlRun(s, ops)
    ensures Run(s, ops).nodes == After(s.nodes, AllNodeOps(s, ops)) && IsRun(s.nodes, AllNodeOps(s, ops))
  {
    if ops != [] {
      var n := |ops| - 1;
      assert forall k :: 0 <= k < n ==> ops[..n][..k] == ops[..k];
      ControlRunIsClusterRun(s, ops[..n]);
      var now := Run(s, ops[..n]);
      NodeOpsOfStep(now, ops[n]);
      AfterConcat(s.nodes, AllNodeOps(s, ops[..n]), NodeOps(now, ops[n]));
      RunsConcat(s.nodes, AllNodeOps(s, ops[..n]), NodeOps(now, ops[n]));
    }
  }

  // ----- nodes given out twice

  /** The nodes that a call took for its graph. */
  function Taken(op: ControlOp): seq<NodeId> {
    if op.Submission? || op.NodeFailure? then op.picked else []
  }

  /** The calls that can return the node to ready. */
  predicate Returns(op: ControlOp, node: NodeId) {
    (op.NodeRejoin? && op.node == node) || (op.Direct? && MakesReady(op.call, node))
  }

  lemma OnlyTheseReturn(s: Control, op: ControlOp, node: NodeId)
    requires Legal(s, op) && !IsReady(s.nodes, node) && IsReady(ControlStep(s, op).nodes, node)
    ensures Returns(op, node) || (op.Cancellation? && IsRunning(s, op.id))
  {
    match op
    case Submission(_, newId, picked) => MarkedMeaning(s.nodes, picked, newId);
    case NodeFailure(failed, graph, picked) => MarkedMeaning(WithState(s.nodes, failed, NODE_FAILED), picked, graph);
    case Direct(call) => OnlyTheseMakeReady(s.nodes, call, node);
    case _ =>
  }

  lemma {:induction false} WasReturned(s: Control, ops: seq<ControlOp>, node: NodeId, from: nat, to: nat) returns (m: nat)
    requires IsControlRun(s, ops) && s.graphs == map[] && from <= to <= |ops|
    requires !IsReady(Run(s, ops[..from]).nodes, node) && IsReady(Run(s, ops[..to]).nodes, node)
    ensures from <= m < to && Returns(ops[m], node)
  {
    m := to - 1;
    var now := Run(s, ops[..m]);
    RunStep(s, ops, m);
    if IsReady(now.nodes, node) {
      m := WasReturned(s, ops, node, from, m);
    } else {
      OnlyTheseReturn(now, ops[m], node);
      if ops[m].Cancellation? {
        RunningIff(s, ops[..m], ops[m].id);
      }
    }
  }

  lemma TakenIsNotReady(s: Control, op: ControlOp, node: NodeId)
    requires Legal(s, op) && node in Taken(op)
    ensures IsReady(s.nodes, node) && !IsReady(ControlStep(s, op).nodes, node)
  {
    assert node in Elements(op.picked);
    match op
    case Submission(_, newId, picked) => MarkedMeaning(s.nodes, picked, newId);
    case NodeFailure(failed, graph, picked) => MarkedMeaning(WithState(s.nodes, failed, NODE_FAILED), picked, graph);
  }

  /** From an empty store a node goes to a second graph, by a submission or a reallocation, only if
      between the two it rejoined or was made ready by a direct call on the cluster: no call of the
      control plane frees a node when its graph is done. */
  lemma SecondGraphNeedsReturn(s: Control, ops: seq<ControlOp>, i: nat, j: nat, node: NodeId) returns (m: nat)
    requires IsControlRun(s, ops) && s.graphs == map[] && i < j < |ops|
    requires node in Taken(ops[i]) && node in Taken(ops[j])
    ensures i < m < j && Returns(ops[m], node)
  {
    RunStep(s, ops, i);
    TakenIsNotReady(Run(s, ops[..i]), ops[i], node);
    TakenIsNotReady(Run(s, ops[..j]), ops[j], node);
    m := WasReturned(s, ops, node, i + 1, j);
  }
}
