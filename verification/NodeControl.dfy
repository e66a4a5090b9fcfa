/** The control plane: admission of submissions, allocation of nodes, reallocation after failures. */
module NodeControls {
  import opened Sequences
  import opened Graphs
  import opened Clusters

  datatype SubmissionConfig = SubmissionConfig(maxMemoryMb: Option<nat>, maxFuel: Option<nat>, enableSimd: Option<bool>,
                                               outputPath: Option<string>, requiredNodes: Option<nat>)

  datatype ClientCredentials = ClientCredentials(cert: Option<string>, key: Option<string>, token: Option<string>)

  datatype SubmissionRequest = SubmissionRequest(submissionId: string, tenantId: string, config: SubmissionConfig,
                                                 idempotencyKey: Option<string>, credentials: Option<ClientCredentials>)

  datatype AllocationResult = AllocationResult(graphId: GraphId, allocatedNodes: seq<NodeId>, estimatedCompletion: int)

  datatype TenantQuotaInfo = TenantQuotaInfo(tenantId: string, maxConcurrentGraphs: nat, maxMemoryMb: nat,
                                             maxFuel: nat, activeGraphs: nat)

  type Quotas = map<string, TenantQuotaInfo>

  const FIVE_MINUTES: int := 300

  function OrElse<T>(o: Option<T>, default: T): T {
    match o
    case None => default
    case Some(v) => v
  }

  function GraphFor(id: GraphId, r: SubmissionRequest): Graph {
    Graph(id, Pending, Some(r.tenantId),
          GraphConfig(OrElse(r.config.maxMemoryMb, 512), OrElse(r.config.maxFuel, 1000000),
                      OrElse(r.config.enableSimd, true), r.config.outputPath))
  }

  /** The graph stored for a request is pending, its tenant's, and has what the request asked for,
      or else the defaults: 512 MB, a million units of fuel, SIMD. */
  predicate Honours(g: Graph, id: GraphId, r: SubmissionRequest) {
    && g.id == id && g.status == Pending && g.tenantId == Some(r.tenantId)
    && (r.config.maxMemoryMb == Some(g.config.maxMemoryMb) || (r.config.maxMemoryMb == None && g.config.maxMemoryMb == 512))
    && (r.config.maxFuel == Some(g.config.maxFuel) || (r.config.maxFuel == None && g.config.maxFuel == 1000000))
    && (r.config.enableSimd == Some(g.config.enableSimd) || (r.config.enableSimd == None && g.config.enableSimd))
    && g.config.outputPath == r.config.outputPath
  }

  predicate LacksCredentials(authEnabled: bool, r: SubmissionRequest) {
    authEnabled && r.credentials.None?
  }

  predicate QuotaFull(quotas: Quotas, tenant: string) {
    tenant in quotas && quotas[tenant].activeGraphs >= quotas[tenant].maxConcurrentGraphs
  }

  /** The refusal of a request, if it is refused: credentials are asked for before the quota. */
  function Refusal(authEnabled: bool, quotas: Quotas, r: SubmissionRequest): Option<Error> {
    if LacksCredentials(authEnabled, r) then Some(AuthenticationRequired)
    else if QuotaFull(quotas, r.tenantId) then Some(QuotaExceeded(r.tenantId))
    else None
  }

  /** The quotas after a request: an admitted one takes a place, a refused one none. */
  function Charged(authEnabled: bool, quotas: Quotas, r: SubmissionRequest): Quotas {
    if Refusal(authEnabled, quotas, r).Some? || r.tenantId !in quotas then quotas
    else quotas[r.tenantId := quotas[r.tenantId].(activeGraphs := quotas[r.tenantId].activeGraphs + 1)]
  }

  // ----- the whole control plane as a value

  datatype Control = Control(graphs: map<GraphId, Graph>, submissions: map<string, SubmissionRequest>,
                             authEnabled: bool, quotas: Quotas, nodes: Nodes, self: NodeId)

  /** What can be done to it; `picked` are the nodes that the call took, and `Direct` is a call on the
      cluster that it shares with others. */
  datatype ControlOp =
    | Validation(request: SubmissionRequest)
    | Submission(request: SubmissionRequest, newId: GraphId, picked: seq<NodeId>)
    | Registration(quota: TenantQuotaInfo)
    | AuthSwitch(enabled: bool)
    | Cancellation(id: GraphId)
    | NodeFailure(failed: NodeId, graph: GraphId, picked: seq<NodeId>)
    | NodeRejoin(node: NodeId)
    | Direct(call: Op)

  const NODE_FAILED: NodeState := NodeState.Failed("Node failed")

  function RefusalOf(s: Control, r: SubmissionRequest): Option<Error> {
    Refusal(s.authEnabled, s.quotas, r)
  }

  predicate IsRunning(s: Control, id: GraphId) {
    id in s.graphs && s.graphs[id].status.Running?
  }

  function ControlStep(s: Control, op: ControlOp): Control {
    match op
    case Validation(r) => s.(quotas := Charged(s.authEnabled, s.quotas, r))
    case Submission(r, newId, picked) =>
      if RefusalOf(s, r).Some? then s
      else s.(quotas := Charged(s.authEnabled, s.quotas, r), graphs := s.graphs[newId := GraphFor(newId, r)],
              submissions := s.submissions[r.submissionId := r], nodes := Marked(s.nodes, picked, newId))
    case Registration(quota) => s.(quotas := s.quotas[quota.tenantId := quota])
    case AuthSwitch(enabled) => s.(authEnabled := enabled)
    case Cancellation(id) =>
      if IsRunning(s, id) then
        s.(graphs := s.graphs[id := s.graphs[id].(status := Cancelled)], nodes := WithState(s.nodes, s.self, Ready))
      else s
    case NodeFailure(failed, graph, picked) => s.(nodes := Marked(WithState(s.nodes, failed, NODE_FAILED), picked, graph))
    case NodeRejoin(node) => s.(nodes := Rejoined(s.nodes, node))
    case Direct(call) => s.(nodes := Apply(s.nodes, call))
  }

  /** `picked` are min(required, ready) distinct ready nodes. */
  ghost predicate Picks(nodes: Nodes, required: nat, picked: seq<NodeId>) {
    Distinct(picked) && Elements(picked) <= ReadyNodes(nodes) && |picked| == Min(required, |ReadyNodes(nodes)|)
  }

  /** The choices of nodes that the code can make. */
  ghost predicate Legal(s: Control, op: ControlOp) {
    match op
    case Submission(r, _, picked) =>
      if RefusalOf(s, r).Some? then picked == [] else Picks(s.nodes, OrElse(r.config.requiredNodes, 1), picked)
    case NodeFailure(failed, _, picked) => Picks(WithState(s.nodes, failed, NODE_FAILED), 1, picked)
    case Direct(call) => !call.Allocate?
    case _ => true
  }

  function TakenBy(result: Result<AllocationResult>): seq<NodeId> {
    match result
    case Ok(allocation) => allocation.allocatedNodes
    case Err(_) => []
  }

  class NodeControl {
    const cluster: ClusterManager
    var graphs: map<GraphId, Graph>
    var submissions: map<string, SubmissionRequest>
    var authEnabled: bool
    var tenantQuotas: Quotas

    ghost function View(): Control
      reads this, cluster
    {
      Control(graphs, submissions, authEnabled, tenantQuotas, cluster.nodes, cluster.selfNode)
    }

    constructor (cluster: ClusterManager)
      ensures this.cluster == cluster && graphs == map[] && submissions == map[] && !authEnabled && tenantQuotas == map[]
    {
      this.cluster := cluster;
      graphs, submissions, authEnabled, tenantQuotas := map[], map[], false, map[];
    }

    method SetAuthEnabled(enabled: bool)
      modifies `authEnabled
      ensures View() == ControlStep(old(View()), AuthSwitch(enabled))
    {
      authEnabled := enabled;
    }

    method RegisterTenant(quota: TenantQuotaInfo)
      modifies `tenantQuotas
      ensures View() == ControlStep(old(View()), Registration(quota))
    {
      tenantQuotas := tenantQuotas[quota.tenantId := quota];
    }

    method ValidateSubmission(r: SubmissionRequest) returns (result: Result<()>)
      modifies `tenantQuotas
      ensures View() == ControlStep(old(View()), Validation(r))
      ensures tenantQuotas == Charged(authEnabled, old(tenantQuotas), r)
      ensures match Refusal(authEnabled, old(tenantQuotas), r)
              case None => result == Ok(())
              case Some(error) => result == Err(error)
      ensures result == Err(AuthenticationRequired) <==> authEnabled && r.credentials.None?
      ensures result == Err(QuotaExceeded(r.tenantId)) <==>
                && (authEnabled ==> r.credentials.Some?) && r.tenantId in old(tenantQuotas)
                && old(tenantQuotas)[r.tenantId].activeGraphs >= old(tenantQuotas)[r.tenantId].maxConcurrentGraphs
    {
      if authEnabled && r.credentials.None? {
        return Err(AuthenticationRequired);
      }
      if r.tenantId in tenantQuotas {
        var quota := tenantQuotas[r.tenantId];
        if quota.activeGraphs >= quota.maxConcurrentGraphs {
          return Err(QuotaExceeded(r.tenantId));
        }
        tenantQuotas := tenantQuotas[r.tenantId := quota.(activeGraphs := quota.activeGraphs + 1)];
      }
      return Ok(());
    }

    /** A refused request changes nothing. An admitted one takes min(required, ready) distinct ready
        nodes and makes exactly those execute the new graph. */
    method Submit(r: SubmissionRequest, newId: GraphId, now: int) returns (result: Result<AllocationResult>)
      requires cluster.Valid()
      modifies this, cluster
      ensures cluster.Valid() && authEnabled == old(authEnabled)
      ensures var op := Submission(r, newId, TakenBy(result)); Legal(old(View()), op) && View() == ControlStep(old(View()), op)
      ensures tenantQuotas == Charged(authEnabled, old(tenantQuotas), r)
      ensures match Refusal(authEnabled, old(tenantQuotas), r)
              case Some(error) =>
                && result == Err(error) && graphs == old(graphs) && submissions == old(submissions)
                && cluster.nodes == old(cluster.nodes)
              case None =>
                && result.Ok? && result.value.graphId == newId && result.value.estimatedCompletion == now + FIVE_MINUTES
                && graphs == old(graphs)[newId := GraphFor(newId, r)] && submissions == old(submissions)[r.submissionId := r]
                && TookReady(old(cluster.nodes), OrElse(r.config.requiredNodes, 1), newId, result.value.allocatedNodes, cluster.nodes)
      ensures result.Ok? ==> newId in graphs && Honours(graphs[newId], newId, r)
      ensures result.Ok? ==> |result.value.allocatedNodes| == match r.config.requiredNodes
                                                              case Some(n) => Min(n, |ReadyNodes(old(cluster.nodes))|)
                                                              case None => Min(1, |ReadyNodes(old(cluster.nodes))|)
    {
      var valid := ValidateSubmission(r);
      if valid.Err? {
        return Err(valid.error);
      }
      graphs := graphs[newId := GraphFor(newId, r)];
      var required := OrElse(r.config.requiredNodes, 1);
      submissions := submissions[r.submissionId := r];
      var picked := AllocateTo(newId, required);
      return Ok(AllocationResult(newId, picked, now + FIVE_MINUTES));
    }

    /** Allocates nodes and marks each of them as executing the graph. */
    method AllocateTo(graph: GraphId, required: nat) returns (picked: seq<NodeId>)
      requires cluster.Valid()
      modifies cluster
      ensures cluster.Valid() && TookReady(old(cluster.nodes), required, graph, picked, cluster.nodes)
      ensures cluster.nodes == Marked(old(cluster.nodes), picked, graph)
    {
      picked := cluster.AllocateNodes(required);
      for i := 0 to |picked|
        invariant cluster.Valid() && cluster.nodes == Marked(old(cluster.nodes), picked[..i], graph)
      {
        assert picked[..i + 1][..i] == picked[..i];
        cluster.UpdateNodeState(picked[i], Executing(graph));
      }
      assert picked[..|picked|] == picked;
      MarkedMeaning(old(cluster.nodes), picked, graph);
    }

    method Cancel(id: GraphId) returns (result: Result<()>)
      requires cluster.Valid()
      modifies this, cluster
      ensures cluster.Valid() && View() == ControlStep(old(View()), Cancellation(id))
      ensures result.Ok? <==> IsRunning(old(View()), id)
      ensures id !in old(graphs) ==> result == Err(GraphNotFound(id))
      ensures id in old(graphs) && !old(graphs)[id].status.Running? ==> result == Err(InvalidState)
      ensures result.Err? ==> graphs == old(graphs) && cluster.nodes == old(cluster.nodes)
      ensures result.Ok? ==>
                && graphs == old(graphs)[id := old(graphs)[id].(status := Cancelled)]
                && cluster.nodes == WithState(old(cluster.nodes), cluster.selfNode, Ready)
    {
      if id !in graphs {
        return Err(GraphNotFound(id));
      }
      if graphs[id].status.Running? {
        graphs := graphs[id := graphs[id].(status := Cancelled)];
        cluster.UpdateNodeState(cluster.selfNode, Ready);
        return Ok(());
      }
      return Err(InvalidState);
    }

    /** The failed node is marked, one other ready node, if there is one, takes the graph over, and
        no other node changes. The failed node is never the one picked. */
    method HandleNodeFailure(failed: NodeId, graph: GraphId) returns (replacement: seq<NodeId>)
      requires cluster.Valid()
      modifies cluster
      ensures var op := NodeFailure(failed, graph, replacement); Legal(old(View()), op) && View() == ControlStep(old(View()), op)
      ensures cluster.Valid() && failed !in replacement
      ensures |replacement| == Min(1, |ReadyNodes(old(cluster.nodes)) - {failed}|)
      ensures forall id :: id in replacement ==> id in ReadyNodes(old(cluster.nodes))
      ensures cluster.nodes.Keys == old(cluster.nodes).Keys
      ensures forall id :: id in cluster.nodes ==>
                cluster.nodes[id] == if id in replacement then old(cluster.nodes)[id].(state := Executing(graph))
                                     else if id == failed then old(cluster.nodes)[id].(state := NODE_FAILED)
                                     else old(cluster.nodes)[id]
    {
      cluster.UpdateNodeState(failed, NODE_FAILED);
      assert ReadyNodes(cluster.nodes) == ReadyNodes(old(cluster.nodes)) - {failed};
      replacement := AllocateTo(graph, 1);
      assert forall id :: id in replacement ==> id in Elements(replacement);
    }

    method HandleNodeRejoin(id: NodeId)
      requires cluster.Valid()
      modifies cluster
      ensures cluster.Valid() && View() == ControlStep(old(View()), NodeRejoin(id))
    {
      cluster.HandleRejoin(id);
    }
  }

  /** `picked` are min(required, ready) distinct nodes that were ready, they alone now execute
      the graph, and nothing else about any node has changed. */
  ghost predicate TookReady(before: Nodes, required: nat, graph: GraphId, picked: seq<NodeId>, after: Nodes) {
    && Picks(before, required, picked)
    && after.Keys == before.Keys
    && forall id :: id in before ==>
         after[id] == if id in picked then before[id].(state := Executing(graph)) else before[id]
  }
}
