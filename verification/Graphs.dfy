/** Graph definitions shared by the store and the control plane. */
module Graphs {

  datatype Option<+T> = None | Some(value: T)

  datatype GraphId = GraphId(uuid: nat)

  datatype GraphStatus = Pending | Running | Completed | Failed(reason: string) | Cancelled

  datatype GraphConfig = GraphConfig(maxMemoryMb: nat, maxFuel: nat, enableSimd: bool, outputPath: Option<string>)

  datatype Graph = Graph(id: GraphId, status: GraphStatus, tenantId: Option<string>, config: GraphConfig)

  datatype Error = GraphNotFound(id: GraphId) | AuthenticationRequired | QuotaExceeded(tenantId: string) | InvalidState

  datatype Result<+T> = Ok(value: T) | Err(error: Error)
}
