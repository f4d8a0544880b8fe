/** JSON-RPC 2.0 requests, responses and errors. */
module Messages {
  import opened Wrappers
  import opened Trees

  type Int32 = i: int | -0x8000_0000 <= i < 0x8000_0000

  const PARSE_ERROR: Int32 := -32700
  const INVALID_REQUEST: Int32 := -32600
  const METHOD_NOT_FOUND: Int32 := -32601
  const INTERNAL_ERROR: Int32 := -32603

  datatype RpcError = RpcError(code: Int32, message: string, data: Option<Tree>)

  /** A request without an id is a notification. */
  datatype RpcRequest = RpcRequest(name: string, params: seq<Tree>, id: Option<Tree>)

  datatype RpcResponse = RpcResponse(result: Option<Tree>, error: Option<RpcError>, id: Option<Tree>) {
    /** Exactly one of result and error. */
    predicate IsValid() {
      result.Some? != error.Some?
    }
  }

  function Success(result: Tree, id: Option<Tree>): (r: RpcResponse)
    ensures r.IsValid() && r.result == Some(result) && r.id == id
  {
    RpcResponse(Some(result), None, id)
  }

  function Failure(error: RpcError, id: Option<Tree>): (r: RpcResponse)
    ensures r.IsValid() && r.error == Some(error) && r.id == id
  {
    RpcResponse(None, Some(error), id)
  }

  function MakeError(code: Int32, message: string): RpcError {
    RpcError(code, message, None)
  }
}
