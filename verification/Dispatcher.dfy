/** The branches of `Dispatcher::dispatch`, and the response each of them returns. */
module Dispatcher {
  import opened Trees
  import opened Messages

  /** How a handler call ends. */
  datatype Outcome =
    | Returns(v: Tree)
    | ThrowsRpc(e: RpcError)
    | ThrowsStd(what: string)
    | ThrowsOther

  /** The way a dispatch went. */
  datatype Path =
    | EmptyName           // the request names no method
    | Unbound             // `hasMethod` said no
    | Gone                // `getHandler` threw
    | Called(o: Outcome)  // the handler ran

  function Reply(req: RpcRequest, path: Path): RpcResponse {
    match path
    case EmptyName => Failure(MakeError(INVALID_REQUEST, "Empty method"), req.id)
    case Unbound => Failure(MakeError(METHOD_NOT_FOUND, "Method not found: " + req.name), req.id)
    case Gone => Failure(MakeError(INTERNAL_ERROR, "Unhandled exception: Method not found: " + req.name), req.id)
    case Called(Returns(v)) => Success(v, req.id)
    case Called(ThrowsRpc(e)) => Failure(e, req.id)
    case Called(ThrowsStd(what)) => Failure(MakeError(INTERNAL_ERROR, "Unhandled exception: " + what), req.id)
    case Called(ThrowsOther) => Failure(MakeError(INTERNAL_ERROR, "Unknown exception"), req.id)
  }
}
