/** The low-level JSON-RPC data model of the c-lightning binding: the
    `Request` and `Response` records (a request's `method` field is
    `methodName`, since `method` is a Dafny keyword), the daemon's
    structured `RpcError`, the caller-visible `Error`, and the four ways of
    reading a `Response`.

    The type-directed decode of a result payload into the caller's type `T`
    is a call into the JSON library; here it is the parameter `decode`, so
    every property below holds for every decoder. */
module ClightningRpc {
  import opened Results
  import opened JsonTree

  /** The error object a daemon sends back: a signed code, a message and
      optional structured diagnostic data. */
  datatype RpcError = RpcError(code: int, message: string, data: Option<Json>)

  /** What can go wrong when reading a response: the daemon reported an
      error, the result payload did not decode into the requested type, or
      the reply carried neither an error nor a result. The variant names
      are the crate's own; the `Json` variant (a decode failure) is a
      constructor, distinct from the `Json` value type. */
  datatype Error =
    | Rpc(rpc: RpcError)
    | Json(cause: DecodeError)
    | NoErrorOrResult

  /** One outbound call. `jsonrpc` should be "2.0", but the record does not
      enforce it. */
  datatype Request = Request(methodName: string, params: Json, id: Json, jsonrpc: Option<string>)

  /** One inbound reply. Nothing ties `id` to the request it answers, and
      nothing stops `result` and `error` from both being present. */
  datatype Response = Response(result: Option<Json>, error: Option<RpcError>, id: Json, jsonrpc: Option<string>)

  /** `Response::result`: a reported error comes first, then the payload is
      decoded, and a reply with neither is its own failure. */
  function ResultOf<T>(s: Response, decode: Json -> Result<T, DecodeError>): (r: Result<T, Error>)
    // a present error always wins, whatever the result field holds
    ensures s.error.Some? ==> r.Err? && r.error == Rpc(s.error.value)
    ensures r.Err? && r.error.Rpc? <==> s.error.Some?
    // neither field present: the distinguished outcome, and only then
    ensures r.Err? && r.error == NoErrorOrResult <==> s.error.None? && s.result.None?
    // otherwise the outcome is the decoder's, its failure cause unchanged
    ensures r.Ok? ==> s.error.None? && s.result.Some? && decode(s.result.value) == Ok(r.value)
    ensures r.Err? && r.error.Json? <==>
      s.error.None? && s.result.Some? && decode(s.result.value).Err?
    ensures r.Err? && r.error.Json? ==> decode(s.result.value) == Err(r.error.cause)
  {
    if s.error.Some? then Err(Rpc(s.error.value))
    else match s.result
      case Some(res) => (
        match decode(res)
        case Ok(v) => Ok(v)
        case Err(cause) => Err(Json(cause)))
      case None => Err(NoErrorOrResult)
  }

  /** `Response::into_result`: the consuming variant. Ownership has no
      counterpart here; the decision it takes is written out again so that
      its agreement with `ResultOf` is a proved fact, not a definition. */
  function IntoResult<T>(s: Response, decode: Json -> Result<T, DecodeError>): (r: Result<T, Error>)
    ensures s.error.Some? ==> r.Err? && r.error == Rpc(s.error.value)
    ensures s.error.None? && s.result.None? ==> r.Err? && r.error == NoErrorOrResult
    ensures s.error.None? && s.result.Some? ==>
      (r.Ok? <==> decode(s.result.value).Ok?)
      && (r.Ok? ==> r.value == decode(s.result.value).value)
      && (r.Err? ==> r.error == Json(decode(s.result.value).error))
  {
    match s.error
    case Some(e) => Err(Rpc(e))
    case None =>
      if s.result.None? then Err(NoErrorOrResult)
      else
        var decoded := decode(s.result.value);
        if decoded.Ok? then Ok(decoded.value) else Err(Json(decoded.error))
  }

  /** `Response::check_error`: fails with the daemon's error when there is
      one, and never looks at the result. */
  function CheckError(s: Response): (r: Result<(), Error>)
    ensures r.Err? <==> s.error.Some?
    ensures r.Err? ==> r.error == Rpc(s.error.value)
  {
    if s.error.Some? then Err(Rpc(s.error.value)) else Ok(())
  }

  /** `Response::is_none`: no result payload was returned. */
  function IsNone(s: Response): (r: bool)
    ensures r <==> s.result.None?
  {
    match s.result
    case None => true
    case Some(_) => false
  }

  /** Error precedence: with an error present, no decoder and no payload can
      make the extraction succeed or report anything but that error. */
  lemma ErrorWins<T>(s: Response, decode: Json -> Result<T, DecodeError>, payload: Option<Json>)
    requires s.error.Some?
    ensures ResultOf(s.(result := payload), decode) == Err(Rpc(s.error.value))
    ensures IntoResult(s.(result := payload), decode) == Err(Rpc(s.error.value))
  {
  }

  /** The consuming and the borrowing extraction agree on every response
      and every decoder. */
  lemma IntoResultAgrees<T>(s: Response, decode: Json -> Result<T, DecodeError>)
    ensures IntoResult(s, decode) == ResultOf(s, decode)
  {
  }

  /** `check_error` depends on the error field alone. */
  lemma CheckErrorIgnoresResult(s: Response, payload: Option<Json>)
    ensures CheckError(s.(result := payload)) == CheckError(s)
  {
  }

  /** `check_error` and the extraction agree on the daemon's error: the
      extraction fails with it exactly when `check_error` does, and a
      successful extraction implies a passing `check_error`. */
  lemma CheckErrorAgrees<T>(s: Response, decode: Json -> Result<T, DecodeError>)
    ensures CheckError(s).Err? ==> ResultOf(s, decode) == Err(CheckError(s).error)
    ensures ResultOf(s, decode).Ok? ==> CheckError(s) == Ok(())
    ensures CheckError(s).Ok? ==> !(ResultOf(s, decode).Err? && ResultOf(s, decode).error.Rpc?)
  {
  }

  /** `is_none` depends on the result field alone, and a response without a
      payload never extracts successfully. */
  lemma IsNoneIgnoresError<T>(s: Response, e: Option<RpcError>, decode: Json -> Result<T, DecodeError>)
    ensures IsNone(s) <==> s.result.None?
    ensures IsNone(s.(error := e)) == IsNone(s)
    ensures IsNone(s) ==> ResultOf(s, decode).Err?
    ensures IsNone(s) && CheckError(s).Ok? ==> ResultOf(s, decode) == Err(NoErrorOrResult)
  {
  }

  /** `response_is_none`: a response with a result is not empty, one with
      neither result nor error is. */
  lemma ResponseIsNoneExample()
    ensures !IsNone(Response(Some(Bool(true)), None, Int(81), Some("2.0")))
    ensures IsNone(Response(None, None, Int(66), Some("2.0")))
  {
  }
}
