/** The serde-derived wire mapping of `Request`, `Response` and `RpcError`
    to and from a JSON object. Encoding writes every record field under its
    own name, in declaration order, with `None` written as null. Decoding
    requires an object, ignores keys it does not know, rejects a known key
    that occurs twice, reads a missing or null optional field as `None`,
    and rejects a missing required field or one of the wrong shape. */
module Serialization {
  import opened Results
  import opened JsonTree
  import opened ClightningRpc

  // ---------------------------------------------------------------------
  // Field helpers
  // ---------------------------------------------------------------------

  /** An optional field's value on the wire: `None` becomes null. */
  function EncodeOption(o: Option<Json>): (j: Json)
    ensures o.Some? ==> j == o.value
    ensures o.None? ==> j == Null
  {
    match o
    case None => Null
    case Some(v) => v
  }

  /** An optional string field's value on the wire. */
  function EncodeOptString(o: Option<string>): (j: Json)
    ensures j.Null? <==> o.None?
    ensures o.Some? ==> j == Str(o.value)
  {
    match o
    case None => Null
    case Some(s) => Str(s)
  }

  /** A field the record cannot do without. */
  function RequiredField(ms: seq<Member>, field: string): (r: Result<Json, DecodeError>)
    ensures r.Ok? <==> exists i :: OnlyAt(ms, field, i)
    ensures r.Ok? ==> exists i :: OnlyAt(ms, field, i) && ms[i].value == r.value
    ensures !HasKey(ms, field) ==> r == Err(MissingField(field))
    ensures KeyRepeated(ms, field) ==> r == Err(DuplicateField(field))
  {
    FindCorrect(ms, field);
    match Find(ms, field)
    case Absent => Err(MissingField(field))
    case Duplicated => Err(DuplicateField(field))
    case Unique(v) => Ok(v)
  }

  /** A field of `Option` type: absent and null both read as `None`. */
  function OptionalField(ms: seq<Member>, field: string): (r: Result<Option<Json>, DecodeError>)
    ensures r.Err? <==> KeyRepeated(ms, field)
    ensures !HasKey(ms, field) ==> r == Ok(None)
    ensures (exists i :: OnlyAt(ms, field, i) && ms[i].value != Null) ==> r.Ok? && r.value.Some?
    ensures (exists i :: OnlyAt(ms, field, i) && ms[i].value == Null) ==> r == Ok(None)
    ensures r.Ok? && r.value.Some? ==>
      r.value.value != Null && exists i :: OnlyAt(ms, field, i) && ms[i].value == r.value.value
  {
    FindCorrect(ms, field);
    match Find(ms, field)
    case Absent => Ok(None)
    case Duplicated => Err(DuplicateField(field))
    case Unique(v) => if v == Null then Ok(None) else Ok(Some(v))
  }

  function AsString(j: Json): (r: Result<string, DecodeError>)
    ensures r.Ok? <==> j.Str?
    ensures r.Ok? ==> j == Str(r.value)
  {
    if j.Str? then Ok(j.s) else Err(InvalidType("a string"))
  }

  function AsInt(j: Json): (r: Result<int, DecodeError>)
    ensures r.Ok? <==> j.Int?
    ensures r.Ok? ==> j == Int(r.value)
  {
    if j.Int? then Ok(j.i) else Err(InvalidType("an integer"))
  }

  /** An optional string: `None`, or a string. */
  function AsOptString(o: Option<Json>): (r: Result<Option<string>, DecodeError>)
    ensures r.Ok? <==> o.None? || o.value.Str?
    ensures r.Ok? ==> (r.value.None? <==> o.None?)
    ensures r.Ok? && o.Some? ==> o.value == Str(r.value.value)
  {
    match o
    case None => Ok(None)
    case Some(j) => if j.Str? then Ok(Some(j.s)) else Err(InvalidType("a string"))
  }

  // ---------------------------------------------------------------------
  // RpcError
  // ---------------------------------------------------------------------

  function EncodeRpcError(e: RpcError): (j: Json)
    ensures j.Obj?
    ensures |j.members| == 3
    ensures Find(j.members, "code") == Unique(Int(e.code))
    ensures Find(j.members, "message") == Unique(Str(e.message))
    ensures Find(j.members, "data") == Unique(EncodeOption(e.data))
  {
    var ms := [Member("code", Int(e.code)), Member("message", Str(e.message)),
               Member("data", EncodeOption(e.data))];
    FindOnlyAt(ms, "code", 0);
    FindOnlyAt(ms, "message", 1);
    FindOnlyAt(ms, "data", 2);
    Obj(ms)
  }

  /** The members of an object that decodes as an `RpcError`. */
  ghost predicate RpcErrorShape(ms: seq<Member>)
  {
    && Find(ms, "code").Unique? && Find(ms, "code").value.Int?
    && Find(ms, "message").Unique? && Find(ms, "message").value.Str?
    && !KeyRepeated(ms, "data")
  }

  function DecodeRpcError(j: Json): (r: Result<RpcError, DecodeError>)
    ensures r.Ok? <==> j.Obj? && RpcErrorShape(j.members)
    ensures r.Ok? ==>
      && j.Obj?
      && Find(j.members, "code") == Unique(Int(r.value.code))
      && Find(j.members, "message") == Unique(Str(r.value.message))
      && OptionalField(j.members, "data") == Ok(r.value.data)
  {
    if !j.Obj? then Err(InvalidType("struct RpcError"))
    else
      var code :- RequiredField(j.members, "code");
      var code :- AsInt(code);
      var message :- RequiredField(j.members, "message");
      var message :- AsString(message);
      var data :- OptionalField(j.members, "data");
      Ok(RpcError(code, message, data))
  }

  // ---------------------------------------------------------------------
  // Request
  // ---------------------------------------------------------------------

  function EncodeRequest(r: Request): (j: Json)
    ensures j.Obj?
    ensures |j.members| == 4
    ensures Find(j.members, "method") == Unique(Str(r.methodName))
    ensures Find(j.members, "params") == Unique(r.params)
    ensures Find(j.members, "id") == Unique(r.id)
    ensures Find(j.members, "jsonrpc") == Unique(EncodeOptString(r.jsonrpc))
  {
    var ms := [Member("method", Str(r.methodName)), Member("params", r.params),
               Member("id", r.id), Member("jsonrpc", EncodeOptString(r.jsonrpc))];
    FindOnlyAt(ms, "method", 0);
    FindOnlyAt(ms, "params", 1);
    FindOnlyAt(ms, "id", 2);
    FindOnlyAt(ms, "jsonrpc", 3);
    Obj(ms)
  }

  /** A well-typed optional string field: not repeated, and null or a
      string when present. */
  ghost predicate OptStringShape(ms: seq<Member>, field: string)
  {
    && !KeyRepeated(ms, field)
    && (Find(ms, field).Unique? ==> Find(ms, field).value.Null? || Find(ms, field).value.Str?)
  }

  /** The members of an object that decodes as a `Request`: `method` a
      string, `params` and `id` present with any value, `jsonrpc` optional. */
  ghost predicate RequestShape(ms: seq<Member>)
  {
    && Find(ms, "method").Unique? && Find(ms, "method").value.Str?
    && Find(ms, "params").Unique?
    && Find(ms, "id").Unique?
    && OptStringShape(ms, "jsonrpc")
  }

  function DecodeRequest(j: Json): (r: Result<Request, DecodeError>)
    ensures r.Ok? <==> j.Obj? && RequestShape(j.members)
    ensures r.Ok? ==>
      && j.Obj?
      && Find(j.members, "method") == Unique(Str(r.value.methodName))
      && Find(j.members, "params") == Unique(r.value.params)
      && Find(j.members, "id") == Unique(r.value.id)
      && OptionalField(j.members, "jsonrpc") == Ok(OptionMap(r.value.jsonrpc))
  {
    if !j.Obj? then Err(InvalidType("struct Request"))
    else
      var m :- RequiredField(j.members, "method");
      var m :- AsString(m);
      var params :- RequiredField(j.members, "params");
      var id :- RequiredField(j.members, "id");
      var jsonrpc :- OptionalField(j.members, "jsonrpc");
      var jsonrpc :- AsOptString(jsonrpc);
      Ok(Request(m, params, id, jsonrpc))
  }

  /** An optional string as an optional JSON string. */
  function OptionMap(o: Option<string>): (r: Option<Json>)
    ensures r.None? <==> o.None?
    ensures o.Some? ==> r == Some(Str(o.value))
  {
    match o
    case None => None
    case Some(s) => Some(Str(s))
  }

  // ---------------------------------------------------------------------
  // Response
  // ---------------------------------------------------------------------

  function EncodeError(e: Option<RpcError>): (j: Json)
    ensures j.Null? <==> e.None?
    ensures e.Some? ==> j == EncodeRpcError(e.value)
  {
    match e
    case None => Null
    case Some(err) => EncodeRpcError(err)
  }

  function EncodeResponse(s: Response): (j: Json)
    ensures j.Obj?
    ensures |j.members| == 4
    ensures Find(j.members, "result") == Unique(EncodeOption(s.result))
    ensures Find(j.members, "error") == Unique(EncodeError(s.error))
    ensures Find(j.members, "id") == Unique(s.id)
    ensures Find(j.members, "jsonrpc") == Unique(EncodeOptString(s.jsonrpc))
  {
    var ms := [Member("result", EncodeOption(s.result)), Member("error", EncodeError(s.error)),
               Member("id", s.id), Member("jsonrpc", EncodeOptString(s.jsonrpc))];
    FindOnlyAt(ms, "result", 0);
    FindOnlyAt(ms, "error", 1);
    FindOnlyAt(ms, "id", 2);
    FindOnlyAt(ms, "jsonrpc", 3);
    Obj(ms)
  }

  /** The optional error object: `None`, or an object that decodes as an
      `RpcError`. */
  function AsOptRpcError(o: Option<Json>): (r: Result<Option<RpcError>, DecodeError>)
    ensures r.Ok? <==> o.None? || DecodeRpcError(o.value).Ok?
    ensures r.Ok? ==> (r.value.None? <==> o.None?)
    ensures r.Ok? && o.Some? ==> DecodeRpcError(o.value) == Ok(r.value.value)
  {
    match o
    case None => Ok(None)
    case Some(j) =>
      var e :- DecodeRpcError(j);
      Ok(Some(e))
  }

  /** The members of an object that decodes as a `Response`: `id` present
      with any value, `result` and `jsonrpc` optional, and `error` optional
      or null or an object that decodes as an `RpcError`. */
  ghost predicate ResponseShape(ms: seq<Member>)
  {
    && !KeyRepeated(ms, "result")
    && !KeyRepeated(ms, "error")
    && (Find(ms, "error").Unique? && Find(ms, "error").value != Null ==>
          DecodeRpcError(Find(ms, "error").value).Ok?)
    && Find(ms, "id").Unique?
    && OptStringShape(ms, "jsonrpc")
  }

  function DecodeResponse(j: Json): (r: Result<Response, DecodeError>)
    ensures r.Ok? <==> j.Obj? && ResponseShape(j.members)
    ensures r.Ok? ==>
      && j.Obj?
      && OptionalField(j.members, "result") == Ok(r.value.result)
      && OptionalField(j.members, "error").Ok?
      && AsOptRpcError(OptionalField(j.members, "error").value) == Ok(r.value.error)
      && Find(j.members, "id") == Unique(r.value.id)
      && OptionalField(j.members, "jsonrpc") == Ok(OptionMap(r.value.jsonrpc))
  {
    if !j.Obj? then Err(InvalidType("struct Response"))
    else
      var result :- OptionalField(j.members, "result");
      var error :- OptionalField(j.members, "error");
      var error :- AsOptRpcError(error);
      var id :- RequiredField(j.members, "id");
      var jsonrpc :- OptionalField(j.members, "jsonrpc");
      var jsonrpc :- AsOptString(jsonrpc);
      Ok(Response(result, error, id, jsonrpc))
  }

  // ---------------------------------------------------------------------
  // Round trips
  // ---------------------------------------------------------------------

  /** Every request survives encoding and decoding unchanged, whatever its
      `params` and `id` hold and whether or not `jsonrpc` is present. */
  lemma RequestRoundTrip(r: Request)
    ensures DecodeRequest(EncodeRequest(r)) == Ok(r)
  {
  }

  /** An optional payload as decoding gives it back: a present null is lost. */
  function DropNull(o: Option<Json>): (r: Option<Json>)
    ensures r == o <==> o != Some(Null)
    ensures r.Some? ==> r == o
  {
    if o == Some(Null) then None else o
  }

  /** No optional JSON payload of `s` is a present null. */
  ghost predicate NoNullPayload(s: Response)
  {
    && s.result != Some(Null)
    && (s.error.Some? ==> s.error.value.data != Some(Null))
  }

  /** The response decoding gives back for `s`: every present-null payload
      read as absent. */
  function Normalize(s: Response): (n: Response)
    ensures n == s <==> NoNullPayload(s)
    ensures s.result == Some(Null) ==> n.result.None?
    ensures s.result != Some(Null) ==> n.result == s.result
    ensures s.error.Some? ==>
      && n.error.Some?
      && n.error.value.code == s.error.value.code
      && n.error.value.message == s.error.value.message
      && n.error.value.data == DropNull(s.error.value.data)
    ensures n.id == s.id && n.jsonrpc == s.jsonrpc
    ensures n.error.None? <==> s.error.None?
    ensures NoNullPayload(n)
  {
    var error := match s.error
      case None => None
      case Some(e) => Some(e.(data := DropNull(e.data)));
    s.(result := DropNull(s.result), error := error)
  }

  lemma RpcErrorRoundTrip(e: RpcError)
    ensures DecodeRpcError(EncodeRpcError(e)) == Ok(e.(data := DropNull(e.data)))
  {
  }

  /** Every response decodes back as its normal form. */
  lemma ResponseRoundTripNormalizes(s: Response)
    ensures DecodeResponse(EncodeResponse(s)) == Ok(Normalize(s))
  {
  }

  /** A response without present-null payloads survives encoding and
      decoding unchanged, also with both `result` and `error` set. */
  lemma ResponseRoundTrip(s: Response)
    requires NoNullPayload(s)
    ensures DecodeResponse(EncodeResponse(s)) == Ok(s)
  {
    ResponseRoundTripNormalizes(s);
  }

  /** The precondition above is needed: a present-null payload comes back
      absent. */
  lemma NullPayloadLost(s: Response)
    requires !NoNullPayload(s)
    ensures DecodeResponse(EncodeResponse(s)) != Ok(s)
  {
    ResponseRoundTripNormalizes(s);
  }

  /** A daemon that answers with a null result and no error is read as
      `NoErrorOrResult`: the decoder is never asked about the null. */
  lemma NullResultReadsAsNoResult<T>(s: Response, decode: Json -> Result<T, DecodeError>)
    requires s.result == Some(Null) && s.error.None?
    ensures DecodeResponse(EncodeResponse(s)).Ok?
    ensures ResultOf(DecodeResponse(EncodeResponse(s)).value, decode) == Err(NoErrorOrResult)
  {
    ResponseRoundTripNormalizes(s);
  }

  /** An error object in any daemon reply survives decoding, so reading
      the decoded response reports that error, whatever `result` holds. */
  lemma DecodedErrorWins<T>(j: Json, decode: Json -> Result<T, DecodeError>)
    requires DecodeResponse(j).Ok?
    requires Find(j.members, "error").Unique? && Find(j.members, "error").value != Null
    ensures DecodeRpcError(Find(j.members, "error").value).Ok?
    ensures ResultOf(DecodeResponse(j).value, decode)
      == Err(Rpc(DecodeRpcError(Find(j.members, "error").value).value))
  {
  }

  /** A member under a key a request does not have is ignored by its
      decoder, wherever it stands among the others. */
  lemma DecodeRequestIgnoresUnknownKey(ms1: seq<Member>, ms2: seq<Member>, extra: Member)
    requires extra.key !in ["method", "params", "id", "jsonrpc"]
    ensures DecodeRequest(Obj(ms1 + [extra] + ms2)) == DecodeRequest(Obj(ms1 + ms2))
  {
    FindInsertOther(ms1, ms2, "method", extra);
    FindInsertOther(ms1, ms2, "params", extra);
    FindInsertOther(ms1, ms2, "id", extra);
    FindInsertOther(ms1, ms2, "jsonrpc", extra);
  }

  /** A member under a key a response does not have is ignored by its
      decoder, wherever it stands among the others. */
  lemma DecodeResponseIgnoresUnknownKey(ms1: seq<Member>, ms2: seq<Member>, extra: Member)
    requires extra.key !in ["result", "error", "id", "jsonrpc"]
    ensures DecodeResponse(Obj(ms1 + [extra] + ms2)) == DecodeResponse(Obj(ms1 + ms2))
  {
    var more := ms1 + [extra] + ms2;
    var ms := ms1 + ms2;
    FindInsertOther(ms1, ms2, "result", extra);
    FindInsertOther(ms1, ms2, "error", extra);
    FindInsertOther(ms1, ms2, "id", extra);
    FindInsertOther(ms1, ms2, "jsonrpc", extra);
    assert OptionalField(more, "result") == OptionalField(ms, "result");
    assert OptionalField(more, "error") == OptionalField(ms, "error");
    assert RequiredField(more, "id") == RequiredField(ms, "id");
    assert OptionalField(more, "jsonrpc") == OptionalField(ms, "jsonrpc");
  }

  // ---------------------------------------------------------------------
  // The crate's serialisation tests
  // ---------------------------------------------------------------------

  /** `request_serialize_round_trip`: object-valued params with null and
      boolean members, a string id and the "2.0" tag come back exactly. */
  lemma RequestSerializeRoundTripExample()
    ensures
      var original := Request(
        "test",
        Obj([Member("a", Null), Member("b", Bool(false)), Member("c", Bool(true)),
             Member("d", Str("test2"))]),
        Str("69"),
        Some("2.0"));
      DecodeRequest(EncodeRequest(original)) == Ok(original)
  {
  }

  /** `response_serialize_round_trip`: a response carrying both a result
      array and an error with data comes back exactly; reading it yields the
      error and ignores the array. */
  lemma ResponseSerializeRoundTripExample<T>(decode: Json -> Result<T, DecodeError>)
    ensures
      var err := RpcError(-77, "test4", Some(Bool(true)));
      var original := Response(
        Some(Arr([Null, Bool(false), Bool(true), Str("test2")])),
        Some(err),
        Int(101),
        Some("2.0"));
      && DecodeResponse(EncodeResponse(original)) == Ok(original)
      && CheckError(original) == Err(Rpc(err))
      && ResultOf(original, decode) == Err(Rpc(err))
  {
    var err := RpcError(-77, "test4", Some(Bool(true)));
    var original := Response(
      Some(Arr([Null, Bool(false), Bool(true), Str("test2")])),
      Some(err),
      Int(101),
      Some("2.0"));
    ResponseRoundTrip(original);
  }
}
