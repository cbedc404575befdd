# clightningrpc: the low-level JSON-RPC data model, in Dafny

This project models the core of the `clightningrpc` crate, a Rust client for
the c-lightning daemon's JSON-RPC interface. The model covers:

- the dynamic JSON value tree that carries every payload (`JsonTree.Json`:
  null, boolean, integer, string, array, object with ordered members);
- the `Request` and `Response` records, the daemon's structured `RpcError`
  and the caller-visible `Error` (`Rpc`, `Json`, `NoErrorOrResult`);
- the four ways of reading a `Response`: `result`, `into_result`,
  `check_error` and `is_none` (`ClightningRpc.ResultOf`, `IntoResult`,
  `CheckError`, `IsNone`);
- the serde-derived wire mapping of the three records to and from a JSON
  object (module `Serialization`), and the crate's tests as lemmas.

The type-directed decode of a result payload into the caller's type is a
call into the JSON library. Here it is a function parameter
`decode: Json -> Result<T, DecodeError>`, and every extraction property is
proved for every such decoder. `TypedDecode` gives one concrete decoder, the
`Vec<String>` one used by the crate's `response_extract` test.

The key fact is the order of the extraction. A present `error` always wins
over a payload that would decode. Only then is the payload decoded, and a
reply with neither field is the separate outcome `NoErrorOrResult`.

A request's `method` field is called `methodName`, since `method` is a Dafny
keyword. Its wire key is still `"method"`.

Decoding follows what a serde-derived decoder does with these records:
- the value must be an object;
- unknown keys are ignored;
- a known key that occurs twice is rejected;
- an `Option` field that is missing or null reads as `None`;
- a required field (`method`, `params`, `id`; `code`, `message` of an
  `RpcError`) that is missing is rejected, and so is a field of the wrong
  shape.

Because a null `Option` payload reads back as `None`, a `Response` whose
`result` or `error.data` is `Some(Null)` does not survive a round trip.
One might expect every response to round-trip, but the code's
`Option<Json>` fields do not allow that. The model follows the code.
`ResponseRoundTripNormalizes` proves what comes back for every response.
`ResponseRoundTrip` and `NullPayloadLost` together prove that a response
round-trips exactly when it has no present-null payload.

A consequence is `NullResultReadsAsNoResult`. A daemon reply
`{"result": null, "error": null, ...}` is read as `NoErrorOrResult`, and the
decoder is never asked about the null.

## Model

| member | source | states |
|---|---|---|
| `ClightningRpc.ResultOf` | src/lib.rs:80-88 | a present error yields `Err(Rpc(e))` whatever the result holds; `Err(NoErrorOrResult)` exactly when both fields are absent; otherwise the outcome is the decoder's, with a decode failure wrapped as `Err(Json(cause))` and the cause unchanged |
| `ClightningRpc.IntoResult` | src/lib.rs:91-100 | the same three-way decision for the consuming variant: error first, then no payload, then the decoder's outcome |
| `ClightningRpc.IntoResultAgrees` | src/lib.rs:80-100 | `into_result` and `result` give the same outcome for every response and every decoder |
| `ClightningRpc.ErrorWins` | src/lib.rs:81-83 | with an error present, no payload and no decoder can make either extraction return anything but that error |
| `ClightningRpc.CheckError` | src/lib.rs:103-109 | fails exactly when an error is present, and then with `Rpc` of that error |
| `ClightningRpc.CheckErrorIgnoresResult` | src/lib.rs:102-109 | replacing the result field never changes `check_error` |
| `ClightningRpc.CheckErrorAgrees` | src/lib.rs:80-109 | `check_error` fails with an error exactly when extraction fails with that `Rpc` error; a successful extraction implies `check_error` passes |
| `ClightningRpc.IsNone` | src/lib.rs:111-114 | true exactly when the result field is absent, whatever the error field holds |
| `ClightningRpc.IsNoneIgnoresError` | src/lib.rs:111-114 | `is_none` is true exactly when the result field is absent and does not depend on the error field; an empty response never extracts successfully, and with no error it yields `NoErrorOrResult` |
| `ClightningRpc.ResponseIsNoneExample` | src/lib.rs:169-187 | a response with a result is not empty; one with neither result nor error is |
| `JsonTree.FindCorrect` | src/lib.rs:52 | the derived decoder's field lookup finds a key as absent, unique (with its value) or duplicated exactly when no member, exactly one member, or two or more members carry it |
| `JsonTree.FindInsertOther` | src/lib.rs:52 | a member under another key, inserted at any position, does not change a lookup |
| `Serialization.EncodeRequest` | src/lib.rs:52-63 | the object holds exactly the four request fields, each once under its own key, `None` as null |
| `Serialization.DecodeRequest` | src/lib.rs:52-63 | succeeds exactly on an object with a string `method`, present `params` and `id`, and a null, string or absent `jsonrpc`; the fields are read from those keys |
| `Serialization.EncodeResponse` | src/lib.rs:65-76 | the object holds exactly the four response fields, each once under its own key, `None` as null |
| `Serialization.DecodeResponse` | src/lib.rs:65-76 | succeeds exactly on an object with present `id`, unrepeated `result`, an `error` that is absent, null or a valid error object, and a well-typed `jsonrpc`; `result`, `error`, `id` and `jsonrpc` are each read from their own key, a non-null `error` as the `RpcError` it decodes to |
| `Serialization.EncodeRpcError` | src/lib.rs:145-149 | the object holds exactly the three error fields `code`, `message`, `data`, each once under its own key, `None` as null |
| `Serialization.RpcErrorRoundTrip` | src/lib.rs:145-149 | decoding an encoded error gives it back, except that a present-null `data` comes back as `None` |
| `Serialization.DecodeRpcError` | src/lib.rs:145-149 | succeeds exactly on an object with an integer `code`, a string `message` and an unrepeated `data` |
| `Serialization.RequestRoundTrip` | src/lib.rs:123-141 | decoding an encoded request gives it back, for every request |
| `Serialization.Normalize` | src/lib.rs:68-71 | a present-null `result` or error `data` becomes `None` and every other field is kept; so the normal form equals the response exactly when no optional payload is a present null |
| `Serialization.ResponseRoundTripNormalizes` | src/lib.rs:143-167 | decoding an encoded response gives back its normal form, for every response |
| `Serialization.ResponseRoundTrip` | src/lib.rs:143-167 | a response without present-null payloads comes back unchanged, also with both result and error set |
| `Serialization.NullPayloadLost` | src/lib.rs:68-71 | a response with a present-null payload does not come back unchanged |
| `Serialization.NullResultReadsAsNoResult` | src/lib.rs:84-87 | a null result with no error decodes to a response that extracts as `NoErrorOrResult` |
| `Serialization.DecodedErrorWins` | src/lib.rs:81-83 | in any reply that decodes, a non-null `error` member is decoded as an `RpcError` and extraction reports it, whatever `result` holds |
| `Serialization.DecodeRequestIgnoresUnknownKey` | src/lib.rs:52-54 | a member under a key the request does not have, at any position, leaves decoding unchanged |
| `Serialization.DecodeResponseIgnoresUnknownKey` | src/lib.rs:65-67 | a member under a key the response does not have, at any position, leaves decoding unchanged |
| `Serialization.RequestSerializeRoundTripExample` | src/lib.rs:123-141 | the test's request, with null and boolean params members, id "69" and tag "2.0", comes back exactly |
| `Serialization.ResponseSerializeRoundTripExample` | src/lib.rs:143-167 | the test's response, with both a result array and an error with data, comes back exactly; `check_error` and extraction both yield that error |
| `TypedDecode.EncodeStrings` | src/lib.rs:193 | a list of strings becomes an array of the same length whose every element is the matching string |
| `TypedDecode.DecodeStrings` | src/lib.rs:189-203 | succeeds exactly on an array of strings, and re-encoding its result gives the input back |
| `TypedDecode.StringsRoundTrip` | src/lib.rs:191-198 | decoding an encoded list of strings gives it back |
| `TypedDecode.ResponseExtractExample` | src/lib.rs:189-203 | both extractions of the five-word response yield the five words, and `check_error` passes |

## Left out

- The JSON library's `from_serialize`/`into_deserialize` and serde's derive internals are foreign code. The type-directed decode is an abstract decoder parameter. The record mappings are written out as explicit structural functions.
- JSON text, whitespace and byte-level encoding are not modelled. An object is a sequence of members and is compared structurally, so key order matters for equality. Encoding writes fields in declaration order.
- JSON floating-point numbers are not modelled. Numbers are unbounded `int`, and so is `RpcError.code`. The fixed integer widths of the library are not modelled.
- When a malformed object has several faults, serde reports the first one in key order. The model only states whether decoding succeeds and what it returns, not which error is reported.
- Serde-derived structs also decode from an array of field values. That array form is not modelled: only objects decode.
- The modules `client`, `common`, `error`, `lightningrpc`, `requests` and `responses` (src/lib.rs:39-44) are not part of this model. `client` and `lightningrpc` are the transport and the typed per-call API. Of `error`, only the `Error` variants `Rpc`, `Json` and `NoErrorOrResult` and the `RpcError` fields `code`, `message` and `data` are modelled.
- Ownership and borrowing are not modelled. The difference between `result(&self)` and `into_result(self)` has no counterpart; only their equal outcomes are proved.
- Matching a response's `id` to its request's `id` is not modelled, because the types do not enforce it (src/lib.rs:72).
- `jsonrpc == "2.0"` and a non-empty `method` are documented expectations that the records do not enforce, so the model does not enforce them either.
