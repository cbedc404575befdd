/** One concrete instance of the type-directed decoder `ResultOf` is
    parameterised by: reading a JSON value as a list of strings, as the
    crate's `response_extract` test does with `Vec<String>`, together with
    the encoding it inverts. */
module TypedDecode {
  import opened Results
  import opened JsonTree
  import opened ClightningRpc

  /** A list of strings as a JSON array of strings. */
  function EncodeStrings(ws: seq<string>): (j: Json)
    ensures j.Arr? && |j.elems| == |ws|
    ensures forall i :: 0 <= i < |ws| ==> j.elems[i] == Str(ws[i])
  {
    Arr(seq(|ws|, i requires 0 <= i < |ws| => Str(ws[i])))
  }

  /** The elements of an array, each of which must be a string. */
  function DecodeStringElems(es: seq<Json>): (r: Result<seq<string>, DecodeError>)
    ensures r.Ok? <==> forall i :: 0 <= i < |es| ==> es[i].Str?
    ensures r.Ok? ==> |r.value| == |es| && forall i :: 0 <= i < |es| ==> es[i] == Str(r.value[i])
    decreases |es|
  {
    if |es| == 0 then Ok([])
    else if !es[0].Str? then Err(InvalidType("a string"))
    else
      var rest :- DecodeStringElems(es[1..]);
      Ok([es[0].s] + rest)
  }

  /** `Vec<String>`'s decoder: an array whose every element is a string. */
  function DecodeStrings(j: Json): (r: Result<seq<string>, DecodeError>)
    ensures r.Ok? <==> j.Arr? && forall i :: 0 <= i < |j.elems| ==> j.elems[i].Str?
    ensures r.Ok? ==> EncodeStrings(r.value) == j
  {
    match j
    case Arr(es) => DecodeStringElems(es)
    case _ => Err(InvalidType("a sequence"))
  }

  /** Decoding inverts encoding for every list of strings. */
  lemma StringsRoundTrip(ws: seq<string>)
    ensures DecodeStrings(EncodeStrings(ws)) == Ok(ws)
  {
    var r := DecodeStrings(EncodeStrings(ws));
    assert r.Ok?;
    assert r.value == ws;
  }

  /** `response_extract`: both extractions give back the five words, and
      `check_error` passes. */
  lemma ResponseExtractExample()
    ensures
      var words := ["Mary", "had", "a", "little", "lamb"];
      var response := Response(Some(EncodeStrings(words)), None, Null, Some("2.0"));
      && ResultOf(response, DecodeStrings) == Ok(words)
      && CheckError(response) == Ok(())
      && IntoResult(response, DecodeStrings) == Ok(words)
  {
    StringsRoundTrip(["Mary", "had", "a", "little", "lamb"]);
  }
}
