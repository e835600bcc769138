// Validation of HTTP responses and of the file records returned by the
// batch path listing. A response is modelled by its status code, a file
// record by its dictionary of fields; the exceptions become Err values.

module Http {
  import opened Wrappers

  /** An HTTP response: only its status code matters here. */
  datatype Response = Response(statusCode: int, reason: string)

  /** `check_response`: an error status raises `HTTPStatusError`. */
  function CheckResponse(resp: Response): (r: Result<Response, int>)
    ensures r.Ok? <==> resp.statusCode < 400
    ensures r.Ok? ==> r.value == resp
    ensures r.Err? ==> r.error == resp.statusCode
  {
    if resp.statusCode >= 400 then Err(resp.statusCode) else Ok(resp)
  }

  /** The key a `FileItemKeyMiss` names as missing. */
  datatype MissingKey = MissingPath | MissingIsDir | MissingSha1 | MissingPickcode

  /** The pickcode requirement: either spelling of the key will do. */
  predicate HasPickcode<V>(item: map<string, V>) {
    "pickcode" in item || "pick_code" in item
  }

  /** The required keys, in the order they are checked. */
  const Required: seq<string> := ["path", "is_dir", "sha1"]

  /** `check_iter_path_data`: the first missing key raises; a complete item is passed through. */
  function CheckIterPathData<V>(item: map<string, V>): (r: Result<map<string, V>, MissingKey>)
    ensures r.Ok? <==> (forall k | k in Required :: k in item) && HasPickcode(item)
    ensures r.Ok? ==> r.value == item
  {
    if "path" !in item then Err(MissingPath)
    else if "is_dir" !in item then Err(MissingIsDir)
    else if "sha1" !in item then Err(MissingSha1)
    else if !HasPickcode(item) then Err(MissingPickcode)
    else Ok(item)
  }

  /** The key named is the first missing one in the order path, is_dir, sha1, pickcode. */
  lemma {:induction false} FirstMissingKeyReported<V>(item: map<string, V>)
    ensures CheckIterPathData(item) == Err(MissingPath) <==> "path" !in item
    ensures CheckIterPathData(item) == Err(MissingIsDir) <==> "path" in item && "is_dir" !in item
    ensures CheckIterPathData(item) == Err(MissingSha1) <==>
      "path" in item && "is_dir" in item && "sha1" !in item
    ensures CheckIterPathData(item) == Err(MissingPickcode) <==>
      "path" in item && "is_dir" in item && "sha1" in item && !HasPickcode(item)
  {
  }

  /** Either spelling of the pickcode key satisfies the check, and neither other keys nor values matter. */
  lemma {:induction false} PickcodeSpellings<V>(item: map<string, V>, v: V)
    requires "path" in item && "is_dir" in item && "sha1" in item
    ensures CheckIterPathData(item["pickcode" := v]).Ok?
    ensures CheckIterPathData(item["pick_code" := v]).Ok?
  {
  }
}
