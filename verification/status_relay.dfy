/**
 * The status relay behind the `/api/status` endpoint: the upstream's
 * activity document is passed through unchanged, and any failure to fetch
 * or decode it is replaced by a document that lists no activities.
 */
module StatusRelay {
  import opened Wrappers

  /** A JSON document; the relay never looks inside one. */
  datatype Json =
    | JNull
    | JBool(b: bool)
    | JNumber(text: string)
    | JString(s: string)
    | JArray(items: seq<Json>)
    | JObject(members: seq<(string, Json)>)

  /** `{"Activities": []}` */
  const Fallback: Json := JObject([("Activities", JArray([]))])

  /**
   * `get_status`, with the fetch given as its outcome: the decoded document,
   * or the text of whatever was raised while fetching or decoding it.
   */
  function GetStatus(fetched: Result<Json, string>): (doc: Json)
    ensures fetched.Success? ==> doc == fetched.value
    ensures fetched.Failure? ==> doc == JObject([("Activities", JArray([]))])
  {
    match fetched
    case Success(d) => d
    case Failure(_) => Fallback
  }
}
