/** What the core sends to and receives from the network. A request is kept
    symbolic: its form is the list of pairs that `urlencode` turns into the
    body, and Basic credentials stand for the header
    "Basic " + base64(user + ":" + password) of section 2 of RFC 7617. What
    comes back from `urlopen` is an input to the model. */
module Http {

  import opened Python
  import opened FormEncoding

  /** The outcome of one `urlopen` call. urlopen raises HTTPError for an error
      status and URLError when no HTTP exchange took place; otherwise the
      response has a status and a body, which is either JSON (decoded here)
      or not (None: json.loads would raise). */
  datatype HttpReply =
    | ErrorStatus(code: int)
    | NoConnection
    | Response(status: int, body: Option<Json>)

  datatype Authorization = Basic(user: string, password: string) | Bearer(token: Json)

  /** A request as `urllib.request.Request` is built: HTTP method, URL, the
      Authorization header and the form-encoded body (empty for a GET). */
  datatype Request = Request(verb: string, url: string, authorization: Authorization, form: seq<Param>)

  const TokenEndpoint := "https://accounts.spotify.com/api/token"

  /** `isinstance(v, dict) and v.get(field)` is truthy. */
  predicate HasTruthyField(v: Json, field: string)
  {
    v.JObject? && field in v.fields && Truthy(v.fields[field])
  }
}
