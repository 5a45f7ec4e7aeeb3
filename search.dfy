/** `fetch_pubmed_ids`: the ESearch reply and the identifier list read from it. */
module Search {
  import opened Wrappers
  import opened Exceptions
  import opened Http

  /** A decoded JSON value, as `response.json()` returns it. */
  datatype Json =
    | JNull
    | JBool(b: bool)
    | JNumber(n: int)
    | JString(s: string)
    | JArray(items: seq<Json>)
    | JObject(fields: map<string, Json>)

  /** `j.get(key, default)`: only a dict has `.get`. */
  function Get(j: Json, key: string, default: Json): (r: Result<Json, Exception>)
    ensures r.Failure? <==> !j.JObject?
    ensures r.Failure? ==> r.error == AttributeError
    ensures j.JObject? && key in j.fields ==> r == Success(j.fields[key])
    ensures j.JObject? && key !in j.fields ==> r == Success(default)
  {
    if j.JObject? then
      Success(if key in j.fields then j.fields[key] else default)
    else
      Failure(AttributeError)
  }

  /** `data.get("esearchresult", {}).get("idlist", [])`. */
  function IdList(data: Json): (r: Result<Json, Exception>)
    // a reply holding both keys gives the list under them, unchanged
    ensures data.JObject? && "esearchresult" in data.fields
            && data.fields["esearchresult"].JObject?
            && "idlist" in data.fields["esearchresult"].fields
            ==> r == Success(data.fields["esearchresult"].fields["idlist"])
    // a missing key, at either level, gives the empty list
    ensures data.JObject? && "esearchresult" !in data.fields ==> r == Success(JArray([]))
    ensures data.JObject? && "esearchresult" in data.fields
            && data.fields["esearchresult"].JObject?
            && "idlist" !in data.fields["esearchresult"].fields
            ==> r == Success(JArray([]))
    // only a value that is not a dict, where a dict is read, raises
    ensures r.Failure? <==>
              (!data.JObject? || ("esearchresult" in data.fields && !data.fields["esearchresult"].JObject?))
  {
    match Get(data, "esearchresult", JObject(map[]))
    case Failure(e) => Failure(e)
    case Success(result) => Get(result, "idlist", JArray([]))
  }

  /** `fetch_pubmed_ids(query)` once the ESearch request for `query` has been answered
      with `reply`. */
  function FetchPubmedIds(reply: Reply<Json>): (r: Result<Json, Exception>)
    ensures reply.NoReply? ==> r == Failure(ConnectionError)
    ensures reply.Reply? && IsErrorStatus(reply.status) ==> r == Failure(HttpError(reply.status))
    ensures reply.Reply? && !IsErrorStatus(reply.status) && reply.body.Some?
            ==> r == IdList(reply.body.value)
    ensures r.Success? ==> Received(reply).Success?
  {
    match Received(reply)
    case Failure(e) => Failure(e)
    case Success(data) => IdList(data)
  }
}
