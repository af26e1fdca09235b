/** How `fetchFromGitHub` (src/lib/blogs.ts, src/lib/projects.ts) classifies a reply from
    the GitHub contents endpoint. Headers, the token and the network are not modelled: the
    reply is an input. */
module Remote {
  import opened Opt

  /** A JSON body: an array of listing entries, any other JSON value, or text that is not JSON. */
  datatype Body<T> = JsonArray(items: seq<T>) | JsonOther | Malformed

  /** An HTTP reply, or `fetch` itself rejecting. */
  datatype Reply<T> = Reply(status: int, body: Body<T>) | NetworkError

  /** The outcome of `fetchFromGitHub`: the parsed JSON, `null`, or a thrown error. */
  datatype Outcome<T> = Parsed(body: Body<T>) | Null | Thrown

  /** `response.ok`. */
  predicate IsOk(status: int) {
    200 <= status <= 299
  }

  /** A 404 is "not found yet" and yields `null`; any other failure status throws, as does
      a body that is not JSON or a rejected request. */
  function FetchFromGitHub<T>(reply: Reply<T>): (r: Outcome<T>)
    ensures r.Null? <==> reply.Reply? && reply.status == 404
    ensures r.Parsed? <==> reply.Reply? && IsOk(reply.status) && !reply.body.Malformed?
    ensures r.Parsed? ==> r.body == reply.body
  {
    match reply
    case NetworkError => Thrown
    case Reply(status, body) =>
      if !IsOk(status) then (if status == 404 then Null else Thrown)
      else if body.Malformed? then Thrown
      else Parsed(body)
  }

  /** The listing the blog and project builders go on with: the array, or nothing (they return
      `[]` both for `null`/non-array results and for thrown errors). */
  function ListedFiles<T>(reply: Reply<T>): (r: Option<seq<T>>)
    ensures r.Some? <==> reply.Reply? && IsOk(reply.status) && reply.body.JsonArray?
    ensures r.Some? ==> r.value == reply.body.items
  {
    match FetchFromGitHub(reply)
    case Parsed(JsonArray(items)) => Some(items)
    case _ => None
  }
}
