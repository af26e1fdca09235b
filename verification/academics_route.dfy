/** src/app/api/academics/route.ts: `GET /api/academics` dispatches on its query parameters
    to note search, note content or a directory listing of the class notes. The remote
    repository is given as inputs: the contents response for each path and the recursive
    tree. `decode` stands for `decodeURIComponent`, which fails on a malformed escape. */
module AcademicsRoute {
  import opened Opt
  import opened Listing
  import opened Content
  import opened Notes

  /** The `path`, `action` and `query` search parameters, absent when not given. */
  datatype Params = Params(path: Option<string>, action: Option<string>, query: Option<string>)

  /** The JSON answer: `{ notes }`, a note's content, or `{ message }` with an error status. */
  datatype Reply = NotesJson(notes: seq<Item>) | ContentJson(note: NoteContent) | ErrorJson(status: int, message: string)

  /** What the remote side holds, and the foreign decoders `getNoteContent` needs. */
  datatype Remote = Remote(contents: string -> Response, tree: TreeReply,
                           base64: (string, string) -> Option<string>, parse: string -> Option<Document>)

  /** `decodeURIComponent(decodeURIComponent(raw))`; either step may throw. */
  function DecodeTwice(raw: string, decode: string -> Option<string>): (r: Option<string>)
    ensures r.Some? <==> decode(raw).Some? && decode(decode(raw).value).Some?
    ensures r.Some? ==> r.value == decode(decode(raw).value).value
  {
    match decode(raw)
    case None => None
    case Some(once) => decode(once)
  }

  /** `searchParams.get(name)` used as a condition: present and non-empty. */
  predicate Truthy(p: Option<string>) {
    p.Some? && p.value != ""
  }

  function Get(params: Params, decode: string -> Option<string>, remote: Remote): (r: Reply)
    ensures r.ErrorJson? && r.status == 500 <==> DecodeTwice(params.path.GetOr(""), decode).None?
    ensures r.ErrorJson? ==> (r.status == 500 && r.message == "Failed to fetch notes") ||
                             (r.status == 404 && r.message == "Note content not found")
    ensures r.ContentJson? || (r.ErrorJson? && r.status == 404) ==>
      params.action == Some("getContent") && !Truthy(params.query)
  {
    match DecodeTwice(params.path.GetOr(""), decode)
    case None => ErrorJson(500, "Failed to fetch notes")
    case Some(path) =>
      if Truthy(params.query) then NotesJson(SearchNotes(params.query.value, remote.tree))
      else if params.action == Some("getContent") && path != "" then
        match GetNoteContent(remote.contents(path), remote.base64, remote.parse)
        case Some(note) => ContentJson(note)
        case None => ErrorJson(404, "Note content not found")
      else NotesJson(GetNotes(remote.contents(path)))
  }

  /** A missing `path` behaves exactly like an empty one. */
  lemma MissingPathIsEmpty(action: Option<string>, query: Option<string>, decode: string -> Option<string>, remote: Remote)
    ensures Get(Params(None, action, query), decode, remote) == Get(Params(Some(""), action, query), decode, remote)
  {
  }

  /** A non-empty query wins over `action` and `path`: once the path decodes, the answer is
      the search result, whatever the action. */
  lemma QueryTakesPrecedence(params: Params, decode: string -> Option<string>, remote: Remote, otherAction: Option<string>)
    requires Truthy(params.query)
    requires DecodeTwice(params.path.GetOr(""), decode).Some?
    ensures Get(params, decode, remote) == NotesJson(SearchNotes(params.query.value, remote.tree))
    ensures Get(params.(action := otherAction), decode, remote) == Get(params, decode, remote)
  {
  }

  /** `getContent` with a path that decodes to a non-empty string answers with the content of
      the twice-decoded path, or 404; with an empty path it lists the root instead. */
  lemma GetContentDispatch(path: Option<string>, decode: string -> Option<string>, remote: Remote)
    requires DecodeTwice(path.GetOr(""), decode).Some?
    ensures var p := DecodeTwice(path.GetOr(""), decode).value;
      var r := Get(Params(path, Some("getContent"), None), decode, remote);
      (p != "" ==> match GetNoteContent(remote.contents(p), remote.base64, remote.parse)
                   case Some(note) => r == ContentJson(note)
                   case None => r == ErrorJson(404, "Note content not found")) &&
      (p == "" ==> r == NotesJson(GetNotes(remote.contents(""))))
  {
  }

  /** Without a query or `getContent`, the listing is of the twice-decoded path; a directory
      lists its entries and anything else lists nothing. */
  lemma ListingUsesDecodedPath(params: Params, decode: string -> Option<string>, remote: Remote)
    requires !Truthy(params.query) && params.action != Some("getContent")
    requires DecodeTwice(params.path.GetOr(""), decode).Some?
    ensures var p := DecodeTwice(params.path.GetOr(""), decode).value;
      Get(params, decode, remote) == NotesJson(GetNotes(remote.contents(p))) &&
      (!remote.contents(p).Directory? ==> Get(params, decode, remote) == NotesJson([]))
  {
  }
}
