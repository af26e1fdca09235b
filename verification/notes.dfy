/** src/lib/notes.ts: class notes from the `academic_notes` repository. */
module Notes {
  import opened Opt
  import opened Text
  import opened Listing
  import opened Content

  /** `rootsecops/academic_notes@main`, routed under `academics/classnotes/`, with download URLs. */
  const NotesRepo: Repo := Repo("rootsecops", "academic_notes", "main", "academics/classnotes/", true)

  /** `NoteContent`: the body and front matter of one note. */
  datatype NoteContent = NoteContent(content: string, frontmatter: FrontMatter, htmlUrl: string, name: string)

  /** `getNotes(path)`, given the contents-endpoint response for `path`. */
  function GetNotes(resp: Response): (r: seq<Item>)
    ensures !resp.Directory? ==> r == []
    ensures resp.Directory? ==> multiset(r) == multiset(ToItems(NotesRepo, resp.entries))
    ensures forall i :: 0 <= i < |r| ==> StartsWith(r[i].path, "academics/classnotes/")
  {
    NormaliseStaysUnderPrefix(NotesRepo, resp);
    Normalise(NotesRepo, resp)
  }

  /** `searchNotes(query)`, given the outcome of fetching the branch's recursive tree. */
  function SearchNotes(query: string, tree: TreeReply): (r: seq<Item>)
    ensures query == "" ==> r == []
    ensures forall i :: 0 <= i < |r| ==> StartsWith(r[i].path, "academics/classnotes/")
    ensures forall i :: 0 <= i < |r| ==> r[i].downloadUrl.Some?
  {
    SearchStaysUnderPrefix(NotesRepo, query, tree);
    Search(NotesRepo, query, tree)
  }

  /** `Buffer.from(content, encoding).toString('utf-8')` then `matter(raw)`: `None` when the
      decoder throws (an unknown encoding, such as the `none` GitHub reports for large files)
      or `gray-matter` throws (malformed front matter). */
  function DecodeNote(f: FileData, decode: (string, string) -> Option<string>, parse: string -> Option<Document>): (r: Option<Document>)
    requires f.content.Some? && f.encoding.Some?
    ensures r.Some? <==> decode(f.content.value, f.encoding.value).Some?
                         && parse(decode(f.content.value, f.encoding.value).value).Some?
  {
    match decode(f.content.value, f.encoding.value)
    case None => None
    case Some(raw) => parse(raw)
  }

  /** `getNoteContent(path)`: a file object that has both `content` and `encoding` is decoded
      (`decode` stands for `Buffer.from(content, encoding).toString('utf-8')`) and split by
      `parse` (standing for `gray-matter`); everything else — a directory array, an object
      without content, a 404, a decoder or parser that throws, any other error — is `null`. */
  function GetNoteContent(resp: Response, decode: (string, string) -> Option<string>, parse: string -> Option<Document>): (r: Option<NoteContent>)
    ensures r.Some? <==> (resp.FileObject? && resp.file.content.Some? && resp.file.encoding.Some?
                          && decode(resp.file.content.value, resp.file.encoding.value).Some?
                          && parse(decode(resp.file.content.value, resp.file.encoding.value).value).Some?)
    ensures r.Some? ==>
      var doc := parse(decode(resp.file.content.value, resp.file.encoding.value).value).value;
      r.value.name == resp.file.name && r.value.htmlUrl == resp.file.htmlUrl
      && r.value.content == doc.content && r.value.frontmatter == doc.data
  {
    match resp
    case FileObject(f) =>
      if f.content.Some? && f.encoding.Some? then
        match DecodeNote(f, decode, parse)
        case None => None
        case Some(doc) => Some(NoteContent(doc.content, doc.data, f.htmlUrl, f.name))
      else None
    case _ => None
  }

  /** A file whose bytes cannot be decoded, or whose front matter cannot be parsed, reads as
      `null` exactly like a missing note; the response's other fields do not matter. */
  lemma FailedDecodeIsNull(f: FileData, decode: (string, string) -> Option<string>, parse: string -> Option<Document>)
    requires f.content.Some? && f.encoding.Some?
    requires decode(f.content.value, f.encoding.value).None?
          || parse(decode(f.content.value, f.encoding.value).value).None?
    ensures GetNoteContent(FileObject(f), decode, parse).None?
  {
  }
}
