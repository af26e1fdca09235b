/** Front-matter documents as the site reads them. Fetching a file and splitting it with
    `gray-matter` are not modelled: a document arrives already split into its metadata and
    its body. */
module Content {
  import opened Opt
  import opened Text
  import Seqs

  /** A front-matter date: the text as written, and the instant `new Date(text)` denotes in
      milliseconds, or `None` when that is an Invalid Date. */
  datatype DateValue = DateValue(text: string, time: Option<int>)

  /** JavaScript truthiness of a front-matter date: present and not the empty string. */
  predicate DateGiven(date: Option<DateValue>) {
    date.Some? && date.value.text != ""
  }

  /** The front-matter fields the site reads; `None` is an absent (or `null`) field. */
  datatype FrontMatter = FrontMatter(
    title: Option<string>,
    date: Option<DateValue>,
    excerpt: Option<string>,
    tags: Option<seq<string>>,
    description: Option<string>,
    image: Option<string>,
    imageHint: Option<string>,
    githubLink: Option<string>,
    demoLink: Option<string>)

  /** The result of `matter(raw)`: metadata and the body without the front-matter block. */
  datatype Document = Document(data: FrontMatter, content: string)

  /** One entry of a remote directory listing together with the outcome of downloading and
      parsing its file; `None` when the download threw. */
  datatype SourceFile = SourceFile(name: string, fetched: Option<Document>)

  /** The current instant, both as milliseconds and as `toISOString()` text. */
  datatype Clock = Clock(millis: int, iso: string)

  /** JavaScript's `value || fallback` on an optional string: absent and empty both fall back. */
  function OrElse(value: Option<string>, fallback: string): (r: string)
    ensures value.Some? && value.value != "" ==> r == value.value
    ensures value.None? || value.value == "" ==> r == fallback
  {
    if value.Some? && value.value != "" then value.value else fallback
  }

  /** `name.endsWith('.md')`. */
  predicate IsMarkdown(name: string) {
    EndsWith(name, ".md")
  }

  /** `name.replace(/\.md$/, '')`: removes one trailing `.md`. */
  function Slug(name: string): (r: string)
    ensures IsMarkdown(name) ==> r + ".md" == name
    ensures !IsMarkdown(name) ==> r == name
  {
    if IsMarkdown(name) then name[..|name| - 3] else name
  }

  /** Two Markdown files with different names never share a slug. */
  lemma SlugInjective(a: string, b: string)
    requires IsMarkdown(a) && IsMarkdown(b) && Slug(a) == Slug(b)
    ensures a == b
  {
    assert a == Slug(a) + ".md";
  }

  function MarkdownOnly(): SourceFile -> bool {
    (f: SourceFile) => IsMarkdown(f.name)
  }

  /** `files.filter(file => file.name.endsWith('.md'))`. */
  function MarkdownFiles(files: seq<SourceFile>): (r: seq<SourceFile>)
    ensures forall f :: f in r <==> f in files && IsMarkdown(f.name)
  {
    var r := Seqs.FilterMap(MarkdownOnly(), (x: SourceFile) => x, files);
    assert forall f :: f in r <==> f in files && IsMarkdown(f.name) by {
      forall f ensures f in r <==> f in files && IsMarkdown(f.name) {
        Seqs.FilterMapMembership(MarkdownOnly(), (x: SourceFile) => x, files, f);
      }
    }
    r
  }
}
