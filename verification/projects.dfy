/** src/lib/projects.ts: projects are the Markdown files of one GitHub directory (no cache). */
module Projects {
  import opened Opt
  import opened Content
  import opened Remote
  import Seqs
  import Sorting

  /** `Project`; `date` is the front matter's date as given, or the current time when that is
      missing or empty. */
  datatype Project = Project(
    slug: string, title: string, description: string, image: string, imageHint: string,
    tags: seq<string>, githubLink: Option<string>, demoLink: Option<string>,
    date: DateValue, content: string)

  /** One project from a Markdown file and its parsed document, with the defaults applied. A
      missing or empty date is falsy and becomes the current ISO time. */
  function MakeProject(name: string, doc: Document, clock: Clock): (p: Project)
    ensures p.slug + ".md" == name || !IsMarkdown(name)
    ensures p.title != "" && p.imageHint != ""
    ensures DateGiven(doc.data.date) ==> p.date == doc.data.date.value
    ensures !DateGiven(doc.data.date) ==> p.date == DateValue(clock.iso, Some(clock.millis))
  {
    Project(
      Slug(name),
      OrElse(doc.data.title, "Untitled Project"),
      OrElse(doc.data.description, ""),
      OrElse(doc.data.image, ""),
      OrElse(doc.data.imageHint, "project image"),
      doc.data.tags.GetOr([]),
      doc.data.githubLink,
      doc.data.demoLink,
      if DateGiven(doc.data.date) then doc.data.date.value else DateValue(clock.iso, Some(clock.millis)),
      doc.content)
  }

  /** The project of one listed file: `None` if its download threw. */
  function ProjectOf(file: SourceFile, clock: Clock): Option<Project> {
    if file.fetched.None? then None else Some(MakeProject(file.name, file.fetched.value, clock))
  }

  /** The projects of the Markdown files, in listing order; `None` if any download threw. */
  function BuildProjects(files: seq<SourceFile>, clock: Clock): (r: Option<seq<Project>>)
    ensures r.Some? <==> forall i :: 0 <= i < |files| ==> files[i].fetched.Some?
    ensures r.Some? ==> (|r.value| == |files|
                         && forall i :: 0 <= i < |files| ==> r.value[i] == MakeProject(files[i].name, files[i].fetched.value, clock))
  {
    Seqs.AllSome(f => ProjectOf(f, clock), files)
  }

  /** The comparator `new Date(b.date) - new Date(a.date)`, read as "may come first": newest
      first, with dates that do not parse placed after all others. */
  predicate NewerFirst(a: Project, b: Project) {
    match (a.date.time, b.date.time)
    case (Some(x), Some(y)) => x >= y
    case (Some(_), None) => true
    case (None, Some(_)) => false
    case (None, None) => true
  }

  lemma NewerFirstIsTotalPreorder()
    ensures Sorting.TotalPreorder(NewerFirst)
  {
  }

  /** `getAllProjects`: the Markdown files of a successful array listing, newest first; `[]`
      for a 404, a non-array listing, or any error. */
  function GetAllProjects(clock: Clock, reply: Reply<SourceFile>): (r: seq<Project>)
    ensures ListedFiles(reply).None? ==> r == []
    ensures Sorting.SortedBy(NewerFirst, r)
    ensures ListedFiles(reply).Some? ==>
      var md := MarkdownFiles(ListedFiles(reply).value);
      match BuildProjects(md, clock)
      case None => r == []
      case Some(ps) => multiset(r) == multiset(ps) && |r| == |md|
  {
    match ListedFiles(reply)
    case None => []
    case Some(files) =>
      match BuildProjects(MarkdownFiles(files), clock)
      case None => []
      case Some(ps) =>
        NewerFirstIsTotalPreorder();
        Sorting.SortSorts(NewerFirst, ps);
        Sorting.Sort(NewerFirst, ps)
  }

  function HasSlug(slug: string): Project -> bool {
    (p: Project) => p.slug == slug
  }

  /** `getProjectBySlug`: the first project with that slug, or `null`. */
  function GetProjectBySlug(clock: Clock, reply: Reply<SourceFile>, slug: string): (r: Option<Project>)
    ensures var all := GetAllProjects(clock, reply);
      && (r.Some? ==> r.value.slug == slug && exists k :: (0 <= k < |all| && all[k] == r.value
                                                           && forall j :: 0 <= j < k ==> all[j].slug != slug))
      && (r.None? <==> forall p :: p in all ==> p.slug != slug)
  {
    Seqs.Find(HasSlug(slug), GetAllProjects(clock, reply))
  }

  /** Missing or empty fields take their defaults; a missing date becomes the current instant. */
  /** `date: ''` is falsy: the project is dated now, like one without a date. */
  lemma EmptyDateTakesNow(name: string, doc: Document, clock: Clock, time: Option<int>)
    requires doc.data.date == Some(DateValue("", time))
    ensures MakeProject(name, doc, clock).date == DateValue(clock.iso, Some(clock.millis))
    ensures MakeProject(name, doc, clock) == MakeProject(name, doc.(data := doc.data.(date := None)), clock)
  {
  }

  lemma ProjectDefaults(name: string, content: string, clock: Clock)
    ensures var p := MakeProject(name, Document(FrontMatter(None, None, None, None, None, None, None, None, None), content), clock);
      && p.title == "Untitled Project" && p.description == "" && p.image == ""
      && p.imageHint == "project image" && p.tags == []
      && p.githubLink.None? && p.demoLink.None?
      && p.date == DateValue(clock.iso, Some(clock.millis))
  {
  }
}
