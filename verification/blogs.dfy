/** src/lib/blogs.ts: blog posts are the Markdown files of one GitHub directory, read
    through the TTL cache. Remote replies and the per-file download-and-parse are inputs. */
module Blogs {
  import opened Opt
  import opened Text
  import opened Content
  import opened Remote
  import Seqs
  import Sorting
  import Cache

  /** `BlogPost`; `date` is the post's instant in milliseconds (its `toISOString()` text
      denotes exactly that instant). */
  datatype BlogPost = BlogPost(slug: string, title: string, date: int, excerpt: string, tags: seq<string>, content: string)

  const CacheKey: string := "all_blog_posts"

  /** Characters of the body the automatic excerpt draws from. */
  const ExcerptLength: nat := 150

  /** The state the post builders leave behind: the posts returned and the cache. */
  datatype Listed = Listed(posts: seq<BlogPost>, cache: Cache.Store<seq<BlogPost>>)

  function Min(a: int, b: int): int {
    if a <= b then a else b
  }

  /** Trimming a prefix of the body keeps a slice of it, drops only white space around that
      slice, and leaves no white space at either end. */
  lemma TrimmedSlice(content: string, m: nat)
    requires m <= |content|
    ensures var t := Trim(content[..m]);
      && (exists i, j :: (0 <= i <= j <= m && t == content[i..j]
                          && (forall k :: 0 <= k < i ==> IsSpace(content[k]))
                          && (forall k :: j <= k < m ==> IsSpace(content[k]))))
      && (t == [] || (!IsSpace(t[0]) && !IsSpace(t[|t| - 1])))
  {
    var head := content[..m];
    var b := TrimBounds(head);
    assert Trim(head) == content[b.0..b.1];
    assert forall k :: 0 <= k < m ==> head[k] == content[k];
  }

  /** `content.substring(0, 150).trim() + '...'`: a whitespace-trimmed slice of the first 150
      characters of the body, then an ellipsis. */
  function AutoExcerpt(content: string): (r: string)
    ensures EndsWith(r, "...") && |r| <= ExcerptLength + 3
    ensures exists i, j :: (0 <= i <= j <= Min(ExcerptLength, |content|) && r == content[i..j] + "..."
                            && (forall k :: 0 <= k < i ==> IsSpace(content[k]))
                            && (forall k :: j <= k < Min(ExcerptLength, |content|) ==> IsSpace(content[k])))
    ensures var kept := r[..|r| - 3]; kept == [] || (!IsSpace(kept[0]) && !IsSpace(kept[|kept| - 1]))
  {
    var m := Min(ExcerptLength, |content|);
    var t := Trim(content[..m]);
    TrimmedSlice(content, m);
    var r := t + "...";
    assert r[..|r| - 3] == t && r[|r| - 3..] == "...";
    r
  }

  /** One post from a Markdown file and its parsed document. A missing or empty date is
      falsy and takes the current time; `None` is the RangeError that `toISOString()` throws
      for a given date that is an Invalid Date. */
  function MakePost(name: string, doc: Document, clock: Clock): (r: Option<BlogPost>)
    ensures r.None? <==> DateGiven(doc.data.date) && doc.data.date.value.time.None?
    ensures r.Some? && DateGiven(doc.data.date) ==> r.value.date == doc.data.date.value.time.value
    ensures r.Some? && !DateGiven(doc.data.date) ==> r.value.date == clock.millis
    ensures r.Some? ==> r.value.title != "" && (IsMarkdown(name) ==> r.value.slug + ".md" == name)
  {
    var date :=
      if DateGiven(doc.data.date) then doc.data.date.value.time else Some(clock.millis);
    if date.None? then None
    else Some(BlogPost(
      Slug(name),
      OrElse(doc.data.title, "Untitled Post"),
      date.value,
      OrElse(doc.data.excerpt, AutoExcerpt(doc.content)),
      doc.data.tags.GetOr([]),
      doc.content))
  }

  /** The post of one listed file: `None` if its download threw or its date is invalid. */
  function PostOf(file: SourceFile, clock: Clock): Option<BlogPost> {
    if file.fetched.None? then None else MakePost(file.name, file.fetched.value, clock)
  }

  /** The posts of the Markdown files, in listing order; `None` if any download or date
      conversion threw (the `Promise.all` rejects and the builder returns `[]`). */
  function BuildPosts(files: seq<SourceFile>, clock: Clock): (r: Option<seq<BlogPost>>)
    ensures r.Some? <==> forall i :: 0 <= i < |files| ==>
      files[i].fetched.Some? && MakePost(files[i].name, files[i].fetched.value, clock).Some?
    ensures r.Some? ==> (|r.value| == |files|
                         && forall i :: 0 <= i < |files| ==> Some(r.value[i]) == MakePost(files[i].name, files[i].fetched.value, clock))
  {
    Seqs.AllSome(f => PostOf(f, clock), files)
  }

  /** The sort comparator `b.date - a.date`, read as "may come first": newest first. */
  predicate NewerFirst(a: BlogPost, b: BlogPost) {
    a.date >= b.date
  }

  /** Newest-first posts from a listing reply, or `None` when the builder returns `[]`
      without caching (a 404, a non-array listing, or any thrown error). */
  function FetchPosts(reply: Reply<SourceFile>, clock: Clock): (r: Option<seq<BlogPost>>)
    ensures r.Some? <==> ListedFiles(reply).Some? && BuildPosts(MarkdownFiles(ListedFiles(reply).value), clock).Some?
    ensures r.Some? ==> Sorting.SortedBy(NewerFirst, r.value)
    ensures r.Some? ==> var built := BuildPosts(MarkdownFiles(ListedFiles(reply).value), clock);
      built.Some? && multiset(r.value) == multiset(built.value)
  {
    match ListedFiles(reply)
    case None => None
    case Some(files) =>
      match BuildPosts(MarkdownFiles(files), clock)
      case None => None
      case Some(posts) =>
        Sorting.SortSorts(NewerFirst, posts);
        Some(Sorting.Sort(NewerFirst, posts))
  }

  /** `getAllPosts`: a fresh cached list is returned as is; otherwise the listing is fetched,
      and a successful result is cached before it is returned. */
  function GetAllPosts(cache: Cache.Store<seq<BlogPost>>, clock: Clock, reply: Reply<SourceFile>): (r: Listed)
    ensures CacheKey in cache && Cache.Fresh(cache[CacheKey], clock.millis) ==>
      r == Listed(cache[CacheKey].data, cache)
    ensures !(CacheKey in cache && Cache.Fresh(cache[CacheKey], clock.millis)) ==>
      match FetchPosts(reply, clock)
      case Some(posts) => r.posts == posts && CacheKey in r.cache && r.cache[CacheKey] == Cache.Entry(posts, clock.millis)
      case None => r.posts == [] && CacheKey !in r.cache
    ensures forall k :: k != CacheKey ==> (k in r.cache <==> k in cache) && (k in cache ==> r.cache[k] == cache[k])
  {
    var read := Cache.Get(cache, CacheKey, clock.millis);
    if read.value.Some? then Listed(read.value.value, read.store)
    else match FetchPosts(reply, clock)
      case None => Listed([], read.store)
      case Some(posts) => Listed(posts, Cache.Set(read.store, CacheKey, posts, clock.millis))
  }

  function HasSlug(slug: string): BlogPost -> bool {
    (p: BlogPost) => p.slug == slug
  }

  /** `getPostBySlug`: the first listed post with that slug, or `null`. */
  function GetPostBySlug(cache: Cache.Store<seq<BlogPost>>, clock: Clock, reply: Reply<SourceFile>, slug: string): (r: (Option<BlogPost>, Cache.Store<seq<BlogPost>>))
    ensures var listed := GetAllPosts(cache, clock, reply);
      && r.1 == listed.cache
      && (r.0.Some? ==> r.0.value.slug == slug && exists k :: (0 <= k < |listed.posts| && listed.posts[k] == r.0.value
                                                               && forall j :: 0 <= j < k ==> listed.posts[j].slug != slug))
      && (r.0.None? <==> forall p :: p in listed.posts ==> p.slug != slug)
  {
    var listed := GetAllPosts(cache, clock, reply);
    (Seqs.Find(HasSlug(slug), listed.posts), listed.cache)
  }

  // ---------------------------------------------------------------------------------
  // Properties.

  /** A cache hit answers without consulting the remote reply at all. */
  lemma CacheHitSkipsFetch(cache: Cache.Store<seq<BlogPost>>, clock: Clock, r1: Reply<SourceFile>, r2: Reply<SourceFile>)
    requires CacheKey in cache && Cache.Fresh(cache[CacheKey], clock.millis)
    ensures GetAllPosts(cache, clock, r1) == GetAllPosts(cache, clock, r2)
  {
  }

  /** Two calls within the time to live fetch once: the second returns what the first cached,
      whatever the remote would now say. */
  lemma SecondCallWithinTtlHitsCache(cache: Cache.Store<seq<BlogPost>>, c1: Clock, reply1: Reply<SourceFile>, c2: Clock, reply2: Reply<SourceFile>)
    requires !(CacheKey in cache && Cache.Fresh(cache[CacheKey], c1.millis))
    requires FetchPosts(reply1, c1).Some?
    requires c1.millis <= c2.millis < c1.millis + Cache.DefaultTtl
    ensures var first := GetAllPosts(cache, c1, reply1);
      GetAllPosts(first.cache, c2, reply2) == Listed(first.posts, first.cache)
  {
  }

  /** Every returned post comes from a listed Markdown file: its slug is the file name
      without `.md`, and there are as many posts as Markdown files. */
  lemma {:induction false} PostsComeFromMarkdownFiles(files: seq<SourceFile>, clock: Clock)
    requires BuildPosts(MarkdownFiles(files), clock).Some?
    ensures var posts := BuildPosts(MarkdownFiles(files), clock).value;
      |posts| == |MarkdownFiles(files)|
      && forall p :: p in posts ==> exists f :: f in files && IsMarkdown(f.name) && p.slug + ".md" == f.name
  {
    var md := MarkdownFiles(files);
    var posts := BuildPosts(md, clock).value;
    forall p | p in posts
      ensures exists f :: f in files && IsMarkdown(f.name) && p.slug + ".md" == f.name
    {
      var i :| 0 <= i < |posts| && posts[i] == p;
      assert md[i] in md;
      assert p.slug == Slug(md[i].name);
    }
  }

  /** Missing or empty front-matter fields take their defaults. */
  lemma PostDefaults(name: string, content: string, clock: Clock)
    ensures var p := MakePost(name, Document(FrontMatter(None, None, None, None, None, None, None, None, None), content), clock);
      && p.Some?
      && p.value.title == "Untitled Post"
      && p.value.tags == []
      && p.value.date == clock.millis
      && p.value.excerpt == AutoExcerpt(content)
      && EndsWith(p.value.excerpt, "...")
  {
  }

  /** `date: ''` is falsy: the post is dated now, like one without a date, and never fails. */
  lemma EmptyDateTakesNow(name: string, doc: Document, clock: Clock, time: Option<int>)
    requires doc.data.date == Some(DateValue("", time))
    ensures MakePost(name, doc, clock).Some? && MakePost(name, doc, clock).value.date == clock.millis
    ensures MakePost(name, doc, clock) == MakePost(name, doc.(data := doc.data.(date := None)), clock)
  {
  }

  /** A non-empty front-matter date that is not a valid date makes the whole list come back
      empty. */
  lemma InvalidDateEmptiesList(cache: Cache.Store<seq<BlogPost>>, clock: Clock, status: int, files: seq<SourceFile>, k: int)
    requires 200 <= status <= 299
    requires 0 <= k < |files| && IsMarkdown(files[k].name) && files[k].fetched.Some?
    requires DateGiven(files[k].fetched.value.data.date) && files[k].fetched.value.data.date.value.time.None?
    requires !(CacheKey in cache && Cache.Fresh(cache[CacheKey], clock.millis))
    ensures GetAllPosts(cache, clock, Reply(status, JsonArray(files))).posts == []
  {
    var md := MarkdownFiles(files);
    assert files[k] in md;
    var i :| 0 <= i < |md| && md[i] == files[k];
  }
}
