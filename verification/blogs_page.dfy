/** src/app/blogs/page.tsx: the blog index fetches all posts from the site's own API and
    filters them by a search term as the user types. */
module BlogsPage {
  import opened Text
  import opened Blogs
  import Seqs

  /** The outcome of `fetch('/api/blogs')`: a response (its `ok` flag and the `posts` of its
      JSON body) or a thrown error. */
  datatype ApiReply = ApiReply(ok: bool, posts: seq<BlogPost>) | ApiThrew

  /** `getPosts` (also in src/components/sections/BlogSection.tsx): the posts of an ok
      response, `[]` otherwise. */
  function GetPosts(reply: ApiReply): (r: seq<BlogPost>)
    ensures reply.ApiThrew? || !reply.ok ==> r == []
    ensures reply.ApiReply? && reply.ok ==> r == reply.posts
  {
    match reply
    case ApiThrew => []
    case ApiReply(ok, posts) => if ok then posts else []
  }

  /** A post matches when the lower-cased term occurs in its lower-cased title, in its tags
      joined with single spaces, or in its excerpt. */
  predicate PostMatches(term: string, post: BlogPost) {
    var t := Lower(term);
    Contains(Lower(post.title), t) || Contains(Lower(Join(post.tags, " ")), t) || Contains(Lower(post.excerpt), t)
  }

  function MatchesTerm(term: string): BlogPost -> bool {
    (p: BlogPost) => PostMatches(term, p)
  }

  /** `filteredPosts`: every post for an empty term, otherwise the matching posts in order. */
  function FilteredPosts(all: seq<BlogPost>, term: string): (r: seq<BlogPost>)
    ensures term == "" ==> r == all
    ensures term != "" ==> forall p :: p in r <==> p in all && PostMatches(term, p)
    ensures |r| <= |all|
  {
    if term == "" then all
    else
      var r := Seqs.FilterMap(MatchesTerm(term), (p: BlogPost) => p, all);
      assert forall p :: p in r <==> p in all && PostMatches(term, p) by {
        forall p ensures p in r <==> p in all && PostMatches(term, p) {
          Seqs.FilterMapMembership(MatchesTerm(term), (p: BlogPost) => p, all, p);
        }
      }
      r
  }

  /** The filtered list is an order-preserving selection of all posts: exactly the matching
      positions, in increasing order. */
  lemma FilteredKeepsOrder(all: seq<BlogPost>, term: string) returns (idx: seq<int>)
    requires term != ""
    ensures Seqs.SelectsKept(MatchesTerm(term), (p: BlogPost) => p, all, FilteredPosts(all, term), idx)
  {
    idx := Seqs.FilterMapSelectsKept(MatchesTerm(term), (p: BlogPost) => p, all);
  }

  /** Because tags are joined with a space, a term spanning two adjacent tags matches. */
  lemma TermAcrossAdjacentTagsMatches(post: BlogPost)
    requires post.tags == ["a", "b"]
    ensures PostMatches("a b", post)
  {
    assert Join(post.tags, " ") == "a b";
    assert OccursAt(Lower("a b"), Lower("a b"), 0);
  }

  /** What the page body shows. */
  datatype View = Spinner | Grid(posts: seq<BlogPost>) | NoResults

  /** The page body: a spinner while loading, then the filtered grid, or the no-results
      block when nothing is left to show. */
  function Render(all: seq<BlogPost>, term: string, loading: bool): (r: View)
    ensures r.Spinner? <==> loading
    ensures r.NoResults? <==> !loading && (if term == "" then all == [] else forall p :: p in all ==> !PostMatches(term, p))
    ensures r.Grid? ==> r.posts != [] && forall p :: p in r.posts ==> p in all
  {
    if loading then Spinner
    else
      var shown := FilteredPosts(all, term);
      if shown == [] then NoResults
      else
        assert shown[0] in shown;
        Grid(shown)
  }
}
