/** src/components/sections/BlogSection.tsx: the "Recent Posts" section, limited on the
    home page. */
module BlogSection {
  import opened Blogs

  /** Posts shown on the home page: 3 on a mobile viewport, 4 otherwise. */
  function Limit(isMobile: bool): nat {
    if isMobile then 3 else 4
  }

  /** `posts`: all posts off the home page, the first `limit` on it. */
  function ShownPosts(all: seq<BlogPost>, isHomePage: bool, isMobile: bool): (r: seq<BlogPost>)
    ensures r <= all
    ensures !isHomePage ==> r == all
    ensures isHomePage ==> |r| == (if |all| < Limit(isMobile) then |all| else Limit(isMobile))
  {
    if !isHomePage then all
    else if |all| <= Limit(isMobile) then all
    else all[..Limit(isMobile)]
  }

  datatype Section = Hidden | Section(posts: seq<BlogPost>, viewAll: bool)

  /** The section: nothing on a home page without posts; otherwise the shown posts, with a
      "View All Posts" button when the home page hides some. */
  function Render(all: seq<BlogPost>, isHomePage: bool, isMobile: bool): (r: Section)
    ensures r.Hidden? <==> isHomePage && all == []
    ensures r.Section? ==> r.posts <= all
    ensures r.Section? ==> (r.viewAll <==> isHomePage && |r.posts| < |all|)
    ensures r.Section? && r.viewAll ==> |r.posts| == Limit(isMobile)
  {
    var posts := ShownPosts(all, isHomePage, isMobile);
    if |posts| == 0 && isHomePage then Hidden
    else Section(posts, isHomePage && |all| > Limit(isMobile))
  }
}
