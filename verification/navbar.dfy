/** src/components/layout/Navbar.tsx: link rewriting off the home page and the scroll spy
    that highlights the section in view and mirrors it in the URL hash. The DOM is an input:
    the `offsetTop` of each section element that exists, the scroll position and the
    window and body heights. */
module Navbar {
  import opened Opt
  import opened Text

  /** The home page's sections, in page order. */
  const SectionIds: seq<string> := ["home", "about", "skills", "projects", "academic-background", "blogs", "contact"]

  const ThrottleDelay: int := 50
  const SpyOffset: int := 150
  const BottomSlack: int := 50

  datatype NavLink = NavLink(href: string, caption: string, id: string)

  const NavLinks: seq<NavLink> := [
    NavLink("#about", "About Me", "about"),
    NavLink("#skills", "Skills", "skills"),
    NavLink("/projects", "Projects", "projects"),
    NavLink("#academic-background", "Experience", "academic-background"),
    NavLink("/blogs", "Blog", "blogs")
  ]

  /** `getLinkHref`: off the home page an in-page anchor points back to the home page. */
  function LinkHref(pathname: string, href: string): (r: string)
    ensures pathname != "/" && StartsWith(href, "#") ==> r == "/" + href
    ensures pathname == "/" || !StartsWith(href, "#") ==> r == href
    ensures EndsWith(r, href)
  {
    if pathname != "/" && StartsWith(href, "#") then "/" + href else href
  }

  /** On another page the anchors of the navigation become `/#…` links; route links stay. */
  lemma NavLinksOffHome(pathname: string)
    requires pathname != "/"
    ensures LinkHref(pathname, NavLinks[0].href) == "/#about"
    ensures LinkHref(pathname, NavLinks[2].href) == "/projects"
    ensures LinkHref(pathname, NavLinks[4].href) == "/blogs"
  {
    assert StartsWith(NavLinks[0].href, "#");
    assert NavLinks[2].href[0] != '#' && NavLinks[4].href[0] != '#';
  }

  /** The part of the DOM the scroll handler reads. `offsets` holds the `offsetTop` of each
      section element present in the document. Positions are whole pixels; the browser's
      fractional `scrollY` is not modelled. */
  datatype Page = Page(offsets: map<string, int>, scrollY: int, innerHeight: int, bodyHeight: int)

  /** A section counts as reached when its element exists and its top is at most 150px
      below the scroll position. */
  predicate Reached(id: string, offsets: map<string, int>, limit: int) {
    id in offsets && offsets[id] <= limit
  }

  /** The handler's loop: walks the ids in order, remembering the last reached one. */
  function ScanFrom(ids: seq<string>, offsets: map<string, int>, limit: int, current: string): string
    decreases |ids|
  {
    if ids == [] then current
    else ScanFrom(ids[1..], offsets, limit, if Reached(ids[0], offsets, limit) then ids[0] else current)
  }

  /** Position `j` holds the last reached id. */
  ghost predicate IsLastReached(ids: seq<string>, offsets: map<string, int>, limit: int, j: int) {
    0 <= j < |ids| && Reached(ids[j], offsets, limit) &&
    forall k :: j < k < |ids| ==> !Reached(ids[k], offsets, limit)
  }

  /** The loop yields the last reached id, or its starting value when none is reached. */
  lemma {:induction false} ScanFindsLastReached(ids: seq<string>, offsets: map<string, int>, limit: int, current: string)
    returns (j: int)
    decreases |ids|
    ensures j == -1 || IsLastReached(ids, offsets, limit, j)
    ensures j == -1 <==> forall k :: 0 <= k < |ids| ==> !Reached(ids[k], offsets, limit)
    ensures ScanFrom(ids, offsets, limit, current) == if j == -1 then current else ids[j]
  {
    if ids == [] {
      j := -1;
    } else {
      var next := if Reached(ids[0], offsets, limit) then ids[0] else current;
      var t := ScanFindsLastReached(ids[1..], offsets, limit, next);
      if t == -1 {
        j := if Reached(ids[0], offsets, limit) then 0 else -1;
        assert forall k :: 1 <= k < |ids| ==> ids[k] == ids[1..][k - 1];
      } else {
        j := t + 1;
        assert forall k :: j < k < |ids| ==> ids[k] == ids[1..][k - 1];
      }
    }
  }

  lemma {:induction false} ScanStaysAmongIds(ids: seq<string>, offsets: map<string, int>, limit: int, current: string)
    decreases |ids|
    ensures var r := ScanFrom(ids, offsets, limit, current); r == current || r in ids
  {
    if ids != [] {
      ScanStaysAmongIds(ids[1..], offsets, limit, if Reached(ids[0], offsets, limit) then ids[0] else current);
    }
  }

  lemma LastReachedIsUnique(ids: seq<string>, offsets: map<string, int>, limit: int, j: int, i: int)
    requires IsLastReached(ids, offsets, limit, j)
    requires 0 <= i < |ids| && Reached(ids[i], offsets, limit)
    ensures i <= j
  {
  }

  /** The section the handler highlights: `contact` within 50px of the bottom of the page,
      otherwise the last reached section, `home` by default. */
  function ActiveSection(page: Page): (r: string)
    ensures r in SectionIds
    ensures page.innerHeight + page.scrollY >= page.bodyHeight - BottomSlack ==> r == "contact"
  {
    if page.innerHeight + page.scrollY >= page.bodyHeight - BottomSlack then "contact"
    else
      ScanStaysAmongIds(SectionIds, page.offsets, page.scrollY + SpyOffset, "home");
      ScanFrom(SectionIds, page.offsets, page.scrollY + SpyOffset, "home")
  }

  /** Away from the bottom, the highlighted section is the last reached one, or `home` when
      no section element is reached. */
  lemma ActiveIsLastReached(page: Page)
    requires page.innerHeight + page.scrollY < page.bodyHeight - BottomSlack
    ensures (forall k :: 0 <= k < |SectionIds| ==> !Reached(SectionIds[k], page.offsets, page.scrollY + SpyOffset))
            ==> ActiveSection(page) == "home"
    ensures forall j :: (IsLastReached(SectionIds, page.offsets, page.scrollY + SpyOffset, j)
                         ==> ActiveSection(page) == SectionIds[j])
  {
    var j := ScanFindsLastReached(SectionIds, page.offsets, page.scrollY + SpyOffset, "home");
    forall j' | IsLastReached(SectionIds, page.offsets, page.scrollY + SpyOffset, j')
      ensures SectionIds[j'] == SectionIds[j]
    {
      LastReachedIsUnique(SectionIds, page.offsets, page.scrollY + SpyOffset, j, j');
      LastReachedIsUnique(SectionIds, page.offsets, page.scrollY + SpyOffset, j', j);
    }
  }

  /** The navigation state: the page path, the highlighted section, the URL hash, whether
      the scroll listener is installed, the time of the last handled scroll, and how many
      times the history entry was replaced. */
  datatype Nav = Nav(pathname: string, active: string, hash: string, tracking: bool,
                     lastExecution: int, replaced: nat)

  /** `handleScroll` at time `now`. Without a listener nothing happens; within 50ms of the
      last handled scroll nothing happens either. */
  function Scroll(nav: Nav, now: int, page: Page): (r: Nav)
    ensures !nav.tracking || now - nav.lastExecution < ThrottleDelay ==> r == nav
    ensures nav.tracking && now - nav.lastExecution >= ThrottleDelay ==>
      r.active == ActiveSection(page) && r.lastExecution == now && r.hash == "#" + r.active &&
      r.pathname == nav.pathname && r.tracking
    ensures r.replaced == nav.replaced + 1 <==>
      nav.tracking && now - nav.lastExecution >= ThrottleDelay && "#" + ActiveSection(page) != nav.hash
    ensures r.replaced == nav.replaced || r.replaced == nav.replaced + 1
  {
    if !nav.tracking || now - nav.lastExecution < ThrottleDelay then nav
    else
      var id := ActiveSection(page);
      if "#" + id != nav.hash && id != "" then nav.(active := id, hash := "#" + id, lastExecution := now, replaced := nav.replaced + 1)
      else nav.(active := id, lastExecution := now)
  }

  /** The effect run when the path changes. Off the home page the path itself is the active
      entry, a hash is cleared and no listener is installed; on the home page the listener is
      installed and runs once. */
  function Enter(pathname: string, hash: string, replaced: nat, now: int, page: Page): (r: Nav)
    ensures pathname != "/" ==> r.active == pathname && !r.tracking && r.hash == ""
    ensures pathname != "/" ==> (r.replaced == replaced + 1 <==> hash != "")
    ensures pathname == "/" ==> r.tracking
  {
    if pathname != "/" then Nav(pathname, pathname, "", false, 0, if hash != "" then replaced + 1 else replaced)
    else Scroll(Nav("/", "home", hash, true, 0, replaced), now, page)
  }

  /** Off the home page scrolling never changes anything. */
  lemma OffHomeIgnoresScrolling(pathname: string, hash: string, replaced: nat, now: int, page: Page, later: int, other: Page)
    requires pathname != "/"
    ensures Scroll(Enter(pathname, hash, replaced, now, page), later, other) == Enter(pathname, hash, replaced, now, page)
  {
  }

  /** Scrolling again within 50ms of a handled scroll changes nothing, whatever the page. */
  lemma ThrottledScrollIsIgnored(nav: Nav, now: int, page: Page, later: int, other: Page)
    requires nav.tracking && now - nav.lastExecution >= ThrottleDelay
    requires now <= later < now + ThrottleDelay
    ensures Scroll(Scroll(nav, now, page), later, other) == Scroll(nav, now, page)
  {
  }

  /** A second handled scroll onto the same section does not touch the history again. */
  lemma SameSectionDoesNotReplaceTwice(nav: Nav, now: int, page: Page, later: int, other: Page)
    requires nav.tracking && now - nav.lastExecution >= ThrottleDelay
    requires later - now >= ThrottleDelay && ActiveSection(other) == ActiveSection(page)
    ensures Scroll(Scroll(nav, now, page), later, other).replaced == Scroll(nav, now, page).replaced
  {
  }
}
