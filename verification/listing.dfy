/** The directory-listing pattern shared by src/lib/notes.ts, src/lib/codes.ts and
    src/lib/programs.ts: normalise a contents-endpoint listing into sorted items, and search a
    repository's full recursive tree. The three files differ only in the repository, the
    route prefix added to each path, and whether items carry a download URL. */
module Listing {
  import opened Opt
  import opened Text
  import Sorting
  import Seqs

  datatype Kind = File | Dir

  /** One element of a contents-endpoint array. */
  datatype RawEntry = RawEntry(name: string, path: string, kind: Kind, htmlUrl: string, downloadUrl: Option<string>)

  /** A single-file object from the contents endpoint; `content`/`encoding` are `None` when
      the object lacks those keys. */
  datatype FileData = FileData(name: string, htmlUrl: string, content: Option<string>, encoding: Option<string>)

  /** The outcome of `octokit.repos.getContent`: a 404, any other failure, a single file
      object (not an array), or a directory array. */
  datatype Response = NotFound | Failed | FileObject(file: FileData) | Directory(entries: seq<RawEntry>)

  /** `NoteItem` / `ProgramItem`; `downloadUrl` is `None` for item types without that field. */
  datatype Item = Item(name: string, path: string, kind: Kind, htmlUrl: string, downloadUrl: Option<string>)

  /** The configuration one source file hard-codes. */
  datatype Repo = Repo(owner: string, repo: string, branch: string, prefix: string, withDownloadUrl: bool)

  // ---------------------------------------------------------------------------------
  // Ordering: directories first, then by name.

  /** `localeCompare(a, b) <= 0`, modelled as lexicographic order on code points. */
  predicate NameLe(a: string, b: string) {
    a == [] || (b != [] && (a[0] < b[0] || (a[0] == b[0] && NameLe(a[1..], b[1..]))))
  }

  lemma {:induction false} NameLeTotal(a: string, b: string)
    ensures NameLe(a, b) || NameLe(b, a)
  {
    if a != [] && b != [] && a[0] == b[0] {
      NameLeTotal(a[1..], b[1..]);
    }
  }

  lemma {:induction false} NameLeTransitive(a: string, b: string, c: string)
    requires NameLe(a, b) && NameLe(b, c)
    ensures NameLe(a, c)
  {
    if a != [] && b != [] && c != [] && a[0] == b[0] == c[0] {
      NameLeTransitive(a[1..], b[1..], c[1..]);
    }
  }

  lemma {:induction false} NameLeAntisymmetric(a: string, b: string)
    requires NameLe(a, b) && NameLe(b, a)
    ensures a == b
  {
    if a != [] && b != [] {
      NameLeAntisymmetric(a[1..], b[1..]);
      assert a == [a[0]] + a[1..] && b == [b[0]] + b[1..];
    }
  }

  /** The sort comparator of the three listing functions, read as "may come first". */
  predicate ItemLe(a: Item, b: Item) {
    (a.kind == Dir && b.kind == File) || (a.kind == b.kind && NameLe(a.name, b.name))
  }

  lemma ItemLeIsTotalPreorder()
    ensures Sorting.TotalPreorder(ItemLe)
  {
    forall a: Item, b: Item ensures ItemLe(a, b) || ItemLe(b, a) {
      NameLeTotal(a.name, b.name);
    }
    forall a: Item, b: Item, c: Item | ItemLe(a, b) && ItemLe(b, c) ensures ItemLe(a, c) {
      if a.kind == b.kind == c.kind {
        NameLeTransitive(a.name, b.name, c.name);
      }
    }
  }

  // ---------------------------------------------------------------------------------
  // Normalising a listing.

  /** The item built from a raw entry: the route prefix is added to the path. */
  function ToItem(repo: Repo, e: RawEntry): Item {
    Item(e.name, repo.prefix + e.path, e.kind, e.htmlUrl, if repo.withDownloadUrl then e.downloadUrl else None)
  }

  function ToItems(repo: Repo, entries: seq<RawEntry>): (r: seq<Item>)
    ensures |r| == |entries|
    ensures forall i :: 0 <= i < |entries| ==> r[i] == ToItem(repo, entries[i])
  {
    seq(|entries|, i requires 0 <= i < |entries| => ToItem(repo, entries[i]))
  }

  /** Every item carries the name, kind and URL of some entry, and its prefixed path. */
  lemma ItemsComeFromEntries(repo: Repo, entries: seq<RawEntry>)
    ensures forall x :: x in ToItems(repo, entries) ==> exists e :: (e in entries
      && x.name == e.name && x.path == repo.prefix + e.path && x.kind == e.kind && x.htmlUrl == e.htmlUrl)
  {
    var items := ToItems(repo, entries);
    forall x | x in items
      ensures exists e :: (e in entries
        && x.name == e.name && x.path == repo.prefix + e.path && x.kind == e.kind && x.htmlUrl == e.htmlUrl)
    {
      var i :| 0 <= i < |items| && items[i] == x;
      assert entries[i] in entries;
    }
  }

  /** Sorting the items yields a sorted permutation of them. */
  lemma SortedListing(repo: Repo, entries: seq<RawEntry>)
    ensures Sorting.SortedBy(ItemLe, Sorting.Sort(ItemLe, ToItems(repo, entries)))
    ensures multiset(Sorting.Sort(ItemLe, ToItems(repo, entries))) == multiset(ToItems(repo, entries))
  {
    ItemLeIsTotalPreorder();
    Sorting.SortSorts(ItemLe, ToItems(repo, entries));
  }

  /** Sorted by the comparator means directories first and each kind in name order. */
  lemma SortedItemsShape(r: seq<Item>)
    requires Sorting.SortedBy(ItemLe, r)
    ensures forall i, j :: 0 <= i < j < |r| ==> !(r[i].kind == File && r[j].kind == Dir)
    ensures forall i, j :: 0 <= i < j < |r| && r[i].kind == r[j].kind ==> NameLe(r[i].name, r[j].name)
  {
    forall i, j | 0 <= i < j < |r| ensures ItemLe(r[i], r[j]) {
    }
  }

  /** The listing of a directory: its entries as items, directories first and each kind in
      ascending name order. Any other response yields the empty list. */
  function Normalise(repo: Repo, resp: Response): (r: seq<Item>)
    ensures !resp.Directory? ==> r == []
    ensures resp.Directory? ==> |r| == |resp.entries|
    ensures resp.Directory? ==> multiset(r) == multiset(ToItems(repo, resp.entries))
    ensures resp.Directory? ==> forall x :: x in r ==> x in ToItems(repo, resp.entries)
    ensures resp.Directory? ==> forall x :: x in r ==> exists e :: (e in resp.entries
      && x.name == e.name && x.path == repo.prefix + e.path && x.kind == e.kind && x.htmlUrl == e.htmlUrl)
    ensures forall i, j :: 0 <= i < j < |r| ==> !(r[i].kind == File && r[j].kind == Dir)
    ensures forall i, j :: 0 <= i < j < |r| && r[i].kind == r[j].kind ==> NameLe(r[i].name, r[j].name)
  {
    match resp
    case Directory(entries) =>
      var items := ToItems(repo, entries);
      SortedListing(repo, entries);
      var r := Sorting.Sort(ItemLe, items);
      SortedItemsShape(r);
      assert forall x :: x in r ==> x in multiset(items);
      ItemsComeFromEntries(repo, entries);
      r
    case _ => []
  }
  /** Every listed item lies under the route prefix and has no download URL unless the
      repository hands them out. */
  lemma NormaliseStaysUnderPrefix(repo: Repo, resp: Response)
    ensures var r := Normalise(repo, resp);
      forall i :: 0 <= i < |r| ==>
        StartsWith(r[i].path, repo.prefix) && (!repo.withDownloadUrl ==> r[i].downloadUrl.None?)
  {
    var r := Normalise(repo, resp);
    forall i | 0 <= i < |r|
      ensures StartsWith(r[i].path, repo.prefix) && (!repo.withDownloadUrl ==> r[i].downloadUrl.None?)
    {
      assert r[i] in r;
      var items := ToItems(repo, resp.entries);
      var k :| 0 <= k < |items| && items[k] == r[i];
      var e := resp.entries[k];
      assert r[i] == ToItem(repo, e);
      assert (repo.prefix + e.path)[..|repo.prefix|] == repo.prefix;
    }
  }


  /** `r` holds directories before position `d` and files from `d` on. */
  ghost predicate DirsThenFilesAt(r: seq<Item>, d: int) {
    && 0 <= d <= |r|
    && (forall i :: 0 <= i < d ==> r[i].kind == Dir)
    && (forall i :: d <= i < |r| ==> r[i].kind == File)
  }

  /** Directory-first order fixes where the directories end: the sorted listing is all the
      directories followed by all the files. */
  lemma DirectoriesThenFiles(repo: Repo, resp: Response)
    ensures exists d :: DirsThenFilesAt(Normalise(repo, resp), d)
  {
    var r := Normalise(repo, resp);
    var d := 0;
    while d < |r| && r[d].kind == Dir
      invariant 0 <= d <= |r|
      invariant forall k :: 0 <= k < d ==> r[k].kind == Dir
    {
      d := d + 1;
    }
    forall k | d <= k < |r| ensures r[k].kind == File {
      if k > d { assert !(r[d].kind == File && r[k].kind == Dir); }
    }
    assert DirsThenFilesAt(r, d);
  }

  // ---------------------------------------------------------------------------------
  // Full-tree search.

  /** One node of a recursive `git.getTree` result. */
  datatype TreeNode = TreeNode(path: Option<string>, nodeType: string)

  /** The outcome of resolving the branch and fetching its tree; `TreeFailed` is any thrown error. */
  datatype TreeReply = TreeFailed | Tree(nodes: seq<TreeNode>, truncated: bool)

  /** The search filter: a non-empty path whose lower-cased text contains `lowerQuery`. */
  predicate Matches(lowerQuery: string, n: TreeNode) {
    n.path.Some? && n.path.value != "" && Contains(Lower(n.path.value), lowerQuery)
  }

  /** The item a matching tree node becomes. */
  function Hit(repo: Repo, n: TreeNode): Item {
    var p := n.path.GetOr("");
    Item(LastSegment(p), repo.prefix + p,
         if n.nodeType == "tree" then Dir else File,
         "https://github.com/" + repo.owner + "/" + repo.repo + "/blob/" + repo.branch + "/" + p,
         if repo.withDownloadUrl
         then Some("https://raw.githubusercontent.com/" + repo.owner + "/" + repo.repo + "/" + repo.branch + "/" + p)
         else None)
  }

  function KeepFor(lowerQuery: string): TreeNode -> bool {
    n => Matches(lowerQuery, n)
  }

  function HitFor(repo: Repo): TreeNode -> Item {
    n => Hit(repo, n)
  }

  /** `searchNotes` / `searchCodes`: nothing for an empty query or a failed fetch; otherwise
      the matching tree nodes, in tree order, as items. Truncation only logs a warning. */
  function Search(repo: Repo, query: string, tree: TreeReply): (r: seq<Item>)
    ensures query == "" || tree.TreeFailed? ==> r == []
    ensures forall x :: x in r <==> (query != "" && tree.Tree? &&
      exists j :: 0 <= j < |tree.nodes| && Matches(Lower(query), tree.nodes[j]) && x == Hit(repo, tree.nodes[j]))
  {
    if query == "" then []
    else match tree
      case TreeFailed => []
      case Tree(nodes, _) =>
        var r := Seqs.FilterMap(KeepFor(Lower(query)), HitFor(repo), nodes);
        assert forall x :: x in r <==> exists j :: 0 <= j < |nodes| && Matches(Lower(query), nodes[j]) && x == Hit(repo, nodes[j]) by {
          forall x ensures x in r <==> exists j :: 0 <= j < |nodes| && Matches(Lower(query), nodes[j]) && x == Hit(repo, nodes[j]) {
            Seqs.FilterMapMembership(KeepFor(Lower(query)), HitFor(repo), nodes, x);
          }
        }
        r
  }

  /** Search results are exactly the matching nodes, each mapped to its item, in tree order. */
  lemma SearchSelectsMatchesInOrder(repo: Repo, query: string, nodes: seq<TreeNode>, truncated: bool)
    returns (idx: seq<int>)
    requires query != ""
    ensures Seqs.SelectsKept(KeepFor(Lower(query)), HitFor(repo), nodes, Search(repo, query, Tree(nodes, truncated)), idx)
  {
    idx := Seqs.FilterMapSelectsKept(KeepFor(Lower(query)), HitFor(repo), nodes);
  }

  /** Each result names the last path segment, marks `tree` nodes as directories and carries
      the route prefix. */
  lemma SearchResultShape(repo: Repo, query: string, tree: TreeReply, x: Item)
    requires x in Search(repo, query, tree)
    ensures '/' !in x.name
    ensures exists p :: (x.path == repo.prefix + p && EndsWith(p, x.name)
                         && (|x.name| == |p| || p[|p| - |x.name| - 1] == '/'))
    ensures tree.Tree? && exists j :: (0 <= j < |tree.nodes| && tree.nodes[j].path.Some?
                                       && x.path == repo.prefix + tree.nodes[j].path.value
                                       && (x.kind == Dir <==> tree.nodes[j].nodeType == "tree"))
  {
    var j :| 0 <= j < |tree.nodes| && Matches(Lower(query), tree.nodes[j]) && x == Hit(repo, tree.nodes[j]);
    HitShape(repo, tree.nodes[j]);
  }

  /** The item of a node with a path: its last segment, under the route prefix, a directory
      iff the node is a `tree`. */
  lemma HitShape(repo: Repo, n: TreeNode)
    requires n.path.Some?
    ensures var x, p := Hit(repo, n), n.path.value;
      '/' !in x.name && x.path == repo.prefix + p && EndsWith(p, x.name) &&
      (|x.name| == |p| || p[|p| - |x.name| - 1] == '/') &&
      (x.kind == Dir <==> n.nodeType == "tree")
  {
    var p := n.path.value;
    assert Hit(repo, n).name == LastSegment(p);
  }

  /** Every result lies under the route prefix and has a download URL iff the repository
      hands them out. */
  lemma SearchStaysUnderPrefix(repo: Repo, query: string, tree: TreeReply)
    ensures var r := Search(repo, query, tree);
      forall i :: 0 <= i < |r| ==>
        StartsWith(r[i].path, repo.prefix) && (r[i].downloadUrl.Some? <==> repo.withDownloadUrl)
  {
    var r := Search(repo, query, tree);
    forall i | 0 <= i < |r|
      ensures StartsWith(r[i].path, repo.prefix) && (r[i].downloadUrl.Some? <==> repo.withDownloadUrl)
    {
      assert r[i] in r;
      var j :| 0 <= j < |tree.nodes| && Matches(Lower(query), tree.nodes[j]) && r[i] == Hit(repo, tree.nodes[j]);
      var p := tree.nodes[j].path.GetOr("");
      assert r[i].path == repo.prefix + p;
      assert (repo.prefix + p)[..|repo.prefix|] == repo.prefix;
    }
  }

  /** A truncated tree is searched just like a complete one. */
  lemma TruncationOnlyWarns(repo: Repo, query: string, nodes: seq<TreeNode>)
    ensures Search(repo, query, Tree(nodes, true)) == Search(repo, query, Tree(nodes, false))
  {
  }

  /** The empty query is answered without looking at the remote tree at all. */
  lemma EmptyQueryNeedsNoTree(repo: Repo, t1: TreeReply, t2: TreeReply)
    ensures Search(repo, "", t1) == Search(repo, "", t2) == []
  {
  }
}
