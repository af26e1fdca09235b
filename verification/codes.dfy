/** src/lib/codes.ts: coursework code from the `academic_coursework` repository. */
module Codes {
  import opened Text
  import opened Listing

  /** `rootsecops/academic_coursework@main`, routed under `academics/codes/`, without download URLs. */
  const CodesRepo: Repo := Repo("rootsecops", "academic_coursework", "main", "academics/codes/", false)

  /** `getAllCodes(path)`, given the contents-endpoint response for `path`. */
  function GetAllCodes(resp: Response): (r: seq<Item>)
    ensures !resp.Directory? ==> r == []
    ensures resp.Directory? ==> multiset(r) == multiset(ToItems(CodesRepo, resp.entries))
    ensures forall i :: 0 <= i < |r| ==> StartsWith(r[i].path, "academics/codes/") && r[i].downloadUrl.None?
  {
    NormaliseStaysUnderPrefix(CodesRepo, resp);
    Normalise(CodesRepo, resp)
  }

  /** `searchCodes(query)`, given the outcome of fetching the branch's recursive tree. */
  function SearchCodes(query: string, tree: TreeReply): (r: seq<Item>)
    ensures query == "" || tree.TreeFailed? ==> r == []
    ensures forall i :: 0 <= i < |r| ==> StartsWith(r[i].path, "academics/codes/") && r[i].downloadUrl.None?
  {
    SearchStaysUnderPrefix(CodesRepo, query, tree);
    Search(CodesRepo, query, tree)
  }
}
