/** src/lib/programs.ts: the same coursework repository, listed without a route prefix. */
module Programs {
  import opened Listing

  /** `rootsecops/academic_coursework@main` with paths left as GitHub gives them. */
  const ProgramsRepo: Repo := Repo("rootsecops", "academic_coursework", "main", "", false)

  /** `getAllPrograms(path)`: each item's path is the raw path, unchanged. */
  function GetAllPrograms(resp: Response): (r: seq<Item>)
    ensures !resp.Directory? ==> r == []
    ensures resp.Directory? ==> |r| == |resp.entries|
    ensures resp.Directory? ==> multiset(r) == multiset(ToItems(ProgramsRepo, resp.entries))
    ensures resp.Directory? ==> forall x :: x in r ==> exists e :: e in resp.entries && x.path == e.path && x.name == e.name
  {
    var r := Normalise(ProgramsRepo, resp);
    assert forall e: RawEntry :: ProgramsRepo.prefix + e.path == e.path;
    r
  }
}
