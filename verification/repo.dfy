/** The repository record of the indexing dashboard, its three-valued
    indexing status, the fixture the dashboard starts from, and the
    well-formedness conditions the working set is expected to keep. */
module RepoModel {

  /** A value that may be absent; stands for `T | null` fields. */
  datatype Option<T> = None | Some(value: T)

  /** Lifecycle of one repository's index: `not_indexed`, `indexing`, `indexed`. */
  datatype IndexStatus = NotIndexed | Indexing | Indexed

  /** One repository card. `id` and `stars` are numbers in the dashboard;
      they are modelled as mathematical integers. */
  datatype Repo = Repo(
    id: int,
    name: string,
    fullName: string,
    description: Option<string>,
    isPrivate: bool,
    stars: int,
    language: Option<string>,
    indexStatus: IndexStatus)

  /** Position of a status along the lifecycle not_indexed < indexing < indexed. */
  function Rank(s: IndexStatus): nat
  {
    match s
    case NotIndexed => 0
    case Indexing => 1
    case Indexed => 2
  }

  /** No two records of the working set share an id. */
  predicate DistinctIds(repos: seq<Repo>)
  {
    forall i, j :: 0 <= i < j < |repos| ==> repos[i].id != repos[j].id
  }

  /** Every star count is non-negative. */
  predicate StarsNonNegative(repos: seq<Repo>)
  {
    forall i :: 0 <= i < |repos| ==> repos[i].stars >= 0
  }

  /** The invariants the working set is meant to keep. */
  predicate WellFormed(repos: seq<Repo>)
  {
    DistinctIds(repos) && StarsNonNegative(repos)
  }

  /** `a` and `b` describe the same repository: every field other than the
      indexing status agrees. */
  predicate SameRepo(a: Repo, b: Repo)
  {
    && a.id == b.id
    && a.name == b.name
    && a.fullName == b.fullName
    && a.description == b.description
    && a.isPrivate == b.isPrivate
    && a.stars == b.stars
    && a.language == b.language
  }

  /** The four mock repositories the dashboard starts from. */
  function MockRepos(): (r: seq<Repo>)
    ensures |r| == 4
    ensures WellFormed(r)
    ensures forall i :: 0 <= i < |r| ==> r[i].id == i + 1
    ensures r[0].indexStatus == Indexed && r[2].indexStatus == Indexing
    ensures r[1].indexStatus == NotIndexed && r[3].indexStatus == NotIndexed
  {
    [ Repo(1, "raghub", "IyedBecheikh/raghub",
           Some("GitHub Repository RAG Indexing SaaS"),
           false, 42, Some("TypeScript"), Indexed),
      Repo(2, "awesome-project", "IyedBecheikh/awesome-project",
           Some("An awesome project with great features"),
           false, 128, Some("JavaScript"), NotIndexed),
      Repo(3, "private-repo", "IyedBecheikh/private-repo",
           Some("A private repository for internal use"),
           true, 5, Some("Python"), Indexing),
      Repo(4, "data-science-toolkit", "IyedBecheikh/data-science-toolkit",
           Some("Collection of data science utilities and tools"),
           false, 256, Some("Python"), NotIndexed) ]
  }

  /** Status of the first record carrying `id`, or `None` when no record does. */
  function StatusOf(repos: seq<Repo>, id: int): Option<IndexStatus>
  {
    if |repos| == 0 then None
    else if repos[0].id == id then Some(repos[0].indexStatus)
    else StatusOf(repos[1..], id)
  }

  /** The lookup fails exactly when no record carries the id, and otherwise
      reports the status of the first record that does. */
  lemma {:induction false} StatusOfSpec(repos: seq<Repo>, id: int)
    ensures StatusOf(repos, id) == None <==> forall i :: 0 <= i < |repos| ==> repos[i].id != id
    ensures StatusOf(repos, id).Some? ==>
              exists i :: && 0 <= i < |repos| && repos[i].id == id
                          && repos[i].indexStatus == StatusOf(repos, id).value
                          && forall j :: 0 <= j < i ==> repos[j].id != id
  {
    if |repos| > 0 && repos[0].id != id {
      StatusOfSpec(repos[1..], id);
      assert forall i :: 1 <= i < |repos| ==> repos[i] == repos[1..][i - 1];
      if StatusOf(repos[1..], id).Some? {
        var k :| && 0 <= k < |repos[1..]| && repos[1..][k].id == id
                 && repos[1..][k].indexStatus == StatusOf(repos[1..], id).value
                 && forall j :: 0 <= j < k ==> repos[1..][j].id != id;
        assert forall j :: 0 <= j < k + 1 ==> repos[j].id != id;
      }
    }
  }

  /** With distinct ids, looking up a record's own id finds that record's status. */
  lemma {:induction false} StatusOfDistinct(repos: seq<Repo>, k: int)
    requires DistinctIds(repos)
    requires 0 <= k < |repos|
    ensures StatusOf(repos, repos[k].id) == Some(repos[k].indexStatus)
  {
    if k > 0 {
      assert repos[0].id != repos[k].id;
      assert repos[1..][k - 1] == repos[k];
      StatusOfDistinct(repos[1..], k - 1);
    }
  }
}
