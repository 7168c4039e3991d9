/** The two list updates of the dashboard's index handler: the request step
    that marks a repository `indexing`, and the deferred completion step that
    marks it `indexed`. Both rewrite every record whose id matches and keep
    every other record as it was. */
module StatusUpdates {
  import opened RepoModel

  /** Every record carrying `id` gets status `s`; all other records are kept. */
  function SetStatus(repos: seq<Repo>, id: int, s: IndexStatus): (r: seq<Repo>)
    ensures |r| == |repos|
    ensures forall i :: 0 <= i < |repos| && repos[i].id == id ==>
              r[i].indexStatus == s && SameRepo(r[i], repos[i])
    ensures forall i :: 0 <= i < |repos| && repos[i].id != id ==> r[i] == repos[i]
  {
    if |repos| == 0 then []
    else
      var head := if repos[0].id == id then repos[0].(indexStatus := s) else repos[0];
      var rest := SetStatus(repos[1..], id, s);
      assert forall i :: 1 <= i < |repos| ==> repos[i] == repos[1..][i - 1];
      [head] + rest
  }

  /** Request step of the index handler: every record with id `repoId` becomes
      `indexing`, whatever its status was; the handler has no guard of its own. */
  function RequestIndex(repos: seq<Repo>, repoId: int): (r: seq<Repo>)
    ensures |r| == |repos|
    ensures forall i :: 0 <= i < |repos| ==> SameRepo(r[i], repos[i])
    ensures forall i :: 0 <= i < |repos| && repos[i].id == repoId ==> r[i].indexStatus == Indexing
    ensures forall i :: 0 <= i < |repos| && repos[i].id != repoId ==> r[i] == repos[i]
    ensures (forall i :: 0 <= i < |repos| ==> repos[i].id != repoId) ==> r == repos
    ensures WellFormed(repos) ==> WellFormed(r)
  {
    SetStatus(repos, repoId, Indexing)
  }

  /** Completion step scheduled by the index handler: every record with id
      `repoId` becomes `indexed`. */
  function CompleteIndex(repos: seq<Repo>, repoId: int): (r: seq<Repo>)
    ensures |r| == |repos|
    ensures forall i :: 0 <= i < |repos| ==> SameRepo(r[i], repos[i])
    ensures forall i :: 0 <= i < |repos| && repos[i].id == repoId ==> r[i].indexStatus == Indexed
    ensures forall i :: 0 <= i < |repos| && repos[i].id != repoId ==> r[i] == repos[i]
    ensures (forall i :: 0 <= i < |repos| ==> repos[i].id != repoId) ==> r == repos
    ensures WellFormed(repos) ==> WellFormed(r)
  {
    SetStatus(repos, repoId, Indexed)
  }

  /** Looking a status up after `SetStatus` sees `s` for the updated id (if it
      was present) and the old answer for every other id. */
  lemma {:induction false} StatusOfSetStatus(repos: seq<Repo>, id: int, s: IndexStatus, x: int)
    ensures StatusOf(SetStatus(repos, id, s), x) ==
              if x == id && StatusOf(repos, id).Some? then Some(s) else StatusOf(repos, x)
  {
    if |repos| > 0 {
      var r := SetStatus(repos, id, s);
      assert r[1..] == SetStatus(repos[1..], id, s);
      StatusOfSetStatus(repos[1..], id, s, x);
    }
  }

  /** `StatusOfSetStatus` for every looked-up id at once. */
  lemma StatusOfSetStatusAll(repos: seq<Repo>, id: int, s: IndexStatus)
    ensures forall x :: StatusOf(SetStatus(repos, id, s), x) ==
              if x == id && StatusOf(repos, id).Some? then Some(s) else StatusOf(repos, x)
  {
    forall x
      ensures StatusOf(SetStatus(repos, id, s), x) ==
                if x == id && StatusOf(repos, id).Some? then Some(s) else StatusOf(repos, x)
    {
      StatusOfSetStatus(repos, id, s, x);
    }
  }

  /** The completion step is idempotent. */
  lemma CompleteIndexIdempotent(repos: seq<Repo>, repoId: int)
    ensures CompleteIndex(CompleteIndex(repos, repoId), repoId) == CompleteIndex(repos, repoId)
  {
  }

  /** The request step is idempotent as well. */
  lemma RequestIndexIdempotent(repos: seq<Repo>, repoId: int)
    ensures RequestIndex(RequestIndex(repos, repoId), repoId) == RequestIndex(repos, repoId)
  {
  }

  /** Completing after requesting the same id is the same as completing alone:
      the completion overwrites whatever the request wrote. */
  lemma CompleteAfterRequest(repos: seq<Repo>, repoId: int)
    ensures CompleteIndex(RequestIndex(repos, repoId), repoId) == CompleteIndex(repos, repoId)
  {
  }

  /** Request followed by completion on a repository that is `not_indexed`
      (and whose id is unique) leaves exactly that record `indexed` and
      every other record untouched. */
  lemma RequestThenComplete(repos: seq<Repo>, k: int)
    requires DistinctIds(repos)
    requires 0 <= k < |repos| && repos[k].indexStatus == NotIndexed
    ensures CompleteIndex(RequestIndex(repos, repos[k].id), repos[k].id)
              == repos[k := repos[k].(indexStatus := Indexed)]
  {
  }

  /** A completion, for any id and at any time, never moves a record back
      along the lifecycle. */
  lemma CompleteIndexMonotone(repos: seq<Repo>, repoId: int)
    ensures forall i :: 0 <= i < |repos| ==>
              Rank(repos[i].indexStatus) <= Rank(CompleteIndex(repos, repoId)[i].indexStatus)
  {
  }

  /** A request issued for a record that is `not_indexed`, in a working set
      with distinct ids, never moves any record back along the lifecycle. */
  lemma GuardedRequestMonotone(repos: seq<Repo>, k: int)
    requires DistinctIds(repos)
    requires 0 <= k < |repos| && repos[k].indexStatus == NotIndexed
    ensures forall i :: 0 <= i < |repos| ==>
              Rank(repos[i].indexStatus) <= Rank(RequestIndex(repos, repos[k].id)[i].indexStatus)
  {
  }

  /** Without the guard the request step does regress a record: issued for the
      fixture's first repository, which is `indexed`, it makes it `indexing`. */
  lemma UnguardedRequestRegresses()
    ensures MockRepos()[0].indexStatus == Indexed
    ensures RequestIndex(MockRepos(), 1)[0].indexStatus == Indexing
  {
  }

  /** The guard alone is not enough when ids repeat: the guard looks at one
      card, the update rewrites every record with that id, so an `indexed`
      record sharing the id regresses. */
  lemma DuplicateIdsDefeatGuard()
    ensures var a := Repo(7, "a", "o/a", None, false, 0, None, NotIndexed);
            var b := Repo(7, "b", "o/b", None, false, 0, None, Indexed);
            var repos := [a, b];
            && repos[0].indexStatus == NotIndexed
            && RequestIndex(repos, repos[0].id)[1].indexStatus == Indexing
            && Rank(RequestIndex(repos, repos[0].id)[1].indexStatus) < Rank(repos[1].indexStatus)
  {
  }
}
