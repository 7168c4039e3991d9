/** The dashboard as a transition system. Its state is the working set of
    repositories plus the completions the index handler has scheduled but
    that have not fired yet. Two kinds of event move it: the user presses a
    card's action button, or one scheduled completion fires. Completions fire
    in any order; the fixed delay between request and completion is not
    modelled. */
module Lifecycle {
  import opened RepoModel
  import opened StatusUpdates
  import opened DashboardView

  /** Working set and the ids of the scheduled, not yet fired completions. */
  datatype Dashboard = Dashboard(repos: seq<Repo>, timers: multiset<int>)

  /** `Press(card)`: the user clicks the action button of the card at that
      position. `Fire(repoId)`: a completion scheduled for `repoId` runs. */
  datatype Event = Press(card: nat) | Fire(repoId: int)

  /** State on first render: the fixture, nothing scheduled. It satisfies the
      invariant, and the only in-progress repository has no completion
      pending. */
  function Init(): (d: Dashboard)
    ensures Inv(d)
    ensures d.repos == MockRepos() && |d.timers| == 0
  {
    Dashboard(MockRepos(), multiset{})
  }

  /** The index handler: apply the request step at once and schedule one
      completion for the same id. Every record carrying `repoId` becomes
      `indexing` and every other record is kept, so looked up afterwards
      `repoId` reads `indexing` if it is present at all and every other id
      reads as before; exactly one more completion is pending for `repoId`,
      none more for any other id. */
  function HandleIndexRepo(d: Dashboard, repoId: int): (r: Dashboard)
    ensures |r.repos| == |d.repos|
    ensures forall i :: 0 <= i < |d.repos| ==> SameRepo(r.repos[i], d.repos[i])
    ensures forall i :: 0 <= i < |d.repos| && d.repos[i].id == repoId ==>
              r.repos[i].indexStatus == Indexing
    ensures forall i :: 0 <= i < |d.repos| && d.repos[i].id != repoId ==> r.repos[i] == d.repos[i]
    ensures StatusOf(r.repos, repoId) ==
              if StatusOf(d.repos, repoId).Some? then Some(Indexing) else None
    ensures forall x :: x != repoId ==> StatusOf(r.repos, x) == StatusOf(d.repos, x)
    ensures repoId in r.timers && r.timers[repoId] == d.timers[repoId] + 1
    ensures forall x :: x != repoId ==> r.timers[x] == d.timers[x]
  {
    StatusOfSetStatusAll(d.repos, repoId, Indexing);
    Dashboard(RequestIndex(d.repos, repoId), d.timers + multiset{repoId})
  }

  /** One event. `None` when the event cannot happen: there is no card at
      that position, or no completion is pending for that id. Pressing a
      disabled button is possible and changes nothing. */
  function Step(d: Dashboard, e: Event): (r: Option<Dashboard>)
    ensures e.Press? ==> (r.Some? <==> e.card < |d.repos|)
    ensures e.Fire? ==> (r.Some? <==> e.repoId in d.timers)
    ensures e.Press? && r.Some? && !CanRequest(d.repos[e.card].indexStatus) ==> r.value == d
    ensures e.Press? && r.Some? && CanRequest(d.repos[e.card].indexStatus) ==>
              r.value == HandleIndexRepo(d, d.repos[e.card].id)
    ensures e.Fire? && r.Some? ==>
              r.value.repos == CompleteIndex(d.repos, e.repoId)
              && r.value.timers[e.repoId] == d.timers[e.repoId] - 1
              && forall x :: x != e.repoId ==> r.value.timers[x] == d.timers[x]
  {
    match e
    case Press(card) =>
      if card < |d.repos| then
        match ActionButton(d.repos[card])
        case Enabled(_, target) => Some(HandleIndexRepo(d, target))
        case Disabled(_) => Some(d)
      else None
    case Fire(repoId) =>
      if repoId in d.timers then
        Some(Dashboard(CompleteIndex(d.repos, repoId), d.timers - multiset{repoId}))
      else None
  }

  /** Events in order; `None` as soon as one of them cannot happen. */
  function Run(d: Dashboard, es: seq<Event>): Option<Dashboard>
    decreases |es|
  {
    if |es| == 0 then Some(d)
    else
      match Step(d, es[0])
      case None => None
      case Some(d1) => Run(d1, es[1..])
  }

  /** The working set stays well formed, and every pending completion belongs
      to exactly one repository that is `indexing`: at most one completion is
      ever pending per id. */
  predicate Inv(d: Dashboard)
  {
    && WellFormed(d.repos)
    && forall x :: x in d.timers ==> d.timers[x] == 1 && StatusOf(d.repos, x) == Some(Indexing)
  }

  /** `b` is a later state of `a`: the same repositories in the same order,
      each with a status no earlier in the lifecycle. */
  predicate Progress(a: seq<Repo>, b: seq<Repo>)
  {
    && |a| == |b|
    && (forall i :: 0 <= i < |a| ==> SameRepo(b[i], a[i]))
    && (forall i :: 0 <= i < |a| ==> Rank(a[i].indexStatus) <= Rank(b[i].indexStatus))
  }

  /** `Progress` is transitive. */
  lemma ProgressTransitive(a: seq<Repo>, b: seq<Repo>, c: seq<Repo>)
    requires Progress(a, b) && Progress(b, c)
    ensures Progress(a, c)
  {
  }

  /** Pressing an enabled button keeps the invariant and moves only the
      pressed repository forward. */
  lemma HandlePreservesInv(d: Dashboard, card: nat)
    requires Inv(d)
    requires card < |d.repos| && CanRequest(d.repos[card].indexStatus)
    ensures Inv(HandleIndexRepo(d, d.repos[card].id))
    ensures Progress(d.repos, HandleIndexRepo(d, d.repos[card].id).repos)
  {
    var id := d.repos[card].id;
    var d' := HandleIndexRepo(d, id);
    StatusOfDistinct(d.repos, card);
    assert id !in d.timers;
    forall x | x in d'.timers
      ensures d'.timers[x] == 1 && StatusOf(d'.repos, x) == Some(Indexing)
    {
      StatusOfSetStatus(d.repos, id, Indexing, x);
    }
    GuardedRequestMonotone(d.repos, card);
  }

  /** A pending completion firing keeps the invariant and moves only
      repositories forward. */
  lemma FirePreservesInv(d: Dashboard, id: int)
    requires Inv(d) && id in d.timers
    ensures Inv(Dashboard(CompleteIndex(d.repos, id), d.timers - multiset{id}))
    ensures Progress(d.repos, CompleteIndex(d.repos, id))
  {
    var d' := Dashboard(CompleteIndex(d.repos, id), d.timers - multiset{id});
    forall x | x in d'.timers
      ensures d'.timers[x] == 1 && StatusOf(d'.repos, x) == Some(Indexing)
    {
      StatusOfSetStatus(d.repos, id, Indexed, x);
    }
    CompleteIndexMonotone(d.repos, id);
  }

  /** Every event keeps the invariant and never moves a repository back. */
  lemma StepPreservesInv(d: Dashboard, e: Event)
    requires Inv(d) && Step(d, e).Some?
    ensures Inv(Step(d, e).value)
    ensures Progress(d.repos, Step(d, e).value.repos)
  {
    match e
    case Press(card) =>
      if CanRequest(d.repos[card].indexStatus) {
        HandlePreservesInv(d, card);
      }
    case Fire(id) =>
      FirePreservesInv(d, id);
  }

  /** Any sequence of events keeps the invariant and never moves a
      repository back along the lifecycle. */
  lemma {:induction false} RunPreservesInv(d: Dashboard, es: seq<Event>)
    requires Inv(d) && Run(d, es).Some?
    ensures Inv(Run(d, es).value)
    ensures Progress(d.repos, Run(d, es).value.repos)
    decreases |es|
  {
    if |es| > 0 {
      var d1 := Step(d, es[0]).value;
      StepPreservesInv(d, es[0]);
      RunPreservesInv(d1, es[1..]);
      ProgressTransitive(d.repos, d1.repos, Run(d1, es[1..]).value.repos);
    }
  }

  /** Running `a` and then `b` is running `a + b`. */
  lemma {:induction false} RunAppend(d: Dashboard, a: seq<Event>, b: seq<Event>)
    requires Run(d, a).Some?
    ensures Run(d, a + b) == Run(Run(d, a).value, b)
    decreases |a|
  {
    if |a| == 0 {
      assert a + b == b;
    } else {
      assert (a + b)[0] == a[0];
      assert (a + b)[1..] == a[1..] + b;
      RunAppend(Step(d, a[0]).value, a[1..], b);
    }
  }

  /** From the first render, a repository that has left `not_indexed` at
      some point of an event sequence is never `not_indexed` at any later
      point of it; the repositories themselves never change, and both points
      satisfy the invariant. */
  lemma {:induction false} NeverBackToNotIndexed(a: seq<Event>, b: seq<Event>)
    requires Run(Init(), a).Some? && Run(Init(), a + b).Some?
    ensures Inv(Run(Init(), a).value) && Inv(Run(Init(), a + b).value)
    ensures Progress(MockRepos(), Run(Init(), a).value.repos)
    ensures Progress(Run(Init(), a).value.repos, Run(Init(), a + b).value.repos)
    ensures forall i :: 0 <= i < |Run(Init(), a).value.repos|
                        && Run(Init(), a).value.repos[i].indexStatus != NotIndexed ==>
              Run(Init(), a + b).value.repos[i].indexStatus != NotIndexed
  {
    RunPreservesInv(Init(), a);
    var mid := Run(Init(), a).value;
    RunAppend(Init(), a, b);
    RunPreservesInv(mid, b);
  }

  /** Pressing an enabled button and then firing its completion takes that
      repository to `indexed`, leaves every other record untouched, and
      leaves no completion pending for it. */
  lemma PressThenFire(d: Dashboard, card: nat)
    requires DistinctIds(d.repos)
    requires card < |d.repos| && d.repos[card].indexStatus == NotIndexed
    ensures Run(d, [Press(card), Fire(d.repos[card].id)]) ==
              Some(Dashboard(d.repos[card := d.repos[card].(indexStatus := Indexed)], d.timers))
  {
    var id := d.repos[card].id;
    var d1 := HandleIndexRepo(d, id);
    assert Step(d, Press(card)) == Some(d1);
    assert id in d1.timers;
    var d2 := Dashboard(CompleteIndex(d1.repos, id), d1.timers - multiset{id});
    assert Step(d1, Fire(id)) == Some(d2);
    RequestThenComplete(d.repos, card);
    assert d2.timers == d.timers;
    assert Run(d2, []) == Some(d2);
    assert Run(d1, [Fire(id)]) == Some(d2) by {
      assert [Fire(id)][1..] == [];
    }
    assert [Press(card), Fire(id)][1..] == [Fire(id)];
  }

  /** A repository that is `indexing` with no completion pending stays
      `indexing` after any event. */
  lemma StepKeepsStuck(d: Dashboard, e: Event, id: int)
    requires Inv(d) && Step(d, e).Some?
    requires id !in d.timers && StatusOf(d.repos, id) == Some(Indexing)
    ensures id !in Step(d, e).value.timers
    ensures StatusOf(Step(d, e).value.repos, id) == Some(Indexing)
  {
    match e
    case Press(card) =>
      if CanRequest(d.repos[card].indexStatus) {
        StatusOfDistinct(d.repos, card);
        StatusOfSetStatus(d.repos, d.repos[card].id, Indexing, id);
      }
    case Fire(x) =>
      StatusOfSetStatus(d.repos, x, Indexed, id);
  }

  /** The fixture's third repository starts `indexing` with no completion
      scheduled for it, so it is `indexing` in every reachable state. */
  lemma {:induction false} FixtureIndexingNeverCompletes(es: seq<Event>)
    requires Run(Init(), es).Some?
    ensures StatusOf(Run(Init(), es).value.repos, 3) == Some(Indexing)
  {
    StatusOfDistinct(MockRepos(), 2);
    StuckAlongRun(Init(), es, 3);
  }

  /** `StepKeepsStuck` along a whole event sequence. */
  lemma {:induction false} StuckAlongRun(d: Dashboard, es: seq<Event>, id: int)
    requires Inv(d) && Run(d, es).Some?
    requires id !in d.timers && StatusOf(d.repos, id) == Some(Indexing)
    ensures id !in Run(d, es).value.timers
    ensures StatusOf(Run(d, es).value.repos, id) == Some(Indexing)
    decreases |es|
  {
    if |es| > 0 {
      StepKeepsStuck(d, es[0], id);
      StepPreservesInv(d, es[0]);
      StuckAlongRun(Step(d, es[0]).value, es[1..], id);
    }
  }
}
