# RAGHub repository indexing status, in Dafny

RAGHub's dashboard lists the user's GitHub repositories. Each card shows an
indexing status badge and one action button. The status is one of
`not_indexed`, `indexing` and `indexed`. Pressing "Index Repository" on a
`not_indexed` card runs the index handler. The handler marks every record
with that id `indexing` at once and schedules a completion. The completion
later marks every record with that id `indexed`. Cards that are `indexing`
or `indexed` show a disabled button. That disabled button is the only guard:
the handler itself overwrites any status.

The model has four modules:

- `RepoModel` (`repo.dfy`) holds the `Repo` record, the three-valued
  `IndexStatus` and the four-record fixture the dashboard starts from. It
  also holds the well-formedness conditions (distinct ids, non-negative
  stars) and a lookup `StatusOf` used to state properties.
- `StatusUpdates` (`updates.dfy`) holds the two list updates as pure
  functions on `seq<Repo>`: `RequestIndex` and `CompleteIndex`. Both are
  built on one per-id rewrite, `SetStatus`. The module also holds their
  frame, idempotence, composition and monotonicity lemmas.
- `DashboardView` (`view.dfy`) holds the guard `CanRequest`, the status
  badge and the action button. Each is reduced to its label, whether it is
  enabled, and which id its click indexes.
- `Lifecycle` (`lifecycle.dfy`) holds the dashboard as a transition system.
  Its state is the working set plus the multiset of ids whose completion is
  scheduled but has not fired yet. Two events move it:
  - pressing the button on a card, which does nothing when the button is
    disabled;
  - firing one pending completion, in any order.

  The invariant `Inv` says three things:
  - the working set keeps distinct ids and non-negative stars;
  - each pending completion belongs to a repository that is `indexing`;
  - no id ever has two completions pending.

  Under this invariant no event moves a repository back along
  `not_indexed < indexing < indexed`.

Two consequences of the code are proved as well:

- The guard is per card, but the update is per id. With duplicate ids,
  pressing one card can regress another record with the same id
  (`DuplicateIdsDefeatGuard`). Monotonicity therefore rests on the
  distinct-ids invariant, which the fixture satisfies and both updates keep.
- The fixture's third repository starts as `indexing` with no completion
  scheduled. It therefore stays `indexing` in every reachable state
  (`FixtureIndexingNeverCompletes`).

`handleIndexRepo` has no guard of its own: it overwrites any status with
`indexing` (app/dashboard/dashboard-client.tsx:76). Cards that are
`indexing` or `indexed` do nothing only because their button is disabled
(lines 115-130). So `RequestIndex` has no guard (`UnguardedRequestRegresses`
shows the effect), and the guard lives in `CanRequest`, `ActionButton` and
`Step`. The dashboard has no status lookup; `StatusOf` is only a
specification helper.

## Model

| member | source | states |
|---|---|---|
| RepoModel.MockRepos | app/dashboard/dashboard-client.tsx:27-68 | The fixture has four records with ids 1 to 4, pairwise-distinct ids and non-negative stars. Their statuses are indexed, not_indexed, indexing and not_indexed |
| StatusUpdates.SetStatus | app/dashboard/dashboard-client.tsx:74-85 | The per-id map update keeps the length and order. Each record with the id gets the new status and keeps its other fields. Every other record is identical to before |
| StatusUpdates.RequestIndex | app/dashboard/dashboard-client.tsx:74-78 | Length, order and every non-status field are preserved. Records with the id become indexing whatever their status was. Other records are unchanged. An absent id leaves the list unchanged. Distinct ids and non-negative stars are preserved |
| StatusUpdates.CompleteIndex | app/dashboard/dashboard-client.tsx:80-86 | Length, order and every non-status field are preserved. Records with the id become indexed. Other records are unchanged. An absent id leaves the list unchanged. Distinct ids and non-negative stars are preserved |
| StatusUpdates.CompleteIndexIdempotent | app/dashboard/dashboard-client.tsx:81-85 | Applying the completion update twice equals applying it once |
| StatusUpdates.RequestIndexIdempotent | app/dashboard/dashboard-client.tsx:74-78 | Applying the request update twice equals applying it once |
| StatusUpdates.CompleteAfterRequest | app/dashboard/dashboard-client.tsx:73-87 | Completing after a request for the same id gives the same list as completing alone |
| StatusUpdates.RequestThenComplete | app/dashboard/dashboard-client.tsx:73-87 | With distinct ids, a request and then a completion on a not_indexed record leave that record indexed. Every other record is unchanged |
| StatusUpdates.CompleteIndexMonotone | app/dashboard/dashboard-client.tsx:80-86 | A completion for any id at any time never lowers any record's status rank |
| StatusUpdates.GuardedRequestMonotone | app/dashboard/dashboard-client.tsx:131-139 | With distinct ids, a request issued from a not_indexed card never lowers any record's status rank |
| StatusUpdates.UnguardedRequestRegresses | app/dashboard/dashboard-client.tsx:73-78 | The handler has no guard of its own: a request for the fixture's indexed repository makes it indexing |
| StatusUpdates.DuplicateIdsDefeatGuard | app/dashboard/dashboard-client.tsx:76 | With two records sharing an id, a request from the not_indexed one moves the indexed one back to indexing |
| DashboardView.CanRequest | app/dashboard/dashboard-client.tsx:115-142 | Only a not_indexed repository may be sent for indexing; that is exactly the status from which moving to indexing is a step forward |
| DashboardView.StatusBadge | app/dashboard/dashboard-client.tsx:89-113 | Every one of the three statuses has a badge with a non-empty label |
| DashboardView.StatusBadgeInjective | app/dashboard/dashboard-client.tsx:89-113 | Two badges are equal exactly when their statuses are equal |
| DashboardView.ActionButton | app/dashboard/dashboard-client.tsx:115-142 | The button is enabled exactly when the status is not_indexed. An enabled button indexes the card's own id |
| DashboardView.DisabledButtonMatchesBadge | app/dashboard/dashboard-client.tsx:115-130 | A disabled button carries the same text as its card's badge |
| Lifecycle.Init | app/dashboard/dashboard-client.tsx:71 | The first state satisfies the invariant: distinct ids, non-negative stars, and no pending completion. In particular the fixture's `indexing` repository has no completion scheduled |
| Lifecycle.HandleIndexRepo | app/dashboard/dashboard-client.tsx:73-87 | Every record carrying the id becomes indexing, and every other record is identical to before. Length, order and non-status fields are kept. Looked up afterwards, the id reads indexing if any record carries it and stays absent otherwise, and every other id reads as before. Exactly one more completion is pending for the id, and none more for any other id |
| Lifecycle.Step | app/dashboard/dashboard-client.tsx:73-142 | A press on an existing card always happens. It changes nothing when the card is not not_indexed. Otherwise it runs the handler on the card's id. A completion can fire only if one is pending for the id. When it fires, it applies the completion update and uses up one pending entry |
| Lifecycle.HandlePreservesInv | app/dashboard/dashboard-client.tsx:131-139 | Pressing an enabled button keeps the invariant. It moves repositories only forward and keeps their non-status fields |
| Lifecycle.FirePreservesInv | app/dashboard/dashboard-client.tsx:80-86 | A pending completion firing keeps the invariant. It moves repositories only forward and keeps their non-status fields |
| Lifecycle.StepPreservesInv | app/dashboard/dashboard-client.tsx:73-142 | Every event keeps the invariant, so no duplicate completion is ever pending. No event lowers a status rank |
| Lifecycle.RunPreservesInv | app/dashboard/dashboard-client.tsx:73-142 | Any event sequence keeps the invariant. It keeps length, order and non-status fields, and never lowers any status rank |
| Lifecycle.NeverBackToNotIndexed | app/dashboard/dashboard-client.tsx:27-142 | From the first render, for any event sequence split into a prefix and a continuation: a repository that is not not_indexed after the prefix is not not_indexed after the continuation either. Both points satisfy the invariant, and the continuation never lowers a rank or changes a non-status field |
| Lifecycle.PressThenFire | app/dashboard/dashboard-client.tsx:73-87 | With distinct ids, pressing a not_indexed card and then firing its completion leaves that repository indexed. All other records and the pending set are unchanged |
| Lifecycle.StepKeepsStuck | app/dashboard/dashboard-client.tsx:73-142 | An indexing repository with no pending completion stays indexing, with none pending, after any event |
| Lifecycle.FixtureIndexingNeverCompletes | app/dashboard/dashboard-client.tsx:48-57 | The fixture's third repository starts indexing with no completion scheduled. It is indexing in every reachable state |

## Left out

- Rendering is left out, because it is presentation only. This covers the JSX markup, icons, CSS classes, card layout, the empty-list message and the header with the user's name. Badges and buttons keep only their label, whether they are enabled, and their click target.
- The 3000 ms `setTimeout` delay is left out, because the model has no time. A completion is an explicit event that may fire at any point once scheduled, in any order. Equal delays would fire in scheduling order, so this over-approximates the browser. Every property proved holds for that order too.
- React `useState` and its updater-function semantics are left out. Each update is a pure function from the working set to a new working set, and events are applied one at a time.
- `id` and `stars` are JavaScript numbers but are modelled as mathematical integers. Floating-point values and NaN are not modelled.
- The sign-out form post is left out, because it is network I/O.
- The authentication gate of the dashboard page (app/dashboard/page.tsx) is left out, because it calls an authentication library whose code is not part of this model.
- The GitHub sign-in action of the home page (app/page.tsx) is left out for the same reason.
- The root layout (app/layout.tsx) is left out, because it holds only static page metadata and the HTML shell.
- The model covers one mounted dashboard. A reload or remount re-creates the state from the fixture (app/dashboard/dashboard-client.tsx:71). That puts indexed repositories back to not_indexed and drops pending completions. `NeverBackToNotIndexed` holds within one mount only.
