/** What a repository card shows: the status badge and the action button.
    Only the parts that decide behaviour are kept: the label text, whether
    the button is enabled, and which repository its click indexes. */
module DashboardView {
  import opened RepoModel

  /** The guard: a repository may be sent for indexing only from `not_indexed`,
      which is exactly when moving it to `indexing` is a step forward. */
  function CanRequest(s: IndexStatus): (b: bool)
    ensures b <==> Rank(s) < Rank(Indexing)
  {
    s == NotIndexed
  }

  /** Badge shown next to a card's title. */
  datatype Badge = Badge(text: string)

  /** Action button at the foot of a card: either disabled, or enabled with a
      click that starts indexing the repository `target`. */
  datatype Action = Disabled(text: string) | Enabled(text: string, target: int)

  /** Badge for a status; defined for each of the three statuses. */
  function StatusBadge(s: IndexStatus): (b: Badge)
    ensures b.text != []
  {
    match s
    case Indexed => Badge("Indexed")
    case Indexing => Badge("Indexing...")
    case NotIndexed => Badge("Not Indexed")
  }

  /** Action button for a card. Its click is wired only on a `not_indexed`
      repository, and then it indexes that card's own repository. */
  function ActionButton(repo: Repo): (a: Action)
    ensures a.Enabled? <==> CanRequest(repo.indexStatus)
    ensures a.Enabled? ==> a.target == repo.id
  {
    match repo.indexStatus
    case Indexed => Disabled("Indexed")
    case Indexing => Disabled("Indexing...")
    case NotIndexed => Enabled("Index Repository", repo.id)
  }

  /** Different statuses render different badges, so the badge tells the
      status apart. */
  lemma StatusBadgeInjective(s: IndexStatus, t: IndexStatus)
    ensures StatusBadge(s) == StatusBadge(t) <==> s == t
  {
  }

  /** A disabled button repeats its card's badge text. */
  lemma DisabledButtonMatchesBadge(repo: Repo)
    requires ActionButton(repo).Disabled?
    ensures ActionButton(repo).text == StatusBadge(repo.indexStatus).text
  {
  }
}
