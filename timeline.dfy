/** `src/components/Timeline.tsx`: a sorted copy of the repositories, newest first,
    each rendered once with its position, which picks the side of the line
    (`src/components/TimelineItem.tsx`). */
module Timeline {
  import opened Sorting
  import opened Github

  /** `new Date(repo.created_at).getTime()`. */
  function CreatedKey(r: Repository): int
  {
    TimeKey(r.createdAt)
  }

  /** `[...repos].sort((a, b) => time(b) - time(a))`. */
  function SortedRepos(repos: seq<Repository>): (sorted: seq<Repository>)
    ensures |sorted| == |repos|
    ensures multiset(sorted) == multiset(repos)
    ensures NonIncreasing(sorted, CreatedKey)
  {
    SortDesc(repos, CreatedKey)
  }

  /** `const isRight = index % 2 === 0`. */
  predicate IsRight(index: nat)
  {
    index % 2 == 0
  }

  /** One `TimelineItem`: the repository, its index, and the side it is drawn on. */
  datatype Item = Item(repo: Repository, index: nat, onRight: bool)

  /** `sortedRepos.map((repo, index) => <TimelineItem repo index />)`. */
  function Items(repos: seq<Repository>): (items: seq<Item>)
    ensures |items| == |repos|
    ensures forall i | 0 <= i < |items| :: items[i].index == i && items[i].onRight == IsRight(i)
    ensures forall i | 0 <= i < |items| :: items[i].repo == SortedRepos(repos)[i]
  {
    var sorted := SortedRepos(repos);
    seq(|sorted|, i requires 0 <= i < |sorted| => Item(sorted[i], i, IsRight(i)))
  }

  function RepoOf(item: Item): Repository { item.repo }

  /** The repositories of the items, in the order they are drawn. */
  function Drawn(items: seq<Item>): (rs: seq<Repository>)
    ensures |rs| == |items|
    ensures forall i | 0 <= i < |items| :: rs[i] == items[i].repo
  {
    seq(|items|, i requires 0 <= i < |items| => RepoOf(items[i]))
  }

  /** Each repository is drawn exactly as often as it occurs in the input. */
  lemma EachRepoDrawnOnce(repos: seq<Repository>)
    ensures multiset(Drawn(Items(repos))) == multiset(repos)
  {
    assert Drawn(Items(repos)) == SortedRepos(repos);
  }

  /** The items are drawn newest first. */
  lemma {:induction false} ItemsNewestFirst(repos: seq<Repository>)
    ensures var items := Items(repos);
            forall i, j | 0 <= i < j < |items| :: CreatedKey(items[i].repo) >= CreatedKey(items[j].repo)
  {
    var sorted := SortedRepos(repos);
    assert NonIncreasing(sorted, CreatedKey);
  }

  /** Consecutive items are drawn on opposite sides, the first on the right. */
  lemma ItemsAlternate(repos: seq<Repository>)
    ensures var items := Items(repos);
            && (|items| > 0 ==> items[0].onRight)
            && forall i | 0 <= i < |items| - 1 :: items[i].onRight != items[i + 1].onRight
  {
  }

  /** No repositories, no items. */
  lemma EmptyTimeline()
    ensures Items([]) == []
  {
  }
}
