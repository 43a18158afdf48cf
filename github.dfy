/** The repository-data pipeline of `src/lib/github.ts`: the records the GitHub API
    returns, the paginated listing of a user's repositories, and the grouping of a
    repository list by creation year. */
module Github {
  import opened Wrappers
  import opened Sorting

  /** A repository as the listing endpoint returns it. */
  datatype Repository = Repository(
    id: int,
    name: string,
    fullName: string,
    htmlUrl: string,
    description: Option<string>,
    createdAt: string,
    updatedAt: string,
    pushedAt: string,
    language: Option<string>,
    fork: bool,
    archived: bool,
    disabled: bool,
    isPrivate: bool)

  /** A user profile. `blog` is read by the sidebar but is not declared in the
      TypeScript interface; it is carried here as an optional field. */
  datatype User = User(
    login: string,
    id: int,
    avatarUrl: string,
    htmlUrl: string,
    name: Option<string>,
    publicRepos: int,
    blog: Option<string>)

  // ---------------------------------------------------------------------------
  // Timestamps. `created_at` is an RFC 3339 date-time in UTC ("2023-01-15T00:00:00Z").

  function DigitValue(c: char): nat
  {
    if '0' <= c <= '9' then c as int - '0' as int else 0
  }

  /** The number spelled by a string of decimal digits. */
  function Decimal(s: string): nat
  {
    if s == [] then 0 else Decimal(s[..|s| - 1]) * 10 + DigitValue(s[|s| - 1])
  }

  /** The calendar year of a timestamp: its first four characters, read in UTC. It
      has at most four digits. */
  function YearOf(createdAt: string): (y: int)
    ensures 0 <= y < 10000
  {
    var digits := createdAt[..if |createdAt| < 4 then |createdAt| else 4];
    DecimalBelow(digits);
    assert Pow10(4) == 10 * Pow10(3) == 100 * Pow10(2) == 1000 * Pow10(1) == 10000;
    Decimal(digits)
  }

  function Pow10(n: nat): nat
  {
    if n == 0 then 1 else 10 * Pow10(n - 1)
  }

  /** A number spelled by `n` digits is below 10^n. */
  lemma {:induction false} DecimalBelow(s: string)
    ensures Decimal(s) < Pow10(|s|)
  {
    if s != [] {
      DecimalBelow(s[..|s| - 1]);
    }
  }

  function DigitsOf(s: string): string
  {
    if s == [] then []
    else DigitsOf(s[..|s| - 1]) + (if '0' <= s[|s| - 1] <= '9' then [s[|s| - 1]] else [])
  }

  /** A number that orders timestamps of the form YYYY-MM-DDTHH:MM:SSZ as `getTime()` does:
      the digits of the timestamp read as one decimal number. */
  function TimeKey(createdAt: string): int
  {
    Decimal(DigitsOf(createdAt))
  }

  // ---------------------------------------------------------------------------
  // fetchUserRepos: the paginated listing.

  /** Page size of every listing request. */
  const PerPage: nat := 100

  /** A value thrown by a rejected request: an `Error` instance with its message, or
      any other value. */
  datatype Thrown = ErrorValue(message: string) | OtherValue

  /** What the listing endpoint answers for one page: the items, or a rejection. */
  datatype Response = Page(items: seq<Repository>) | Rejected(reason: Thrown)

  /** The parameters of one `repos.listForUser` request. */
  datatype ListRequest = ListRequest(username: string, sort: string, direction: string, perPage: nat, page: nat)

  function RequestFor(username: string, page: nat): ListRequest
  {
    ListRequest(username, "created", "desc", PerPage, page)
  }

  /** The answer to the request for page `page` (counted from 1). `responses` holds
      the answers of the pages the account has; every later page is empty. */
  function ResponseAt(responses: seq<Response>, page: nat): Response
  {
    if 1 <= page <= |responses| then responses[page - 1] else Page([])
  }

  predicate IsFullPage(r: Response)
  {
    r.Page? && |r.items| == PerPage
  }

  lemma FullPageInRange(responses: seq<Response>, page: nat)
    requires IsFullPage(ResponseAt(responses, page))
    ensures 1 <= page <= |responses|
  {
  }

  function Remaining(responses: seq<Response>, page: nat): nat
  {
    if page <= |responses| then |responses| + 1 - page else 0
  }

  /** What the listing yields from page `page` onward: the pages in order, up to and
      including the first one that is not full, or the first rejection. */
  function FetchFrom(responses: seq<Response>, page: nat): Result<seq<Repository>, Thrown>
    decreases Remaining(responses, page)
  {
    match ResponseAt(responses, page)
    case Rejected(t) => Err(t)
    case Page(items) =>
      if |items| == PerPage then Prepend(items, FetchFrom(responses, page + 1))
      else Ok(items)
  }

  /** How many requests the listing issues from page `page` onward. */
  function RequestsFrom(responses: seq<Response>, page: nat): nat
    decreases Remaining(responses, page)
  {
    if IsFullPage(ResponseAt(responses, page)) then 1 + RequestsFrom(responses, page + 1) else 1
  }

  function Prepend(items: seq<Repository>, r: Result<seq<Repository>, Thrown>): Result<seq<Repository>, Thrown>
  {
    match r
    case Ok(rest) => Ok(items + rest)
    case Err(t) => Err(t)
  }

  /** `fetchUserRepos`: request pages 1, 2, ... with the same parameters, appending
      each page to the accumulator, until a page holds fewer than 100 items. A
      rejected request propagates out of the loop and nothing is returned. */
  method FetchUserRepos(username: string, responses: seq<Response>)
    returns (result: Result<seq<Repository>, Thrown>, requests: seq<ListRequest>)
    ensures result == FetchFrom(responses, 1)
    ensures |requests| == RequestsFrom(responses, 1)
    ensures forall i | 0 <= i < |requests| :: requests[i] == RequestFor(username, i + 1)
  {
    var allRepos: seq<Repository> := [];
    var page: nat := 1;
    var more := true;
    requests := [];
    result := Ok([]);
    assert Prepend([], FetchFrom(responses, 1)) == FetchFrom(responses, 1) by {
      match FetchFrom(responses, 1)
      case Ok(rest) => assert [] + rest == rest;
      case Err(_) =>
    }
    while more
      invariant 1 <= page <= |responses| + 2
      invariant |requests| == page - 1
      invariant forall i | 0 <= i < |requests| :: requests[i] == RequestFor(username, i + 1)
      invariant more ==> page <= |responses| + 1
      invariant more ==> FetchFrom(responses, 1) == Prepend(allRepos, FetchFrom(responses, page))
      invariant more ==> RequestsFrom(responses, 1) == |requests| + RequestsFrom(responses, page)
      invariant !more ==> result == FetchFrom(responses, 1) && |requests| == RequestsFrom(responses, 1)
      decreases |responses| + 2 - page
    {
      var response := ResponseAt(responses, page);
      requests := requests + [RequestFor(username, page)];
      if response.Rejected? {
        result := Err(response.reason);
        return;
      }
      var fetched := response.items;
      ghost var before := allRepos;
      allRepos := allRepos + fetched;
      page := page + 1;
      more := |fetched| == PerPage;
      if more {
        assert Prepend(before, Prepend(fetched, FetchFrom(responses, page)))
            == Prepend(allRepos, FetchFrom(responses, page)) by {
          match FetchFrom(responses, page)
          case Ok(rest) => assert before + (fetched + rest) == allRepos + rest;
          case Err(_) =>
        }
      } else {
        result := Ok(allRepos);
      }
    }
  }

  /** The items of the pages `from`, ..., `from + count - 1`, in page order. */
  function ConcatPages(responses: seq<Response>, from: nat, count: nat): seq<Repository>
    decreases count
  {
    if count == 0 then []
    else
      var r := ResponseAt(responses, from);
      (if r.Page? then r.items else []) + ConcatPages(responses, from + 1, count - 1)
  }

  /** The listing asks for one more page exactly when the page before was full: the
      pages before the last request were full, and the last one was not (it was short,
      empty, or rejected). */
  lemma {:induction false} StopsAtFirstShortPage(responses: seq<Response>, page: nat)
    ensures RequestsFrom(responses, page) >= 1
    ensures forall k | page <= k < page + RequestsFrom(responses, page) - 1 :: IsFullPage(ResponseAt(responses, k))
    ensures !IsFullPage(ResponseAt(responses, page + RequestsFrom(responses, page) - 1))
    decreases Remaining(responses, page)
  {
    if IsFullPage(ResponseAt(responses, page)) {
      FullPageInRange(responses, page);
      StopsAtFirstShortPage(responses, page + 1);
    }
  }

  /** The listing fails exactly when its last request was rejected, with that
      rejection's value; no partial list is returned. */
  lemma {:induction false} FailsIffLastRejected(responses: seq<Response>, page: nat)
    ensures var last := ResponseAt(responses, page + RequestsFrom(responses, page) - 1);
            FetchFrom(responses, page).Err? <==> last.Rejected?
    ensures var last := ResponseAt(responses, page + RequestsFrom(responses, page) - 1);
            FetchFrom(responses, page).Err? ==> FetchFrom(responses, page).error == last.reason
    decreases Remaining(responses, page)
  {
    if IsFullPage(ResponseAt(responses, page)) {
      FullPageInRange(responses, page);
      FailsIffLastRejected(responses, page + 1);
    }
  }

  /** A successful listing is the in-order concatenation of every page requested,
      and its length is 100 per full page plus the length of the final page. */
  lemma {:induction false} ResultIsConcatenation(responses: seq<Response>, page: nat)
    requires FetchFrom(responses, page).Ok?
    ensures FetchFrom(responses, page).value == ConcatPages(responses, page, RequestsFrom(responses, page))
    ensures var last := ResponseAt(responses, page + RequestsFrom(responses, page) - 1);
            last.Page? &&
            |FetchFrom(responses, page).value| == PerPage * (RequestsFrom(responses, page) - 1) + |last.items|
    decreases Remaining(responses, page)
  {
    var r := ResponseAt(responses, page);
    if IsFullPage(r) {
      FullPageInRange(responses, page);
      ResultIsConcatenation(responses, page + 1);
    } else {
      assert ConcatPages(responses, page + 1, 0) == [];
    }
  }

  /** Pages of 100, 100 and 40 repositories: three requests, 240 repositories. */
  lemma ThreePagesExample(repo: Repository)
    ensures var full := Page(seq(100, _ => repo));
            var responses := [full, full, Page(seq(40, _ => repo))];
            RequestsFrom(responses, 1) == 3
            && FetchFrom(responses, 1).Ok? && |FetchFrom(responses, 1).value| == 240
  {
    var full := Page(seq(100, _ => repo));
    var responses := [full, full, Page(seq(40, _ => repo))];
    assert !IsFullPage(ResponseAt(responses, 3));
    assert RequestsFrom(responses, 2) == 2;
    assert FetchFrom(responses, 2).Ok?;
    assert |FetchFrom(responses, 2).value| == 140;
  }

  /** An empty first page: one request and an empty list. */
  lemma EmptyFirstPageExample(responses: seq<Response>)
    requires responses == [] || responses[0] == Page([])
    ensures RequestsFrom(responses, 1) == 1 && FetchFrom(responses, 1) == Ok([])
  {
  }

  // ---------------------------------------------------------------------------
  // groupReposByYear and getGroupedReposWithSortedYears.

  /** The repositories of `repos` created in year `y`, in input order. */
  function YearGroup(repos: seq<Repository>, y: int): seq<Repository>
  {
    if repos == [] then []
    else
      var last := repos[|repos| - 1];
      YearGroup(repos[..|repos| - 1], y) + (if YearOf(last.createdAt) == y then [last] else [])
  }

  /** The creation years that occur in `repos`. */
  function YearsOf(repos: seq<Repository>): set<int>
  {
    set r | r in repos :: YearOf(r.createdAt)
  }

  /** The year map: one entry per year that occurs, holding that year's repositories. */
  function GroupByYear(repos: seq<Repository>): map<int, seq<Repository>>
  {
    map y | y in YearsOf(repos) :: YearGroup(repos, y)
  }

  lemma {:induction false} YearGroupMembers(repos: seq<Repository>, y: int)
    ensures forall r | r in YearGroup(repos, y) :: r in repos && YearOf(r.createdAt) == y
    ensures forall r | r in repos && YearOf(r.createdAt) == y :: r in YearGroup(repos, y)
  {
    if repos != [] {
      var init := repos[..|repos| - 1];
      YearGroupMembers(init, y);
      assert repos == init + [repos[|repos| - 1]];
    }
  }

  lemma YearGroupEmptyIff(repos: seq<Repository>, y: int)
    ensures YearGroup(repos, y) == [] <==> y !in YearsOf(repos)
  {
    YearGroupMembers(repos, y);
    if y in YearsOf(repos) {
      var r :| r in repos && YearOf(r.createdAt) == y;
      assert r in YearGroup(repos, y);
    }
  }

  /** Adding one repository at the end extends its own year's group and no other. */
  lemma GroupByYearSnoc(repos: seq<Repository>, repo: Repository)
    ensures var y := YearOf(repo.createdAt);
            var g := GroupByYear(repos);
            GroupByYear(repos + [repo]) == g[y := (if y in g then g[y] else []) + [repo]]
  {
    var y := YearOf(repo.createdAt);
    var s := repos + [repo];
    assert s[..|s| - 1] == repos;
    assert YearsOf(s) == YearsOf(repos) + {y};
    forall z | z in YearsOf(s)
      ensures YearGroup(s, z) == (if z == y then (if z in YearsOf(repos) then YearGroup(repos, z) else []) + [repo]
                                  else YearGroup(repos, z))
    {
      if z == y && z !in YearsOf(repos) {
        YearGroupEmptyIff(repos, z);
      }
    }
  }

  /** `groupReposByYear`: a reduce that creates a year's list on first sight and
      pushes each repository onto its year's list. */
  method GroupReposByYear(repos: seq<Repository>) returns (acc: map<int, seq<Repository>>)
    ensures acc == GroupByYear(repos)
  {
    acc := map[];
    for i := 0 to |repos|
      invariant acc == GroupByYear(repos[..i])
    {
      var repo := repos[i];
      var year := YearOf(repo.createdAt);
      ghost var before := acc;
      ghost var group := if year in before then before[year] else [];
      if year !in acc {
        acc := acc[year := []];
      }
      assert year in acc && acc[year] == group && acc.Keys == before.Keys + {year};
      acc := acc[year := acc[year] + [repo]];
      assert acc == before[year := group + [repo]];
      ghost var prefix := repos[..i];
      GroupByYearSnoc(prefix, repo);
      assert repos[..i + 1] == prefix + [repo];
    }
    assert repos[..|repos|] == repos;
  }

  /** Keys of the year map are exactly the years that occur, every group is
      non-empty, and a repository lies in the group of its own year and in no other. */
  lemma GroupByYearPartition(repos: seq<Repository>)
    ensures GroupByYear(repos).Keys == YearsOf(repos)
    ensures forall y | y in GroupByYear(repos) :: GroupByYear(repos)[y] != []
    ensures forall r | r in repos :: r in GroupByYear(repos)[YearOf(r.createdAt)]
    ensures forall y, r | y in GroupByYear(repos) && r in GroupByYear(repos)[y] :: r in repos && YearOf(r.createdAt) == y
  {
    forall y | y in YearsOf(repos)
      ensures YearGroup(repos, y) != []
      ensures forall r | r in repos && YearOf(r.createdAt) == y :: r in YearGroup(repos, y)
      ensures forall r | r in YearGroup(repos, y) :: r in repos && YearOf(r.createdAt) == y
    {
      YearGroupEmptyIff(repos, y);
      YearGroupMembers(repos, y);
    }
  }

  /** Grouping keeps input order: the group of a concatenation is the concatenation of the groups. */
  lemma {:induction false} YearGroupAppend(a: seq<Repository>, b: seq<Repository>, y: int)
    ensures YearGroup(a + b, y) == YearGroup(a, y) + YearGroup(b, y)
    decreases |b|
  {
    if b != [] {
      var b' := b[..|b| - 1];
      YearGroupAppend(a, b', y);
      assert (a + b)[..|a + b| - 1] == a + b';
    } else {
      assert a + b == a;
    }
  }

  lemma GroupByYearEmpty()
    ensures GroupByYear([]) == map[]
  {
  }

  /** The repositories whose year lies in `years`, in input order. */
  function InYears(repos: seq<Repository>, years: set<int>): seq<Repository>
  {
    if repos == [] then []
    else
      var last := repos[|repos| - 1];
      InYears(repos[..|repos| - 1], years) + (if YearOf(last.createdAt) in years then [last] else [])
  }

  lemma {:induction false} InYearsAddYear(repos: seq<Repository>, years: set<int>, y: int)
    requires y !in years
    ensures multiset(InYears(repos, years + {y})) == multiset(YearGroup(repos, y)) + multiset(InYears(repos, years))
  {
    if repos != [] {
      InYearsAddYear(repos[..|repos| - 1], years, y);
    }
  }

  lemma {:induction false} InYearsAll(repos: seq<Repository>, years: set<int>)
    requires YearsOf(repos) <= years
    ensures InYears(repos, years) == repos
  {
    if repos != [] {
      var init := repos[..|repos| - 1];
      assert YearsOf(init) <= YearsOf(repos);
      InYearsAll(init, years);
      assert repos == init + [repos[|repos| - 1]];
    }
  }

  /** The groups of `years`, one after the other. */
  function ConcatGroups(repos: seq<Repository>, years: seq<int>): seq<Repository>
  {
    if years == [] then [] else YearGroup(repos, years[0]) + ConcatGroups(repos, years[1..])
  }

  lemma {:induction false} ConcatGroupsSelects(repos: seq<Repository>, years: seq<int>)
    requires Distinct(years)
    ensures multiset(ConcatGroups(repos, years)) == multiset(InYears(repos, set y | y in years))
  {
    if years == [] {
      assert (set y | y in years) == {};
      InYearsNone(repos);
    } else {
      var rest := years[1..];
      assert Distinct(rest);
      ConcatGroupsSelects(repos, rest);
      assert years[0] !in rest;
      assert (set y | y in years) == (set y | y in rest) + {years[0]};
      InYearsAddYear(repos, (set y | y in rest), years[0]);
    }
  }

  lemma {:induction false} InYearsNone(repos: seq<Repository>)
    ensures InYears(repos, {}) == []
  {
    if repos != [] {
      InYearsNone(repos[..|repos| - 1]);
    }
  }

  /** Group sizes sum to the input length: reading the groups in the order of any
      list of the years, each year once, gives back exactly the input's repositories. */
  lemma GroupsArePartition(repos: seq<Repository>, years: seq<int>)
    requires Distinct(years) && (set y | y in years) == YearsOf(repos)
    ensures multiset(ConcatGroups(repos, years)) == multiset(repos)
    ensures |ConcatGroups(repos, years)| == |repos|
  {
    ConcatGroupsSelects(repos, years);
    InYearsAll(repos, YearsOf(repos));
    assert |multiset(ConcatGroups(repos, years))| == |multiset(repos)|;
  }

  /** The keys of the year map, each once. `Object.keys` lists integer-like keys such
      as "2021" in ascending order; the model lists them in order of first appearance
      instead, which is irrelevant once they are sorted (`SortedYearsUnique`). */
  function KeysInOrder(repos: seq<Repository>): (ks: seq<int>)
    ensures Distinct(ks)
    ensures forall y :: y in ks <==> y in YearsOf(repos)
  {
    if repos == [] then []
    else
      var init := repos[..|repos| - 1];
      var y := YearOf(repos[|repos| - 1].createdAt);
      var ks := KeysInOrder(init);
      assert repos == init + [repos[|repos| - 1]];
      assert YearsOf(repos) == YearsOf(init) + {y};
      if y in ks then ks else ks + [y]
  }

  predicate StrictlyDecreasing(s: seq<int>)
  {
    forall i, j | 0 <= i < j < |s| :: s[i] > s[j]
  }

  /** The year comparator `(a, b) => parseInt(b) - parseInt(a)`: years sort by their own value. */
  function YearKey(y: int): int { y }

  /** `Object.keys(reposByYear).sort(...)`: the years, largest first. */
  function SortYears(years: seq<int>): (sorted: seq<int>)
    requires Distinct(years)
    ensures StrictlyDecreasing(sorted)
    ensures forall y :: y in sorted <==> y in years
    ensures |sorted| == |years|
  {
    SortYearsFacts(years);
    SortDesc(years, YearKey)
  }

  lemma SortYearsFacts(years: seq<int>)
    requires Distinct(years)
    ensures var sorted := SortDesc(years, YearKey);
            StrictlyDecreasing(sorted) && |sorted| == |years| && forall y :: y in sorted <==> y in years
  {
    SortedYearsStrict(years);
    SortedYearsMembers(years);
  }

  lemma SortedYearsStrict(years: seq<int>)
    requires Distinct(years)
    ensures StrictlyDecreasing(SortDesc(years, YearKey))
  {
    var sorted := SortDesc(years, YearKey);
    SortKeepsDistinct(years, YearKey);
    forall i, j | 0 <= i < j < |sorted| ensures sorted[i] > sorted[j] {
      assert YearKey(sorted[i]) >= YearKey(sorted[j]);
      assert sorted[i] != sorted[j];
    }
  }

  lemma SortedYearsMembers(years: seq<int>)
    ensures forall y :: y in SortDesc(years, YearKey) <==> y in years
  {
    var sorted := SortDesc(years, YearKey);
    forall y ensures y in sorted <==> y in years {
      assert y in sorted <==> y in multiset(sorted);
      assert y in years <==> y in multiset(years);
    }
  }

  /** Two strictly decreasing lists with the same elements are equal: the sorted
      years are the same whatever order the keys were enumerated in. */
  lemma {:induction false} SortedYearsUnique(a: seq<int>, b: seq<int>)
    requires StrictlyDecreasing(a) && StrictlyDecreasing(b)
    requires forall y :: y in a <==> y in b
    ensures a == b
  {
    assert a != [] ==> a[0] in a;
    assert b != [] ==> b[0] in b;
    if a != [] && b != [] {
      assert a[0] == b[0];
      assert forall y :: y in a[1..] <==> y in a && y != a[0];
      assert forall y :: y in b[1..] <==> y in b && y != b[0];
      SortedYearsUnique(a[1..], b[1..]);
      assert a == [a[0]] + a[1..] && b == [b[0]] + b[1..];
    }
  }

  datatype Grouped = Grouped(reposByYear: map<int, seq<Repository>>, sortedYears: seq<int>)

  /** `getGroupedReposWithSortedYears`: the year map, and its keys each once, largest first. */
  function GetGroupedReposWithSortedYears(repos: seq<Repository>): (g: Grouped)
    ensures StrictlyDecreasing(g.sortedYears)
    ensures forall y :: y in g.sortedYears <==> y in g.reposByYear
  {
    Grouped(GroupByYear(repos), SortYears(KeysInOrder(repos)))
  }

  /** `sortedYears` is the one strictly decreasing list of the years that occur. */
  lemma SortedYearsAre(repos: seq<Repository>, years: seq<int>)
    requires StrictlyDecreasing(years)
    requires forall y :: y in years <==> y in YearsOf(repos)
    ensures GetGroupedReposWithSortedYears(repos).sortedYears == years
  {
    var g := GetGroupedReposWithSortedYears(repos);
    SortedYearsUnique(g.sortedYears, years);
  }

  /** The scenario of repositories created on 2023-01-15, 2023-06-01 and 2022-01-01
      (see `ScenarioYears` for the years of those timestamps): the year map. */
  lemma GroupingExample(a: Repository, b: Repository, c: Repository)
    requires YearOf(a.createdAt) == 2023 && YearOf(b.createdAt) == 2023 && YearOf(c.createdAt) == 2022
    ensures GroupByYear([a, b, c]) == map[2023 := [a, b], 2022 := [c]]
  {
    ScenarioGroups(a, b, c);
    assert YearsOf([a, b, c]) == {2023, 2022};
  }

  /** The same scenario: the sorted years. */
  lemma SortedYearsExample(a: Repository, b: Repository, c: Repository)
    requires YearOf(a.createdAt) == 2023 && YearOf(b.createdAt) == 2023 && YearOf(c.createdAt) == 2022
    ensures GetGroupedReposWithSortedYears([a, b, c]).sortedYears == [2023, 2022]
  {
    assert YearsOf([a, b, c]) == {2023, 2022};
    SortedYearsAre([a, b, c], [2023, 2022]);
  }

  lemma ScenarioGroups(a: Repository, b: Repository, c: Repository)
    requires YearOf(a.createdAt) == 2023 && YearOf(b.createdAt) == 2023 && YearOf(c.createdAt) == 2022
    ensures YearGroup([a, b, c], 2023) == [a, b] && YearGroup([a, b, c], 2022) == [c]
  {
    assert [a, b, c][..2] == [a, b] && [a, b][..1] == [a] && [a][..0] == [];
    assert YearGroup([a], 2023) == [a] && YearGroup([a], 2022) == [];
    assert YearGroup([a, b], 2023) == [a, b] && YearGroup([a, b], 2022) == [];
  }

  lemma ScenarioYears()
    ensures YearOf("2023-01-15T00:00:00Z") == 2023
    ensures YearOf("2023-06-01T00:00:00Z") == 2023
    ensures YearOf("2022-01-01T00:00:00Z") == 2022
  {
    YearOfIs("2023-01-15T00:00:00Z", 2023);
    YearOfIs("2023-06-01T00:00:00Z", 2023);
    YearOfIs("2022-01-01T00:00:00Z", 2022);
  }

  lemma YearOfIs(createdAt: string, y: int)
    requires |createdAt| >= 4 && forall i | 0 <= i < 4 :: '0' <= createdAt[i] <= '9'
    requires y == 1000 * DigitValue(createdAt[0]) + 100 * DigitValue(createdAt[1])
                + 10 * DigitValue(createdAt[2]) + DigitValue(createdAt[3])
    ensures YearOf(createdAt) == y
  {
    var p := createdAt[..4];
    assert p[..3] == createdAt[..3] && p[3] == createdAt[3];
    assert Decimal(createdAt[..1]) == DigitValue(createdAt[0]) by {
      assert createdAt[..1][..0] == [];
    }
    assert Decimal(createdAt[..2]) == 10 * DigitValue(createdAt[0]) + DigitValue(createdAt[1]) by {
      assert createdAt[..2][..1] == createdAt[..1];
    }
    assert Decimal(createdAt[..3]) == 100 * DigitValue(createdAt[0]) + 10 * DigitValue(createdAt[1]) + DigitValue(createdAt[2]) by {
      assert createdAt[..3][..2] == createdAt[..2];
    }
  }
}
