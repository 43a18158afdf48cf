/** The figures `src/components/RepoSummary.tsx` computes before rendering: the total,
    the per-year counts in descending year order, and the language statistics with
    the five most used languages. `Sidebar.tsx` repeats the same computations. */
module RepoSummary {
  import opened Wrappers
  import opened Sorting
  import opened Github

  // ---------------------------------------------------------------------------
  // languageStats

  /** `if (repo.language)`: a null or empty language is not counted. */
  predicate HasLanguage(r: Repository)
  {
    r.language.Some? && r.language.value != ""
  }

  /** The number of repositories whose language is `language`. */
  function CountLanguage(repos: seq<Repository>, language: string): nat
  {
    if repos == [] then 0
    else CountLanguage(repos[..|repos| - 1], language) + (if repos[|repos| - 1].language == Some(language) then 1 else 0)
  }

  /** The languages counted: the non-empty ones that occur. */
  function LanguagesOf(repos: seq<Repository>): set<string>
  {
    set r | r in repos && HasLanguage(r) :: r.language.value
  }

  /** The language statistics: each counted language with its number of repositories. */
  function LanguageCounts(repos: seq<Repository>): map<string, nat>
  {
    map l | l in LanguagesOf(repos) :: CountLanguage(repos, l)
  }

  lemma {:induction false} CountLanguagePositive(repos: seq<Repository>, language: string)
    ensures CountLanguage(repos, language) > 0 <==> exists r | r in repos :: r.language == Some(language)
  {
    if repos != [] {
      var init := repos[..|repos| - 1];
      CountLanguagePositive(init, language);
      assert repos == init + [repos[|repos| - 1]];
    }
  }

  lemma LanguageCountsSnoc(repos: seq<Repository>, repo: Repository)
    ensures var m := LanguageCounts(repos);
            LanguageCounts(repos + [repo])
              == if HasLanguage(repo) then m[repo.language.value := (if repo.language.value in m then m[repo.language.value] else 0) + 1]
                 else m
  {
    var s := repos + [repo];
    assert s[..|s| - 1] == repos;
    if HasLanguage(repo) {
      var l := repo.language.value;
      assert LanguagesOf(s) == LanguagesOf(repos) + {l};
      if l !in LanguagesOf(repos) {
        CountLanguagePositive(repos, l);
      }
    } else {
      assert LanguagesOf(s) == LanguagesOf(repos);
    }
  }

  /** `languageStats`: a reduce that adds one to the entry of each repository's language. */
  method LanguageStats(repos: seq<Repository>) returns (acc: map<string, nat>)
    ensures acc == LanguageCounts(repos)
  {
    acc := map[];
    for i := 0 to |repos|
      invariant acc == LanguageCounts(repos[..i])
    {
      var repo := repos[i];
      if repo.language.Some? && repo.language.value != "" {
        var language := repo.language.value;
        acc := acc[language := (if language in acc then acc[language] else 0) + 1];
      }
      LanguageCountsSnoc(repos[..i], repo);
      assert repos[..i + 1] == repos[..i] + [repo];
    }
    assert repos[..|repos|] == repos;
  }

  /** A language has an entry exactly when it is non-empty and some repository has
      it, and the entry is the number of those repositories. */
  lemma LanguageCountsMeaning(repos: seq<Repository>, language: string)
    ensures language in LanguageCounts(repos)
            <==> language != "" && exists r | r in repos :: r.language == Some(language)
    ensures language in LanguageCounts(repos) ==> LanguageCounts(repos)[language] == CountLanguage(repos, language) > 0
  {
    CountLanguagePositive(repos, language);
    if language != "" && exists r | r in repos :: r.language == Some(language) {
      var r :| r in repos && r.language == Some(language);
      assert HasLanguage(r);
    }
  }

  // ---------------------------------------------------------------------------
  // topLanguages

  /** The counted languages in the order `Object.entries` lists them: the order in
      which the reduce first inserted them. */
  function LanguagesInOrder(repos: seq<Repository>): (ls: seq<string>)
    ensures Distinct(ls)
    ensures forall l :: l in ls <==> l in LanguagesOf(repos)
  {
    if repos == [] then []
    else
      var init := repos[..|repos| - 1];
      var last := repos[|repos| - 1];
      var ls := LanguagesInOrder(init);
      assert repos == init + [last];
      assert LanguagesOf(repos) == LanguagesOf(init) + (if HasLanguage(last) then {last.language.value} else {});
      if HasLanguage(last) && last.language.value !in ls then ls + [last.language.value] else ls
  }

  type Entry = (string, nat)

  function Count(e: Entry): int { e.1 }

  /** `Object.entries(languageStats)`. */
  function Entries(repos: seq<Repository>): (es: seq<Entry>)
    ensures |es| == |LanguageCounts(repos)|
    ensures forall i | 0 <= i < |es| :: es[i].0 in LanguageCounts(repos) && es[i].1 == LanguageCounts(repos)[es[i].0]
    ensures forall l | l in LanguageCounts(repos) :: (l, LanguageCounts(repos)[l]) in es
    ensures Distinct(es)
  {
    var ls := LanguagesInOrder(repos);
    var stats := LanguageCounts(repos);
    DistinctCard(ls);
    assert (set l | l in ls) == stats.Keys;
    var es := seq(|ls|, i requires 0 <= i < |ls| => (ls[i], stats[ls[i]]));
    assert forall l | l in stats :: (l, stats[l]) in es by {
      forall l | l in stats ensures (l, stats[l]) in es {
        var i :| 0 <= i < |ls| && ls[i] == l;
        assert es[i] == (l, stats[l]);
      }
    }
    es
  }

  /** How many languages the summary lists. */
  const TopCount: nat := 5

  /** `.slice(0, 5)`. */
  function Take(s: seq<Entry>, n: nat): seq<Entry>
  {
    if |s| <= n then s else s[..n]
  }

  /** `topLanguages`: the entries sorted by count, largest first, cut to five. It holds
      at most five of the language entries, none more often than the statistics do. */
  function TopLanguages(repos: seq<Repository>): (top: seq<Entry>)
    ensures |top| <= TopCount
    ensures multiset(top) <= multiset(Entries(repos))
  {
    var sorted := SortDesc(Entries(repos), Count);
    var top := Take(sorted, TopCount);
    assert |sorted| > TopCount ==> sorted == top + sorted[TopCount..];
    top
  }

  /** There are five top languages, or all of them when there are fewer. */
  lemma TopLanguagesSize(repos: seq<Repository>)
    ensures var n := |LanguageCounts(repos)|;
            |TopLanguages(repos)| == if n <= TopCount then n else TopCount
  {
  }

  /** The top languages are listed by count, largest first. */
  lemma TopLanguagesOrdered(repos: seq<Repository>)
    ensures NonIncreasing(TopLanguages(repos), Count)
  {
    var sorted := SortDesc(Entries(repos), Count);
    var top := TopLanguages(repos);
    assert forall i | 0 <= i < |top| :: top[i] == sorted[i];
  }

  /** Each top entry is a language of the statistics with its count, each language once. */
  lemma TopLanguagesAreEntries(repos: seq<Repository>)
    ensures var top := TopLanguages(repos);
            var stats := LanguageCounts(repos);
            && (forall i | 0 <= i < |top| :: top[i].0 in stats && top[i].1 == stats[top[i].0])
            && (forall i, j | 0 <= i < j < |top| :: top[i].0 != top[j].0)
  {
    var es := Entries(repos);
    var sorted := SortDesc(es, Count);
    var top := TopLanguages(repos);
    SortKeepsDistinct(es, Count);
    assert forall i | 0 <= i < |top| :: top[i] == sorted[i];
    forall i | 0 <= i < |top| ensures top[i] in es {
      assert top[i] in multiset(sorted);
    }
  }

  /** A language that is not among the top ones has a count no larger than any of theirs. */
  lemma TopLanguagesAreTop(repos: seq<Repository>, language: string)
    requires language in LanguageCounts(repos)
    requires forall i | 0 <= i < |TopLanguages(repos)| :: TopLanguages(repos)[i].0 != language
    ensures forall i | 0 <= i < |TopLanguages(repos)| :: TopLanguages(repos)[i].1 >= LanguageCounts(repos)[language]
  {
    var es := Entries(repos);
    var sorted := SortDesc(es, Count);
    var top := TopLanguages(repos);
    var e := (language, LanguageCounts(repos)[language]);
    assert e in es;
    assert e in multiset(sorted) by { assert e in multiset(es); }
    var k :| 0 <= k < |sorted| && sorted[k] == e;
    assert forall i | 0 <= i < |top| :: top[i] == sorted[i];
    assert k >= |top|;
    PrefixDominates(sorted, top, k);
  }

  /** Proof helper for `TopLanguagesAreTop`: in a list sorted by count, every entry of a
      prefix counts at least as much as any entry after it. */
  lemma PrefixDominates(sorted: seq<Entry>, top: seq<Entry>, k: nat)
    requires NonIncreasing(sorted, Count)
    requires |top| <= k < |sorted|
    requires forall i | 0 <= i < |top| :: top[i] == sorted[i]
    ensures forall i | 0 <= i < |top| :: top[i].1 >= sorted[k].1
  {
    forall i | 0 <= i < |top| ensures top[i].1 >= sorted[k].1 {
      assert Count(sorted[i]) >= Count(sorted[k]);
    }
  }

  /** Two JavaScript repositories and one TypeScript repository: JavaScript counts 2
      and TypeScript 1. */
  lemma LanguageCountsExample(a: Repository, b: Repository, c: Repository)
    requires a.language == Some("JavaScript") && c.language == Some("JavaScript")
    requires b.language == Some("TypeScript")
    ensures LanguageCounts([a, b, c]) == map["JavaScript" := 2, "TypeScript" := 1]
  {
    LanguageNamesDiffer();
    CountsAfterTwo(a, b);
    LanguageCountsSnoc([a, b], c);
    assert [a, b, c] == [a, b] + [c];
  }

  /** Proof helper for the examples: the two language names differ. */
  lemma LanguageNamesDiffer()
    ensures "JavaScript" != "TypeScript"
  {
    assert "JavaScript"[0] != "TypeScript"[0];
  }

  /** Proof helper for `LanguageCountsExample`: the counts after one repository. */
  lemma CountsAfterOne(a: Repository)
    requires a.language == Some("JavaScript")
    ensures LanguageCounts([a]) == map["JavaScript" := 1]
  {
    assert LanguageCounts([]) == map[];
    LanguageCountsSnoc([], a);
    assert [a] == [] + [a];
  }

  /** Proof helper for `LanguageCountsExample`: the counts after two repositories. */
  lemma CountsAfterTwo(a: Repository, b: Repository)
    requires a.language == Some("JavaScript") && b.language == Some("TypeScript")
    ensures LanguageCounts([a, b]) == map["JavaScript" := 1, "TypeScript" := 1]
  {
    LanguageNamesDiffer();
    CountsAfterOne(a);
    LanguageCountsSnoc([a], b);
    assert [a, b] == [a] + [b];
  }

  /** With those counts, JavaScript is listed first with 2, then TypeScript with 1. */
  lemma TopLanguagesExample(repos: seq<Repository>)
    requires LanguageCounts(repos) == map["JavaScript" := 2, "TypeScript" := 1]
    ensures TopLanguages(repos) == [("JavaScript", 2), ("TypeScript", 1)]
  {
    var top := TopLanguages(repos);
    TopTwoLanguages(repos);
    TopLanguagesOrdered(repos);
    assert top[0].1 >= top[1].1;
    assert top[0].0 == "JavaScript" && top[1].0 == "TypeScript";
    assert top == [top[0], top[1]];
  }

  /** Proof helper for `TopLanguagesExample`: with two languages, the top list holds
      both, each with its count. */
  lemma TopTwoLanguages(repos: seq<Repository>)
    requires LanguageCounts(repos) == map["JavaScript" := 2, "TypeScript" := 1]
    ensures var top := TopLanguages(repos);
            && |top| == 2 && top[0].0 != top[1].0
            && (top[0] == ("JavaScript", 2) || top[0] == ("TypeScript", 1))
            && (top[1] == ("JavaScript", 2) || top[1] == ("TypeScript", 1))
  {
    var top := TopLanguages(repos);
    var stats := LanguageCounts(repos);
    TwoLanguageStats(stats);
    TopLanguagesSize(repos);
    assert |top| == 2;
    TopLanguagesAreEntries(repos);
    assert top[0].0 in stats && top[0].1 == stats[top[0].0];
    assert top[1].0 in stats && top[1].1 == stats[top[1].0];
  }

  /** Proof helper for `TopTwoLanguages`: a two-entry map has two entries. */
  lemma TwoLanguageStats(stats: map<string, nat>)
    requires stats == map["JavaScript" := 2, "TypeScript" := 1]
    ensures |stats| == 2
    ensures forall l | l in stats :: l == "JavaScript" || l == "TypeScript"
    ensures "JavaScript" in stats && stats["JavaScript"] == 2
    ensures "TypeScript" in stats && stats["TypeScript"] == 1
  {
    LanguageNamesDiffer();
    assert stats.Keys == {"JavaScript", "TypeScript"};
  }

  // ---------------------------------------------------------------------------
  // Per-year rows and the summary.

  type YearRow = (int, nat)

  /** One row per year of `years`: the year and the size of its group in `byYear`. */
  function RowsFor(byYear: map<int, seq<Repository>>, years: seq<int>): seq<YearRow>
    requires forall i | 0 <= i < |years| :: years[i] in byYear
  {
    if years == [] then []
    else
      [(years[0], |byYear[years[0]]|)] + RowsFor(byYear, years[1..])
  }

  /** The "By Year" rows: `years.map(year => [year, reposByYear[year].length])`. */
  function YearRows(repos: seq<Repository>): seq<YearRow>
  {
    var g := GetGroupedReposWithSortedYears(repos);
    RowsFor(g.reposByYear, g.sortedYears)
  }

  function SumCounts(rows: seq<YearRow>): nat
  {
    if rows == [] then 0 else rows[0].1 + SumCounts(rows[1..])
  }

  lemma {:induction false} RowsForSpec(repos: seq<Repository>, years: seq<int>)
    requires forall i | 0 <= i < |years| :: years[i] in YearsOf(repos)
    ensures var rows := RowsFor(GroupByYear(repos), years);
            && |rows| == |years|
            && (forall i | 0 <= i < |rows| :: rows[i] == (years[i], |YearGroup(repos, years[i])|))
            && SumCounts(rows) == |ConcatGroups(repos, years)|
  {
    if years != [] {
      RowsForSpec(repos, years[1..]);
    }
  }

  /** The rows of `YearRows` are those of the sorted years, one each. */
  lemma YearRowsAreSortedYears(repos: seq<Repository>)
    ensures var ys := GetGroupedReposWithSortedYears(repos).sortedYears;
            var rows := YearRows(repos);
            && |rows| == |ys|
            && forall i | 0 <= i < |rows| :: rows[i].0 == ys[i]
  {
    var g := GetGroupedReposWithSortedYears(repos);
    assert g.reposByYear == GroupByYear(repos);
    forall i | 0 <= i < |g.sortedYears| ensures g.sortedYears[i] in YearsOf(repos) {
      assert g.sortedYears[i] in g.sortedYears;
    }
    RowsForSpec(repos, g.sortedYears);
  }

  /** The rows follow the years largest first. */
  lemma YearRowsOrder(repos: seq<Repository>)
    ensures var rows := YearRows(repos);
            forall i, j | 0 <= i < j < |rows| :: rows[i].0 > rows[j].0
  {
    YearRowsAreSortedYears(repos);
  }

  /** Every year that occurs has a row, and every row is a year that occurs. */
  lemma YearRowsYears(repos: seq<Repository>)
    ensures var rows := YearRows(repos);
            forall y :: y in YearsOf(repos) <==> exists i | 0 <= i < |rows| :: rows[i].0 == y
  {
    var ys := GetGroupedReposWithSortedYears(repos).sortedYears;
    var rows := YearRows(repos);
    YearRowsAreSortedYears(repos);
    forall y ensures y in YearsOf(repos) <==> exists i | 0 <= i < |rows| :: rows[i].0 == y {
      if y in YearsOf(repos) {
        assert y in ys;
        var i :| 0 <= i < |ys| && ys[i] == y;
        assert rows[i].0 == y;
      }
      if exists i | 0 <= i < |rows| :: rows[i].0 == y {
        var i :| 0 <= i < |rows| && rows[i].0 == y;
        assert ys[i] in ys;
      }
    }
  }

  /** The count of a year's row is the number of repositories created that year, never zero. */
  lemma YearRowsCounts(repos: seq<Repository>)
    ensures var rows := YearRows(repos);
            forall i | 0 <= i < |rows| :: rows[i].1 == |YearGroup(repos, rows[i].0)| > 0
  {
    var ys := GetGroupedReposWithSortedYears(repos).sortedYears;
    forall i | 0 <= i < |ys| ensures ys[i] in YearsOf(repos) {
      assert ys[i] in ys;
    }
    RowsForSpec(repos, ys);
    forall i | 0 <= i < |ys| ensures |YearGroup(repos, ys[i])| > 0 {
      YearGroupEmptyIff(repos, ys[i]);
    }
  }

  /** The counts of the rows add up to the number of repositories. */
  lemma YearRowsSum(repos: seq<Repository>)
    ensures SumCounts(YearRows(repos)) == |repos|
  {
    var ys := GetGroupedReposWithSortedYears(repos).sortedYears;
    forall i | 0 <= i < |ys| ensures ys[i] in YearsOf(repos) {
      assert ys[i] in ys;
    }
    RowsForSpec(repos, ys);
    assert Distinct(ys);
    GroupsArePartition(repos, ys);
  }

  /** What the summary card shows. */
  datatype Summary = Summary(totalRepos: nat, years: seq<YearRow>, topLanguages: seq<Entry>)

  /** `RepoSummary`: the total is the number of repositories and the year rows add up to it. */
  function RepoSummaryOf(repos: seq<Repository>): (v: Summary)
    ensures v.totalRepos == |repos|
    ensures SumCounts(v.years) == v.totalRepos
  {
    YearRowsSum(repos);
    Summary(|repos|, YearRows(repos), TopLanguages(repos))
  }
}
