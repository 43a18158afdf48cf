# dev-journey in Dafny

dev-journey is a Next.js application that draws a GitHub user's repositories as a
timeline. Before rendering, it computes a handful of values, and this project models
that logic and proves properties of it:

- **Fetching.** It fetches every page of the user's repositories, 100 at a time
  (`Github.FetchUserRepos`).
- **Grouping by year.** It groups the repositories by creation year and lists the years
  largest first (`Github.GroupReposByYear`, `Github.GetGroupedReposWithSortedYears`).
- **Summary and sidebar.** It counts repositories per language and keeps the five most
  used (`RepoSummary`, `Sidebar`). The sidebar also derives a display name, avatar
  initials and a blog link.
- **Timeline.** It sorts a copy of the list newest first and puts alternate items on
  opposite sides (`Timeline`).
- **Throttling.** It throttles a callback: a call runs at once, or a trailing run is
  scheduled (`Throttle.Throttled`).
- **Home page.** The home page runs one submission at a time through its loading, error
  and repository state, and turns a failure into one of four messages (`HomePage.Home`).
- **Input guards.** The username box and the header search act only on a name that
  trims to something non-empty (`UsernameForm`, `Layout`).

The modules are:

- `Wrappers`: `Option` and `Result`.
- `Text`: the JavaScript string operations used (`trim`, `includes`, `startsWith`,
  `toUpperCase`).
- `Sorting`: `Array.prototype.sort` with a "larger key first" comparator. It is modelled
  as a stable insertion sort, proved to give a non-increasing permutation.
- One module per source file, with the same name as that file.

Code that changes state step by step is imperative here:

- the page loop and the two reduce accumulators are methods with loops. Each is proved
  equal to a function, and that function's properties are proved as lemmas;
- the throttle closure and the page, input and header components are classes whose
  methods update their fields.

The computations that build fresh values are functions.

Environment inputs are parameters:

- The listing endpoint becomes a sequence of responses, one per page. A page past the
  end is an empty page. A response is either the page's repositories or the value the
  request was rejected with.
- `Date.now()` becomes the `now` argument of each throttle event, and the timer callback
  becomes the `Fire` method.
- `created_at` is read as a UTC timestamp of the form `YYYY-MM-DDTHH:MM:SSZ`. Its year
  is the number formed by its first four characters. Its order key is the number formed
  by all of its digits, which orders such timestamps as `getTime()` does.

Under the year-grouping rules, the year map is keyed by the year as an integer. The code
keys it by `getFullYear().toString()` and sorts with `parseInt`. That conversion is
one-to-one, so it makes no difference.

The throttle is modelled as the code behaves, not as its doc comment describes. The
comment says that calls during the delay are ignored. The code instead schedules a
trailing run with the latest arguments.

The code also does not clear a scheduled timer when a call runs at once. Suppose the
timer is due but its callback has not yet run when that call arrives. Then the call runs
at once and the trailing run follows at the same instant (`Throttle.LateTimerScenario`).

## Model

| member | source | states |
|---|---|---|
| Github.FetchUserRepos | src/lib/github.ts:35-52 | The do-while loop returns the listing's result and issues exactly as many requests as the listing needs. Request i asks for page i+1 with sort "created", direction "desc" and 100 per page. |
| Github.StopsAtFirstShortPage | src/lib/github.ts:39-50 | At least one request is made. Every page requested before the last one was full (100 items). The last one was not full: it was short, empty or rejected. |
| Github.FailsIffLastRejected | src/lib/github.ts:40-47 | The fetch fails exactly when the last request was rejected. It then fails with that rejection's value and returns no partial list. |
| Github.ResultIsConcatenation | src/lib/github.ts:36-51 | A successful result is the in-order concatenation of the pages requested. Its length is 100 per full page plus the length of the last page. |
| Github.FullPageInRange | src/lib/github.ts:50 | In the model, a full page can only come from a response in the given finite sequence. The source itself has no page cap (see "Left out"). |
| Github.ThreePagesExample | src/lib/github.ts:39-50 | Pages of 100, 100 and 40 give 3 requests and 240 repositories. |
| Github.EmptyFirstPageExample | src/lib/github.ts:39-50 | An empty first page gives one request and an empty list. |
| Github.GroupReposByYear | src/lib/github.ts:54-68 | The reduce returns the year map: each year that occurs, mapped to its repositories in input order. |
| Github.GroupByYearSnoc | src/lib/github.ts:58-64 | One reduce step: appending a repository extends its own year's list (created empty if missing) and changes no other entry. |
| Github.GroupByYearPartition | src/lib/github.ts:57-67 | The keys are exactly the years that occur. No group is empty. Every repository is in its own year's group, and a group holds only repositories of that year. |
| Github.YearGroupMembers | src/lib/github.ts:59-63 | A year's group holds exactly the repositories created that year. |
| Github.YearGroupEmptyIff | src/lib/github.ts:60-62 | A year's group is empty exactly when no repository was created that year. |
| Github.YearGroupAppend | src/lib/github.ts:63 | Grouping keeps input order: the group of a concatenation is the concatenation of the groups. |
| Github.GroupByYearEmpty | src/lib/github.ts:66 | No repositories give an empty map. |
| Github.GroupsArePartition | src/lib/github.ts:57-67 | Reading the groups in any order that lists each year once gives a permutation of the input, so the group sizes sum to the input length. |
| Github.ConcatGroupsSelects | src/lib/github.ts:57-67 | The groups of distinct years, read in order, hold exactly the repositories whose year is among them. |
| Github.InYearsAddYear | src/lib/github.ts:59-63 | Adding a year to a selection adds exactly that year's group. |
| Github.InYearsAll | src/lib/github.ts:57-67 | Selecting every year that occurs gives back the input. |
| Github.InYearsNone | src/lib/github.ts:57-67 | Selecting no year gives nothing. |
| Github.KeysInOrder | src/lib/github.ts:75 | The keys of the year map, each year once, exactly the years that occur. |
| Github.SortYears | src/lib/github.ts:75-77 | Sorting the keys with the `b - a` comparator gives them strictly decreasing, with the same members and the same count. |
| Github.SortYearsFacts | src/lib/github.ts:75-77 | The sort of distinct years is strictly decreasing and has the same members and count. |
| Github.SortedYearsUnique | src/lib/github.ts:75-77 | Two strictly decreasing lists with the same members are equal, so the key enumeration order does not affect `sortedYears`. |
| Github.GetGroupedReposWithSortedYears | src/lib/github.ts:70-79 | `sortedYears` is strictly decreasing and holds exactly the keys of `reposByYear`. |
| Github.SortedYearsAre | src/lib/github.ts:70-79 | `sortedYears` is the one strictly decreasing list of the years that occur. |
| Github.GroupingExample | src/lib/github.ts:54-68 | Repositories from 2023, 2023 and 2022 group as 2023 ↦ [first, second] and 2022 ↦ [third]. |
| Github.SortedYearsExample | src/lib/github.ts:70-79 | For the same repositories the sorted years are [2023, 2022]. |
| Github.ScenarioGroups | src/lib/github.ts:57-67 | The groups of that scenario, year by year. |
| Github.ScenarioYears | src/lib/github.ts:59 | The years of 2023-01-15, 2023-06-01 and 2022-01-01 timestamps are 2023, 2023 and 2022. |
| Github.YearOfIs | src/lib/github.ts:59 | A timestamp that starts with four digits has the year those digits spell. |
| Github.YearOf | src/lib/github.ts:59 | The year of a timestamp is the number its first four characters spell, so it lies between 0 and 9999. |
| Github.TimeKey | src/components/Timeline.tsx:11 | No contract: the order key of a timestamp, the number spelled by its digits. It stands in for `getTime()` on timestamps of the form `YYYY-MM-DDTHH:MM:SSZ`. |
| Throttle.Wait | src/lib/throttle.ts:35 | The trailing wait is never negative and is at most `delay`. Adding it to `now` never lands before `lastRan + delay`. |
| Throttle.Throttled.constructor | src/lib/throttle.ts:13-14 | Nothing has run and nothing is pending. |
| Throttle.Throttled.Call | src/lib/throttle.ts:16-38 | The first call, or a call at least `delay` after the last run, runs at once with its arguments and sets `lastRan` to `now`. Any other call replaces the pending run with one for its own arguments, due at `now + max(0, delay - (now - lastRan))`. It keeps runs plus pending at most the number of calls. |
| Throttle.Throttled.Fire | src/lib/throttle.ts:29-33 | The timer callback runs the pending arguments, sets `lastRan` to the fire time and clears the pending slot. |
| Throttle.ThreeCallsScenario | src/lib/throttle.test.ts:22-38 | Three calls at once run once immediately and once more, with the last call's arguments, after the delay. |
| Throttle.DelayScenario | src/lib/throttle.test.ts:49-76 | A call 50 ms after the first is due at 100 ms. A call 100 ms after the first runs at once. |
| Throttle.LateTimerScenario | src/lib/throttle.ts:19-36 | A call that arrives when the trailing timer is due runs at once, and the trailing run still follows. |
| RepoSummary.LanguageStats | src/components/RepoSummary.tsx:22-30 | The reduce returns the language statistics: one entry per non-empty language, holding its number of repositories. |
| RepoSummary.LanguageCountsSnoc | src/components/RepoSummary.tsx:24-28 | One reduce step adds one to the repository's language when that language is non-empty, starting from 0, and otherwise changes nothing. |
| RepoSummary.LanguageCountsMeaning | src/components/RepoSummary.tsx:22-30 | A language has an entry exactly when it is non-empty and some repository has it. The entry is the number of those repositories and is positive. |
| RepoSummary.CountLanguagePositive | src/components/RepoSummary.tsx:24-26 | A language's count is positive exactly when some repository has it. |
| RepoSummary.LanguagesInOrder | src/components/RepoSummary.tsx:32 | The languages `Object.entries` lists: each counted language once. |
| RepoSummary.Entries | src/components/RepoSummary.tsx:32 | `Object.entries(languageStats)`: one pair per language with its count, each pair once. |
| RepoSummary.TopLanguages | src/components/RepoSummary.tsx:32-34 | At most five entries, each one taken from `Object.entries(languageStats)` and none more often than it occurs there. The order and the choice of the five are stated by `TopLanguagesOrdered` and `TopLanguagesAreTop`. |
| RepoSummary.TopLanguagesSize | src/components/RepoSummary.tsx:32-34 | There are five top languages, or all of them when there are fewer. |
| RepoSummary.TopLanguagesOrdered | src/components/RepoSummary.tsx:33 | The top languages are in non-increasing order of count. |
| RepoSummary.TopLanguagesAreEntries | src/components/RepoSummary.tsx:32-34 | Every top entry is a language of the statistics with its own count, and no language appears twice. |
| RepoSummary.TopLanguagesAreTop | src/components/RepoSummary.tsx:32-34 | A language left out of the top list has a count no larger than any listed one. |
| RepoSummary.LanguageCountsExample | src/components/RepoSummary.test.tsx:105-114 | Two JavaScript repositories and one TypeScript repository count JavaScript 2 and TypeScript 1. |
| RepoSummary.TopLanguagesExample | src/components/RepoSummary.test.tsx:105-114 | With those counts the top list is JavaScript 2, then TypeScript 1. |
| RepoSummary.RowsForSpec | src/components/RepoSummary.tsx:59-66 | Row i is year i with the size of that year's group. The row counts add up to the size of the groups read in that order. |
| RepoSummary.YearRows | src/components/RepoSummary.tsx:59-66 | No contract: the "By Year" rows, one `[year, reposByYear[year].length]` per sorted year. The sidebar renders the same rows (src/components/Sidebar.tsx:126-131). Its properties are the `YearRows*` lemmas below. |
| RepoSummary.YearRowsAreSortedYears | src/components/RepoSummary.tsx:16-19 | There is one row per sorted year, in the same order. |
| RepoSummary.YearRowsOrder | src/components/RepoSummary.tsx:16-19 | The year rows are listed largest year first, strictly. |
| RepoSummary.YearRowsYears | src/components/RepoSummary.tsx:16-19 | Every year that occurs has a row, and every row is a year that occurs. |
| RepoSummary.YearRowsCounts | src/components/RepoSummary.tsx:59-66 | A row's count is the number of repositories created that year, and it is never zero. |
| RepoSummary.YearRowsSum | src/components/RepoSummary.tsx:15-20 | The row counts add up to the number of repositories. |
| RepoSummary.RepoSummaryOf | src/components/RepoSummary.tsx:15-34 | The total shown is `repos.length`, and the year rows add up to it. |
| Sidebar.DisplayName | src/components/Sidebar.tsx:58 | The title is the name when it is present and non-empty, and the login otherwise. |
| Sidebar.DisplayNameNonEmpty | src/components/Sidebar.tsx:58 | A user with a login never gets an empty title. |
| Sidebar.AvatarInitials | src/components/Sidebar.tsx:54 | The fallback has at most two characters: the first ones of the login, upper-cased. |
| Sidebar.BlogHref | src/components/Sidebar.tsx:78-82 | The link always starts with "http". A blog that already does is kept as is; any other gets "https://" in front. |
| Sidebar.ShowsBlog | src/components/Sidebar.tsx:74 | No contract: the link appears exactly for a blog that is present and non-empty, as the truthiness test `user.blog &&` does. |
| Sidebar.BlogHrefEndsWithBlog | src/components/Sidebar.tsx:78-87 | The link ends with the blog text shown as its label. |
| Sidebar.BlogHrefIdempotent | src/components/Sidebar.tsx:78-82 | Normalising the link twice gives the same link as normalising it once. |
| Sidebar.BlogHrefExamples | src/components/Sidebar.tsx:78-82 | "https://example.com" is kept as is, and "example.com" becomes "https://example.com". |
| Sidebar.NoLanguageDataIff | src/components/Sidebar.tsx:161 | "No language data available" shows exactly when no repository has a non-empty language. |
| Sidebar.NoLanguageData | src/components/Sidebar.tsx:161 | No contract: the placeholder condition `topLanguages.length === 0`. `NoLanguageDataIff` states when it holds. |
| Sidebar.SidebarOf | src/components/Sidebar.tsx:28-171 | The total is `repos.length` and the year rows add up to it. There is a blog link exactly for a non-empty blog, and it starts with "http". The placeholder shows exactly when the top list is empty, which is exactly when no repository has a language. |
| Timeline.SortedRepos | src/components/Timeline.tsx:9-12 | The sorted copy is a permutation of the input, newest first. |
| Timeline.CreatedKey | src/components/Timeline.tsx:11 | No contract: the sort key of a repository, the order key of its `created_at`. |
| Timeline.IsRight | src/components/TimelineItem.tsx:18 | No contract: an item is on the right exactly when its index is even. `ItemsAlternate` states what follows from it. |
| Timeline.Items | src/components/Timeline.tsx:18-20 | One item per repository: item i is the i-th of the sorted copy, has index i, and is on the right exactly when i is even. |
| Timeline.Drawn | src/components/Timeline.tsx:18-20 | The repositories of the items, in drawing order. |
| Timeline.EachRepoDrawnOnce | src/components/Timeline.tsx:9-20 | Each repository is drawn exactly as many times as it occurs in the input. |
| Timeline.ItemsNewestFirst | src/components/Timeline.tsx:9-12 | Earlier items never have an older creation time than later ones. |
| Timeline.ItemsAlternate | src/components/TimelineItem.tsx:18 | The first item is on the right, and consecutive items are on opposite sides. |
| Timeline.EmptyTimeline | src/components/Timeline.tsx:18-20 | No repositories give no items. |
| HomePage.Classify | src/app/page.tsx:26-39 | An `Error` whose message contains "404" is not found, even when it also contains "403". One with "403" only is a rate limit, and any other `Error` is a failed fetch. A thrown non-`Error` is unexpected. |
| HomePage.MessageFor | src/app/page.tsx:29-38 | No contract: the four texts `setError` receives, one per kind of failure. `MessagesDistinct` and `NotFoundNamesUser` state their properties. |
| HomePage.ErrorMessage | src/app/page.tsx:26-38 | The message for what was thrown is the text of its classification. When an `Error` message contains "404", the text names the user that was looked up. |
| HomePage.MessagesDistinct | src/app/page.tsx:29-38 | The four messages are pairwise different for every username. |
| HomePage.NotFoundNamesUser | src/app/page.tsx:29-31 | The not-found message contains the username that was looked up. |
| HomePage.ClassifyBothCodes | src/app/page.tsx:28-33 | A message holding both "403" and "404" is classified as not found. |
| HomePage.ClassifyOtherExamples | src/app/page.tsx:32-38 | A message with "403" alone is a rate limit, and a non-`Error` value is unexpected. |
| HomePage.Home.constructor | src/app/page.tsx:13-16 | No repositories, not loading, no error, empty username. |
| HomePage.Home.ShowsTimeline | src/app/page.tsx:73-80 | The timeline section, with its count of `repos.length`, shows when there are repositories, and then no error is set. |
| HomePage.Home.Begin | src/app/page.tsx:19-21 | A submission starts by setting loading, clearing the error and recording the username. |
| HomePage.Home.Complete | src/app/page.tsx:23-43 | Success stores the fetched list. Failure empties the list and stores the message for what was thrown. Either way loading ends. |
| HomePage.Home.HandleUsernameSubmit | src/app/page.tsx:18-44 | After a submission the username is recorded and loading is off. The repositories are the fetched list with no error, or, after a rejection, empty with the matching message. An error and repositories never coexist. |
| HomePage.RetryScenario | src/app/page.tsx:18-44 | A 404 failure shows the not-found message. A later successful lookup replaces it with the timeline. |
| UsernameForm.ControlsFor | src/components/UsernameInput.tsx:32-36 | The input is disabled exactly while loading. The button is disabled exactly while loading or when the name is blank. The label is "Loading..." exactly while loading. |
| UsernameForm.Submission | src/components/UsernameInput.tsx:18-23 | A name is submitted exactly when the typed value is not blank. The submitted name is non-empty and has no surrounding whitespace. |
| UsernameForm.ButtonMatchesSubmission | src/components/UsernameInput.tsx:20-35 | The button is enabled exactly when the page is idle and a submit would send a name. |
| UsernameForm.SubmissionOfPadded | src/components/UsernameInput.tsx:20-21 | A name surrounded by whitespace is submitted without that whitespace. |
| UsernameForm.UsernameInput.constructor | src/components/UsernameInput.tsx:16 | The field starts empty. |
| UsernameForm.UsernameInput.OnChange | src/components/UsernameInput.tsx:31 | Typing stores the value as typed, untrimmed. |
| UsernameForm.UsernameInput.HandleSubmit | src/components/UsernameInput.tsx:18-23 | Submitting passes on the trimmed name when it is not blank, and nothing otherwise. The field is left unchanged. |
| UsernameForm.TypingScenario | src/components/UsernameInput.test.tsx:23-54 | Typing "  testuser  " keeps the spaces in the field and submits "testuser". Typing only spaces submits nothing. |
| Layout.TimelinePath | src/components/layout/Header.tsx:18 | The route starts with "/timeline/" followed by the name. |
| Layout.UsernameOfPath | src/components/layout/Header.tsx:18 | The text after the "/timeline/" prefix, present exactly when the path starts with that prefix. It is not the router's `[username]` parameter. |
| Layout.PathRoundTrip | src/components/layout/Header.tsx:18 | The text after the prefix of a pushed path is the text that was appended, so distinct queries push distinct paths. |
| Layout.SearchedSegment | src/components/layout/Header.tsx:17-18 | A search that navigates pushes, after "/timeline/", a non-empty text with no surrounding whitespace. |
| Layout.Header.constructor | src/components/layout/Header.tsx:13 | The search box starts empty. |
| Layout.Header.OnChange | src/components/layout/Header.tsx:44 | Typing stores the value as typed. |
| Layout.Header.HandleSearch | src/components/layout/Header.tsx:15-21 | A blank query navigates nowhere and leaves the box unchanged. Any other query navigates to "/timeline/" plus the trimmed query and empties the box. |
| Layout.SearchScenario | src/components/layout/Header.tsx:15-21 | Searching " octocat " goes to "/timeline/octocat" and empties the box. |
| Layout.BlankSearchScenario | src/components/layout/Header.tsx:17 | Searching only spaces navigates nowhere and keeps the spaces. |
| Text.Trim | src/components/UsernameInput.tsx:20-21 | `trim` gives a result with no whitespace at either end, and the input is that result surrounded by whitespace only. |
| Text.TrimEmptyIff | src/components/UsernameInput.tsx:20 | A value trims to the empty string exactly when it is all whitespace. |
| Text.TrimIdempotent | src/components/layout/Header.tsx:17-18 | Trimming twice gives the same result as trimming once. |
| Text.TrimOfPadded | src/components/UsernameInput.tsx:21 | Whitespace around a trimmed core trims to exactly that core. |
| Text.TrimStart | src/components/UsernameInput.tsx:20 | Removes exactly the leading whitespace. |
| Text.TrimEnd | src/components/UsernameInput.tsx:20 | Removes exactly the trailing whitespace. |
| Text.TrimStartSkips | src/components/UsernameInput.tsx:21 | Leading whitespace in front of a non-space is removed exactly. |
| Text.TrimEndSkips | src/components/UsernameInput.tsx:21 | Trailing whitespace after a non-space is removed exactly. |
| Text.ContainsAt | src/app/page.tsx:28 | An occurrence at some position makes `includes` true. |
| Text.ContainsOccurs | src/app/page.tsx:28-32 | `includes` is true exactly when the text occurs at some position. |
| Text.Contains | src/app/page.tsx:28 | No contract: `includes`, as "starts here, or occurs in the rest". `ContainsOccurs` ties it to an occurrence at some position. |
| Text.StartsWith | src/components/Sidebar.tsx:79 | No contract: `startsWith`, the string begins with the prefix. |
| Text.ToUpperChar | src/components/Sidebar.tsx:54 | Lower-case ASCII letters map to their capitals, and every other character is unchanged. |
| Text.ToUpper | src/components/Sidebar.tsx:54 | Upper-casing keeps the length and maps each character. |
| Sorting.Insert | src/components/Timeline.tsx:9-12 | Inserting into a non-increasing list keeps it non-increasing and adds exactly that element. |
| Sorting.SortDesc | src/components/Timeline.tsx:9-12 | A sort with a "larger key first" comparator is a permutation of its input, non-increasing by the key. |
| Sorting.InsertKeepsDistinct | src/lib/github.ts:75-77 | Inserting a new element into a list without duplicates keeps it without duplicates. |
| Sorting.SortKeepsDistinct | src/lib/github.ts:75-77 | Sorting a list without duplicates keeps it without duplicates. |
| Sorting.DistinctCard | src/lib/github.ts:75 | A list without duplicates has as many members as elements. |

## Left out

- `fetchUser` (src/lib/github.ts:30-33) only casts what the endpoint returns. It has no logic to model.
- The network: Octokit, HTTP, authentication and rate-limit headers. The listing endpoint is a sequence of responses, and a rejection is the value it was rejected with.
- A reply that is not a list is not modelled. The code casts it unchecked.
- Endless listings: `fetchUserRepos` has no page cap and never stops while the endpoint keeps returning full pages. The model's listing is a finite sequence with empty pages past its end, so every modelled fetch stops.
- Routing: the router's parsing and decoding of the pushed path are not modelled. The header does not encode the query, so a query holding '/', '?' or '#' pushes a path whose `[username]` parameter differs from the query (Layout.UsernameOfPath takes the whole text after the prefix).
- Timers: `setTimeout`, `clearTimeout`, `Date.now()` and `this` binding are not modelled. Time is an explicit argument, and a timer firing is the explicit `Fire` event, allowed once its due time has come.
- Overlapping submissions and the `async` interleaving of `handleUsernameSubmit` are not modelled. A submission is one begin, fetch and complete step. The loading state between those steps is the state after `Begin`.
- Dates and locales: `getFullYear` in the browser's time zone, `getTime` on arbitrary date strings, and `toLocaleDateString` are not modelled. The year is the timestamp's first four characters, which assumes UTC. The order key is the timestamp's digits, so invalid timestamps and `NaN` comparisons are not modelled.
- Text.ToUpper: covers ASCII letters only. JavaScript `toUpperCase` also maps other scripts and can change the length. Characters are modelled as code points, while `slice(0, 2)` counts UTF-16 code units.
- Timeline.SortedRepos: does not state the relative order of repositories with equal timestamps. The model's sort is stable, like the engine's, but no lemma states it.
- RepoSummary.TopLanguagesOrdered: does not state the relative order of languages with equal counts. Those ties follow the enumeration order of the statistics.
- `RepoSummary.tsx` sorts the keys of `groupReposByYear` itself. `Sidebar.tsx` calls `getGroupedReposWithSortedYears` instead. Both use the same comparator, so both are modelled by `Github.GetGroupedReposWithSortedYears`.
- The sidebar's `bio`, `location`, `followers` and `following` are shown as they are and are not modelled. Only `blog`, which the link rule reads, was added to `User`.
- `getLanguageColor`, `cn` and the `components/ui` primitives are defined outside src/lib/github.ts and the core components, and they are not part of this model.
- Markup, CSS classes, the IntersectionObserver slide-in animation, the back-to-top button, the footer and the theme toggle are presentation only and are not modelled.
- The page tests that reject with a plain object such as `{ status: 404 }` expect a not-found message. The page code classifies such a value as unexpected, and the model follows the code (`HomePage.ClassifyOtherExamples`).
- The timeline route page (`src/app/timeline/[username]/page.tsx`) classifies errors by a `status` field. It is not part of this model.
