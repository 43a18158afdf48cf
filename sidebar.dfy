/** The rules `src/components/Sidebar.tsx` applies to the user and the repositories
    before rendering: the display name, the avatar initials, the blog link, and the
    same statistics as the summary card. */
module Sidebar {
  import opened Wrappers
  import opened Text
  import opened Github
  import opened RepoSummary

  /** `user.name || user.login`: the name unless it is missing or empty. */
  function DisplayName(user: User): (n: string)
    ensures user.name.Some? && user.name.value != "" ==> n == user.name.value
    ensures user.name.None? || user.name.value == "" ==> n == user.login
  {
    match user.name
    case Some(name) => if name != "" then name else user.login
    case None => user.login
  }

  /** The title is never empty for a user with a login. */
  lemma DisplayNameNonEmpty(user: User)
    requires user.login != ""
    ensures DisplayName(user) != ""
  {
  }

  /** `user.login.slice(0, 2).toUpperCase()`: at most two characters, upper-cased. */
  function AvatarInitials(login: string): (a: string)
    ensures |a| == if |login| < 2 then |login| else 2
    ensures forall i | 0 <= i < |a| :: a[i] == ToUpperChar(login[i])
  {
    ToUpper(if |login| < 2 then login else login[..2])
  }

  /** The link is shown only for a blog that is present and not empty. */
  predicate ShowsBlog(user: User)
  {
    user.blog.Some? && user.blog.value != ""
  }

  /** The link target: a blog that already starts with "http" is used as it is,
      any other gets "https://" in front. */
  function BlogHref(blog: string): (href: string)
    ensures StartsWith(href, "http")
    ensures StartsWith(blog, "http") ==> href == blog
    ensures !StartsWith(blog, "http") ==> href == "https://" + blog
  {
    if StartsWith(blog, "http") then blog else "https://" + blog
  }

  /** The link always ends with the blog text shown beside it. */
  lemma BlogHrefEndsWithBlog(blog: string)
    ensures var href := BlogHref(blog);
            |blog| <= |href| && href[|href| - |blog|..] == blog
  {
  }

  /** Normalising a link that is already normalised changes nothing. */
  lemma {:induction false} BlogHrefIdempotent(blog: string)
    ensures BlogHref(BlogHref(blog)) == BlogHref(blog)
  {
    var href := BlogHref(blog);
    assert StartsWith(href, "http");
  }

  /** The two ways a blog can be written: with a scheme and without one. */
  lemma BlogHrefExamples()
    ensures BlogHref("https://example.com") == "https://example.com"
    ensures BlogHref("example.com") == "https://example.com"
  {
    assert StartsWith("https://example.com", "http");
    assert !StartsWith("example.com", "http") by {
      assert "example.com"[0] != "http"[0];
    }
  }

  /** "No language data available" is shown when the top list is empty. */
  predicate NoLanguageData(repos: seq<Repository>)
  {
    |TopLanguages(repos)| == 0
  }

  /** The placeholder appears exactly when no repository has a language. */
  lemma {:induction false} NoLanguageDataIff(repos: seq<Repository>)
    ensures NoLanguageData(repos) <==> forall r | r in repos :: !HasLanguage(r)
  {
    TopLanguagesSize(repos);
    var stats := LanguageCounts(repos);
    if exists r | r in repos :: HasLanguage(r) {
      var r :| r in repos && HasLanguage(r);
      assert r.language.value in LanguagesOf(repos);
      assert r.language.value in stats;
      assert |stats| > 0 by {
        assert |stats.Keys| >= |{r.language.value}| by {
          assert {r.language.value} <= stats.Keys;
        }
      }
    } else {
      assert LanguagesOf(repos) == {};
      assert stats == map[];
    }
  }

  /** What the sidebar renders, in the order of its cards. */
  datatype SidebarView = SidebarView(
    title: string,
    handle: string,
    initials: string,
    blogHref: Option<string>,
    totalRepos: nat,
    years: seq<YearRow>,
    topLanguages: seq<Entry>,
    noLanguageData: bool)

  /** `Sidebar({ user, repos })`. */
  function SidebarOf(user: User, repos: seq<Repository>): (v: SidebarView)
    ensures v.totalRepos == |repos| && SumCounts(v.years) == v.totalRepos
    ensures v.blogHref.Some? <==> ShowsBlog(user)
    ensures v.blogHref.Some? ==> StartsWith(v.blogHref.value, "http")
    ensures v.noLanguageData <==> forall r | r in repos :: !HasLanguage(r)
    ensures v.noLanguageData <==> v.topLanguages == []
  {
    YearRowsSum(repos);
    NoLanguageDataIff(repos);
    SidebarView(
      DisplayName(user),
      "@" + user.login,
      AvatarInitials(user.login),
      if ShowsBlog(user) then Some(BlogHref(user.blog.value)) else None,
      |repos|,
      YearRows(repos),
      TopLanguages(repos),
      NoLanguageData(repos))
  }
}
