/** `src/app/page.tsx`: the home page's four state fields and the submission handler
    that fetches a user's repositories and turns a failure into a message. */
module HomePage {
  import opened Wrappers
  import opened Text
  import opened Github

  // ---------------------------------------------------------------------------
  // Error classification

  /** The four messages the page can show. */
  datatype Failure = NotFound | RateLimited | FetchFailed | Unexpected

  /** The `catch` branches: an `Error` is classified by its message, "404" before
      "403"; anything else thrown is unexpected. */
  function Classify(thrown: Thrown): (f: Failure)
    ensures f == NotFound <==> thrown.ErrorValue? && Contains(thrown.message, "404")
    ensures f == RateLimited <==> thrown.ErrorValue? && !Contains(thrown.message, "404") && Contains(thrown.message, "403")
    ensures f == FetchFailed <==> thrown.ErrorValue? && !Contains(thrown.message, "404") && !Contains(thrown.message, "403")
    ensures f == Unexpected <==> thrown.OtherValue?
  {
    match thrown
    case ErrorValue(message) =>
      if Contains(message, "404") then NotFound
      else if Contains(message, "403") then RateLimited
      else FetchFailed
    case OtherValue => Unexpected
  }

  function MessageFor(username: string, f: Failure): string
  {
    match f
    case NotFound => "User \"" + username + "\" not found. Please check the username and try again."
    case RateLimited => "API rate limit exceeded. Please try again later."
    case FetchFailed => "Failed to fetch repositories. Please try again."
    case Unexpected => "An unexpected error occurred. Please try again."
  }

  /** The text `setError` receives for what was thrown while fetching `username`; a
      not-found names the user. */
  function ErrorMessage(username: string, thrown: Thrown): (m: string)
    ensures thrown.ErrorValue? && Contains(thrown.message, "404") ==> Contains(m, username)
  {
    NotFoundNamesUser(username);
    MessageFor(username, Classify(thrown))
  }

  /** The four messages differ, whatever the username: the text tells the failures apart. */
  lemma {:induction false} MessagesDistinct(username: string, f: Failure, g: Failure)
    requires f != g
    ensures MessageFor(username, f) != MessageFor(username, g)
  {
    MessageMark(username, f);
    MessageMark(username, g);
  }

  /** Proof helper for `MessagesDistinct`: the twentieth character from the end tells
      the four messages apart. */
  lemma MessageMark(username: string, f: Failure)
    ensures var m := MessageFor(username, f);
            |m| >= 20 && m[|m| - 20] == match f
                                        case NotFound => 'r'
                                        case RateLimited => 'a'
                                        case FetchFailed => 's'
                                        case Unexpected => 'd'
  {
  }

  /** The not-found message names the user that was looked up. */
  lemma {:induction false} NotFoundNamesUser(username: string)
    ensures Contains(MessageFor(username, NotFound), username)
  {
    var m := MessageFor(username, NotFound);
    assert m[6..6 + |username|] == username;
    ContainsAt(m, username, 6);
  }

  /** A message holding both codes is a not-found, whichever comes first. */
  lemma ClassifyBothCodes()
    ensures Classify(ErrorValue("HttpError 403 after 404")) == NotFound
  {
    ContainsAt("HttpError 403 after 404", "404", 20);
  }

  /** A message holding "403" alone is a rate limit; a rejection that is not an
      `Error`, such as a plain `{ status: 404 }` object, is unexpected. */
  lemma ClassifyOtherExamples()
    ensures Classify(ErrorValue("403")) == RateLimited
    ensures Classify(OtherValue) == Unexpected
  {
    ContainsAt("403", "403", 0);
    ContainsOccurs("403", "404");
    forall i: nat ensures !OccursAt("403", "404", i) {
    }
  }

  // ---------------------------------------------------------------------------
  // The page state

  class Home {
    var repos: seq<Repository>
    var loading: bool
    var error: Option<string>
    var currentUsername: string

    /** The `useState` initial values. */
    constructor()
      ensures repos == [] && !loading && error == None && currentUsername == ""
      ensures Consistent()
    {
      repos := [];
      loading := false;
      error := None;
      currentUsername := "";
    }

    /** An error is never shown together with repositories. */
    predicate Consistent()
      reads this
    {
      error.Some? ==> repos == []
    }

    /** `repos.length > 0 && ...`: the timeline section, with its "N repositories
        found" line, appears only when there are repositories and no error. */
    function ShowsTimeline(): (shown: bool)
      reads this
      requires Consistent()
      ensures shown ==> error.None? && |repos| > 0
      ensures |repos| > 0 ==> shown
    {
      |repos| > 0
    }

    /** The first three updates of a submission. */
    method Begin(username: string)
      modifies this
      ensures loading && error == None && currentUsername == username
      ensures repos == old(repos)
      ensures Consistent()
    {
      loading := true;
      error := None;
      currentUsername := username;
    }

    /** The `try`/`catch`/`finally` that follows the fetch. */
    method Complete(username: string, outcome: Result<seq<Repository>, Thrown>)
      requires error.None?
      modifies this
      ensures !loading && currentUsername == old(currentUsername)
      ensures outcome.Ok? ==> repos == outcome.value && error == None
      ensures outcome.Err? ==> repos == [] && error == Some(ErrorMessage(username, outcome.error))
      ensures Consistent()
    {
      match outcome {
        case Ok(userRepos) =>
          repos := userRepos;
        case Err(thrown) =>
          var message;
          match thrown {
            case ErrorValue(text) =>
              if Contains(text, "404") {
                message := "User \"" + username + "\" not found. Please check the username and try again.";
              } else if Contains(text, "403") {
                message := "API rate limit exceeded. Please try again later.";
              } else {
                message := "Failed to fetch repositories. Please try again.";
              }
            case OtherValue =>
              message := "An unexpected error occurred. Please try again.";
          }
          error := Some(message);
          repos := [];
      }
      loading := false;
    }

    /** `handleUsernameSubmit(username)`, with the listing endpoint's answers as `responses`. */
    method HandleUsernameSubmit(username: string, responses: seq<Response>)
      modifies this
      ensures currentUsername == username && !loading && Consistent()
      ensures match FetchFrom(responses, 1)
              case Ok(fetched) => repos == fetched && error == None
              case Err(thrown) => repos == [] && error == Some(ErrorMessage(username, thrown))
    {
      Begin(username);
      var result, _ := FetchUserRepos(username, responses);
      Complete(username, result);
    }
  }

  /** A lookup that fails with a 404, then one that succeeds: the error is replaced
      by the repositories. */
  method RetryScenario(repo: Repository) returns (firstError: Option<string>, shownAfterRetry: bool)
    ensures firstError == Some(MessageFor("ghost", NotFound))
    ensures shownAfterRetry
  {
    var home := new Home();
    ContainsAt("Not Found 404", "404", 10);
    home.HandleUsernameSubmit("ghost", [Rejected(ErrorValue("Not Found 404"))]);
    firstError := home.error;
    assert FetchFrom([Page([repo])], 1) == Ok([repo]);
    home.HandleUsernameSubmit("testuser", [Page([repo])]);
    shownAfterRetry := home.ShowsTimeline();
  }
}
