/** `src/components/layout/Header.tsx`: the search box in the page header that
    navigates to a user's timeline. */
module Layout {
  import opened Wrappers
  import opened Text

  const TimelinePrefix := "/timeline/"

  /** The route of a user's timeline page. */
  function TimelinePath(username: string): (path: string)
    ensures StartsWith(path, TimelinePrefix)
    ensures |path| == |TimelinePrefix| + |username|
  {
    TimelinePrefix + username
  }

  /** The text after the "/timeline/" prefix of a path, the inverse of `TimelinePath`.
      This is not the router's `[username]` parameter: the router stops a segment at
      '/', '?' and '#', and the query is pushed without encoding. */
  function UsernameOfPath(path: string): (username: Option<string>)
    ensures username.Some? <==> StartsWith(path, TimelinePrefix)
  {
    if StartsWith(path, TimelinePrefix) then Some(path[|TimelinePrefix|..]) else None
  }

  /** The route names exactly the user it was built for. */
  lemma {:induction false} PathRoundTrip(username: string)
    ensures UsernameOfPath(TimelinePath(username)) == Some(username)
  {
    var path := TimelinePath(username);
    assert path[|TimelinePrefix|..] == username;
  }

  /** A search that navigates pushes, after the prefix, a non-empty text without
      surrounding whitespace. */
  lemma {:induction false} SearchedSegment(query: string)
    requires !AllWhitespace(query)
    ensures var segment := UsernameOfPath(TimelinePath(Trim(query)));
            segment.Some? && segment.value != "" && Trimmed(segment.value)
  {
    TrimEmptyIff(query);
    PathRoundTrip(Trim(query));
  }

  class Header {
    var query: string

    /** `React.useState('')`. */
    constructor()
      ensures query == ""
    {
      query := "";
    }

    method OnChange(value: string)
      modifies this
      ensures query == value
    {
      query := value;
    }

    /** `handleSearch`: a blank query does nothing; any other navigates to the trimmed
        name's timeline and clears the box. */
    method HandleSearch() returns (navigation: Option<string>)
      modifies this
      ensures AllWhitespace(old(query)) ==> navigation == None && query == old(query)
      ensures !AllWhitespace(old(query)) ==> navigation == Some(TimelinePath(Trim(old(query)))) && query == ""
    {
      TrimEmptyIff(query);
      var trimmed := Trim(query);
      if trimmed != "" {
        navigation := Some("/timeline/" + trimmed);
        query := "";
      } else {
        navigation := None;
      }
    }
  }

  /** Searching " octocat " goes to "/timeline/octocat" and empties the box. */
  method SearchScenario() returns (navigation: Option<string>, after: string)
    ensures navigation == Some("/timeline/octocat") && after == ""
  {
    var header := new Header();
    header.OnChange(" octocat ");
    OctocatQuery();
    navigation := header.HandleSearch();
    after := header.query;
  }

  /** Proof helper for `SearchScenario`: where " octocat " navigates. */
  lemma OctocatQuery()
    ensures !AllWhitespace(" octocat ")
    ensures TimelinePath(Trim(" octocat ")) == "/timeline/octocat"
  {
    OctocatTrim();
    OctocatPath(Trim(" octocat "));
  }

  /** Proof helper for `OctocatQuery`. */
  lemma OctocatPath(name: string)
    requires name == "octocat"
    ensures TimelinePath(name) == "/timeline/octocat"
  {
  }

  /** Proof helper for `OctocatQuery`: " octocat " trims to "octocat". */
  lemma OctocatTrim()
    ensures !AllWhitespace(" octocat ")
    ensures Trim(" octocat ") == "octocat"
  {
    assert !IsWhitespace(" octocat "[1]);
    OctocatPadded();
    OctocatTrimmed();
    TrimOfPadded(" ", "octocat", " ");
  }

  /** Proof helper for `OctocatTrim`. */
  lemma OctocatPadded()
    ensures " octocat " == " " + "octocat" + " "
  {
  }

  /** Proof helper for `OctocatTrim`. */
  lemma OctocatTrimmed()
    ensures Trimmed("octocat")
  {
    assert "octocat"[0] == 'o' && "octocat"[6] == 't';
  }

  /** A search of spaces stays put and leaves the box as it was. */
  method BlankSearchScenario() returns (navigation: Option<string>, after: string)
    ensures navigation == None && after == "  "
  {
    var header := new Header();
    header.OnChange("  ");
    assert AllWhitespace("  ");
    navigation := header.HandleSearch();
    after := header.query;
  }
}
