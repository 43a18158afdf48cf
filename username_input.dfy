/** `src/components/UsernameInput.tsx`: a text field holding the typed username and a
    submit button that hands the trimmed name to the page. */
module UsernameForm {
  import opened Wrappers
  import opened Text

  /** What the form renders for the field and the button. */
  datatype Controls = Controls(inputDisabled: bool, buttonDisabled: bool, buttonLabel: string)

  const LoadingLabel := "Loading..."
  const IdleLabel := "Generate Timeline"

  /** The `disabled` flags and the label for a loading flag and the typed value. */
  function ControlsFor(loading: bool, username: string): (c: Controls)
    ensures c.inputDisabled <==> loading
    ensures c.buttonDisabled <==> loading || AllWhitespace(username)
    ensures c.buttonLabel == LoadingLabel <==> loading
    ensures c.buttonLabel == IdleLabel <==> !loading
    ensures c.inputDisabled ==> c.buttonDisabled
  {
    TrimEmptyIff(username);
    assert LoadingLabel != IdleLabel by { assert |LoadingLabel| != |IdleLabel|; }
    Controls(loading, loading || Trim(username) == "", if loading then LoadingLabel else IdleLabel)
  }

  /** What `handleSubmit` passes to `onSubmit`, if it calls it at all. */
  function Submission(username: string): (submitted: Option<string>)
    ensures submitted.Some? <==> !AllWhitespace(username)
    ensures submitted.Some? ==> submitted.value != "" && Trimmed(submitted.value)
  {
    TrimEmptyIff(username);
    var trimmed := Trim(username);
    if trimmed != "" then Some(trimmed) else None
  }

  /** The button is enabled exactly when the page is idle and a click would submit a name. */
  lemma ButtonMatchesSubmission(loading: bool, username: string)
    ensures !ControlsFor(loading, username).buttonDisabled <==> !loading && Submission(username).Some?
  {
  }

  /** The submitted name is the typed one without its surrounding whitespace. */
  lemma {:induction false} SubmissionOfPadded(before: string, name: string, after: string)
    requires AllWhitespace(before) && AllWhitespace(after)
    requires name != "" && Trimmed(name)
    ensures Submission(before + name + after) == Some(name)
  {
    TrimOfPadded(before, name, after);
  }

  class UsernameInput {
    var username: string

    /** `useState('')`. */
    constructor()
      ensures username == ""
    {
      username := "";
    }

    /** `onChange`: the value is stored as typed, untrimmed. */
    method OnChange(value: string)
      modifies this
      ensures username == value
    {
      username := value;
    }

    /** `handleSubmit`: the trimmed name when it is not blank, nothing otherwise. */
    method HandleSubmit() returns (submitted: Option<string>)
      ensures submitted == Submission(username)
    {
      var trimmed := Trim(username);
      if trimmed != "" {
        submitted := Some(trimmed);
      } else {
        submitted := None;
      }
    }
  }

  /** Typing "  testuser  " keeps the spaces in the field and submits "testuser";
      typing only spaces submits nothing. */
  method TypingScenario() returns (stored: string, submitted: Option<string>, blank: Option<string>)
    ensures stored == "  testuser  "
    ensures submitted == Some("testuser")
    ensures blank == None
  {
    var input := new UsernameInput();
    input.OnChange("  testuser  ");
    stored := input.username;
    assert "  testuser  " == "  " + "testuser" + "  ";
    SubmissionOfPadded("  ", "testuser", "  ");
    submitted := input.HandleSubmit();
    input.OnChange("   ");
    blank := input.HandleSubmit();
  }
}
