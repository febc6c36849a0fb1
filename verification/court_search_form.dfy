/**
 * `FindACourtSearchFormClient`: the court name search form on the search page.
 * It starts from the `q` and `error` the page was loaded with, intercepts the
 * submit, and either shows the validation error or navigates with `q`.
 */
module CourtSearchForm {
  import opened Wrappers
  import Strings
  import UriComponent
  import Html
  import Http
  import Messages
  import ApiRoutes

  datatype State = State(inputValue: string, error: string, showError: bool)

  /** What the form shows the error through: set only together with a message. */
  predicate Consistent(s: State) {
    s.showError ==> s.error != []
  }

  /** The three `useState` hooks, from the props (an omitted prop is ""). */
  function Init(initialQuery: string, initialError: string): (s: State)
    ensures s.inputValue == initialQuery
    ensures s.showError <==> initialError != []
    ensures s.showError ==> s.error == initialError
    ensures Consistent(s)
  {
    State(initialQuery, initialError, initialError != [])
  }

  /** The submit handler: the state afterwards and the page navigated to, if any. */
  datatype Outcome = Outcome(state: State, navigate: Option<Http.Location>)

  function Edit(s: State, value: string): (t: State)
    ensures t.inputValue == value && t.error == s.error && t.showError == s.showError
  {
    s.(inputValue := value)
  }

  /**
   * A blank value shows the error; anything else navigates with `q`. The error
   * state is left as it was when navigating (the page is being replaced).
   */
  function Submit(s: State): (o: Outcome)
    ensures Strings.AllWhitespace(s.inputValue) ==>
              o.navigate.None? && o.state == s.(error := Messages.CourtSearchError, showError := true)
    ensures !Strings.AllWhitespace(s.inputValue) ==>
              o.state == s && o.navigate.Some? && o.navigate.value.path == ApiRoutes.SearchPagePath
              && Http.ParamNames(o.navigate.value.query) == ["q"]
              && Http.DecodedParam(o.navigate.value.query, "q") == Some(Strings.Trim(s.inputValue))
  {
    var query := Strings.Trim(s.inputValue);
    Strings.TrimEmptyIff(s.inputValue);
    if query == [] then
      Outcome(s.(error := Messages.CourtSearchError, showError := true), None)
    else
      Http.ParamNamesArePlain();
      Outcome(s, Some(Http.Location(ApiRoutes.SearchPagePath, Http.QueryWith("q", query))))
  }

  // ---------------------------------------------------------------------------
  // rendering
  // ---------------------------------------------------------------------------

  const InputId := "fullName"
  const HintId := "fullName-hint"
  const ErrorId := "fullName-error"

  /** The error summary and the inline message (with id `fullName-error`) appear together. */
  datatype Markup = Markup(errorShown: bool, groupClass: string, inputClass: string, describedBy: string)

  function Render(s: State): (m: Markup)
    ensures m.errorShown <==> s.showError
  {
    Markup(s.showError, GroupClass(s), InputClass(s), DescribedBy(s))
  }

  /** `govuk-form-group ${showError ? "govuk-form-group--error" : ""}`, untrimmed. */
  function GroupClass(s: State): string {
    Html.FormGroupClass + " " + Html.Flag(s.showError, Html.FormGroupErrorClass)
  }

  /** `govuk-input govuk-input--width-20 ${showError ? "govuk-input--error" : ""}`, trimmed. */
  function InputClass(s: State): string {
    Strings.Trim(Html.InputClass + " " + Html.InputWidth20Class + " " + Html.Flag(s.showError, Html.InputErrorClass))
  }

  /** `fullName-hint${showError ? " fullName-error" : ""}`. */
  function DescribedBy(s: State): string {
    HintId + (if s.showError then " " + ErrorId else "")
  }

  /**
   * `aria-describedby` names the hint and, exactly while the inline error is
   * rendered, the error message after it.
   */
  lemma DescribedByTokens(s: State)
    ensures Html.Tokens(DescribedBy(s)) == [HintId] + (if Render(s).errorShown then [ErrorId] else [])
  {
    assert ' ' !in HintId && ' ' !in ErrorId;
    Html.TokensOfName(HintId);
    if s.showError {
      assert HintId + (" " + ErrorId) == HintId + " " + ErrorId;
      Html.TokensConcat(HintId, ErrorId);
      Html.TokensOfName(ErrorId);
    } else {
      assert HintId + [] == HintId;
    }
  }

  /** The group is marked in error exactly while the error is shown. */
  lemma GroupClassTokens(s: State)
    ensures Html.Tokens(GroupClass(s))
         == [Html.FormGroupClass] + (if s.showError then [Html.FormGroupErrorClass] else [])
  {
    Html.ClassNamesAreNames();
    Html.PlainClassIsName(Html.FormGroupClass);
    Html.PlainClassIsName(Html.FormGroupErrorClass);
    Html.TokensFlagged(Html.FormGroupClass, s.showError, Html.FormGroupErrorClass);
  }

  /** The input keeps its width class and gains the error modifier exactly while the error is shown. */
  lemma InputClassTokens(s: State)
    ensures Html.Tokens(InputClass(s))
         == [Html.InputClass, Html.InputWidth20Class] + (if s.showError then [Html.InputErrorClass] else [])
  {
    Html.ClassNamesAreNames();
    TwoClassesAndFlag(Html.InputClass, Html.InputWidth20Class, s.showError, Html.InputErrorClass);
  }

  lemma TwoClassesAndFlag(a: string, b: string, on: bool, cls: string)
    requires Html.IsPlainClass(a) && Html.IsPlainClass(b) && Html.IsPlainClass(cls)
    ensures Html.Tokens(Strings.Trim(a + " " + b + " " + Html.Flag(on, cls))) == [a, b] + (if on then [cls] else [])
  {
    Html.FlagTokens(on, cls);
    Html.TrimmedTwoClasses(a, b, Html.Flag(on, cls));
  }

  // ---------------------------------------------------------------------------
  // behaviour over a session
  // ---------------------------------------------------------------------------

  lemma SubmitKeepsConsistent(s: State)
    requires Consistent(s)
    ensures Consistent(Submit(s).state)
  {
    Messages.MessagesArePlain();
  }

  /** Once shown, the error stays shown until the page is left: no event hides it. */
  lemma ErrorStaysShown(s: State, value: string)
    requires s.showError
    ensures Edit(s, value).showError && Submit(s).state.showError
  {
  }

  /**
   * With JavaScript or without it, the search lands in the same place as
   * `/api/court-search` sends it; a blank value shows the same message.
   */
  lemma AgreesWithCourtSearchRoute(s: State, req: Http.Request)
    requires "fullName" in req.form && req.form["fullName"] == s.inputValue
    ensures var o := Submit(s);
            var r := ApiRoutes.CourtSearchPost(req);
            (o.navigate.None? ==> Http.DecodedParam(r.search, "error") == Some(o.state.error))
            && (o.navigate.Some? ==>
                  o.navigate.value.path == r.path
                  && Http.ParamNames(o.navigate.value.query) == Http.ParamNames(r.search)
                  && Http.DecodedParam(o.navigate.value.query, "q") == Http.DecodedParam(r.search, "q"))
  {
  }
}
