/**
 * `SearchTemplate`: the home page's client-side court or tribunal name search.
 * It keeps the typed term and an error message; submitting a blank term shows
 * the error, anything else clears it and navigates to the results page.
 */
module SearchTemplate {
  import opened Wrappers
  import Strings
  import UriComponent
  import Html
  import Http
  import Messages
  import ApiRoutes

  datatype State = State(searchTerm: string, error: string)

  /** Both `useState("")` hooks start empty. */
  const Initial := State([], [])

  /** The state after a submit, and the page pushed onto the router, if any. */
  datatype Outcome = Outcome(state: State, push: Option<Http.Location>)

  /** The input's `onChange`. */
  function Edit(s: State, value: string): (t: State)
    ensures t.searchTerm == value && t.error == s.error
  {
    s.(searchTerm := value)
  }

  /** `handleSubmit`. */
  function Submit(s: State): (o: Outcome)
    ensures Strings.AllWhitespace(s.searchTerm) ==>
              o.push.None? && o.state == s.(error := Messages.SearchError)
    ensures !Strings.AllWhitespace(s.searchTerm) ==>
              o.state == s.(error := []) && o.push.Some? && o.push.value.path == ApiRoutes.ResultsPath
              && Http.ParamNames(o.push.value.query) == ["q"]
              && Http.DecodedParam(o.push.value.query, "q") == Some(Strings.Trim(s.searchTerm))
  {
    var term := Strings.Trim(s.searchTerm);
    Strings.TrimEmptyIff(s.searchTerm);
    if term == [] then
      Outcome(s.(error := Messages.SearchError), None)
    else
      Http.ParamNamesArePlain();
      Outcome(s.(error := []), Some(Http.Location(ApiRoutes.ResultsPath, Http.QueryWith("q", term))))
  }

  // ---------------------------------------------------------------------------
  // rendering
  // ---------------------------------------------------------------------------

  /**
   * The input's accessibility wiring. `inputId` and `errorId` are the two
   * `useId()` values; the hint element `${inputId}-hint` is always rendered.
   */
  datatype Markup = Markup(errorShown: bool, inputClass: string, describedBy: string, ariaInvalid: string)

  function Render(s: State, inputId: string, errorId: string): (m: Markup)
    ensures m.errorShown <==> s.error != []
    ensures m.ariaInvalid == (if s.error != [] then "true" else "false")
  {
    Markup(
      s.error != [],
      Html.InputClass + " " + Html.Flag(s.error != [], Html.InputErrorClass),
      if s.error != [] then errorId else inputId + "-hint",
      if s.error != [] then "true" else "false")
  }

  /**
   * `aria-describedby` always names an element that is on the page: the error
   * message while it is shown, the hint otherwise.
   */
  lemma DescribedByNamesRenderedElement(s: State, inputId: string, errorId: string)
    ensures var m := Render(s, inputId, errorId);
            (m.errorShown ==> m.describedBy == errorId)
            && (!m.errorShown ==> m.describedBy == inputId + "-hint")
  {
  }

  /** The input is styled as in error exactly when the error message is shown. */
  lemma InputClassTokens(s: State, inputId: string, errorId: string)
    ensures Html.Tokens(Render(s, inputId, errorId).inputClass)
         == [Html.InputClass] + (if s.error != [] then [Html.InputErrorClass] else [])
  {
    Html.ClassNamesAreNames();
    Html.PlainClassIsName(Html.InputClass);
    Html.PlainClassIsName(Html.InputErrorClass);
    Html.TokensFlagged(Html.InputClass, s.error != [], Html.InputErrorClass);
  }

  // ---------------------------------------------------------------------------
  // behaviour over a session
  // ---------------------------------------------------------------------------

  datatype Event = Typed(value: string) | Submitted

  /** The state after a sequence of events; a submit that navigates is still applied. */
  function Run(s: State, events: seq<Event>): State
    decreases |events|
  {
    if events == [] then s
    else
      var next := match events[0]
        case Typed(v) => Edit(s, v)
        case Submitted => Submit(s).state;
      Run(next, events[1..])
  }

  /** The only message the template ever shows is the blank-search one. */
  lemma {:induction false} ErrorIsBlankMessageOrNothing(s: State, events: seq<Event>)
    requires s.error == [] || s.error == Messages.SearchError
    ensures var t := Run(s, events);
            t.error == [] || t.error == Messages.SearchError
    decreases |events|
  {
    if events != [] {
      var next := match events[0]
        case Typed(v) => Edit(s, v)
        case Submitted => Submit(s).state;
      ErrorIsBlankMessageOrNothing(next, events[1..]);
    }
  }

  /** From the initial state, the error is always blank or the blank-search message. */
  lemma ReachableErrors(events: seq<Event>)
    ensures Run(Initial, events).error in {[], Messages.SearchError}
  {
    ErrorIsBlankMessageOrNothing(Initial, events);
  }

  /**
   * The client submit and the `/api/search` handler compute the same outcome
   * (the form itself has no `action`, so the handler is not its no-JavaScript
   * path): the client push and the redirect have the same path and the same
   * single parameter `q`, decoding to the same trimmed term; a blank term shows
   * the same message in both.
   */
  lemma AgreesWithSearchRoute(s: State, req: Http.Request)
    requires "search" in req.form && req.form["search"] == s.searchTerm
    ensures var o := Submit(s);
            var r := ApiRoutes.SearchPost(req);
            (o.push.None? <==> r.path == ApiRoutes.HomePath)
            && (o.push.None? ==> Http.DecodedParam(r.search, "error") == Some(o.state.error))
            && (o.push.Some? ==>
                  o.push.value.path == r.path
                  && Http.ParamNames(o.push.value.query) == Http.ParamNames(r.search)
                  && Http.DecodedParam(o.push.value.query, "q") == Http.DecodedParam(r.search, "q"))
  {
  }
}
