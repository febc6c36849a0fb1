/**
 * `FindACourtOptionsPage`: the "do you know the name of the court or tribunal"
 * question. The user picks one of two radios and continues; continuing with
 * nothing picked shows the error, anything picked goes on to the search page.
 */
module CourtOptionsPage {
  import opened Wrappers
  import Strings
  import Http
  import Messages
  import ApiRoutes
  import GovRadios
  import Html

  /** The two radios, in the order they are shown. */
  const RadioOptions: seq<GovRadios.RadioOption> := [
    GovRadios.RadioOption("option1", "I have the name", ""),
    GovRadios.RadioOption("option2", "I do not have the name", "")
  ]

  /** The radio group's `name` and `id`; the error summary links to `#courtOption`. */
  const GroupName := "courtOption"

  datatype State = State(selectedOption: string, error: string, showError: bool)

  /** The three `useState` hooks: nothing picked and no error. */
  const Initial := State([], [], false)

  /** What `handleSubmit` leaves behind, and the page it pushes onto the router, if any. */
  datatype Outcome = Outcome(state: State, push: Option<string>)

  /** A radio's `onChange` hands the page the value of the radio clicked. */
  function Choose(s: State, index: nat): (t: State)
    requires index < |RadioOptions|
    ensures t.selectedOption == RadioOptions[index].value
    ensures t.error == s.error && t.showError == s.showError
  {
    s.(selectedOption := RadioOptions[index].value)
  }

  /**
   * `handleSubmit`: an empty selection shows the error; any selection clears it
   * and goes to the search page, whichever radio it was.
   */
  function Submit(s: State): (o: Outcome)
    ensures s.selectedOption == [] <==> o.push.None?
    ensures s.selectedOption == [] ==>
              o.state == s.(error := Messages.CourtOptionError, showError := true)
    ensures s.selectedOption != [] ==>
              o.state == s.(error := [], showError := false) && o.push == Some(ApiRoutes.SearchPagePath)
  {
    if s.selectedOption == [] then
      Outcome(s.(error := Messages.CourtOptionError, showError := true), None)
    else
      Outcome(s.(error := [], showError := false), Some(ApiRoutes.SearchPagePath))
  }

  /** The props the page hands `GovRadios`: the error only while it is shown. */
  function RadiosProps(s: State): (p: GovRadios.Props)
    ensures p.options == RadioOptions && p.value == Some(s.selectedOption)
    ensures p.error == (if s.showError then s.error else [])
    ensures GovRadios.FieldsetId(p) == GroupName
  {
    GovRadios.Props(GroupName, GroupName, [], if s.showError then s.error else [], [], RadioOptions,
                    Some(s.selectedOption))
  }

  // ---------------------------------------------------------------------------
  // behaviour over a session
  // ---------------------------------------------------------------------------

  /**
   * What every reachable state satisfies: the selection is empty or one of the
   * radio values, and the error text is the validation message exactly while it
   * is shown.
   */
  predicate Valid(s: State) {
    (s.selectedOption == [] || exists i :: 0 <= i < |RadioOptions| && s.selectedOption == RadioOptions[i].value)
    && s.error == (if s.showError then Messages.CourtOptionError else [])
  }

  datatype Event = Chose(index: nat) | Submitted

  /** Events the page can receive: a radio click names one of its radios. */
  predicate Possible(e: Event) {
    e.Chose? ==> e.index < |RadioOptions|
  }

  function Step(s: State, e: Event): State
    requires Possible(e)
  {
    match e
    case Chose(i) => Choose(s, i)
    case Submitted => Submit(s).state
  }

  /** The state after a sequence of events; a submit that navigates is still applied. */
  function Run(s: State, events: seq<Event>): State
    requires forall k :: 0 <= k < |events| ==> Possible(events[k])
    decreases |events|
  {
    if events == [] then s else Run(Step(s, events[0]), events[1..])
  }

  lemma StepKeepsValid(s: State, e: Event)
    requires Valid(s) && Possible(e)
    ensures Valid(Step(s, e))
  {
    match e
    case Chose(i) => {
      assert Step(s, e).selectedOption == RadioOptions[i].value;
    }
    case Submitted => {
    }
  }

  lemma {:induction false} RunKeepsValid(s: State, events: seq<Event>)
    requires Valid(s)
    requires forall k :: 0 <= k < |events| ==> Possible(events[k])
    ensures Valid(Run(s, events))
    decreases |events|
  {
    if events != [] {
      StepKeepsValid(s, events[0]);
      RunKeepsValid(Step(s, events[0]), events[1..]);
    }
  }

  /** Every state the page can reach from its first render is valid. */
  lemma ReachableStatesValid(start: State, events: seq<Event>)
    requires start == Initial
    requires forall k :: 0 <= k < |events| ==> Possible(events[k])
    ensures Valid(Run(start, events))
  {
    InitialValid();
    RunKeepsValid(start, events);
  }

  lemma InitialValid()
    ensures Valid(Initial)
  {
  }

  // ---------------------------------------------------------------------------
  // what the radios show
  // ---------------------------------------------------------------------------

  /** The radio for an option is checked exactly when it is the one picked. */
  lemma CheckedIffPicked(s: State, i: nat)
    requires i < |RadioOptions|
    ensures GovRadios.Render(RadiosProps(s)).items[i].checked <==> s.selectedOption == RadioOptions[i].value
  {
    GovRadios.ItemsFollowOptions(RadiosProps(s), i);
  }

  /** Before anything is picked no radio is checked; afterwards exactly the picked one is. */
  lemma ExactlyThePickedRadio(s: State, i: nat, j: nat)
    requires Valid(s) && i < |RadioOptions| && j < |RadioOptions|
    ensures var items := GovRadios.Render(RadiosProps(s)).items;
            (s.selectedOption == [] ==> !items[j].checked)
            && (s.selectedOption == RadioOptions[i].value ==> (items[j].checked <==> i == j))
  {
    CheckedIffPicked(s, j);
    assert RadioOptions[0].value != RadioOptions[1].value;
  }

  /**
   * In a valid state the fieldset is described by the error message exactly
   * while it is shown, and by nothing otherwise.
   */
  lemma FieldsetDescribedByError(s: State)
    requires Valid(s)
    ensures var m := GovRadios.Render(RadiosProps(s));
            (m.describedBy.Some? <==> s.showError)
            && Html.Tokens(m.describedBy.GetOr([])) == (if s.showError then [GroupName + "-error"] else [])
  {
    GovRadios.DescribedByTokens(RadiosProps(s));
  }

  /**
   * The client submit and the `/api/court-option` handler compute the same
   * outcome (the form itself has no `action`, so the handler is not its
   * no-JavaScript path): the client push matches the redirect's path, and a missing
   * choice shows the same message.
   */
  lemma AgreesWithCourtOptionRoute(s: State, req: Http.Request)
    requires Valid(s)
    requires GroupName in req.form && req.form[GroupName] == s.selectedOption
    ensures var o := Submit(s);
            var r := ApiRoutes.CourtOptionPost(req);
            (o.push.None? <==> r.path == ApiRoutes.OptionsPagePath)
            && (o.push.Some? ==> o.push.value == r.path && Http.Params(r.search) == [])
            && (o.push.None? ==> Http.DecodedParam(r.search, "error") == Some(o.state.error))
  {
    SelectionBlankIffEmpty(s);
    assert Http.Blank(req.form, GroupName) <==> s.selectedOption == [];
    PagesDistinct();
  }

  /** A valid selection is blank to the server exactly when nothing is picked. */
  lemma SelectionBlankIffEmpty(s: State)
    requires Valid(s)
    ensures Strings.AllWhitespace(s.selectedOption) <==> s.selectedOption == []
  {
    if s.selectedOption != [] {
      var i :| 0 <= i < |RadioOptions| && s.selectedOption == RadioOptions[i].value;
      assert s.selectedOption[0] in s.selectedOption && s.selectedOption[0] == 'o';
    }
  }

  lemma PagesDistinct()
    ensures ApiRoutes.SearchPagePath != ApiRoutes.OptionsPagePath
  {
    assert ApiRoutes.SearchPagePath[26] != ApiRoutes.OptionsPagePath[26];
  }
}
