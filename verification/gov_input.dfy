/**
 * `GovInput`: a labelled text input with an optional hint and error message,
 * whose `aria-describedby` points at whichever of them is rendered.
 */
module GovInput {
  import opened Wrappers
  import Strings
  import Html

  /**
   * The props the markup depends on. An optional string prop that is omitted is
   * the empty string here: the component only ever tests them for truthiness.
   */
  datatype Props = Props(id: string, name: string, className: string, hint: string,
                         error: string, describedBy: string)

  /** The attributes the component renders that carry its accessibility wiring. */
  datatype Markup = Markup(
    groupClass: string,
    inputId: string,
    hintId: Option<string>,       // the hint element and its id, when rendered
    errorId: Option<string>,      // the error message element and its id, when rendered
    inputClass: string,
    describedBy: Option<string>)  // `aria-describedby`, omitted when empty

  /** `id || name`. */
  function InputId(p: Props): (r: string)
    ensures p.id != [] ==> r == p.id
    ensures p.id == [] ==> r == p.name
  {
    if p.id != [] then p.id else p.name
  }

  /** The id `${base}-${suffix}` of an element that exists exactly when `text` is truthy. */
  function PartId(text: string, base: string, suffix: string): (r: Option<string>)
    ensures r.Some? <==> text != []
    ensures r.Some? ==> r.value == base + "-" + suffix
  {
    if text != [] then Some(base + "-" + suffix) else None
  }

  function Render(p: Props): (m: Markup)
    ensures m.inputId == InputId(p)
    ensures m.hintId.Some? <==> p.hint != []
    ensures m.errorId.Some? <==> p.error != []
    ensures m.describedBy.None? <==> p.hint == [] && p.error == [] && p.describedBy == []
  {
    var inputId := InputId(p);
    var hintId := PartId(p.hint, inputId, "hint");
    var errorId := PartId(p.error, inputId, "error");
    var ids := [hintId.GetOr([]), errorId.GetOr([]), p.describedBy];
    Html.JoinPresentEmptyIff(ids);
    assert ids[0] == hintId.GetOr([]) && ids[1] == errorId.GetOr([]) && ids[2] == p.describedBy;
    Markup(GroupClass(p), inputId, hintId, errorId, InputClass(p), Html.OrOmitted(Html.JoinPresent(ids)))
  }

  /** The wrapper's class: `govuk-form-group ${error ? "govuk-form-group--error" : ""}`, untrimmed. */
  function GroupClass(p: Props): string {
    Html.FormGroupClass + " " + Html.Flag(p.error != [], Html.FormGroupErrorClass)
  }

  /** The input's class: `govuk-input ${error ? "govuk-input--error" : ""} ${className}`, trimmed. */
  function InputClass(p: Props): string {
    Strings.Trim(Html.InputClass + " " + Html.Flag(p.error != [], Html.InputErrorClass) + " " + p.className)
  }

  // ---------------------------------------------------------------------------
  // properties
  // ---------------------------------------------------------------------------

  /** The id of an optional element, as a (possibly empty) list of tokens. */
  function IdTokens(id: Option<string>): seq<string> {
    match id
    case None => []
    case Some(v) => [v]
  }

  /** A suffixed id built from a space-free base is a single token. */
  lemma PartIdTokens(text: string, base: string, suffix: string)
    requires ' ' !in base && ' ' !in suffix
    ensures Html.Tokens(PartId(text, base, suffix).GetOr([])) == IdTokens(PartId(text, base, suffix))
  {
    if text != [] {
      var v := base + "-" + suffix;
      assert ' ' !in v by {
        assert forall c :: c in v ==> c in base || c == '-' || c in suffix;
      }
      Html.TokensOfName(v);
    } else {
      Html.TokensEmpty();
    }
  }

  /**
   * `aria-describedby` names the rendered hint, then the rendered error message,
   * then the caller's own ids, and nothing else.
   */
  lemma DescribedByTokens(p: Props)
    requires ' ' !in InputId(p)
    ensures var m := Render(p);
            Html.Tokens(m.describedBy.GetOr([]))
              == IdTokens(m.hintId) + IdTokens(m.errorId) + Html.Tokens(p.describedBy)
  {
    var m := Render(p);
    var ids := [m.hintId.GetOr([]), m.errorId.GetOr([]), p.describedBy];
    Html.TokensJoinPresent(ids);
    Html.FlatTokensThree(ids[0], ids[1], ids[2]);
    PartIdTokens(p.hint, InputId(p), "hint");
    PartIdTokens(p.error, InputId(p), "error");
    Html.TokensEmpty();
  }

  /** Every id `aria-describedby` adds of its own belongs to an element that is rendered. */
  lemma DescribedByOnlyRenderedParts(p: Props)
    requires ' ' !in InputId(p)
    ensures var m := Render(p);
            forall t :: t in Html.Tokens(m.describedBy.GetOr([])) && t !in Html.Tokens(p.describedBy) ==>
              (m.hintId.Some? && t == m.hintId.value) || (m.errorId.Some? && t == m.errorId.value)
  {
    DescribedByTokens(p);
  }

  /** The form group is marked as in error exactly when an error is shown. */
  lemma GroupClassTokens(p: Props)
    ensures Html.Tokens(GroupClass(p))
         == [Html.FormGroupClass] + (if p.error != [] then [Html.FormGroupErrorClass] else [])
  {
    Html.ClassNamesAreNames();
    Html.PlainClassIsName(Html.FormGroupClass);
    Html.PlainClassIsName(Html.FormGroupErrorClass);
    Html.TokensFlagged(Html.FormGroupClass, p.error != [], Html.FormGroupErrorClass);
  }

  /**
   * The input carries `govuk-input`, the error modifier exactly when an error is
   * shown, and then the caller's classes; the trimmed string starts and ends with
   * a class name.
   */
  lemma InputClassTokens(p: Props)
    requires Html.SpaceSeparated(p.className)
    ensures var cls := InputClass(p);
            Html.Tokens(cls) == [Html.InputClass] + (if p.error != [] then [Html.InputErrorClass] else [])
                                 + Html.Tokens(p.className)
            && cls != [] && !Strings.IsJsWhitespace(cls[0]) && !Strings.IsJsWhitespace(cls[|cls| - 1])
  {
    Html.ClassNamesAreNames();
    Html.TrimmedClassTokens(Html.InputClass, p.error != [], Html.InputErrorClass, p.className);
  }
}
