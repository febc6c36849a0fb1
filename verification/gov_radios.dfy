/**
 * `GovRadios`: a fieldset of radio buttons with an optional hint and error
 * message. Each option gets a positional id, and an option is checked when its
 * value is the selected one.
 */
module GovRadios {
  import opened Wrappers
  import Strings
  import Html

  datatype RadioOption = RadioOption(value: string, labelText: string, hint: string)

  /**
   * The props the markup depends on; an omitted optional string is "". `value`
   * is the selected value: `None` when no value is passed, which checks nothing.
   */
  datatype Props = Props(name: string, id: string, hint: string, error: string,
                         className: string, options: seq<RadioOption>, value: Option<string>)

  /** One rendered radio: its input id, value, checked state and hint id. */
  datatype Item = Item(id: string, value: string, checked: bool, hintId: Option<string>)

  datatype Markup = Markup(groupClass: string, fieldsetId: string, describedBy: Option<string>,
                           items: seq<Item>)

  /** `id || name`. */
  function FieldsetId(p: Props): string {
    if p.id != [] then p.id else p.name
  }

  /** `${name}-${index + 1}`: options are numbered from one. */
  function OptionId(name: string, index: nat): string {
    name + "-" + Strings.NatToDecimal(index + 1)
  }

  /** The hint id for the fieldset or an option, present exactly when there is a hint. */
  function HintId(hint: string, base: string): (r: Option<string>)
    ensures r.Some? <==> hint != []
    ensures r.Some? ==> r.value == base + "-hint"
  {
    if hint != [] then Some(base + "-hint") else None
  }

  function RenderItem(p: Props, index: nat): (it: Item)
    requires index < |p.options|
    ensures it.value == p.options[index].value
    ensures it.checked <==> p.value == Some(p.options[index].value)
    ensures it.hintId.Some? <==> p.options[index].hint != []
  {
    var option := p.options[index];
    var id := OptionId(p.name, index);
    Item(id, option.value, p.value.Some? && p.value.value == option.value, HintId(option.hint, id))
  }

  /** The wrapper's class: `govuk-form-group ${error ? "govuk-form-group--error" : ""} ${className}`, trimmed. */
  function GroupClass(p: Props): string {
    Strings.Trim(Html.FormGroupClass + " " + Html.Flag(p.error != [], Html.FormGroupErrorClass) + " " + p.className)
  }

  function Render(p: Props): (m: Markup)
    ensures |m.items| == |p.options|
    ensures m.describedBy.None? <==> p.hint == [] && p.error == []
  {
    var fid := FieldsetId(p);
    var ids := [HintId(p.hint, fid).GetOr([]), (if p.error != [] then fid + "-error" else [])];
    Html.JoinPresentEmptyIff(ids);
    assert ids[0] == HintId(p.hint, fid).GetOr([]);
    assert ids[0] == [] <==> p.hint == [] by {
      if p.hint != [] { assert |ids[0]| == |fid| + 5; }
    }
    assert ids[1] == [] <==> p.error == [] by {
      if p.error != [] { assert |ids[1]| == |fid| + 6; }
    }
    Markup(GroupClass(p), fid, Html.OrOmitted(Html.JoinPresent(ids)),
           seq(|p.options|, i requires 0 <= i < |p.options| => RenderItem(p, i)))
  }

  // ---------------------------------------------------------------------------
  // properties
  // ---------------------------------------------------------------------------

  /** Each rendered radio stands for the option at the same position, in order. */
  lemma ItemsFollowOptions(p: Props, i: nat)
    requires i < |p.options|
    ensures var it := Render(p).items[i];
            it == RenderItem(p, i) && it.id == OptionId(p.name, i)
            && (it.checked <==> p.value == Some(p.options[i].value))
  {
  }

  /** Different positions get different input ids, so every label points at one radio. */
  lemma OptionIdsDistinct(name: string, i: nat, j: nat)
    requires i != j
    ensures OptionId(name, i) != OptionId(name, j)
  {
    var prefix := name + "-";
    var di, dj := Strings.NatToDecimal(i + 1), Strings.NatToDecimal(j + 1);
    if OptionId(name, i) == OptionId(name, j) {
      assert prefix + di == prefix + dj;
      assert di == (prefix + di)[|prefix|..];
      assert dj == (prefix + dj)[|prefix|..];
      Strings.DecimalInjective(i + 1, j + 1);
    }
  }

  /** The option ids of one group are pairwise distinct. */
  lemma ItemIdsDistinct(p: Props)
    ensures var items := Render(p).items;
            forall i, j :: 0 <= i < j < |items| ==> items[i].id != items[j].id
  {
    var items := Render(p).items;
    forall i, j | 0 <= i < j < |items| ensures items[i].id != items[j].id {
      OptionIdsDistinct(p.name, i, j);
    }
  }

  /** When the option values are distinct, at most one radio is checked. */
  lemma AtMostOneChecked(p: Props)
    requires forall i, j :: 0 <= i < j < |p.options| ==> p.options[i].value != p.options[j].value
    ensures var items := Render(p).items;
            forall i, j :: 0 <= i < j < |items| && items[i].checked ==> !items[j].checked
  {
  }

  /** Exactly one radio is checked when the selected value is one of the distinct option values. */
  lemma SelectedOptionChecked(p: Props, k: nat)
    requires k < |p.options| && p.value == Some(p.options[k].value)
    ensures var items := Render(p).items;
            items[k].checked && forall i :: 0 <= i < |items| && i != k ==>
              (items[i].checked <==> p.options[i].value == p.options[k].value)
  {
  }

  /**
   * The fieldset's `aria-describedby` names the rendered hint and then the
   * rendered error message, and nothing else.
   */
  lemma DescribedByTokens(p: Props)
    requires ' ' !in FieldsetId(p)
    ensures Html.Tokens(Render(p).describedBy.GetOr([]))
         == (if p.hint != [] then [FieldsetId(p) + "-hint"] else [])
            + (if p.error != [] then [FieldsetId(p) + "-error"] else [])
  {
    var fid := FieldsetId(p);
    var ids := [HintId(p.hint, fid).GetOr([]), (if p.error != [] then fid + "-error" else [])];
    Html.TokensJoinPresent(ids);
    Html.FlatTokensTwo(ids[0], ids[1]);
    SuffixedIdTokens(p.hint != [], fid, "-hint");
    SuffixedIdTokens(p.error != [], fid, "-error");
  }

  lemma SuffixedIdTokens(on: bool, base: string, suffix: string)
    requires ' ' !in base && ' ' !in suffix && suffix != []
    ensures Html.Tokens(if on then base + suffix else []) == (if on then [base + suffix] else [])
  {
    if on {
      assert ' ' !in base + suffix by {
        assert forall c :: c in base + suffix ==> c in base || c in suffix;
      }
      Html.TokensOfName(base + suffix);
    } else {
      Html.TokensEmpty();
    }
  }

  /** The group is marked in error exactly when an error is shown, then carries the caller's classes. */
  lemma GroupClassTokens(p: Props)
    requires Html.SpaceSeparated(p.className)
    ensures Html.Tokens(GroupClass(p))
         == [Html.FormGroupClass] + (if p.error != [] then [Html.FormGroupErrorClass] else [])
            + Html.Tokens(p.className)
  {
    Html.ClassNamesAreNames();
    Html.TrimmedClassTokens(Html.FormGroupClass, p.error != [], Html.FormGroupErrorClass, p.className);
  }
}
