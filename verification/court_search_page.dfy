/**
 * `FindACourtSearchPage`: the court name search that filters the courts index
 * in the browser. A submit records the trimmed term and reveals the results;
 * an empty term, or "manchester" in any case, lists every court.
 */
module CourtSearchPage {
  import opened Wrappers
  import Strings
  import Courts

  datatype State = State(showResults: bool, searchTerm: string)

  /** Nothing searched yet, and no results region. */
  const Initial := State(false, [])

  /**
   * `handleSubmit`: `formData.get("fullName")?.trim() || ""`. The field is
   * `None` when the form carries no `fullName` entry.
   */
  function Submit(s: State, field: Option<string>): (t: State)
    ensures t.showResults
    ensures field.None? ==> t.searchTerm == []
    ensures field.Some? ==> t.searchTerm == Strings.Trim(field.value)
  {
    State(true, match field case None => [] case Some(v) => Strings.Trim(v))
  }

  /** The term that lists every court, compared after lower-casing. */
  const ShowAllTerm := "manchester"

  /** The name filter: `court.name.toLowerCase().includes(searchTerm.toLowerCase())`. */
  predicate NameMatches(c: Courts.Court, term: string) {
    Strings.Contains(Strings.Lower(c.name), Strings.Lower(term))
  }

  /** `filteredCourts`: nothing for an empty term, the name matches otherwise. */
  function Filtered(courts: seq<Courts.Court>, term: string): (r: seq<Courts.Court>)
    ensures term == [] ==> r == []
    ensures forall k :: 0 <= k < |r| ==> NameMatches(r[k], term)
  {
    if term != [] then Courts.Filter(courts, c => NameMatches(c, term)) else []
  }

  /** When the page lists the whole index instead of the filtered courts. */
  predicate ShowsAll(term: string) {
    Strings.Lower(term) == ShowAllTerm || term == []
  }

  /** `displayCourts`. */
  function Displayed(courts: seq<Courts.Court>, term: string): (r: seq<Courts.Court>)
    ensures ShowsAll(term) ==> r == courts
    ensures Courts.IsSubsequence(r, courts)
  {
    if ShowsAll(term) then
      SubsequenceOfItself(courts);
      courts
    else
      Courts.FilterSubsequence(courts, c => NameMatches(c, term));
      Filtered(courts, term)
  }

  lemma SubsequenceOfItself(xs: seq<Courts.Court>)
    ensures Courts.IsSubsequence(xs, xs)
  {
    Courts.FilterAll(xs, c => true);
    Courts.FilterSubsequence(xs, c => true);
  }

  /** `slugMap`: three courts whose detail pages live under shorter slugs. */
  const SlugMap: map<string, string> := map[
    "manchester-crown-court" := "manchester-crown",
    "birmingham-crown-court" := "birmingham-crown",
    "inner-london-crown-court" := "london-crown"
  ]

  /** `slugMap[court.slug] || court.slug`. */
  function UrlSlug(slug: string): (r: string)
    ensures slug in SlugMap ==> r == SlugMap[slug]
    ensures slug !in SlugMap ==> r == slug
  {
    if slug in SlugMap && SlugMap[slug] != [] then SlugMap[slug] else slug
  }

  const DetailsPrefix := "/find-a-court-or-tribunal/court-details/"

  function Href(c: Courts.Court): (href: string)
    ensures |href| == |DetailsPrefix| + |UrlSlug(c.slug)|
    ensures href[..|DetailsPrefix|] == DetailsPrefix && href[|DetailsPrefix|..] == UrlSlug(c.slug)
  {
    DetailsPrefix + UrlSlug(c.slug)
  }

  const MinshullStreet := " (Minshull St)"

  /** The link text: the name, with the street added for Manchester Crown Court. */
  function LinkText(name: string): (text: string)
    ensures |text| >= |name| && text[..|name|] == name
    ensures name == "Manchester Crown Court" ==> text[|name|..] == MinshullStreet
    ensures name != "Manchester Crown Court" ==> text == name
  {
    name + (if name == "Manchester Crown Court" then MinshullStreet else [])
  }

  /** The count paragraph: how many courts, whether the nouns are plural, and the term echoed. */
  datatype Summary = Summary(count: nat, plural: bool, echoedTerm: string)

  datatype Link = Link(href: string, text: string)

  /** The results region, present only after a submit. */
  datatype Results = Results(summary: Summary, links: seq<Link>)

  /** `We found {n} court{s} or tribunal{s} matching your search for '{searchTerm || "manchester"}'.` */
  function Summarize(displayed: seq<Courts.Court>, term: string): (m: Summary)
    ensures m.count == |displayed|
    ensures m.plural <==> |displayed| != 1
    ensures m.echoedTerm != []
  {
    Summary(|displayed|, |displayed| != 1, if term != [] then term else ShowAllTerm)
  }

  function Render(s: State, courts: seq<Courts.Court>): (r: Option<Results>)
    ensures r.Some? <==> s.showResults
    ensures r.Some? ==> |r.value.links| == r.value.summary.count == |Displayed(courts, s.searchTerm)|
  {
    if !s.showResults then None
    else
      var shown := Displayed(courts, s.searchTerm);
      Some(Results(Summarize(shown, s.searchTerm),
                   seq(|shown|, i requires 0 <= i < |shown| => Link(Href(shown[i]), LinkText(shown[i].name)))))
  }

  // ---------------------------------------------------------------------------
  // properties
  // ---------------------------------------------------------------------------

  /**
   * For a term that is neither empty nor "manchester", the page lists exactly
   * the courts whose name mentions the term, ignoring case, in the index's order.
   */
  lemma DisplayedAreNameMatches(courts: seq<Courts.Court>, term: string)
    requires !ShowsAll(term)
    ensures forall c :: c in Displayed(courts, term) <==> c in courts && NameMatches(c, term)
  {
    Courts.FilterMembers(courts, c => NameMatches(c, term));
  }

  /** Every shown court comes from the index. */
  lemma DisplayedFromIndex(courts: seq<Courts.Court>, term: string)
    ensures forall c :: c in Displayed(courts, term) ==> c in courts
  {
    Courts.SubsequenceMembers(Displayed(courts, term), courts);
  }

  /** Two show-all terms that echo the same word render the same results. */
  lemma SameShowAllRender(courts: seq<Courts.Court>, a: string, b: string)
    requires ShowsAll(a) && ShowsAll(b)
    requires (if a != [] then a else ShowAllTerm) == (if b != [] then b else ShowAllTerm)
    ensures Render(State(true, a), courts) == Render(State(true, b), courts)
  {
    assert Displayed(courts, a) == courts == Displayed(courts, b);
    assert Summarize(courts, a) == Summarize(courts, b);
  }

  /** The plural "s" is left off exactly when one court is shown. */
  lemma SingularOnlyForOne(s: State, courts: seq<Courts.Court>)
    requires s.showResults
    ensures var r := Render(s, courts).value;
            !r.summary.plural <==> |r.links| == 1
  {
  }

  /** Each link goes to the detail page of the court at the same position, named by it. */
  lemma LinksFollowDisplayed(s: State, courts: seq<Courts.Court>, i: nat)
    requires s.showResults && i < |Displayed(courts, s.searchTerm)|
    ensures var c := Displayed(courts, s.searchTerm)[i];
            var link := Render(s, courts).value.links[i];
            link.href[|DetailsPrefix|..] == UrlSlug(c.slug) && link.text[..|c.name|] == c.name
  {
  }

  /**
   * Two courts whose slugs differ and are not among the remapped targets link
   * to different pages.
   */
  lemma UrlSlugInjective(a: string, b: string)
    requires a != b
    requires a !in SlugMap.Values && b !in SlugMap.Values
    ensures UrlSlug(a) != UrlSlug(b)
  {
    if a in SlugMap && b in SlugMap {
      assert SlugMap[a] != SlugMap[b];
    }
  }

  datatype Event = Submitted(field: Option<string>)

  function Run(s: State, events: seq<Event>): State
    decreases |events|
  {
    if events == [] then s else Run(Submit(s, events[0].field), events[1..])
  }

  /** The results region is hidden until the first submit and stays once shown. */
  lemma {:induction false} ResultsAfterSubmit(s: State, events: seq<Event>)
    ensures Run(s, events).showResults <==> s.showResults || events != []
    decreases |events|
  {
    if events != [] {
      ResultsAfterSubmit(Submit(s, events[0].field), events[1..]);
    }
  }

  /** The term shown is the trimmed value of the last submit. */
  lemma {:induction false} LastSubmitWins(s: State, events: seq<Event>)
    requires events != [] && events[|events| - 1].field.Some?
    ensures Run(s, events).searchTerm == Strings.Trim(events[|events| - 1].field.value)
    decreases |events|
  {
    if |events| > 1 {
      LastSubmitWins(Submit(s, events[0].field), events[1..]);
    }
  }

  /**
   * An empty search behaves as a search for "manchester", however padded: the
   * same courts and the same echoed term.
   */
  lemma EmptyTermActsAsManchester(s: State, courts: seq<Courts.Court>, field: string)
    requires Strings.Trim(field) == ShowAllTerm
    ensures Render(Submit(s, Some([])), courts) == Render(Submit(s, Some(field)), courts)
  {
    var e, m := Submit(s, Some([])), Submit(s, Some(field));
    ShowAllStatesRenderAlike(courts, e, m);
  }

  lemma ShowAllStatesRenderAlike(courts: seq<Courts.Court>, e: State, m: State)
    requires e == State(true, []) && m == State(true, ShowAllTerm)
    ensures Render(e, courts) == Render(m, courts)
  {
    ShowAllTermShowsAll();
    SameShowAllRender(courts, [], ShowAllTerm);
  }

  lemma ShowAllTermShowsAll()
    ensures ShowsAll(ShowAllTerm)
  {
    assert forall i :: 0 <= i < |ShowAllTerm| ==> Strings.Lower(ShowAllTerm)[i] == ShowAllTerm[i];
  }
}
