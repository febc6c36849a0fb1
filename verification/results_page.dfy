/**
 * The results page for `/results?q=…`: its title, the courts it lists for the
 * query, and what it shows when there is no query or no match.
 */
module ResultsPage {
  import opened Wrappers
  import Strings
  import Courts

  /** `params.q || ""`: an absent `q` reads as the empty query. */
  function Query(q: Option<string>): (query: string)
    ensures q.Some? ==> query == q.value
    ensures q.None? ==> query == []
  {
    q.GetOr([])
  }

  const TitlePrefix := "Results for \""
  const PlainTitle := "Search results"

  /** The document title: the query quoted, or a plain title when there is none. */
  function Title(query: string): (title: string)
    ensures query == [] ==> title == PlainTitle
    ensures query != [] ==> |title| == |TitlePrefix| + |query| + 1
                            && title[..|TitlePrefix|] == TitlePrefix
                            && title[|TitlePrefix|..|title| - 1] == query
                            && title[|title| - 1] == '"'
  {
    if query != [] then TitlePrefix + query + "\"" else PlainTitle
  }

  /** Different queries give different titles: the title names the query exactly. */
  lemma TitleInjective(a: string, b: string)
    requires Title(a) == Title(b)
    ensures a == b
  {
    if a == [] || b == [] {
      assert PlainTitle[0] != TitlePrefix[0];
    }
  }

  /** `x.toLowerCase().includes(query.toLowerCase())`. */
  predicate Mentions(field: string, query: string) {
    Strings.Contains(Strings.Lower(field), Strings.Lower(query))
  }

  /** A court matches when its name, type or area mentions the query, ignoring case. */
  predicate MatchesCourt(c: Courts.Court, query: string) {
    Mentions(c.name, query) || Mentions(c.courtType, query) || Mentions(c.area, query)
  }

  /** `courts.filter(…)`. */
  function Matching(courts: seq<Courts.Court>, query: string): seq<Courts.Court> {
    Courts.Filter(courts, c => MatchesCourt(c, query))
  }

  /** What the body shows below the heading. */
  datatype View =
    | EnterTerm                                          // no query: ask for a search term
    | Listed(query: string, courts: seq<Courts.Court>)   // the matches; none means "No courts or tribunals found"

  function Render(courts: seq<Courts.Court>, q: Option<string>): (v: View)
    ensures v.EnterTerm? <==> Query(q) == []
    ensures v.Listed? ==> v.query == Query(q)
  {
    var query := Query(q);
    if query == [] then EnterTerm else Listed(query, Matching(courts, query))
  }

  /** The live region's announcement: how many results, for which query. */
  function Announced(v: View): (count: nat)
    requires v.Listed?
  {
    |v.courts|
  }

  /** A court's link: `/courts/${slug}`. */
  function Href(c: Courts.Court): (href: string)
    ensures |href| == |"/courts/"| + |c.slug|
    ensures href[..|"/courts/"|] == "/courts/" && href[|"/courts/"|..] == c.slug
  {
    "/courts/" + c.slug
  }

  // ---------------------------------------------------------------------------
  // properties
  // ---------------------------------------------------------------------------

  /**
   * The list is exactly the matching courts: every listed court matches, every
   * matching court is listed, in the index's order, and the announced count is
   * the number listed.
   */
  lemma ListedAreTheMatches(courts: seq<Courts.Court>, q: Option<string>)
    requires Query(q) != []
    ensures var v := Render(courts, q);
            v.Listed?
            && (forall c :: c in v.courts <==> c in courts && MatchesCourt(c, Query(q)))
            && Courts.IsSubsequence(v.courts, courts)
            && Announced(v) == |v.courts|
  {
    Courts.FilterMembers(courts, c => MatchesCourt(c, Query(q)));
    Courts.FilterSubsequence(courts, c => MatchesCourt(c, Query(q)));
  }

  /** Lower-casing only touches ASCII letters, so mentioning survives lower-casing the query. */
  lemma MentionsIgnoresCase(field: string, query: string)
    ensures Mentions(field, Strings.Lower(query)) == Mentions(field, query)
  {
    Strings.LowerIdempotent(query);
  }

  /** Searching is case-insensitive: the query's case does not change the results. */
  lemma CaseInsensitive(courts: seq<Courts.Court>, query: string)
    ensures Matching(courts, Strings.Lower(query)) == Matching(courts, query)
  {
    forall k | 0 <= k < |courts|
      ensures MatchesCourt(courts[k], Strings.Lower(query)) == MatchesCourt(courts[k], query)
    {
      MentionsIgnoresCase(courts[k].name, query);
      MentionsIgnoresCase(courts[k].courtType, query);
      MentionsIgnoresCase(courts[k].area, query);
    }
    Courts.FilterAgreeing(courts, c => MatchesCourt(c, Strings.Lower(query)), c => MatchesCourt(c, query));
  }

  /** A field that mentions a query mentions every part of it. */
  lemma MentionsPart(field: string, longer: string, shorter: string)
    requires Strings.Contains(longer, shorter)
    requires Mentions(field, longer)
    ensures Mentions(field, shorter)
  {
    Strings.LowerPreservesContains(longer, shorter);
    Strings.ContainsTransitive(Strings.Lower(shorter), Strings.Lower(longer), Strings.Lower(field));
  }

  /**
   * Typing more narrows the results: the matches for a query are a subsequence
   * of the matches for any part of it.
   */
  lemma LongerQueryNarrows(courts: seq<Courts.Court>, longer: string, shorter: string)
    requires Strings.Contains(longer, shorter)
    ensures Courts.IsSubsequence(Matching(courts, longer), Matching(courts, shorter))
  {
    forall c: Courts.Court | MatchesCourt(c, longer) ensures MatchesCourt(c, shorter) {
      if Mentions(c.name, longer) {
        MentionsPart(c.name, longer, shorter);
      } else if Mentions(c.courtType, longer) {
        MentionsPart(c.courtType, longer, shorter);
      } else {
        MentionsPart(c.area, longer, shorter);
      }
    }
    Courts.FilterMonotone(courts, c => MatchesCourt(c, longer), c => MatchesCourt(c, shorter));
  }

  /** Distinct slugs give distinct links, so every listed court links to its own page. */
  lemma HrefInjective(a: Courts.Court, b: Courts.Court)
    requires a.slug != b.slug
    ensures Href(a) != Href(b)
  {
  }
}
