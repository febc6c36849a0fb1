/**
 * The three POST handlers. Only `/api/court-search` is a form's `action` (the
 * court search form's); the other two mirror client submits. Each reads one form
 * field, trims it, and redirects: back to the form with an `error` message when
 * the field is blank, onward otherwise.
 */
module ApiRoutes {
  import opened Wrappers
  import Strings
  import UriComponent
  import opened Http
  import opened Messages

  const HomePath := "/"
  const ResultsPath := "/results"
  const SearchPagePath := "/find-a-court-or-tribunal-search"
  const OptionsPagePath := "/find-a-court-or-tribunal-backup"

  /**
   * The redirect of a route that sends a blank field back to `errorPath` with
   * `message`, and otherwise to `okPath` carrying the trimmed value as `q`.
   */
  function ValidateAndForward(req: Request, field: string, errorPath: string, message: string,
                              okPath: string): (r: Redirect)
    requires Plain(message)
    ensures r.scheme == ResolveScheme(req) && r.host == ResolveHost(req.headers)
    ensures Blank(req.form, field) ==>
              r.path == errorPath && ParamNames(r.search) == ["error"]
              && DecodedParam(r.search, "error") == Some(message)
    ensures !Blank(req.form, field) ==>
              r.path == okPath && ParamNames(r.search) == ["q"]
              && DecodedParam(r.search, "q") == Some(FormField(req, field))
  {
    var q := FormField(req, field);
    MessagesArePlain();
    ParamNamesArePlain();
    if q == [] then
      var url := RedirectTo(req, errorPath);
      MessageReadsBack(url, "error", message);
      SetSearch(url, "?" + "error" + "=" + message)
    else
      var url := RedirectTo(req, okPath);
      EncodedReadsBack(url, "q", q);
      SetSearch(url, "?" + "q" + "=" + UriComponent.Encode(q))
  }

  /** `app/api/search`: the home page's court or tribunal name search. */
  function SearchPost(req: Request): (r: Redirect)
    ensures r.scheme == ResolveScheme(req) && r.host == ResolveHost(req.headers)
    ensures Blank(req.form, "search") <==> r.path == HomePath
    ensures Blank(req.form, "search") ==>
              ParamNames(r.search) == ["error"] && DecodedParam(r.search, "error") == Some(SearchError)
    ensures !Blank(req.form, "search") ==>
              r.path == ResultsPath && ParamNames(r.search) == ["q"]
              && DecodedParam(r.search, "q") == Some(FormField(req, "search"))
  {
    MessagesArePlain();
    ParamNamesArePlain();
    ValidateAndForward(req, "search", HomePath, SearchError, ResultsPath)
  }

  /** `app/api/court-search`: the full name search, which always lands on the search page. */
  function CourtSearchPost(req: Request): (r: Redirect)
    ensures r.scheme == ResolveScheme(req) && r.host == ResolveHost(req.headers)
    ensures r.path == SearchPagePath
    ensures Blank(req.form, "fullName") <==> "error" in ParamNames(r.search)
    ensures Blank(req.form, "fullName") ==>
              ParamNames(r.search) == ["error"] && DecodedParam(r.search, "error") == Some(CourtSearchError)
    ensures !Blank(req.form, "fullName") ==>
              ParamNames(r.search) == ["q"] && DecodedParam(r.search, "q") == Some(FormField(req, "fullName"))
  {
    MessagesArePlain();
    ParamNamesArePlain();
    ValidateAndForward(req, "fullName", SearchPagePath, CourtSearchError, SearchPagePath)
  }

  /**
   * `app/api/court-option`: the "do you know the name" radios. Any non-blank
   * choice goes to the search page with no query at all.
   */
  function CourtOptionPost(req: Request): (r: Redirect)
    ensures r.scheme == ResolveScheme(req) && r.host == ResolveHost(req.headers)
    ensures Blank(req.form, "courtOption") <==> r.path == OptionsPagePath
    ensures Blank(req.form, "courtOption") ==>
              ParamNames(r.search) == ["error"] && DecodedParam(r.search, "error") == Some(CourtOptionError)
    ensures !Blank(req.form, "courtOption") ==> r.path == SearchPagePath && Params(r.search) == []
  {
    var option := FormField(req, "courtOption");
    var url := RedirectTo(req, if option == [] then OptionsPagePath else SearchPagePath);
    MessagesArePlain();
    ParamNamesArePlain();
    if option == [] then
      MessageReadsBack(url, "error", CourtOptionError);
      SetSearch(url, "?" + "error" + "=" + CourtOptionError)
    else
      NoSearchNoParams(url);
      url
  }

  // ---------------------------------------------------------------------------
  // properties across requests
  // ---------------------------------------------------------------------------

  /** The request with form field `field` set to `value`. */
  function WithField(req: Request, field: string, value: string): Request {
    req.(form := req.form[field := value])
  }

  /** Whitespace around the submitted name does not change where the search route redirects. */
  lemma SearchIgnoresSurroundingWhitespace(req: Request, w1: string, v: string, w2: string)
    requires Strings.AllWhitespace(w1) && Strings.AllWhitespace(w2)
    ensures SearchPost(WithField(req, "search", w1 + v + w2)) == SearchPost(WithField(req, "search", v))
  {
    Strings.TrimIgnoresSurroundingWhitespace(w1, v, w2);
  }

  /** The same holds for the full name route. */
  lemma CourtSearchIgnoresSurroundingWhitespace(req: Request, w1: string, v: string, w2: string)
    requires Strings.AllWhitespace(w1) && Strings.AllWhitespace(w2)
    ensures CourtSearchPost(WithField(req, "fullName", w1 + v + w2)) == CourtSearchPost(WithField(req, "fullName", v))
  {
    Strings.TrimIgnoresSurroundingWhitespace(w1, v, w2);
  }

  /** Which radio was chosen makes no difference: every choice redirects identically. */
  lemma CourtOptionChoiceIrrelevant(req: Request, a: string, b: string)
    requires !Strings.AllWhitespace(a) && !Strings.AllWhitespace(b)
    ensures CourtOptionPost(WithField(req, "courtOption", a)) == CourtOptionPost(WithField(req, "courtOption", b))
  {
    var ra := WithField(req, "courtOption", a);
    var rb := WithField(req, "courtOption", b);
    assert !Blank(ra.form, "courtOption") && !Blank(rb.form, "courtOption");
    assert ra.url == rb.url && ra.headers == rb.headers;
  }
}
