/**
 * The slice of the Fetch/URL machinery the API routes rely on: reading a form
 * field, choosing the redirect's scheme and host from the request headers, the
 * `url.search = ...` setter, and reading a query parameter back on the page the
 * redirect lands on.
 */
module Http {
  import opened Wrappers
  import Strings
  import UriComponent

  /**
   * An incoming POST. Header names are lower-case (the Fetch `Headers` object
   * folds them); a form field that was not sent is absent from `form`.
   */
  datatype Request = Request(url: string, headers: map<string, string>, form: map<string, string>)

  /** A redirect target `scheme://host` + `path` + `?` + `search`. */
  datatype Redirect = Redirect(scheme: string, host: string, path: string, search: string)

  // ---------------------------------------------------------------------------
  // request inputs
  // ---------------------------------------------------------------------------

  /** A form field that is missing or holds only whitespace: the routes' `!value` test. */
  predicate Blank(form: map<string, string>, name: string) {
    name !in form || Strings.AllWhitespace(form[name])
  }

  /** `(data.get(name) as string | null)?.trim() || ""`. */
  function FormField(req: Request, name: string): (v: string)
    ensures v == [] <==> Blank(req.form, name)
    ensures v == [] || (!Strings.IsJsWhitespace(v[0]) && !Strings.IsJsWhitespace(v[|v| - 1]))
  {
    if name in req.form then
      Strings.TrimEmptyIff(req.form[name]);
      Strings.Trim(req.form[name])
    else []
  }

  /** `headers.get(name)`, with `null` read as the empty string (both are falsy). */
  function Header(headers: map<string, string>, name: string): string {
    if name in headers then headers[name] else []
  }

  /**
   * `c0 || c1 || ... || fallback` over strings: the first non-empty candidate,
   * or the fallback when every candidate is empty.
   */
  function FirstNonEmpty(candidates: seq<string>, fallback: string): (r: string)
    ensures (exists i :: 0 <= i < |candidates| && candidates[i] != [] && r == candidates[i]
               && forall j :: 0 <= j < i ==> candidates[j] == [])
         || (r == fallback && forall j :: 0 <= j < |candidates| ==> candidates[j] == [])
    decreases |candidates|
  {
    if |candidates| == 0 then fallback
    else if candidates[0] != [] then candidates[0]
    else
      var r := FirstNonEmpty(candidates[1..], fallback);
      assert forall j :: 1 <= j < |candidates| ==> candidates[j] == candidates[1..][j - 1];
      r
  }

  const DefaultHost := "localhost:3000"

  /** The redirect host: the `host` header, else `x-forwarded-host`, else the local default. */
  function ResolveHost(headers: map<string, string>): (host: string)
    ensures host != []
    ensures Header(headers, "host") != [] ==> host == headers["host"]
    ensures Header(headers, "host") == [] && Header(headers, "x-forwarded-host") != [] ==>
              host == headers["x-forwarded-host"]
    ensures Header(headers, "host") == [] && Header(headers, "x-forwarded-host") == [] ==>
              host == DefaultHost
  {
    var cs := [Header(headers, "host"), Header(headers, "x-forwarded-host")];
    var r := FirstNonEmpty(cs, DefaultHost);
    assert cs[0] == Header(headers, "host") && cs[1] == Header(headers, "x-forwarded-host");
    r
  }

  /**
   * The redirect scheme: the `x-forwarded-proto` header when present, otherwise
   * `https` exactly when the request URL starts with `https`.
   */
  function ResolveScheme(req: Request): (scheme: string)
    ensures Header(req.headers, "x-forwarded-proto") != [] ==> scheme == req.headers["x-forwarded-proto"]
    ensures Header(req.headers, "x-forwarded-proto") == [] ==>
              scheme == (if Strings.StartsWith(req.url, "https") then "https" else "http")
  {
    var cs := [Header(req.headers, "x-forwarded-proto")];
    var r := FirstNonEmpty(cs, if Strings.StartsWith(req.url, "https") then "https" else "http");
    assert cs[0] == Header(req.headers, "x-forwarded-proto");
    r
  }

  /**
   * The redirect target the routes build as `new URL(`${protocol}://${host}${path}`)`,
   * with no query yet. Scheme and host are kept exactly as the headers give them:
   * the URL parser's lower-casing, default-port removal, re-reading of a host that
   * holds `/`, `?` or `#`, and its rejection of an invalid scheme are not modelled.
   */
  function RedirectTo(req: Request, path: string): Redirect {
    Redirect(ResolveScheme(req), ResolveHost(req.headers), path, [])
  }

  // ---------------------------------------------------------------------------
  // the URL `search` setter
  // ---------------------------------------------------------------------------

  /**
   * Characters the URL standard's special-query percent-encode set leaves alone:
   * printable ASCII except `"`, `#`, `<`, `>` and `'`.
   */
  predicate QueryKeeps(c: char) {
    0x21 <= c as int <= 0x7E && c != '"' && c != '#' && c != '<' && c != '>' && c != '\''
  }

  /**
   * `url.search = text`: one leading `?` is dropped and the rest is escaped. The
   * setter also strips ASCII tab, LF and CR first; the texts the routes store
   * are a constant message or `encodeURIComponent` output, which never hold them.
   */
  function SetSearch(url: Redirect, text: string): (r: Redirect)
    ensures r.(search := url.search) == url
  {
    var body := if |text| > 0 && text[0] == '?' then text[1..] else text;
    url.(search := UriComponent.EscapeWhere(body, QueryKeeps))
  }

  // ---------------------------------------------------------------------------
  // reading the query back
  // ---------------------------------------------------------------------------

  /** One `name=value` pair of a query, value still percent-encoded. */
  datatype Param = Param(name: string, value: string)

  /** A query field splits at its first `=`; a field without one has an empty value. */
  function ParseParam(field: string): Param {
    var parts := Strings.SplitOn(field, '=');
    Param(parts[0], Strings.Join(parts[1..], '='))
  }

  /** The pairs of a serialized query, in order; empty fields between `&`s are skipped. */
  function Params(search: string): (ps: seq<Param>) {
    var fields := Strings.NonEmpty(Strings.SplitOn(search, '&'));
    seq(|fields|, i requires 0 <= i < |fields| => ParseParam(fields[i]))
  }

  function ParamNames(search: string): (names: seq<string>) {
    var ps := Params(search);
    seq(|ps|, i requires 0 <= i < |ps| => ps[i].name)
  }

  /** The raw value of the first pair called `name`. */
  function Lookup(ps: seq<Param>, name: string): (v: Option<string>)
    ensures v.Some? <==> exists i :: 0 <= i < |ps| && ps[i].name == name
    ensures v.Some? ==> exists i :: 0 <= i < |ps| && ps[i] == Param(name, v.value)
    decreases |ps|
  {
    if ps == [] then None
    else if ps[0].name == name then Some(ps[0].value)
    else
      var v := Lookup(ps[1..], name);
      assert forall i :: 1 <= i < |ps| ==> ps[i] == ps[1..][i - 1];
      v
  }

  /** `searchParams.get(name)` on the landing page, decoded; `None` when absent. */
  function DecodedParam(search: string, name: string): Option<string> {
    match Lookup(Params(search), name)
    case None => None
    case Some(raw) => UriComponent.Decode(raw)
  }

  // ---------------------------------------------------------------------------
  // what a route writes is what the landing page reads
  // ---------------------------------------------------------------------------

  /** A parameter name the routes use: non-empty, plain, no `&` and no `=`. */
  predicate PlainName(name: string) {
    name != [] && forall c :: c in name ==> QueryKeeps(c) && c != '&' && c != '=' && c != '%'
  }

  /** The two parameter names the routes write. */
  lemma ParamNamesArePlain()
    ensures PlainName("error") && PlainName("q")
  {
  }

  lemma SetSearchParam(url: Redirect, name: string, value: string)
    requires PlainName(name)
    ensures SetSearch(url, "?" + name + "=" + value).search
         == name + "=" + UriComponent.EscapeWhere(value, QueryKeeps)
  {
    var text := "?" + name + "=" + value;
    assert text[1..] == (name + "=") + value;
    UriComponent.EscapeWhereAppend(name + "=", value, QueryKeeps);
    UriComponent.EscapeWhereAllKept(name + "=", QueryKeeps);
  }

  /** A query holding one pair with no `&` in its value parses to exactly that pair. */
  lemma SingleParam(name: string, raw: string)
    requires PlainName(name) && '&' !in raw
    ensures Params(name + "=" + raw) == [Param(name, raw)]
  {
    var field := name + "=" + raw;
    assert '&' !in field by {
      forall k | 0 <= k < |field| ensures field[k] != '&' {
        if k < |name| { assert field[k] in name; }
      }
    }
    Strings.SplitWithoutSeparator(field, '&');
    assert Strings.NonEmpty([field]) == [field];
    Strings.SplitWithoutSeparator(name, '=');
    Strings.SplitAppend(name, raw, '=');
    var parts := Strings.SplitOn(field, '=');
    assert parts == [name] + Strings.SplitOn(raw, '=');
    assert parts[1..] == Strings.SplitOn(raw, '=');
    Strings.JoinSplit(raw, '=');
  }

  /** A query `name=raw` with a decodable `raw` reads back as that one parameter. */
  lemma ReadsBack(search: string, name: string, raw: string, v: string)
    requires PlainName(name) && '&' !in raw
    requires search == name + "=" + raw && UriComponent.Decode(raw) == Some(v)
    ensures ParamNames(search) == [name] && DecodedParam(search, name) == Some(v)
  {
    SingleParam(name, raw);
  }

  /** Escaping never introduces an `&` that the keep set would not have kept. */
  lemma EscapeWithoutAmpersand(s: string, keep: char -> bool)
    requires !keep('&') || '&' !in s
    ensures '&' !in UriComponent.EscapeWhere(s, keep)
  {
  }

  /**
   * A literal message stored with `url.search = "?name=message"` is read back
   * unchanged, as the only parameter, when it holds no `%` and no `&`.
   */
  lemma MessageReadsBack(url: Redirect, name: string, msg: string)
    requires PlainName(name) && '%' !in msg && '&' !in msg
    ensures var search := SetSearch(url, "?" + name + "=" + msg).search;
            ParamNames(search) == [name] && DecodedParam(search, name) == Some(msg)
  {
    SetSearchParam(url, name, msg);
    EscapeWithoutAmpersand(msg, QueryKeeps);
    UriComponent.DecodeEscapeWhere(msg, QueryKeeps);
    ReadsBack(SetSearch(url, "?" + name + "=" + msg).search, name,
              UriComponent.EscapeWhere(msg, QueryKeeps), msg);
  }

  /** Unreserved for `encodeURIComponent` and also left alone by the search setter. */
  predicate EncodedQueryKeeps(c: char) {
    UriComponent.IsUnreserved(c) && QueryKeeps(c)
  }

  /** The setter re-escapes `encodeURIComponent`'s output as one pass with both keep sets. */
  lemma SetSearchEncoded(url: Redirect, name: string, v: string)
    requires PlainName(name)
    ensures SetSearch(url, "?" + name + "=" + UriComponent.Encode(v)).search
         == name + "=" + UriComponent.EscapeWhere(v, EncodedQueryKeeps)
  {
    SetSearchParam(url, name, UriComponent.Encode(v));
    UriComponent.EscapeTwice(v, UriComponent.IsUnreserved, QueryKeeps, EncodedQueryKeeps);
  }

  /**
   * A value stored with `url.search = `?name=${encodeURIComponent(v)}`` is read
   * back as `v`, whatever characters `v` holds, as the only parameter.
   */
  lemma EncodedReadsBack(url: Redirect, name: string, v: string)
    requires PlainName(name)
    ensures var search := SetSearch(url, "?" + name + "=" + UriComponent.Encode(v)).search;
            ParamNames(search) == [name] && DecodedParam(search, name) == Some(v)
  {
    SetSearchEncoded(url, name, v);
    EscapeWithoutAmpersand(v, EncodedQueryKeeps);
    UriComponent.DecodeEscapeWhere(v, EncodedQueryKeeps);
    ReadsBack(SetSearch(url, "?" + name + "=" + UriComponent.Encode(v)).search, name,
              UriComponent.EscapeWhere(v, EncodedQueryKeeps), v);
  }

  /**
   * A client-side navigation to `${path}?${query}` (or to `path` alone when the
   * query is empty), as `router.push` or `window.location.href` receives it.
   */
  datatype Location = Location(path: string, query: string)

  /** The query `name=${encodeURIComponent(v)}`: one parameter, which reads back as `v`. */
  function QueryWith(name: string, v: string): (query: string)
    requires PlainName(name)
    ensures ParamNames(query) == [name] && DecodedParam(query, name) == Some(v)
  {
    EncodedQueryReadsBack(name, v);
    name + "=" + UriComponent.Encode(v)
  }

  lemma EncodedQueryReadsBack(name: string, v: string)
    requires PlainName(name)
    ensures var query := name + "=" + UriComponent.Encode(v);
            ParamNames(query) == [name] && DecodedParam(query, name) == Some(v)
  {
    EscapeWithoutAmpersand(v, UriComponent.IsUnreserved);
    UriComponent.DecodeEncode(v);
    ReadsBack(name + "=" + UriComponent.Encode(v), name, UriComponent.Encode(v), v);
  }

  /** A redirect whose query was never set carries no parameters. */
  lemma NoSearchNoParams(url: Redirect)
    requires url.search == []
    ensures Params(url.search) == []
  {
    assert Strings.SplitOn([], '&') == [[]];
  }
}
