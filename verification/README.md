# Find a court or tribunal: a Dafny model of the search journey

This project models the court-finder prototype built on the GOV.UK Design System. It has two parts:

- **The search journey.** The user asks "do you know the name of the court or tribunal", types a name, and gets courts back. This part covers:
  - the three POST routes `/api/search`, `/api/court-search` and `/api/court-option` (only the court search form posts to its route; the other two forms have no `action`);
  - the client-side forms that do the same job in the browser;
  - the two pages that list courts;
  - the three GOV.UK components the forms are built from: text input, radios and breadcrumbs.
- **The dependency audit script.** It flags unpinned version ranges in the manifest, walks the lockfile for missing or malformed integrity hashes, and decides the exit code.

The model is functional. A React component becomes a state datatype plus pure `Submit`/`Edit`/`Choose` functions and a `Render` function. `Render` returns the attributes that carry the page's behaviour: class lists, `aria-describedby`, ids, checked flags, link targets and counts. A POST route becomes a function from a `Request` (URL, headers, form fields) to a `Redirect` (scheme, host, path, serialized query). The audit script becomes functions over a parsed JSON value.

The properties proved fall into six groups:

- **Round trips.** What a route or form writes into the query is what the landing page reads back (`encodeURIComponent`, then the URL `search` setter, then the query parser and decoder).
- **Agreement.** Each client submit and the matching POST handler compute the same landing path, the same single parameter with the same decoded value, and the same error message. For the court search form the handler is its real no-JavaScript `action`.
- **Reachable states.** Invariants over every sequence of user events.
- **Exact membership.** The filters list exactly the matching courts, in index order. Searching is case-insensitive and narrows as the query grows.
- **Accessibility wiring.** `aria-describedby` names exactly the hint and error elements that are rendered. Class lists carry the error modifiers exactly while an error is shown.
- **The audit walk.** The recursive walk is equal to checking its visiting order node by node. Its counters and issues account for the package nodes, and the exit code is 1 exactly in the stated cases.

Modules, one per file:

| module | models |
|---|---|
| `Wrappers` | `Option`/`Result` |
| `Strings` | `trim`, ASCII `toLowerCase`, `startsWith`, `includes`, `split`/`join`, decimal rendering |
| `UriComponent` | `encodeURIComponent`, escaping with other keep sets, and a `decodeURIComponent`-style decoder |
| `Http` | form fields, host and scheme selection, the URL `search` setter, reading a query parameter |
| `Messages` | the three validation messages |
| `Html` | space-separated class and id lists |
| `ApiRoutes` | the three POST routes |
| `SearchTemplate` | the home page's client search |
| `CourtSearchForm` | `FindACourtSearchFormClient` |
| `CourtOptionsPage` | the backup options page |
| `Courts` | court records and an order-keeping filter |
| `ResultsPage` | the `/results` page |
| `CourtSearchPage` | the client-side court search page |
| `Json` | parsed JSON values |
| `DependencyAudit` | `scripts/verify-dependencies.mjs` |
| `GovInput`, `GovRadios`, `GovBreadcrumbs` | the three components |

## Model

| member | source | states |
|---|---|---|
| Strings.Trim | app/api/search/route.ts:5 | the trimmed value neither starts nor ends with JavaScript whitespace |
| Strings.TrimBounds | app/api/search/route.ts:5 | the trimmed value is a slice of the input with only whitespace cut off on either side |
| Strings.TrimEmptyIff | app/api/search/route.ts:5-11 | the trimmed value is empty exactly when the input is all whitespace, which is the routes' `!q` test |
| Strings.TrimIgnoresSurroundingWhitespace | app/api/search/route.ts:5 | adding whitespace around a value never changes its trimmed value |
| Strings.TrimIdempotent | templates/SearchTemplate.tsx:16-22 | trimming an already trimmed term changes nothing, so the term checked and the term sent agree |
| Strings.LowerIdempotent | app/results/page.tsx:54 | lower-casing twice is lower-casing once |
| Strings.ContainsIffOccurs | app/results/page.tsx:54 | `includes` holds exactly when the needle occurs at some position of the text |
| Strings.ContainsTransitive | app/results/page.tsx:52-57 | a part of a part of a text is a part of the text |
| Strings.LowerPreservesContains | app/results/page.tsx:54-56 | lower-casing both sides keeps an occurrence |
| Strings.DecimalRoundTrip | components/govuk/GovRadios.tsx:79 | the decimal rendering of a number reads back as that number |
| Strings.DecimalInjective | components/govuk/GovRadios.tsx:79 | distinct numbers have distinct decimal renderings |
| UriComponent.Encode | app/api/search/route.ts:18 | the encoded text holds only unreserved characters and `%` |
| UriComponent.DecodeEncode | app/api/search/route.ts:18 | decoding the encoded text gives back the original text, for every string |
| UriComponent.DecodeEscapeWhere | app/api/search/route.ts:13 | escaping with any keep set that escapes `%` is undone by decoding |
| UriComponent.EscapeTwice | app/api/search/route.ts:18 | the `search` setter re-escaping encoded text is one escape with both keep sets |
| UriComponent.DecodeOneUtf8 | app/api/search/route.ts:18 | a character escaped as UTF-8 bytes decodes back to itself and uses exactly its escape |
| Http.FormField | app/api/search/route.ts:5 | the trimmed field is empty exactly when the field is missing or all whitespace |
| Http.ResolveHost | app/api/search/route.ts:8 | the host is the `host` header, else `x-forwarded-host`, else `localhost:3000`, and is never empty |
| Http.ResolveScheme | app/api/search/route.ts:9 | the scheme is `x-forwarded-proto` when set, else `https` exactly when the request URL starts with `https`, else `http` |
| Http.SetSearch | app/api/search/route.ts:13 | the `search` setter changes only the query of the URL |
| Http.MessageReadsBack | app/api/search/route.ts:13 | a message without `%` or `&`, stored as written, is read back unchanged as the only parameter |
| Http.EncodedReadsBack | app/api/search/route.ts:18 | a value stored as `q=${encodeURIComponent(v)}` is read back as `v`, whatever it holds, as the only parameter |
| Http.QueryWith | templates/SearchTemplate.tsx:22 | a client-built query `q=${encodeURIComponent(v)}` has one parameter, which decodes to `v` |
| Http.NoSearchNoParams | app/api/court-option/route.ts:20-21 | a redirect whose query was never set carries no parameters |
| Messages.MessagesArePlain | app/api/search/route.ts:13 | none of the three messages contains `%` or `&`, so each travels literally in a query |
| ApiRoutes.ValidateAndForward | app/api/court-search/route.ts:3-22 | a blank field goes to the error path with exactly the `error` message; any other goes to the onward path with exactly `q`, which decodes to the trimmed field |
| ApiRoutes.SearchPost | app/api/search/route.ts:3-20 | a blank `search` field, and only that, redirects home with the error message; anything else goes to `/results` with the trimmed term as `q`; scheme and host come from the headers |
| ApiRoutes.CourtSearchPost | app/api/court-search/route.ts:3-22 | always lands on the search page; it carries `error` exactly when `fullName` is blank, and otherwise `q` decoding to the trimmed name |
| ApiRoutes.CourtOptionPost | app/api/court-option/route.ts:3-22 | a blank choice, and only that, returns to the options page with the error; any choice goes to the search page with no query at all |
| ApiRoutes.SearchIgnoresSurroundingWhitespace | app/api/search/route.ts:5 | whitespace around the submitted name never changes the redirect |
| ApiRoutes.CourtSearchIgnoresSurroundingWhitespace | app/api/court-search/route.ts:5 | whitespace around the full name never changes the redirect |
| ApiRoutes.CourtOptionChoiceIrrelevant | app/api/court-option/route.ts:19-21 | any two non-blank choices redirect identically |
| Html.Tokens | components/govuk/GovInput.tsx:36-38 | no listed name is empty |
| Html.TokensJoinPresent | components/govuk/GovInput.tsx:36-38 | `filter(Boolean).join(" ")` lists exactly the tokens of the values, in order, and blanks vanish |
| Html.JoinPresentEmptyIff | components/govuk/GovInput.tsx:66 | the joined id list is empty, so the attribute is omitted, exactly when every value is empty |
| Html.TrimmedClassTokens | components/govuk/GovInput.tsx:63-65 | `${name} ${on ? cls : ""} ${extra}`.trim() lists the name, then the flag's class when on, then the extra classes, and has no whitespace at its ends |
| Html.TokensFlagged | components/govuk/GovInput.tsx:42-44 | `${name} ${on ? cls : ""}` lists the name, then the class exactly when the flag is on |
| Html.TokensTrim | components/govuk/GovInput.tsx:65 | trimming a class string whose only whitespace is spaces keeps its class names |
| SearchTemplate.Submit | templates/SearchTemplate.tsx:13-23 | a blank term sets the message and does not navigate; any other clears the error and pushes `/results` with one parameter `q` decoding to the trimmed term |
| SearchTemplate.Render | templates/SearchTemplate.tsx:34-48 | the error message and `aria-invalid="true"` appear exactly when there is an error |
| SearchTemplate.DescribedByNamesRenderedElement | templates/SearchTemplate.tsx:47 | `aria-describedby` names the error element while it is shown and the hint otherwise |
| SearchTemplate.InputClassTokens | templates/SearchTemplate.tsx:41 | the input has the error modifier exactly when there is an error |
| SearchTemplate.ErrorIsBlankMessageOrNothing | templates/SearchTemplate.tsx:17-21 | every run of typing and submitting keeps the error empty or the blank-search message |
| SearchTemplate.ReachableErrors | templates/SearchTemplate.tsx:7-8 | from the initial state, the only error ever shown is the blank-search message |
| SearchTemplate.AgreesWithSearchRoute | templates/SearchTemplate.tsx:13-23 | the client submit and the `/api/search` handler compute the same path and the same single parameter decoding to the same term, and a blank term gives the same message |
| CourtSearchForm.Init | app/find-a-court-or-tribunal-search/FindACourtSearchFormClient.tsx:17-19 | the form starts with the query, and shows the error exactly when the page was loaded with one |
| CourtSearchForm.Submit | app/find-a-court-or-tribunal-search/FindACourtSearchFormClient.tsx:36-45 | a blank value shows the court search message; anything else navigates to the search page with `q` decoding to the trimmed value, leaving the state as it was |
| CourtSearchForm.Render | app/find-a-court-or-tribunal-search/FindACourtSearchFormClient.tsx:58-98 | the error summary and inline message are rendered exactly while `showError` holds |
| CourtSearchForm.DescribedByTokens | app/find-a-court-or-tribunal-search/FindACourtSearchFormClient.tsx:106 | `aria-describedby` names the hint, then the error message exactly while it is rendered |
| CourtSearchForm.GroupClassTokens | app/find-a-court-or-tribunal-search/FindACourtSearchFormClient.tsx:80-82 | the form group has the error modifier exactly while the error is shown |
| CourtSearchForm.InputClassTokens | app/find-a-court-or-tribunal-search/FindACourtSearchFormClient.tsx:100-102 | the input keeps `govuk-input` and the width class, and gains the error modifier exactly while the error is shown |
| CourtSearchForm.SubmitKeepsConsistent | app/find-a-court-or-tribunal-search/FindACourtSearchFormClient.tsx:38-41 | a submit never leaves the error shown without a message |
| CourtSearchForm.ErrorStaysShown | app/find-a-court-or-tribunal-search/FindACourtSearchFormClient.tsx:38-45 | once shown, the error stays shown through typing and submitting |
| CourtSearchForm.AgreesWithCourtSearchRoute | app/find-a-court-or-tribunal-search/FindACourtSearchFormClient.tsx:36-45 | the client navigation and the `/api/court-search` redirect land on the same path with the same `q`, and a blank value shows the same message |
| CourtOptionsPage.Choose | app/find-a-court-or-tribunal-backup/page.tsx:91 | clicking a radio selects that radio's value and leaves the error alone |
| CourtOptionsPage.Submit | app/find-a-court-or-tribunal-backup/page.tsx:31-49 | nothing selected shows the error and stays; any selection clears the error and pushes the search page, whichever option it is |
| CourtOptionsPage.RadiosProps | app/find-a-court-or-tribunal-backup/page.tsx:84-94 | the radios get the two options and the selection, the error only while it is shown, and the fieldset id `courtOption` |
| CourtOptionsPage.StepKeepsValid | app/find-a-court-or-tribunal-backup/page.tsx:26-48 | one click or submit keeps the selection empty or an option value, and the error equal to the message exactly while shown |
| CourtOptionsPage.RunKeepsValid | app/find-a-court-or-tribunal-backup/page.tsx:26-48 | any sequence of clicks and submits keeps that invariant |
| CourtOptionsPage.ReachableStatesValid | app/find-a-court-or-tribunal-backup/page.tsx:26-28 | every state reachable from the first render satisfies the invariant |
| CourtOptionsPage.CheckedIffPicked | app/find-a-court-or-tribunal-backup/page.tsx:90 | a radio is checked exactly when it is the selected one |
| CourtOptionsPage.ExactlyThePickedRadio | app/find-a-court-or-tribunal-backup/page.tsx:89-90 | after a click, exactly the clicked radio is checked |
| CourtOptionsPage.FieldsetDescribedByError | app/find-a-court-or-tribunal-backup/page.tsx:92 | the fieldset is described by `courtOption-error` exactly while the error is shown, and by nothing otherwise |
| CourtOptionsPage.AgreesWithCourtOptionRoute | app/find-a-court-or-tribunal-backup/page.tsx:34-48 | in a valid state, the client submit and the `/api/court-option` handler compute the same outcome: whether there is an error, its message, and the search page as the destination |
| Courts.Filter | app/results/page.tsx:52-57 | the filter keeps only passing courts and never more than it was given |
| Courts.FilterMembers | app/results/page.tsx:52-57 | a court is kept exactly when it is in the index and passes |
| Courts.FilterSubsequence | app/results/page.tsx:52-57 | the kept courts are in index order |
| Courts.FilterMonotone | app/results/page.tsx:52-57 | a stricter test keeps a subsequence of what a looser one keeps |
| Courts.FilterAgreeing | app/results/page.tsx:52-57 | tests that agree on every court keep the same courts |
| Courts.SubsequenceMembers | app/results/page.tsx:52-57 | a subsequence holds only elements of the sequence it was taken from |
| ResultsPage.Query | app/results/page.tsx:113 | an absent `q` reads as the empty query |
| ResultsPage.Title | app/results/page.tsx:29-30 | the title is `Results for "` followed by exactly the query and a closing `"`, or "Search results" when there is none |
| ResultsPage.TitleInjective | app/results/page.tsx:30 | different queries give different titles |
| ResultsPage.Render | app/results/page.tsx:127-142 | the page asks for a term exactly when the query is empty, and lists for that query otherwise |
| ResultsPage.Href | app/results/page.tsx:87 | a court links to `/courts/` followed by its slug |
| ResultsPage.HrefInjective | app/results/page.tsx:87 | courts with different slugs link to different pages |
| ResultsPage.ListedAreTheMatches | app/results/page.tsx:52-76 | the listed courts are exactly those whose name, type or area mentions the query, ignoring case, in index order; the live region announces that count |
| ResultsPage.CaseInsensitive | app/results/page.tsx:54-56 | lower-casing the query does not change the results |
| ResultsPage.MentionsPart | app/results/page.tsx:54 | a field that mentions a query mentions every part of it |
| ResultsPage.LongerQueryNarrows | app/results/page.tsx:52-57 | the results for a query are a subsequence of the results for any part of it |
| CourtSearchPage.Submit | app/find-a-court-or-tribunal-search/page.tsx:16-21 | a submit shows the results and records the trimmed `fullName`, or the empty term when the field is absent |
| CourtSearchPage.Filtered | app/find-a-court-or-tribunal-search/page.tsx:33-37 | an empty term filters to nothing; otherwise every court kept has a name mentioning the term |
| CourtSearchPage.Displayed | app/find-a-court-or-tribunal-search/page.tsx:40-43 | an empty term or "manchester" in any case lists the whole index; every listing keeps index order |
| CourtSearchPage.DisplayedAreNameMatches | app/find-a-court-or-tribunal-search/page.tsx:33-43 | any other term lists exactly the courts whose name mentions it, ignoring case |
| CourtSearchPage.DisplayedFromIndex | app/find-a-court-or-tribunal-search/page.tsx:40-43 | every listed court comes from the index |
| CourtSearchPage.EmptyTermActsAsManchester | app/find-a-court-or-tribunal-search/page.tsx:40-43 | an empty search renders the same courts and the same echoed term as a search for "manchester", however padded |
| CourtSearchPage.UrlSlug | app/find-a-court-or-tribunal-search/page.tsx:135-143 | the three mapped slugs use their short form and every other slug is kept |
| CourtSearchPage.UrlSlugInjective | app/find-a-court-or-tribunal-search/page.tsx:135-143 | two different slugs outside the short forms link to different pages |
| CourtSearchPage.Href | app/find-a-court-or-tribunal-search/page.tsx:149 | the link is the court-details prefix followed by the mapped slug |
| CourtSearchPage.LinkText | app/find-a-court-or-tribunal-search/page.tsx:152-156 | the link text starts with the name, and only "Manchester Crown Court" gains " (Minshull St)" |
| CourtSearchPage.Summarize | app/find-a-court-or-tribunal-search/page.tsx:112-116 | the count is the number listed, the nouns are plural exactly when it is not one, and the echoed term is never empty |
| CourtSearchPage.Render | app/find-a-court-or-tribunal-search/page.tsx:101-162 | the results region exists exactly after a submit, with one link per listed court and the count to match |
| CourtSearchPage.SingularOnlyForOne | app/find-a-court-or-tribunal-search/page.tsx:112-115 | the plural "s" is left off exactly when one court is listed |
| CourtSearchPage.LinksFollowDisplayed | app/find-a-court-or-tribunal-search/page.tsx:133-156 | each link goes to the details page of the court at the same position and is labelled with its name |
| CourtSearchPage.ResultsAfterSubmit | app/find-a-court-or-tribunal-search/page.tsx:12-21 | the results region is hidden until the first submit and stays once shown |
| CourtSearchPage.LastSubmitWins | app/find-a-court-or-tribunal-search/page.tsx:19-20 | the term in use is the trimmed value of the last submit |
| Json.Lookup | scripts/verify-dependencies.mjs:123 | a property is found exactly when some member has that name, and its value is that member's |
| Json.Entries | scripts/verify-dependencies.mjs:89 | `Object.entries` gives an object's members, an array's or a string's elements keyed by their decimal index, and nothing for other values |
| DependencyAudit.CheckVersions | scripts/verify-dependencies.mjs:86-87 | an absent or falsy section flags nothing |
| DependencyAudit.UnpinnedEntries | scripts/verify-dependencies.mjs:89-99 | the intended report: every reported entry has an unpinned version, and every string entry with an unpinned version is reported |
| DependencyAudit.RangeAndAliasDisjoint | scripts/verify-dependencies.mjs:92-96 | no version is both a `^`/`~` range and an `npm:` alias |
| DependencyAudit.CheckEntriesFlagsEachOnce | scripts/verify-dependencies.mjs:89-99 | the two independent checks report exactly the unpinned string entries, each once and in order |
| DependencyAudit.FlaggedAreStringEntries | scripts/verify-dependencies.mjs:89-99 | an entry is flagged exactly when it is string-valued with an unpinned version: each flagged entry is such an entry under the same name and version, and each such entry is flagged |
| DependencyAudit.FindUnpinned | scripts/verify-dependencies.mjs:78-108 | the script crashes exactly on a `null` manifest; otherwise each category is its section's check |
| DependencyAudit.ChildPath | scripts/verify-dependencies.mjs:152 | a child's path is its key at the top, and otherwise the parent's path, a dot and the key |
| DependencyAudit.IssueName | scripts/verify-dependencies.mjs:133 | an issue is named by a truthy `name` and otherwise by its path |
| DependencyAudit.CheckNode | scripts/verify-dependencies.mjs:123-147 | a non-package adds nothing; checking a package throws exactly when its `integrity` is truthy but not a string; otherwise it counts one package, with a hash exactly when `integrity` is truthy, and reports nothing for a `sha512-`/`sha1-`/`sha256-` hash, one unknown-format issue for any other string, and one missing-hash issue naming `resolved` when the hash is falsy |
| DependencyAudit.Then | scripts/verify-dependencies.mjs:150-155 | the first crash ends the walk |
| DependencyAudit.IssuesAreMissingOrInvalid | scripts/verify-dependencies.mjs:132-145 | every issue is a missing hash or an unknown format |
| DependencyAudit.Walk | scripts/verify-dependencies.mjs:119-156 | a completed walk never counts more packages with a hash than packages, and it reports one missing-hash issue per package without one |
| DependencyAudit.WalkChecksVisited | scripts/verify-dependencies.mjs:119-156 | the recursive walk equals checking the visited nodes one after another |
| DependencyAudit.Visited | scripts/verify-dependencies.mjs:120 | a falsy value is not visited; a truthy one is visited first, under its own path |
| DependencyAudit.VisitedBelowTopAreObjects | scripts/verify-dependencies.mjs:151 | every node visited below the top is a non-array object |
| DependencyAudit.CheckAllCounts | scripts/verify-dependencies.mjs:123-127 | checking nodes crashes exactly when one crashes; otherwise it counts the package nodes and those with a truthy hash |
| DependencyAudit.CheckNodeInvalid | scripts/verify-dependencies.mjs:129-138 | one node reports an unknown-format issue exactly when it is a package whose hash is a string with no recognised prefix |
| DependencyAudit.CheckAllInvalid | scripts/verify-dependencies.mjs:119-156 | the unknown-format issues of a check are one per visited package whose hash string has no recognised prefix, counted from the nodes rather than from the issues |
| DependencyAudit.IntegrityTotals | scripts/verify-dependencies.mjs:158-165 | the lockfile check accounts for exactly the visited nodes: it crashes when one of them crashes; otherwise both counters count those nodes, the missing-hash issues are the packages without a hash, the unknown-format issues are the visited packages whose hash string has no recognised prefix, and there are no other issues |
| DependencyAudit.ParseArgs | scripts/verify-dependencies.mjs:303-307 | each option is on exactly when its long or short flag is among the arguments |
| DependencyAudit.ArgsAreFlags | scripts/verify-dependencies.mjs:303-310 | adding unknown or repeated arguments does not change the options |
| DependencyAudit.Audit | scripts/verify-dependencies.mjs:199-251 | the run crashes exactly on a `null` manifest or a crashing walk, and otherwise reports the walk's result |
| DependencyAudit.VerdictOf | scripts/verify-dependencies.mjs:202-299 | the run fails exactly on an integrity issue, and passes cleanly exactly with no issue, nothing unpinned and a successful install check |
| DependencyAudit.ExitCode | scripts/verify-dependencies.mjs:290-322 | the exit code is always 0 or 1 |
| DependencyAudit.ExitCodeOne | scripts/verify-dependencies.mjs:192-299 | apart from help, the script exits 1 exactly when a file is missing, the manifest is `null`, the walk crashes, or an integrity issue is found; unpinned versions and the install check never cause it |
| DependencyAudit.FixAndVerboseDoNotMatter | scripts/verify-dependencies.mjs:239-244 | `--fix` and `--verbose` never change the exit code |
| DependencyAudit.ListIssues | scripts/verify-dependencies.mjs:257-265 | verbose shows every issue; otherwise the first ten are shown |
| DependencyAudit.ListingAccountsForAll | scripts/verify-dependencies.mjs:257-265 | the shown issues are the first ones, in order, and "… and N more" counts exactly the rest |
| GovInput.InputId | components/govuk/GovInput.tsx:32 | the input id is `id` when given and `name` otherwise |
| GovInput.PartId | components/govuk/GovInput.tsx:33-34 | the hint or error id exists exactly when that text is given, and is the input id with a suffix |
| GovInput.Render | components/govuk/GovInput.tsx:40-72 | the hint and error elements are rendered exactly when given; `aria-describedby` is omitted exactly when there is no hint, no error and no caller id |
| GovInput.DescribedByTokens | components/govuk/GovInput.tsx:36-38 | `aria-describedby` names the rendered hint, then the rendered error, then the caller's ids, and nothing else |
| GovInput.DescribedByOnlyRenderedParts | components/govuk/GovInput.tsx:36-66 | every id the component adds to `aria-describedby` belongs to a rendered element |
| GovInput.GroupClassTokens | components/govuk/GovInput.tsx:42-44 | the form group has the error modifier exactly when there is an error |
| GovInput.InputClassTokens | components/govuk/GovInput.tsx:63-65 | the input has `govuk-input`, then the error modifier exactly when there is an error, then the caller's classes, with no whitespace at the ends |
| GovRadios.HintId | components/govuk/GovRadios.tsx:38 | a hint id exists exactly when there is a hint, and is the base id with `-hint` |
| GovRadios.RenderItem | components/govuk/GovRadios.tsx:78-95 | a radio carries its option's value, is checked exactly when that value is the selected one, and has a hint id exactly when the option has a hint |
| GovRadios.Render | components/govuk/GovRadios.tsx:43-117 | one radio per option; `aria-describedby` is omitted exactly when there is neither hint nor error |
| GovRadios.ItemsFollowOptions | components/govuk/GovRadios.tsx:78-90 | the radio at each position is that option's, with the positional id |
| GovRadios.OptionIdsDistinct | components/govuk/GovRadios.tsx:79 | different positions get different input ids |
| GovRadios.ItemIdsDistinct | components/govuk/GovRadios.tsx:78-86 | the radio ids of one group are pairwise distinct |
| GovRadios.AtMostOneChecked | components/govuk/GovRadios.tsx:90 | with distinct option values, at most one radio is checked |
| GovRadios.SelectedOptionChecked | components/govuk/GovRadios.tsx:90 | the selected option is checked, and any other radio is checked exactly when it has the same value |
| GovRadios.DescribedByTokens | components/govuk/GovRadios.tsx:37-41 | the fieldset is described by the hint id when there is a hint, then the error id when there is an error, and nothing else |
| GovRadios.GroupClassTokens | components/govuk/GovRadios.tsx:45-47 | the group has the error modifier exactly when there is an error, then the caller's classes |
| GovBreadcrumbs.RenderItem | components/govuk/GovBreadcrumbs.tsx:13-31 | every item keeps its crumb's text, and a link goes to the crumb's href |
| GovBreadcrumbs.Render | components/govuk/GovBreadcrumbs.tsx:12 | one list item per crumb |
| GovBreadcrumbs.LinksBeforeLast | components/govuk/GovBreadcrumbs.tsx:21-30 | every crumb but the last is a link to its href; the last is not a link |
| GovBreadcrumbs.ActiveIffCurrent | components/govuk/GovBreadcrumbs.tsx:15-29 | the active class is on exactly the item marked as the current page |
| GovBreadcrumbs.ExactlyOneCurrent | components/govuk/GovBreadcrumbs.tsx:16-29 | a non-empty trail marks exactly one item as the current page, the last |
| GovBreadcrumbs.EmptyTrail | components/govuk/GovBreadcrumbs.tsx:12 | an empty trail renders no items and no current page |

## Left out

- Network, file and process I/O are not modelled. This covers reading `package.json` and `package-lock.json`, `JSON.parse` failures, logging and colours, and the `npm ci --dry-run` probe. The parsed files (`None` when a file is missing) and the probe's outcome are parameters of `DependencyAudit.ExitCode`.
- React and the router are modelled only as state transitions and `push` targets: hooks, effects, event listeners, focus handling (`FocusOnRender`), the 100 ms scroll timer, and text that is only displayed.
- The courts index is a parameter: the JSON import is not modelled.
- Strings are sequences of Unicode scalar values. `toLowerCase` folds ASCII capitals only, so the model does not have full Unicode case mapping. `Object.entries` of a string yields one entry per scalar value rather than per UTF-16 unit.
- Json.Lookup: on a duplicate member name it returns the first member, while `JSON.parse` keeps the last. Lockfiles do not repeat keys.
- Json.Entries: lists an object's members in document order. `Object.entries` puts integer-like keys first, in ascending order, and lists a repeated key once with its last value. In a lockfile the keys are package paths and names, which are never repeated and in practice are not array indices. Where that fails, the walk's issue order, and so which ten issues are listed and which path a crash names, can differ from the script's.
- Json: numbers are integers. Only their truthiness is ever used, so fractions are not modelled.
- The decimal integrity coverage percentage is not modelled. Its two integer inputs, `totalPackages` and `packagesWithIntegrity`, are.
- Http.DecodedParam: models the landing page's `searchParams.get` as `decodeURIComponent`. It does not turn `+` into a space, and it rejects malformed escapes that `URLSearchParams` would pass through. Every query written by the modelled code uses `%20`, never `+`, and is well formed.
- Http.Request: a header has a single value. Headers that repeat, and form values that are files, are not modelled. Neither is URL validation of the host.
- SearchTemplate.AgreesWithSearchRoute: compares the client submit with the `/api/search` handler and does not claim the route is reachable. The home search form (templates/SearchTemplate.tsx:26) has no `action`, so without JavaScript it submits a GET to its own page and never reaches `/api/search`. That GET submission is not modelled.
- CourtOptionsPage.AgreesWithCourtOptionRoute: compares the client submit with the `/api/court-option` handler and does not claim the route is reachable. The backup options form (app/find-a-court-or-tribunal-backup/page.tsx:78-83) has no `action`, so without JavaScript it submits a GET to its own page and never reaches `/api/court-option`. That GET submission is not modelled.
- Http.RedirectTo: the redirect's scheme and host are the raw header values. The `new URL(...)` parse in each route is not modelled. That parse lower-cases the scheme and host, drops a default port, moves anything after a `/`, `?` or `#` in the host header into the path, query or fragment, and throws on a protocol that is not a URL scheme (such as `https,http`), which makes the route fail instead of redirecting. The `ApiRoutes` contracts hold for the raw values.
- Http.SetSearch: the setter's removal of ASCII tab, LF and CR is not modelled. Every text the routes store is a constant message or `encodeURIComponent` output, and neither can hold those characters.
- Html.Tokens: splits on spaces only. The class and id strings the components build contain no other whitespace; where a caller's string is involved, `SpaceSeparated` requires that.
- CourtSearchPage.UrlSlug: `slugMap[court.slug]` also finds inherited object properties such as `constructor`. The model only looks up the map's own keys.
- ResultsPage: an array-valued `q` (a repeated query parameter) is not modelled; `q` is a string or absent.
- The `fix` option only prints guidance, so the model keeps just its effect on the exit code, which is none.
- The Playwright test files are not used as a source of truth.
