# bat-extension: the CSP and Permissions-Policy evaluator, in Dafny

The extension watches the pages a browser loads and reports the security
headers that fall short. This project models its core and proves
properties of it. The core has five parts:

- **The evaluator**: `SaasService` in `src/services/saas.service.ts`. It holds two catalogs, one of Content-Security-Policy directives and one of Permissions-Policy features. Both catalogs start as the declared tables in `src/dto/csp.ts` and `src/dto/permission.ts` and are never reset.
  - `checkDirective(name, value)` looks up the first entry with that exact name. It strips the quotes from the value and then updates the entry in place:
    - `none` is pushed;
    - a value mentioning `unsafe-inline` or `unsafe-eval` clears the entry and rewrites its advice;
    - a recommended value is pushed;
    - anything else clears the entry and gives it the wildcard advice.
  - `checkPermissionPolicy(name, value)` walks the space-separated tokens of the value:
    - `()` is pushed;
    - `*` clears;
    - a recommended token is pushed, followed by one copy of the whole value for each recommended entry that overlaps it.
  - An entry whose observed `value` list ends up empty is a *finding*.
- **The two catalogs** (28 CSP entries and 34 Permissions-Policy entries). Each entry has its name, recommended tokens, risk level and risk score; the score is the record type's `1..10`.
- **The background listeners** in `entrypoints/background.ts`:
  - the request filter;
  - header-name routing;
  - Permissions-Policy header parsing, evaluation and finding selection;
  - the meta-tag fallback of the tab listener and its `APP_DATA` record.
- **The popup's aggregation** in `entrypoints/popup/App.tsx`:
  - grouping by risk level;
  - ordering the groups High, Medium, Low;
  - sorting each group by score;
  - counting the findings.

Each part is modelled in the form the source takes:

- The evaluator is a class with the two catalogs as `seq` fields. Its methods update one entry in place, and their contracts state the whole new state.
- The catalogs are constants.
- The parsing and filtering chains are functions.
- The code that loops or mutates is written as methods with loops:
  - the header loop;
  - the token loop and its inner loop;
  - the grouping `reduce`;
  - the counting `reduce`;
  - the in-place score sort, written on an `array`.

The source returns an entry *by reference*. In the model, both evaluator methods return the entry's index in the catalog, and findings are read from the catalog after every pair of a header has been evaluated. So, as in the source, a finding shows the entry's final state, and a name that is repeated in a header yields the same entry more than once.

Quirks of the code that the model keeps:

- `'none'` on an entry that recommends `none` is observed twice.
- When both unsafe tokens occur, only `unsafe-inline` is named.
- Nothing ever resets the catalogs.
- Duplicate names are hidden by first-match lookup. The second `require-trusted-types-for` and the second `accelerometer` therefore never change.
- The Permissions-Policy value is split on single spaces.
- On the declared `microphone` entry, that is, the first evaluation of that name, `microphone=(self)` leaves nothing observed, so it is reported. An observation kept from an earlier header, such as `()`, is not cleared by it.
- A header named `Content-Security-Policy-Report-Only` is also routed to the CSP path.
- `splitDirectives` is called but is not a member of `SaasService`, so the call throws. The model has both the listeners as written, where the throw ends them (see "## Findings"), and the listeners as they would run if the call returned.

Modules:

| module | file | contents |
|---|---|---|
| `Wrappers` | `wrappers.dfy` | `Option` |
| `Strings` | `strings.dfy` | JavaScript's `indexOf`/`includes`, `replace(/'/g, '')`, `split`, `join`, `trim` and `toLowerCase`, as used by the core |
| `Dto`, `DirectiveValue`, `PolicyValue` | `dto.dfy` | the catalog record, first-match lookup, and the token constants |
| `CspCatalog`, `PermissionCatalog` | `csp_catalog.dfy`, `permission_catalog.dfy` | the declared tables |
| `Saas` | `saas_service.dfy` | the two rules and the `SaasService` class |
| `Background` | `background.dfy` | the request filter, header routing, parsing, finding selection and the two listeners |
| `Popup` | `popup.dfy` | grouping, ordering, sorting and counting |
| `CatalogFacts` | `catalog_facts.dfy` | what the declared tables make of the rules |

## Model

| member | source | states |
|---|---|---|
| Saas.SaasService.constructor | src/services/saas.service.ts:68 | The shared evaluator starts with the declared CSP and Permissions-Policy tables as its catalogs. Every Permissions-Policy entry recommends only the two markers `()` and `*`, and the evaluator's invariant holds. |
| Saas.SaasService.CheckDirective | src/services/saas.service.ts:7-32 | Returns the index of the first CSP entry with exactly the given name, or `None` when there is none. An unknown name changes nothing. Otherwise only that entry changes: it becomes its CSP verdict. The Permissions-Policy catalog is untouched, and the invariant is kept: names, prose, level and score never change, recommendations stay non-empty, and shadowed entries stay as declared. |
| Saas.SaasService.CheckPermissionPolicy | src/services/saas.service.ts:34-65 | Returns the index of the first Permissions-Policy entry with the name, or `None`. An unknown name changes nothing. Otherwise only that entry's observed list changes, to the result of its tokens. The CSP catalog is untouched. While the tables recommend only markers, nothing but `()` is ever observed. |
| Saas.CspVerdict | src/services/saas.service.ts:13-30 | The CSP rule by outcome. The name, description, explanation, level and score are kept, and the recommendation stays non-empty. The entry becomes a finding exactly when the stripped value is unsafe or not recommended. Otherwise its advice is kept, and the old observed list is extended by new values that include the stripped value. The exact extension is `[v]` for a recommended value `v` other than `none` (`CatalogFacts.RecommendedAccepted`) and `[none, none]` for `'none'` (`CatalogFacts.NoneAccepted`). |
| Saas.EvaluateCspValue | src/services/saas.service.ts:13-30 | The statement sequence of `checkDirective` (conditional `none` push, then the unsafe, recommended and wildcard branches) yields exactly the CSP verdict, including the double `none`. |
| Saas.UnsafeKeyword | src/services/saas.service.ts:17-18 | The keyword named in the message occurs in the value. It is `unsafe-inline` exactly when that occurs, and `unsafe-eval` otherwise. |
| Saas.UnsafeAlwaysFinding | src/services/saas.service.ts:17-21 | A value with an unsafe keyword anywhere is always a finding. Its message and advice name that keyword. |
| Saas.Tokens | src/services/saas.service.ts:40-42 | There is at least one token, and no token holds a space or a quote. Joined back with single spaces, the tokens give the whole value with its quotes removed, so splitting loses nothing but the quotes. |
| Saas.EvaluatePolicyTokens | src/services/saas.service.ts:40-63 | The token loop leaves the entry equal to `PermissionVerdict`: the tokens applied left to right, with only the observed list changed. |
| Saas.ApplyToken | src/services/saas.service.ts:42-61 | One token: `()` is appended, `*` clears, a recommended token is appended with its echoes, and any other token leaves the list unchanged. |
| Saas.AppendEchoes | src/services/saas.service.ts:55-59 | The inner loop appends `Echoes`: the unsplit value, once per recommended entry that contains it or is contained in it, in order. |
| Saas.EchoesAreValue | src/services/saas.service.ts:55-59 | Every echo is the whole unsplit value, and there are none when no recommended entry overlaps it. |
| Saas.RecommendedValueEchoes | src/services/saas.service.ts:51-59 | A value that is itself recommended is echoed at least once. |
| Saas.MarkersOnlyNeverEcho | src/services/saas.service.ts:43-59 | For an entry that recommends only `()` or `*`, the recommended-token branch and its echoes are never reached: only the two markers act. |
| Saas.MarkerObservedShape | src/services/saas.service.ts:43-49 | Under the markers alone, the observed list is empty if a `*` occurs and the old list otherwise, followed by one `()` for each `()` after the last `*`. |
| Saas.MarkerFindingIff | src/services/saas.service.ts:43-49 | Under the markers alone, the entry ends with nothing observed exactly when no `()` follows the last `*`, and either some `*` occurs or nothing was observed before. |
| Saas.MarkerObservedDisallowsOnly | src/services/saas.service.ts:43-49 | Under the markers alone, an observed list made only of `()` stays made only of `()`. |
| Saas.PermissionObservesOnlyDisallows | src/services/saas.service.ts:40-63 | On an entry that recommends only markers, a Permissions-Policy call observes nothing but `()`. |
| Saas.CspStepKeepsEvolved | src/services/saas.service.ts:19-28 | Rewriting an unshadowed CSP entry as the CSP rule does keeps the catalog invariant. |
| Saas.PermissionStepKeepsEvolved | src/services/saas.service.ts:44-57 | Changing only the observed list of an unshadowed Permissions-Policy entry keeps the catalog invariant. |
| Saas.LookupAvoidsShadowed | src/services/saas.service.ts:8 | While the names are the declared ones, lookup never lands on an entry hidden by an earlier entry of the same name. |
| Dto.FindFirst | src/services/saas.service.ts:35 | `find` by exact name gives the first entry with that name. It gives `None` exactly when no entry has the name. |
| Dto.FindFirstByNames | src/services/saas.service.ts:8 | Lookup depends only on the names, so updates that keep every name keep every lookup. |
| Strings.IndexOfFindsFirst | src/services/saas.service.ts:17 | `indexOf` gives the first position where the substring occurs. It gives -1 exactly when the substring occurs nowhere. |
| Strings.StripQuotes | src/services/saas.service.ts:13 | `replace(/'/g, '')` leaves no quote and adds no other character. It leaves a quote-free string unchanged. |
| Strings.StripQuotesJoin | src/services/saas.service.ts:40-42 | For a separator that is not a quote, stripping each piece and then joining them equals stripping the joined string. |
| Strings.StripQuotesIdempotent | src/services/saas.service.ts:42 | Stripping quotes twice is the same as stripping them once. |
| Strings.Split | entrypoints/background.ts:52 | The pieces of `split` contain no separator, and joining them with the separator gives back the input. |
| Strings.SplitJoin | entrypoints/background.ts:55-56 | Splitting a join of separator-free pieces gives back the pieces. |
| Strings.SplitThenJoinReplaces | entrypoints/background.ts:55-56 | Splitting on one character and joining with another is the same as replacing every occurrence of it. |
| Strings.Trim | entrypoints/background.ts:53 | `trim` gives a substring of the input that neither starts nor ends with white space, and what it drops at either end is all white space. |
| Strings.TrimEmptyIff | entrypoints/background.ts:53 | A string trims to empty exactly when every character of it is white space. |
| Strings.ToLower | entrypoints/background.ts:38-40 | `toLowerCase` keeps the length and leaves no upper-case ASCII letter. Every other character is kept, and each upper-case letter moves by the distance from `A` to `a`. |
| Strings.ToLowerIdempotent | entrypoints/background.ts:38-40 | Lower-casing twice is the same as lower-casing once. |
| Strings.ToLowerConcat | entrypoints/background.ts:38-40 | Lower-casing commutes with concatenation, so a header name's parts lower-case independently. |
| CspCatalog.StartsUnobserved | src/dto/csp.ts:5-423 | Every CSP entry starts with nothing observed. |
| CspCatalog.LevelsDeclared | src/dto/csp.ts:5-423 | Every CSP entry is at risk level High, Medium or Low. |
| CspCatalog.RecommendsSomething | src/dto/csp.ts:5-423 | Every CSP entry recommends at least one token. |
| CspCatalog.TrustedTypesDeclaredTwice | src/dto/csp.ts:107-406 | `require-trusted-types-for` is declared at positions 7 and 26, with different recommendations. |
| CspCatalog.DefaultSrcEntry | src/dto/csp.ts:6-22 | `default-src` is the first entry: it recommends `none`, `self`, `https://` and `http://`, at Medium risk with score 6. |
| CspCatalog.ScriptSrcEntry | src/dto/csp.ts:23-38 | `script-src` recommends `self`, `nonce-` and `hash-`, but not `none`, at High risk with score 8. |
| CspCatalog.ImgSrcEntry | src/dto/csp.ts:55-70 | `img-src` recommends `self`, `*` and `https://`, at Low risk with score 3. |
| PermissionCatalog.StartsUnobserved | src/dto/permission.ts:5-425 | Every Permissions-Policy entry starts with nothing observed. |
| PermissionCatalog.LevelsDeclared | src/dto/permission.ts:5-425 | Every Permissions-Policy entry is at risk level High, Medium or Low. |
| PermissionCatalog.RecommendsOneMarker | src/dto/permission.ts:5-425 | Every Permissions-Policy entry recommends exactly one token, and that token is `()` or `*`. |
| PermissionCatalog.AccelerometerDeclaredTwice | src/dto/permission.ts:6-101 | `accelerometer` is declared at positions 0 and 6. |
| PermissionCatalog.AutoplayEntry | src/dto/permission.ts:34-47 | `autoplay` recommends `*`, at Low risk with score 2. |
| PermissionCatalog.CameraEntry | src/dto/permission.ts:76-89 | `camera` recommends `()`, at High risk with score 10. |
| PermissionCatalog.MicrophoneEntry | src/dto/permission.ts:246-257 | `microphone` recommends `()`, at High risk with score 10. |
| CatalogFacts.RecommendedTokensSafe | src/dto/directive-value.ts:1-23 | None of the twelve tokens the declared CSP table recommends mentions `unsafe-inline` or `unsafe-eval`. |
| CatalogFacts.CspRecommendsNothingUnsafe | src/dto/csp.ts:5-423 | No token recommended anywhere in the CSP table is unsafe. |
| CatalogFacts.QuotedStrips | src/services/saas.service.ts:13 | A quoted token without quotes of its own strips to the bare token. |
| CatalogFacts.NoneAccepted | src/services/saas.service.ts:14-24 | `'none'` on an entry that recommends `none` appends `none` twice. |
| CatalogFacts.RecommendedAccepted | src/services/saas.service.ts:13-24 | On any entry, a safe recommended value other than `none` is accepted: it is appended exactly once, and the recommendations stay as they were. |
| CatalogFacts.ScriptSrcSelfAccepted | src/dto/csp.ts:23-38 | On the declared `script-src` entry (the first evaluation of that name), `script-src 'self'` leaves the observed list `[self]`. |
| CatalogFacts.DefaultSrcNoneAccepted | src/dto/csp.ts:6-22 | On the declared `default-src` entry (the first evaluation of that name), `default-src 'none'` is accepted, and the entry observes `none` twice. |
| CatalogFacts.UnrecommendedReported | src/services/saas.service.ts:25-28 | A value that is neither unsafe nor recommended is reported with the wildcard message and the explicit-paths advice. |
| CatalogFacts.ScriptSrcNoneReported | src/dto/csp.ts:23-38 | `script-src 'none'` is reported as a wildcard, because `script-src` does not recommend `none`. |
| CatalogFacts.ImgSrcAnyAccepted | src/dto/csp.ts:55-70 | On the declared `img-src` entry (the first evaluation of that name), `img-src *` is accepted: the entry observes `*`. A later `img-src *` can be reported, once an earlier value has replaced the recommendations. |
| CatalogFacts.ReportedAfterUnrecommended | src/services/saas.service.ts:25-28 | Once a safe value outside an entry's recommendations has replaced them by the advice, every later safe value other than the advice text is reported for that entry. |
| CatalogFacts.ImgSrcAnyReportedAfterHost | src/services/saas.service.ts:25-28 | After `img-src https://x`, the `img-src` entry recommends only the advice, and a later `img-src *` is reported. |
| CatalogFacts.UnsafeInlineReported | src/services/saas.service.ts:17-21 | `'unsafe-inline'` on any entry is reported, and the message and advice name `unsafe-inline`. |
| CatalogFacts.AllowAllReported | src/services/saas.service.ts:47-49 | The value `*` leaves any entry with nothing observed, so the entry is reported. |
| CatalogFacts.AutoplayAllowAllReported | src/dto/permission.ts:34-47 | `autoplay=*` is reported, although `autoplay` recommends `*`. |
| CatalogFacts.DisallowTwiceObservedTwice | src/services/saas.service.ts:43-44 | Evaluating `camera=()` twice observes `()` twice: the rule is not idempotent. |
| CatalogFacts.UnknownTokenIgnored | src/services/saas.service.ts:40-63 | A single token that is neither marker and is not recommended leaves the entry exactly as it was. |
| CatalogFacts.MicrophoneSelfReported | src/dto/permission.ts:246-257 | On the declared `microphone` entry (the first evaluation of that name), `microphone=(self)` leaves nothing observed, so it is reported. |
| CatalogFacts.MicrophoneSelfAfterDisallowKept | src/services/saas.service.ts:40-63 | After `microphone=()` the entry observes `()`, and a later `microphone=(self)` does not clear it, so the entry is not reported. |
| CatalogFacts.MicrophoneSegment | entrypoints/background.ts:55-60 | The segment `microphone=(self)` parses to the name `microphone` and the value `(self)`. |
| CatalogFacts.SpacedCameraNotFound | src/dto/permission.ts:76-89 | The name `camera ` (with a trailing space) matches no Permissions-Policy entry. |
| CatalogFacts.DuplicatesNeverChange | src/services/saas.service.ts:8 | For the declared tables, the second `require-trusted-types-for` and the second `accelerometer` keep their declared state for the life of the evaluator. |
| Background.SystemPagesSkipped | entrypoints/background.ts:29-32 | No `chrome://` or `chrome-extension://` URL is inspected, whatever its request type. |
| Background.WebPagesInspected | entrypoints/background.ts:29-32 | An `http://` or `https://` main-frame request is inspected. |
| Background.RoutedBySubstring | entrypoints/background.ts:37-48 | A header name that contains `content-security-policy` (or `permissions-policy`) in any letter case is routed to that path. |
| Background.CspSpellingLowers | entrypoints/background.ts:38-40 | A single scenario: `Content-Security-Policy` lower-cases to the routing key. The general routing facts are `Background.RoutedBySubstring` and `Strings.ToLowerConcat`. |
| Background.ReportOnlyIsCsp | entrypoints/background.ts:37-43 | `Content-Security-Policy-Report-Only` is routed to the CSP path as well. |
| Background.ShortNamesNotRouted | entrypoints/background.ts:37-48 | A name shorter than the keys is routed to neither path. |
| Background.ParsePair | entrypoints/background.ts:55-60 | The name of a pair never contains `=`. |
| Background.ParsePairReadsSegment | entrypoints/background.ts:55-60 | A trimmed segment without `=` is all name, with value `""`. Otherwise the name is the trimmed segment up to its first `=`, not trimmed again, and the value is the rest with every further `=` read as a space. |
| Background.SpacedPairKeepsSpace | entrypoints/background.ts:55-60 | A single scenario: ` camera = ()` parses to the name `camera ` and the value ` ()`. The general parsing fact is `Background.ParsePairReadsSegment`. |
| Background.AllSpacesIffTrimEmpty | entrypoints/background.ts:53 | The filter's test `trim().length > 0` fails exactly for segments made only of white space. |
| Background.NonBlank | entrypoints/background.ts:53 | The filter keeps no blank segment and never adds one. |
| Background.NonBlankMembers | entrypoints/background.ts:53 | A segment is kept exactly when it is in the header and is not blank. |
| Background.NonBlankConcat | entrypoints/background.ts:53 | The filter works piecewise, so kept segments stay in header order. |
| Background.ParsePermissions | entrypoints/background.ts:50-61 | A missing header value gives no pairs. Otherwise there is one pair per non-blank comma-separated segment. |
| Background.ParsesEachSegment | entrypoints/background.ts:50-61 | A header made of non-blank segments gives exactly one pair per segment, in order, each read from its own segment. |
| Background.BlankHeaderHasNoPairs | entrypoints/background.ts:50-53 | A header of commas and white space only gives no pairs. |
| Background.PermissionsAfter | entrypoints/background.ts:62-68 | Evaluating the pairs in turn keeps the catalog's size and every entry's name. |
| Background.Findings | entrypoints/background.ts:69 | The filter keeps only entries with nothing observed, and never more than there are results. |
| Background.FindingsIff | entrypoints/background.ts:62-69 | An entry is among the stored findings exactly when it has nothing observed and some pair of the header reached it. |
| Background.FindingsConcat | entrypoints/background.ts:69 | The findings of two runs of results are the findings of each, in order. |
| Background.RepeatedNameReportedTwice | entrypoints/background.ts:62-69 | A name given twice in one header, whose entry ends as a finding, yields that same entry twice. |
| Background.LookupsByNames | entrypoints/background.ts:63-68 | Lookups depend only on the catalog's names, so every pair finds the entry it would have found in the catalog before the header was evaluated. |
| Background.EvaluatePermissionsHeader | entrypoints/background.ts:50-73 | The header is parsed and its pairs are evaluated in order. The new catalog is those evaluations applied to the old one (the CSP catalog is untouched), and the stored findings are the reached entries with nothing observed, in their final state. |
| Background.EvaluatePairs | entrypoints/background.ts:62-68 | Evaluating the pairs one by one changes the catalog as `PermissionsAfter` states. Each result is the lookup of its pair in the old catalog. |
| Background.PermissionsHeaders | entrypoints/background.ts:44-48 | The sequence holds exactly the response headers whose names route to the Permissions-Policy path. |
| Background.StoredFindings | entrypoints/background.ts:44-73 | There is one store write per Permissions-Policy header, and each holds only findings. |
| Background.CspValues | entrypoints/background.ts:37-43 | At most one value is handed to the splitter per header. |
| Background.CspValuesMembers | entrypoints/background.ts:37-43 | The value of every CSP-routed header (`""` when it is missing) is handed to the splitter, and nothing else is. A response with no CSP-routed header hands over nothing. |
| Background.NoPermissionsHeaderNoChange | entrypoints/background.ts:44-75 | A response without a Permissions-Policy header leaves the catalog unchanged and stores nothing. |
| Background.OnHeadersReceived | entrypoints/background.ts:28-75 | The listener as it would run if the splitter call returned. A request that is not inspected, or has no header list, does nothing. Otherwise the header loop hands the CSP values (`""` when a value is missing) to the splitter. It evaluates each Permissions-Policy header against the catalog as left by the previous ones, and writes its findings. The CSP catalog stays as it was, and the invariant is kept. |
| Background.FirstMetaCsp | entrypoints/background.ts:131-133 | The selected tag is a policy meta tag of the frame: its name is empty and its content mentions `default-src`. None is selected exactly when the frame has no such tag. |
| Background.FirstMetaCspIsFirst | entrypoints/background.ts:131-133 | The selected tag is the first such tag. |
| Background.MetaCspValues | entrypoints/background.ts:128-138 | At most one value per frame is handed to the splitter, and each mentions `default-src`. |
| Background.TabAppData | entrypoints/background.ts:139-146 | `APP_DATA` is written exactly while the tab is loading, with the title and the favicon URL, each `""` when absent. |
| Background.OnTabUpdated | entrypoints/background.ts:108-150 | The listener as it would run if the splitter call returned. An invalid tab URL, or an injection that failed, does nothing. Otherwise the first policy meta tag of each frame goes to the splitter, and the `APP_DATA` record is the one `TabAppData` gives. |
| Background.BeforeFirstCsp | entrypoints/background.ts:36-43 | The headers the loop reaches before the throw: the longest prefix holding no CSP-routed header. It stops right before the first such header, if there is one. |
| Background.OnHeadersReceivedAsWritten | entrypoints/background.ts:28-75 | As written, the call at line 42 throws. So the stored findings, and the new Permissions-Policy catalog, are those of the headers before the first CSP header only. The listener throws exactly when some header is CSP-routed, and the CSP catalog and the invariant are kept. |
| Background.CspHeaderHidesPermissionsHeader | entrypoints/background.ts:36-75 | With a CSP header ahead of a Permissions-Policy header, nothing is handled and nothing is stored as written. If the splitter returned, that header's findings would be written. |
| Background.OnTabUpdatedAsWritten | entrypoints/background.ts:108-150 | As written, the call at line 135 throws and is caught at line 147, so the `APP_DATA` write is skipped exactly when some frame holds a policy meta tag. Otherwise the record is the one `TabAppData` gives. An invalid tab URL or a failed injection does nothing. |
| Background.MetaPolicySkipsAppData | entrypoints/background.ts:128-146 | A loading tab whose one frame holds a policy meta tag hands that tag to the splitter, so as written it gets no `APP_DATA`, though the record would be written if the call returned. |
| Popup.Levels | entrypoints/popup/App.tsx:32-38 | Every finding's risk level is a key of the grouping. |
| Popup.LevelsDistinctAndUsed | entrypoints/popup/App.tsx:32-38 | The keys are distinct, and each is the level of some finding. |
| Popup.WithLevel | entrypoints/popup/App.tsx:32-38 | A group holds only findings of its own level. |
| Popup.WithLevelCounts | entrypoints/popup/App.tsx:32-38 | A group holds every finding of its level, as often as it occurs, and nothing else. |
| Popup.WithLevelAbsent | entrypoints/popup/App.tsx:32-38 | A level that is not a key has an empty group. |
| Popup.GroupByRiskLevel | entrypoints/popup/App.tsx:32-38 | The grouping `reduce`: its keys are the levels in order of first appearance, and each key's group is that level's findings in their original order. |
| Popup.FlattenCounts | entrypoints/popup/App.tsx:32-45 | Concatenating the groups of distinct levels holds each finding of those levels as often as the input does. |
| Popup.GroupsPartition | entrypoints/popup/App.tsx:32-45 | When the levels cover every finding, the concatenated groups are a permutation of the findings. |
| Popup.RankIdentifiesLevel | entrypoints/popup/App.tsx:31 | `riskOrder.indexOf` gives 0, 1 and 2 exactly for High, Medium and Low, and -1 for any other level. |
| Popup.InsertByRank | entrypoints/popup/App.tsx:41 | Inserting a key keeps every other key: the result is the input plus that key, as a multiset. |
| Popup.InsertByRankSorted | entrypoints/popup/App.tsx:41 | Inserting a key into rank-sorted keys keeps them rank-sorted. |
| Popup.OrderByRisk | entrypoints/popup/App.tsx:40-41 | The sorted keys are in rank order and are a permutation of the keys. |
| Popup.InsertKeepsRankOrder | entrypoints/popup/App.tsx:41 | Inserting a key puts it after every key of equal rank. |
| Popup.OrderByRiskStable | entrypoints/popup/App.tsx:40-41 | The sort is stable: keys of equal rank keep their order of first appearance. |
| Popup.OrderedGroups | entrypoints/popup/App.tsx:40-45 | There is one group per level, the groups are in rank order, and each holds exactly the findings of its level. |
| Popup.MembersAreFlatten | entrypoints/popup/App.tsx:40-45 | Listing the groups' members in key order is the concatenation of the groups. |
| Popup.OrderedGroupsPartition | entrypoints/popup/App.tsx:32-45 | The ordered groups' members are a permutation of the findings, and no group is empty. |
| Popup.KnownLevelsInOrder | entrypoints/popup/App.tsx:31-45 | A High group comes before a Medium group. |
| Popup.SortByRiskScore | entrypoints/popup/App.tsx:145-146 | The in-place sort leaves the group with non-increasing `riskScore`, and the group is a permutation of what it was. |
| Popup.CountLevel | entrypoints/popup/App.tsx:78-83 | A count never exceeds the number of findings. |
| Popup.CountRiskLevels | entrypoints/popup/App.tsx:77-85 | The counting `reduce`: each counter counts the findings whose lower-cased level names it. `total` starts at the number of findings, and only a level named `total` adds to it. |
| Popup.CountsBounded | entrypoints/popup/App.tsx:78-85 | The three level counters never add up to more than the findings. |
| Popup.KnownLevelsAddUp | entrypoints/popup/App.tsx:78-85 | When every level lower-cases to high, medium or low, no finding adds to `total`, and `high + medium + low` is the number of findings, which is `total`. |
| Popup.DeclaredLevelsCounted | entrypoints/popup/App.tsx:80 | A single scenario: the declared levels High, Medium and Low lower-case to the three counters. The general counting facts are `Popup.KnownLevelsAddUp` and `Popup.CountsBounded`. |
| Popup.GetPageInfo | entrypoints/popup/App.tsx:26-85 | A missing stored list reads as empty. Both lists are grouped and ordered, and the counters cover the two lists together: `total` is the number of CSP findings plus the number of permission findings, plus the number of findings whose level lower-cases to `total`. By `Popup.KnownLevelsAddUp` that last number is 0 when every level is High, Medium or Low, as in the declared tables (`CspCatalog.LevelsDeclared`, `PermissionCatalog.LevelsDeclared`). |
| Popup.Regroup | entrypoints/popup/App.tsx:32-45 | Grouping followed by the key sort and re-keying gives the ordered groups. |
| Popup.GroupsInOrder | entrypoints/popup/App.tsx:42-45 | Re-keying gives one group per sorted key, in that order, each read from the grouping. |

## Left out

- `splitDirectives` is called for every CSP header and for every meta-tag policy, but `SaasService` does not define it. The model does not invent its behaviour, so on those paths the CSP catalog changes only through `CheckDirective`, and only when that is called directly.
- Background.OnHeadersReceived: assumes that the call to `splitDirectives` at `entrypoints/background.ts:42` returns, and returns the strings it is handed. As written the call throws a TypeError, which ends the listener at the first CSP header. The Permissions-Policy headers after that header are then neither evaluated nor stored. `Background.OnHeadersReceivedAsWritten` models that behaviour.
- Background.OnTabUpdated: assumes that the call to `splitDirectives` at `entrypoints/background.ts:135` returns. As written it throws at the first frame holding a policy meta tag, the `catch` at line 147 takes it, and the `APP_DATA` write (lines 139-146) is skipped. `Background.OnTabUpdatedAsWritten` models that behaviour.
- `StorageHelper` (`src/helpers/StorageHelper.ts`) wraps a foreign storage library, so the store is opaque. The writes are returned as outputs (`stored`, `appData`), and the reads are the `Option` inputs of `GetPageInfo`. The un-awaited, asynchronous nature of the writes is not modelled.
- The browser's event wiring (listener registration, `onInstalled`, `onMessage`, and the log-only `onBeforeSendHeaders`) has no logic beyond the filter, which `ShouldInspect` models.
- `browser.scripting.executeScript` and the DOM scraping of `checkMetaTag` run in the page, so their result is the `injection` parameter of `OnTabUpdated`. A thrown error, caught by the listener, is `None`.
- The `x-frame-options`, `x-content-type-options` and `x-xss-protection` headers are only logged.
- Console logging is not modelled, and neither is `entrypoints/content.ts`, which is only DOM queries and logging.
- The popup's React state, effects and JSX are not modelled; only the aggregation is kept.
- `wxt.config.ts` and `tailwind.config.js` are configuration with no logic.
- The catalogs' description, explanation and technical-explanation prose carries no behaviour. It is not transcribed: each is `""` in the declared tables.
- The CSP record's optional `deprecated` flag is never set or read by the core.
- `src/dto/risk-level.ts` is not part of this model. Risk levels are taken to be the strings `High`, `Medium` and `Low`, as the popup's `riskOrder` spells them.
- Strings.ToLower: lower-cases ASCII letters only, not the full Unicode case mapping of `toLowerCase`.
- Strings.Trim: treats as white space the ECMAScript WhiteSpace and LineTerminator characters of the Basic Multilingual Plane, which is what `trim` does on UTF-16 strings.
- Popup.OrderedGroups: a plain `seq` of groups stands for the re-keyed object. JavaScript orders integer-like object keys before all others, so a risk level spelled as a number would be listed first; that case is not modelled.
- Popup.CountRiskLevels: in the source, a level that lower-cases to none of `high`, `medium`, `low` or `total` still writes a property on the counter object. If the name is inherited from `Object.prototype` (`constructor`, `toString`, `valueOf`, …), `+= 1` makes a string by concatenating `1` onto the inherited value. Otherwise the property starts as `NaN`. A later finding with the same level adds nothing countable: `NaN` stays `NaN`, and the string just gets another `1` appended. The model adds such a level to none of the four counters, and does not model the extra property.
- Popup.GroupByRiskLevel: in the source, a level that is an inherited `Object.prototype` property name (`constructor`, `toString`, `__proto__`, …) makes `acc[level]` the inherited value rather than a fresh array, so `.push` throws a TypeError. The model groups such a level like any other.
- Popup.SortByRiskScore: does not state stability. `Array.prototype.sort` is stable, but the model's sort only promises a non-increasing, permuted group.

## Findings

| source | as written | input that shows it | evidently intended | confidence | as-written member | corrected member |
|---|---|---|---|---|---|---|
| entrypoints/background.ts:42 | `saasService.splitDirectives(...)` calls a method `SaasService` (src/services/saas.service.ts:6-66) does not define, so it throws a TypeError and ends `onHeadersReceived` at the first CSP header | a main-frame response whose `Content-Security-Policy` header comes before `Permissions-Policy: camera=*` stores no Permissions-Policy findings (`Background.CspHeaderHidesPermissionsHeader`) | every Permissions-Policy header is evaluated and its findings stored, whatever CSP headers precede it | high that it throws, since no definition exists in the source; not executed | Background.OnHeadersReceivedAsWritten | Background.OnHeadersReceived |
| entrypoints/background.ts:135 | the same missing method is called for a frame's policy meta tag; the throw is caught at line 147, skipping the `APP_DATA` write at lines 139-146 | a loading tab whose page carries `<meta content="default-src 'self'">` with no `name` gets no `APP_DATA` record (`Background.MetaPolicySkipsAppData`) | `APP_DATA` is written while the tab loads, whatever meta tags the page carries | high that it throws, since no definition exists in the source; not executed | Background.OnTabUpdatedAsWritten | Background.OnTabUpdated |
