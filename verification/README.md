# Seguros Bolívar radicado scraper — a Dafny model

This project models the read-only scraper that looks up claim filing numbers
("radicados") on the Seguros Bolívar JSF portal. It also models the HTTP
endpoint that runs a batch of those lookups.

- **The session** (`SegurosBolivarSession`) authenticates in one of two ways:
  with a `Cookie` header pasted by the user, or with the server's own
  credentials.
- **JSF plumbing.** It tracks the `javax.faces.ViewState` token from response
  to response. It unwraps JSF partial-response envelopes into the HTML they
  carry.
- **Posting the search.** It picks the search form on the index page. It
  replays that form's hidden fields, names the search field, and chooses a
  submit control so that JSF runs the search action.
- **Reading the result.** It reads the claim status and the insured party out
  of the `datosSolicitud` table. It maps the free-text status to the canonical
  tokens "SIN DESISTIR", "DESISTIDO" and "REPORTADO". A missing status becomes
  "NO ENCONTRADO". Unrecognised text is echoed back upper-cased.
- **The endpoint** (`bolivar_radicados`) does three things:
  - It normalises the pasted cookie header and the filing numbers. The numbers
    can come as a text area, a list or a single value; they are trimmed and
    deduplicated in order.
  - It refuses a request that has no way to authenticate or no filing number.
  - It then queries each number on one session. A failure is caught per item,
    so one bad item does not stop the batch.
- **Result rows.** Each result becomes a JSON row. The export sanitiser reads
  those rows back.

Everything is modelled with immutable datatypes and pure functions. The parts
outside the scraper become parameters:

- **Libraries.** The HTML parser, the XML parser, HTML entity decoding and
  cookie-string parsing form a `Markup.Libs` record of functions. The model
  works on what those functions return: forms, controls, labels, tables and
  XML elements.
- **The network.** The HTTP client is a `Session.Portal`: a function from the
  cookie jar and a request to a response or a transport error, plus URL
  resolution. The jar maps cookie names to values, and every response's
  cookies are stored in it by name.
- **The environment.** The credentials are plain arguments.
- **The clock.** The clock is a function `nat -> string`. `clock(0)` is the
  batch timestamp, and `clock(k + 1)` is the reading taken before item `k`.
- **Rendering.** Python's `str()` of lists and objects is a parameter `repr`.
- **The query.** The batch loop takes its per-item query as a parameter.
  `Views.GetInfoSound` shows that the session's own query has the properties
  the loop relies on.

Three things the code does are easy to misread:

- The canonical tokens are Spanish strings: "SIN DESISTIR", "DESISTIDO",
  "REPORTADO" and "NO ENCONTRADO".
- A missing credential fails each item of the batch, not the whole request.
  `get_info_for_radicado` calls `ensure_authenticated`
  (seguros_bolivar_session.py:416), and each item's call sits inside its own
  `try` (views.py:243-281).
- "sin desistir" normalises to "DESISTIDO". The `desist` test
  (seguros_bolivar_session.py:519) runs before the `sin desist` test (:523),
  so the later test can never fire. `Status.SinDesistTestIsDead` and
  `Status.SinDesistirIsWithdrawn` prove this.

Modules:

- `Wrappers`: `Option`/`Result`.
- `Text`: Python whitespace, `strip`, `lower`/`upper`, `\s+` collapsing, and
  `split`/`join`.
- `Lists` and `Maps`: first-match search, order-keeping deduplication, and a
  dict built by assignments.
- `Markup`: the parsed-markup records.
- `Patterns`: the regular expressions, as predicates.
- `Status`: `_normalize_estado`.
- `Cookies`: both cookie-header normalisers and `_apply_cookie_header`.
- `Jsf`: the ViewState token and the envelope unwrapping.
- `Forms`: `_find_search_form`.
- `Payload`: the search request's fields.
- `Extraction`: status and insured party.
- `Session`: the session's operations.
- `Json`: request and response values, truthiness, `str()`.
- `Radicados`: `_normalize_radicados`.
- `Results`: the result record, its JSON row and the export rows.
- `Views`: the endpoint.

## Model

| member | source | states |
|---|---|---|
| Status.TokenFor | applications/scrapers/services/seguros_bolivar_session.py:515-525 | exactly "nuevo" gives "SIN DESISTIR"; otherwise text containing "desist" gives "DESISTIDO", else text containing "report" gives "REPORTADO", else text with "sin desist", "no ha pagado" or "sin pagar" gives "SIN DESISTIR"; no token exactly when none of these tests fires |
| Status.NormalizeEstado | applications/scrapers/services/seguros_bolivar_session.py:510-527 | never empty; blank text is "NO ENCONTRADO"; on the stripped lower-cased text, "nuevo" is "SIN DESISTIR", "desist" gives "DESISTIDO", then "report" gives "REPORTADO", then a payment phrase gives "SIN DESISTIR"; text no test recognises is echoed single-spaced and upper-cased |
| Status.SinDesistTestIsDead | applications/scrapers/services/seguros_bolivar_session.py:519-524 | removing the "sin desist" test changes no result, because the earlier "desist" test catches all such text |
| Status.SinDesistirIsWithdrawn | applications/scrapers/services/seguros_bolivar_session.py:510-527 | a status containing "sin desistir", in any case and with any surrounding whitespace, normalises to "DESISTIDO" |
| Status.RenormalisingTokens | applications/scrapers/services/seguros_bolivar_session.py:510-527 | "DESISTIDO" normalises to itself; "SIN DESISTIR" normalises to "DESISTIDO", so normalisation is not idempotent |
| Status.CaseInsensitive | applications/scrapers/services/seguros_bolivar_session.py:516-527 | a status and its lower-cased form normalise to the same result |
| Status.EchoShape | applications/scrapers/services/seguros_bolivar_session.py:527 | an unrecognised status comes back single-spaced and stripped |
| Status.EchoNonEmpty | applications/scrapers/services/seguros_bolivar_session.py:527 | the echo of non-empty stripped text is not empty |
| Status.TokenForNone | applications/scrapers/services/seguros_bolivar_session.py:517-525 | text that no test accepts gets no token |
| Status.NoTokenWithout | applications/scrapers/services/seguros_bolivar_session.py:517-525 | every phrase a test looks for has an 's', a 'p' or an 'h', so text without them (other than "nuevo") gets no token |
| Status.NoTokenForNotFound | applications/scrapers/services/seguros_bolivar_session.py:517-525 | "no encontrado" gets no token |
| Status.EchoOfCapitals | applications/scrapers/services/seguros_bolivar_session.py:527 | single-spaced, stripped capitals are echoed unchanged |
| Status.NotFoundIsFixed | applications/scrapers/services/seguros_bolivar_session.py:413-414 | "NO ENCONTRADO" normalises to itself, so the pair returned for a blank or missing status is a raw status with its own normalisation |
| Cookies.DropCookiePrefix | applications/scrapers/views.py:21-22 | a value starting with a case-insensitive "cookie:" loses the prefix and is stripped; other values are unchanged |
| Cookies.PrefixColon | applications/scrapers/views.py:22 | in a prefixed value the first colon is the one after "cookie", so the split at the first colon drops exactly the prefix |
| Cookies.Segments | applications/scrapers/views.py:16-26 | the reference cookie list: non-empty, trimmed, and free of line breaks, semicolons and carriage returns; none for blank input |
| Cookies.NormalizeCookieHeader | applications/scrapers/views.py:15-28 | the request layer's header is the reference cookies joined by "; "; blank input gives "" |
| Cookies.SessionCookieHeader | applications/scrapers/services/seguros_bolivar_session.py:83-95 | the session's header is the reference cookies joined by "; "; blank input gives "" |
| Cookies.SplitRuns | applications/scrapers/services/seguros_bolivar_session.py:95 | splitting at runs of separators yields at least one piece |
| Cookies.SkipSeps | applications/scrapers/services/seguros_bolivar_session.py:95 | skipping a run of separators leaves a suffix that does not start with one and is shorter when the run is not empty |
| Cookies.RunsAgree | applications/scrapers/services/seguros_bolivar_session.py:95 | splitting at separator runs and at single separators keeps the same non-empty trimmed pieces |
| Cookies.SkipAgree | applications/scrapers/services/seguros_bolivar_session.py:95 | skipping one separator or the whole run keeps the same non-empty trimmed pieces |
| Cookies.NormalisersAgree | applications/scrapers/services/seguros_bolivar_session.py:83-95 | the session's normaliser and the request layer's normaliser always produce the same header |
| Cookies.JoinShape | applications/scrapers/views.py:26 | joining trimmed non-empty cookies gives a stripped header, empty only when there are no cookies, with no carriage return |
| Cookies.KeptSplitJoin | applications/scrapers/views.py:26 | splitting a joined header and keeping the trimmed non-empty pieces gives back the cookies it was joined from |
| Cookies.Idempotent | applications/scrapers/views.py:15-28 | normalising a normalised header changes nothing, unless what remains again starts with "cookie:" |
| Cookies.ApplyCookieHeader | applications/scrapers/services/seguros_bolivar_session.py:82-100 | a blank header leaves the jar as it was; otherwise the jar gains the parsed cookies of the normalised header, a cookie named more than once holds the value of its last occurrence, and cookies the header does not name keep their values |
| Markup.FindInput | applications/scrapers/services/seguros_bolivar_session.py:148 | the first input whose name is exactly the given one, or none exactly when no input has that name |
| Jsf.EnvelopeToken | applications/scrapers/services/seguros_bolivar_session.py:133-142 | the stripped text of the first update element that carries a ViewState id and non-blank text; empty exactly when there is none |
| Jsf.XmlToken | applications/scrapers/services/seguros_bolivar_session.py:131-146 | no token unless the text looks like an envelope and parses; a parsed envelope yields one exactly when it has a ViewState update, and the token is the stripped text of such an update |
| Jsf.HtmlToken | applications/scrapers/services/seguros_bolivar_session.py:148-150 | the token is the value of the first input named `javax.faces.ViewState`, so an empty first input gives none even when a later one has a value; none when no input has that name |
| Jsf.RefreshViewState | applications/scrapers/services/seguros_bolivar_session.py:126-150 | the envelope's token is preferred, then the HTML input's value; failing both the token is kept; it only ever changes to a non-empty value |
| Jsf.RefreshIdempotent | applications/scrapers/services/seguros_bolivar_session.py:126-150 | reading the same response twice tracks the same token as reading it once |
| Jsf.RefreshSource | applications/scrapers/services/seguros_bolivar_session.py:126-150 | a changed token is the text of a ViewState update of the parsed envelope or the value of a ViewState input |
| Jsf.RefreshWithoutToken | applications/scrapers/services/seguros_bolivar_session.py:131-150 | a response with no token, including an envelope that does not parse and has no fallback input, keeps the tracked token |
| Jsf.Chunks | applications/scrapers/services/seguros_bolivar_session.py:168-180 | the unescaped stripped texts of the update elements with non-blank text, one per such element, in document order; empty exactly when there are none |
| Jsf.Unwrap | applications/scrapers/services/seguros_bolivar_session.py:152-182 | non-envelopes and unparsable envelopes come back unchanged; an envelope gives its chunks joined by line breaks, or itself when it has none |
| Jsf.UnwrapSplits | applications/scrapers/services/seguros_bolivar_session.py:182 | when no chunk contains a line break, splitting the unwrapped text at line breaks gives back the chunks |
| Forms.FindSearchForm | applications/scrapers/services/seguros_bolivar_session.py:192-236 | a form is returned exactly when the page has forms; it is the first form of the best rank present: search-bearing "FormIndex", then search-bearing posting to index.xhtml, then search-bearing, then one with a ViewState input, then any |
| Forms.PickByIsBest | applications/scrapers/services/seguros_bolivar_session.py:212-236 | the priority chain's pick has the best rank and comes first among elements of that rank |
| Forms.Rank | applications/scrapers/services/seguros_bolivar_session.py:212-236 | rank 0 exactly for a search-bearing "FormIndex" form, 1 for a search-bearing form posting to index.xhtml, 2 for another search-bearing form, 3 for a form with a ViewState input and no search field, 4 otherwise |
| Payload.HiddenPairs | applications/scrapers/services/seguros_bolivar_session.py:429-443 | the replayed pairs are the named hidden inputs other than the ViewState one, one pair per input, in document order |
| Payload.MentionsBusquedaEither | applications/scrapers/services/seguros_bolivar_session.py:447-451 | the joined "name id" haystack mentions "busqueda" exactly when the name or the id does |
| Payload.SearchFieldName | applications/scrapers/services/seguros_bolivar_session.py:445-456 | the name, else the id, of the first input or textarea mentioning "busqueda"; "busqueda" when there is none or both are empty |
| Payload.Candidates | applications/scrapers/services/seguros_bolivar_session.py:463-474 | the submit candidates are the buttons and submit/image/untyped inputs with a name or id, one per control, in document order, each with its value or text as caption |
| Payload.ChooseSubmit | applications/scrapers/services/seguros_bolivar_session.py:476-489 | the first candidate with a search keyword, else the first with a generated j_idt name, else the only candidate, else none; always one of the candidates |
| Payload.SearchPayload | applications/scrapers/services/seguros_bolivar_session.py:429-492 | the posted keys are the hidden names, the search field, the ViewState and the submit control; the submit key holds its own name, the ViewState the tracked token, and the search field the filing number, unless a later key overwrote it |
| Payload.Fill | applications/scrapers/services/seguros_bolivar_session.py:458-492 | the same key and value facts for any hidden pairs, search key and submit control |
| Payload.HiddenFieldsReplayed | applications/scrapers/services/seguros_bolivar_session.py:429-443 | a replayed hidden field holds the value of the last hidden input of that name, unless the search or submit key overwrote it |
| Payload.FillKeepsHidden | applications/scrapers/services/seguros_bolivar_session.py:442-459 | a hidden pair that no later assignment overwrites keeps its value in the payload |
| Patterns.FullJidtIsFound | applications/scrapers/services/seguros_bolivar_session.py:484 | a name that fully matches j_idt followed by digits is also found by the bounded search, so the first test adds nothing |
| Patterns.JidtNameIsSearch | applications/scrapers/services/seguros_bolivar_session.py:484 | the generated-name test holds exactly when the bounded search finds a generated name |
| Patterns.SubmitKeywordsReduce | applications/scrapers/services/seguros_bolivar_session.py:478 | the keyword test holds exactly when the text contains "busca", "consult" or "search" |
| Patterns.DigitsEnd | applications/scrapers/services/seguros_bolivar_session.py:484 | the end of the maximal run of digits starting at a position |
| Patterns.EstadoSiniestroSomewhere | applications/scrapers/services/seguros_bolivar_session.py:265 | the status-label search holds exactly when "estado", optional whitespace and "siniestro" start at some position of the lower-cased text |
| Patterns.InquilinoAseguradoWords | applications/scrapers/services/seguros_bolivar_session.py:404 | an insured-label match contains "inquilino" or "asegurado"; either word alone, in any case, matches |
| Extraction.LabelValue | applications/scrapers/services/seguros_bolivar_session.py:368-378 | the non-blank text of the label after the first matching label; none exactly when no label matches or the next text is blank |
| Extraction.ExtractInfo | applications/scrapers/services/seguros_bolivar_session.py:380-407 | nothing when no table id ends in "datossolicitud"; otherwise the status-label and insured-label values of the first such table, each non-empty when present |
| Extraction.ScanLabels | applications/scrapers/services/seguros_bolivar_session.py:275-284 | the label after the first non-blank label containing "estado siniestro" that is followed, inside the table, by a non-blank label; none exactly when there is no such label |
| Extraction.ScanMatchesReference | applications/scrapers/services/seguros_bolivar_session.py:275-284 | the loop's first hit is what the recursive reference rule finds |
| Extraction.NoHitReference | applications/scrapers/services/seguros_bolivar_session.py:275-284 | with no hit the reference rule finds nothing |
| Extraction.Excerpt | applications/scrapers/services/seguros_bolivar_session.py:359-366 | a blank page is "NO ENCONTRADO"; otherwise a single-spaced prefix of the collapsed, stripped page text, which is the whole text when it fits in 180 characters and exactly 180 characters when it does not |
| Extraction.ExtractEstado | applications/scrapers/services/seguros_bolivar_session.py:238-366 | the loop over the `datosSolicitud` tables computes the reference rule `Extraction.EstadoOf`; never empty |
| Extraction.EstadoOf | applications/scrapers/services/seguros_bolivar_session.py:238-366 | the status of a parsed page is never empty |
| Extraction.FirstDatosDecides | applications/scrapers/services/seguros_bolivar_session.py:253-284 | the first `datosSolicitud` table that yields a status decides the result, as its normalisation, whatever no-result markers the page contains and whatever the heuristic tiers found |
| Extraction.FirstDatosStatus | applications/scrapers/services/seguros_bolivar_session.py:253-284 | the first status among the `datosSolicitud` tables is that of the first such table that yields one |
| Extraction.NoDatosStatus | applications/scrapers/services/seguros_bolivar_session.py:286-366 | when no `datosSolicitud` table yields a status, a no-result marker gives "NO ENCONTRADO" whatever the heuristic tiers found; without a marker, their hit is normalised, and failing that the page excerpt is the result |
| Extraction.NoDatosStatusNone | applications/scrapers/services/seguros_bolivar_session.py:253-284 | tables none of which yields a status give no status |
| Extraction.BlankPageNotFound | applications/scrapers/services/seguros_bolivar_session.py:359-366 | a page with no status table, no text and no heuristic hit reads as "NO ENCONTRADO" |
| Session.NewSession | applications/scrapers/services/seguros_bolivar_session.py:49-77 | a new session holds the stripped header, starts unauthenticated with no token, and its jar holds the header's cookies |
| Session.Send | applications/scrapers/services/seguros_bolivar_session.py:494-499 | the portal's answer is returned as is; a transport error changes nothing and carries the client's message; a response stores its cookies in the jar by name, later ones winning, and changes nothing else |
| Session.CheckStatus | applications/scrapers/services/seguros_bolivar_session.py:500 | status codes from 400 to 599 raise an HTTP error carrying the status, reason and URL; others pass the response through |
| Session.Follow | applications/scrapers/services/seguros_bolivar_session.py:557-562 | the loop requests at most its budget of locations (the sign-in gives it 3), starting with the first response's location, each non-empty; only the jar changes; it stops early only at a response that is not a redirect with a location, and a failure is a transport error after at least one hop |
| Session.Land | applications/scrapers/services/seguros_bolivar_session.py:574-585 | a non-redirect landing is the final page; a redirect without a location raises "Redirect sin Location en landing."; otherwise its target is fetched |
| Session.SignIn | applications/scrapers/services/seguros_bolivar_session.py:535-585 | the sign-in requests change only the cookie jar, and they fail only with a transport error or the landing redirect's missing-location error |
| Session.TakeToken | applications/scrapers/services/seguros_bolivar_session.py:587-593 | fails with "No se encontró ViewState." exactly when the final page has no ViewState input; otherwise the token is the value of the first such input |
| Session.Authenticate | applications/scrapers/services/seguros_bolivar_session.py:529-593 | only the jar and the token change; a failed sign-in is passed on with the state it reached, and any failure leaves the token as it was |
| Session.AuthenticateReadsToken | applications/scrapers/services/seguros_bolivar_session.py:587-593 | after a sign-in that reaches a page, authentication keeps the jar and succeeds exactly when the page has a ViewState input, whose value becomes the token |
| Session.EnsureAuthenticated | applications/scrapers/services/seguros_bolivar_session.py:102-122 | an authenticated session does nothing; a pasted cookie marks the session authenticated and sends nothing; no server authentication or a missing credential raises its message before anything is sent; with both credentials it signs in and reads the token, succeeding exactly when that does and then marking the session authenticated |
| Session.EnsureIdempotent | applications/scrapers/services/seguros_bolivar_session.py:102-104 | once authentication has succeeded, asking again sends nothing and changes nothing |
| Session.GetIndex | applications/scrapers/services/seguros_bolivar_session.py:184-188 | the index page's body is returned unless the request fails or its status is from 400 to 599; the token is refreshed from the body, and a failure keeps it |
| Session.Interpret | applications/scrapers/services/seguros_bolivar_session.py:504-508 | a missing status reads as "NO ENCONTRADO" twice, otherwise as the raw status and its normalisation; the insured party is passed through |
| Session.Search | applications/scrapers/services/seguros_bolivar_session.py:422-424 | a page with no form raises "No se encontró formulario de consulta en index.xhtml"; otherwise the form `Forms.FindSearchForm` picks is submitted; the configuration and the flag are kept and a token remains |
| Session.Submit | applications/scrapers/services/seguros_bolivar_session.py:425-508 | the form's search payload is posted to its action; a transport error changes nothing; an error status raises the HTTP error after storing the reply's cookies; otherwise the reply's cookies are stored, the token is refreshed from its body, and the reading is what `Extraction.ExtractInfo` finds in it |
| Session.Receive | applications/scrapers/services/seguros_bolivar_session.py:499-508 | a transport failure is passed on; a status from 400 to 599 raises the HTTP error with the jar as it was after the post; otherwise the token is refreshed from the body and the reading is what the body holds |
| Session.PostUrlDefault | applications/scrapers/services/seguros_bolivar_session.py:425-426 | a form without an action posts where one whose action is the index page would; only the action decides where a form posts |
| Session.Lookup | applications/scrapers/services/seguros_bolivar_session.py:418-508 | a failed index fetch is passed on; an index page that leaves no token raises "No se encontró javax.faces.ViewState en index.xhtml"; otherwise the search runs on the fetched page with the refreshed session; a success leaves a token and a consistent reading |
| Session.GetInfo | applications/scrapers/services/seguros_bolivar_session.py:409-508 | a blank filing number reads as "NO ENCONTRADO" without touching the session; otherwise a failed authentication is passed on, and after a successful one the query is `Session.Lookup` of the stripped filing number; a success leaves the session authenticated with a token and a consistent reading |
| Session.NoCredentialsNoQuery | applications/scrapers/services/seguros_bolivar_session.py:110-113 | without a cookie and without server authentication, every non-blank query fails with the no-cookie message and sends nothing |
| Session.MissingEnvNoQuery | applications/scrapers/services/seguros_bolivar_session.py:115-118 | with server authentication but a missing credential, every non-blank query fails with the missing-credentials message and sends nothing |
| Json.Get | applications/scrapers/views.py:208-210 | a missing key reads as null |
| Json.FromOption | applications/scrapers/views.py:60-69 | `None` becomes null and a string stays a string |
| Json.ToOption | applications/scrapers/views.py:60-69 | null reads back as `None` and a string as itself |
| Json.OptionRoundTrip | applications/scrapers/views.py:60-69 | an optional string survives the trip through JSON |
| Json.NatText | applications/scrapers/views.py:46 | the decimal digits of a number, with no leading zero |
| Json.NatTextValue | applications/scrapers/views.py:46 | the digits read back as the number |
| Json.IntText | applications/scrapers/views.py:46 | a negative number is a minus sign and the digits of its magnitude |
| Json.Render | applications/scrapers/views.py:46 | `str()` of a string is the string, of null "None", of a boolean "True"/"False", of an integer its decimal text |
| Radicados.Pieces | applications/scrapers/views.py:31-47 | null gives no pieces; every piece is non-empty and stripped |
| Radicados.LinesAreSeparated | applications/scrapers/views.py:36-41 | rewriting the separators to line breaks and splitting at line breaks is splitting at any of carriage return, comma, semicolon and line break |
| Radicados.TextPieces | applications/scrapers/views.py:35-42 | a text value's pieces are its trimmed non-blank fields between any separators |
| Lists.UniqueOfSpec | applications/scrapers/views.py:49-55 | deduplication keeps every element exactly once, nothing else, ordered by first occurrence |
| Lists.FilterMapInOrder | applications/scrapers/services/seguros_bolivar_session.py:168-180 | a list comprehension with a filter holds one image per kept element, in the order of the elements |
| Radicados.Dedup | applications/scrapers/views.py:49-55 | the loop computes the reference deduplication: distinct, the same members, in first-occurrence order |
| Radicados.NormalizeRadicados | applications/scrapers/views.py:31-57 | the distinct trimmed non-blank pieces in first-occurrence order; none for null; for a text value no filing number holds a carriage return, comma, semicolon or line break |
| Results.ToResultDict | applications/scrapers/views.py:60-69 | a row has exactly the seven snake-case keys |
| Results.FromResultDict | applications/scrapers/views.py:60-69 | a row read back as a record has all seven keys |
| Results.ResultDictRoundTrip | applications/scrapers/views.py:60-69 | reading a row back gives the record it was made from |
| Results.ExportField | applications/scrapers/views.py:181-189 | an exported field is stripped; it fails exactly when the value is a truthy non-string |
| Results.RowOf | applications/scrapers/views.py:180-190 | the export row holds the five exported fields, and fails exactly when one of them does |
| Results.RowsOf | applications/scrapers/views.py:176-190 | fails exactly when some object fails; otherwise one row per object of the list, in order, each the export row of that object; non-objects are skipped |
| Results.RowsForCons | applications/scrapers/views.py:176-190 | an object's row followed by the rows of the rest are the rows of the object followed by the rest |
| Results.SanitizeExportRows | applications/scrapers/views.py:172-193 | a non-list gives no rows; for a list, the rows of its objects that have a filing number, in order, and it fails exactly when an object does |
| Results.ExportFieldOf | applications/scrapers/views.py:181-189 | a text or null field of a result row exports trimmed, null as "" |
| Results.ExportOfOne | applications/scrapers/views.py:180-190 | the export row of a result row is the result's trimmed fields |
| Results.ExportOfResults | applications/scrapers/views.py:176-190 | the endpoint's rows always export, one row per result, in order |
| Results.SanitizeResults | applications/scrapers/views.py:172-193 | exporting the rows of results with non-blank filing numbers gives one row per result, in order |
| Views.GetInfoSound | applications/scrapers/services/seguros_bolivar_session.py:409-508 | the session's query keeps the configuration and always pairs a raw status with its normalisation |
| Views.Consult | applications/scrapers/views.py:241-281 | one item's result carries its filing number and timestamp and is ok exactly when the query succeeded; a success carries the query's raw status, normalisation and insured party; a failure carries `str()` of the error, no raw status, no insured party and "NO ENCONTRADO" |
| Views.Describe | applications/scrapers/views.py:267-279 | a raised or transport error reads as its message; an HTTP error as its status and "Client Error" below 500 or "Server Error" from 500, its reason, and "for url:" followed by its URL |
| Views.Batch | applications/scrapers/views.py:241-281 | one result per filing number, in order, each with its own timestamp, whatever fails |
| Views.RunBatch | applications/scrapers/views.py:241-281 | the loop computes the reference batch |
| Views.FailingQueryFailsEachItem | applications/scrapers/views.py:265-281 | a query that always fails without touching the session fails every item with its message, and the batch runs to the end |
| Views.MissingCredentialsFailEachItem | applications/scrapers/views.py:241-281 | with server authentication but a missing credential, every non-blank item fails with the missing-credentials message and the session is never changed |
| Views.CookieField | applications/scrapers/views.py:208 | a falsy cookie field reads as ""; a string as itself; a truthy non-string crashes the view |
| Views.DecideNeedsAuth | applications/scrapers/views.py:212-218 | the missing-authentication refusal happens exactly when the header is empty and server authentication is off |
| Views.IntakeCrashes | applications/scrapers/views.py:208 | the request fails outright exactly when the cookie field is a truthy non-string |
| Views.IntakeNeedsAuth | applications/scrapers/views.py:208-218 | the request is refused for want of a session exactly when the normalised header is empty and server authentication is off |
| Views.IntakeNeedsRadicados | applications/scrapers/views.py:209-224 | with a way to authenticate, no filing number means refusal; otherwise the request goes ahead with the normalised header and the distinct filing numbers |
| Views.ReadRequest | applications/scrapers/views.py:208-224 | the validation step computes the reference intake |
| Views.BolivarRadicados | applications/scrapers/views.py:196-289 | a refused request gets its detail message; otherwise the reply has the batch timestamp, the number of distinct filing numbers, and one row per number from a single session built from the request |
| Text.Strip | applications/scrapers/services/seguros_bolivar_session.py:512 | the result has no whitespace at either end, is no longer than the input, is empty exactly when the input is all whitespace, and leaves already stripped text unchanged |
| Text.Collapse | applications/scrapers/services/seguros_bolivar_session.py:527 | collapsing whitespace runs gives single-spaced text that is empty only for empty input and starts and ends with a space exactly where the input does |
| Text.CollapseAllSpace | applications/scrapers/services/seguros_bolivar_session.py:361-362 | collapsing whitespace leaves blank text blank and non-blank text non-blank |
| Text.Lower | applications/scrapers/services/seguros_bolivar_session.py:516 | lower-casing keeps the length and maps each character on its own |
| Text.StripLower | applications/scrapers/services/seguros_bolivar_session.py:512-516 | stripping and lower-casing commute |
| Text.CollapseLower | applications/scrapers/services/seguros_bolivar_session.py:516-527 | collapsing and lower-casing commute |
| Text.SplitJoin | applications/scrapers/views.py:26 | splitting a join of separator-free parts gives back the parts |
| Text.JoinSplit | applications/scrapers/views.py:26 | joining the pieces of a split gives back the text |
| Text.KeptMembers | applications/scrapers/views.py:26 | the kept pieces are exactly the non-empty stripped pieces |
| Maps.AssignLastWins | applications/scrapers/services/seguros_bolivar_session.py:429-459 | a written key holds the value of its last assignment |
| Maps.AssignLastWinsAll | applications/scrapers/services/seguros_bolivar_session.py:98-100 | every name set by a sequence of assignments holds the value of its last one |
| Maps.AssignKeepsAll | applications/scrapers/services/seguros_bolivar_session.py:98-100 | keys no assignment writes keep their values |

## Left out

- HTTP: URL building with query parameters, headers, timeouts, `urljoin` and
  redirect following inside the client are not modelled. The portal is a
  parameter that answers abstract requests, and `urljoin` is its `resolve`
  field.
- HTML/XML parsing, `html.unescape` and `SimpleCookie` parsing are parameters
  (`Markup.Libs`). The model states what the scraper does with their output.
- Case mapping covers Basic Latin and Latin-1 Supplement only. `\w` and `\d`
  are approximated on the same range. Other Unicode characters count as
  non-letters.
- The heuristic middle tiers of `_extract_estado_from_html`
  (seguros_bolivar_session.py:299-357) are given as their outcome, a parameter
  `middle`. Their regexes over blocks of text are not modelled.
- Environment variables and the clock are parameters. `poliza` and
  `primer_dia_mes` are read but never used by the core, so they are left out.
- The XLSX/PDF export view (views.py:292-333) and the export format handling
  (views.py:72-169) are not modelled: they lay out files. Their row sanitiser
  is modelled.
- Session construction cannot fail in this model, so the view's 400 reply for
  a failing constructor (views.py:235-239) is left out.
- JSON floating-point numbers are not modelled: `Json.Value` has only null,
  booleans, integers, strings, lists and objects. A float request field is
  not modelled in any position: not as a filing number (which the view would
  render, `123.0` as "123.0"), not as a cookie (which crashes the view), and
  not as a server-authentication flag (where 0.0 is falsy).
- Python's `str()` of lists and dictionaries is the `repr` parameter;
  `Json.Render` hands it only lists and objects.
- The cookie jar is keyed by cookie name only. The HTTP client's jar also
  keys cookies by domain and path, keeps expiry, and sends each host only
  its matching cookies. None of that is modelled, so a pasted cookie and a
  server cookie of the same name are one entry here, and the sign-in host's
  cookies are sent to the portal host.
- Dictionary key order is not modelled: rows and payloads are maps.
  `request.data` is taken to be an object.
- Views.BolivarRadicados: takes the per-item query as a parameter.
  `Views.GetInfoSound` connects it to `Session.GetInfo`.
- Views.IntakeOf: its cases are stated by `Views.IntakeCrashes`,
  `Views.IntakeNeedsAuth` and `Views.IntakeNeedsRadicados`, not by its own
  contract.
- Session.NewSession: its contract describes the constructor's fields
  directly. The jar's contents follow from `Cookies.ApplyCookieHeader`.
- The User-Agent header, and the request layer's `NotImplementedError` branch
  (handled exactly like any other error), need no separate model.
