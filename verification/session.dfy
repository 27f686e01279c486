/** `SegurosBolivarSession`: the read-only session against the insurer's
    JSF portal. It authenticates either with a pasted `Cookie` header or
    with the server's own credentials, tracks the JSF ViewState token, and
    runs one search per filing number ("radicado").

    The HTTP client is a `Portal`: a function from the cookie jar and an
    abstract request to a response or a transport error, plus `urljoin`.
    Every response's cookies are stored in the jar, as the client's session
    does. */
module Session {
  import opened Wrappers
  import opened Text
  import opened Markup
  import opened Maps
  import opened Cookies
  import opened Jsf
  import opened Forms
  import opened Payload
  import opened Extraction
  import opened Status

  /** Why an operation stopped: an exception the scraper raises with its
      own message, an error status raised by `raise_for_status`, or an
      error of the HTTP client itself. */
  datatype Fault =
    | Raised(message: string)
    | HttpError(status: int, reason: string, url: string)
    | Transport(message: string)

  /** What the portal answers: status code and reason phrase, `Location`
      header ("" when absent), body text, the cookies it sets and the
      final URL. */
  datatype Response = Response(status: int, reason: string, location: string, body: string,
                               cookies: seq<(string, string)>, url: string)

  /** The requests the session sends, by purpose. */
  datatype Request =
    | SsoLogin(user: string, password: string)  // credentials posted to the SSO endpoint
    | LoginPage                                  // login.html, redirects not followed
    | Hop(location: string)                      // one redirect, not followed further
    | Ingreso(user: string)                      // the role-selection post
    | Landing                                    // index.xhtml, redirects not followed
    | FinalPage(url: string)                     // the landing redirect's target
    | IndexPage                                  // index.xhtml, before a search
    | Search(url: string, fields: map<string, string>)  // the search form post

  datatype Portal = Portal(send: (map<string, string>, Request) -> Result<Response, string>,
                           resolve: (string, string) -> string)

  const IndexUrl: string := "https://www.segurosbolivar.com/indemnizaciones-web/pages/index.xhtml"

  const NoCookieMessage: string :=
    "No hay cookie de sesión. Envía 'cookie' o activa 'use_server_auth'."
  const MissingEnvMessage: string :=
    "Faltan variables de entorno LIBERTADOR_USER/LIBERTADOR_PASS para autenticar."
  const NoLocationMessage: string := "Redirect sin Location en landing."
  const NoLoginTokenMessage: string := "No se encontró ViewState."
  const NoIndexTokenMessage: string := "No se encontró javax.faces.ViewState en index.xhtml"
  const NoFormMessage: string := "No se encontró formulario de consulta en index.xhtml"

  /** The session's state. `user` and `password` are the environment's
      credentials, "" when unset; `viewState` is "" until a token is
      seen. */
  datatype Session = Session(cookieHeader: string, useServerAuth: bool, user: string,
                             password: string, jar: map<string, string>,
                             authenticated: bool, viewState: string)

  /** The session after an operation, and what the operation returned or
      raised. A failing operation keeps whatever state it had reached. */
  datatype Outcome<T> = Outcome(session: Session, result: Result<T, Fault>)

  /** The configuration fields are never written after construction. */
  predicate SameConfig(a: Session, b: Session) {
    a.cookieHeader == b.cookieHeader && a.useServerAuth == b.useServerAuth &&
    a.user == b.user && a.password == b.password
  }

  /** Only the cookie jar differs. */
  predicate OnlyJar(a: Session, b: Session) {
    b == a.(jar := b.jar)
  }

  /** The constructor: the header is stripped and its cookies go into an
      empty jar, and the session starts unauthenticated with no token.
      Applying a blank header adds nothing, so the source's own test for
      a non-blank header before applying it needs no branch here. */
  function NewSession(cookieHeader: string, useServerAuth: bool, user: string, password: string,
                      libs: Libs): (s: Session)
    ensures s == Session(Strip(cookieHeader), useServerAuth, user, password, s.jar, false, [])
    ensures s.jar == ApplyCookieHeader(map[], s.cookieHeader, libs)
  {
    var header := Strip(cookieHeader);
    Session(header, useServerAuth, user, password, ApplyCookieHeader(map[], header, libs), false, [])
  }

  /** A failed outcome passed on under another result type. */
  function Stop<T, U>(o: Outcome<T>): (r: Outcome<U>)
    requires o.result.Failure?
    ensures r.session == o.session && r.result.Failure? && r.result.error == o.result.error
  {
    Outcome(o.session, Failure(o.result.error))
  }

  // ----------------------------------------------------------------- HTTP

  /** One request: a transport error changes nothing, a response stores
      its cookies in the jar (later ones winning). */
  function Send(s: Session, portal: Portal, req: Request): (o: Outcome<Response>)
    ensures OnlyJar(s, o.session)
    ensures o.result.Failure? ==> o.session == s && o.result.error.Transport?
    ensures portal.send(s.jar, req).Failure? ==> o == Outcome(s, Failure(Transport(portal.send(s.jar, req).error)))
    ensures o.result.Success? <==> portal.send(s.jar, req).Success?
    ensures o.result.Success? ==> o.session == s.(jar := Assign(s.jar, o.result.value.cookies))
    ensures o.result.Success? ==> o.result.value == portal.send(s.jar, req).value
    ensures o.result.Success? ==>
              o.session.jar.Keys == s.jar.Keys + Names(o.result.value.cookies)
    ensures o.result.Success? ==> forall k :: k in s.jar && k !in Names(o.result.value.cookies) ==>
                                               o.session.jar[k] == s.jar[k]
  {
    match portal.send(s.jar, req)
    case Failure(m) => Outcome(s, Failure(Transport(m)))
    case Success(r) =>
      AssignKeepsAll(s.jar, r.cookies);
      Outcome(s.(jar := Assign(s.jar, r.cookies)), Success(r))
  }

  /** `raise_for_status`: client and server error codes raise. */
  function CheckStatus(r: Response): (c: Result<Response, Fault>)
    ensures c.Failure? <==> 400 <= r.status < 600
    ensures c.Failure? ==> c.error == HttpError(r.status, r.reason, r.url)
    ensures c.Success? ==> c.value == r
  {
    if 400 <= r.status < 600 then Failure(HttpError(r.status, r.reason, r.url)) else Success(r)
  }

  predicate IsRedirect(status: int) {
    status == 301 || status == 302 || status == 303 || status == 307 || status == 308
  }

  /** A redirect the login loop would follow. */
  predicate Followable(r: Response) {
    IsRedirect(r.status) && r.location != []
  }

  // ------------------------------------------------------- authentication

  /** The redirect loop after the login page: at most `budget` hops, each
      one request to the `Location` of the previous response, stopping at
      the first response that is not a redirect with a location. Returns
      the outcome and the locations requested, in order. */
  function Follow(s: Session, portal: Portal, r: Response, budget: nat): (o: (Outcome<Response>, seq<string>))
    ensures |o.1| <= budget
    ensures OnlyJar(s, o.0.session)
    ensures !Followable(r) || budget == 0 ==> o == (Outcome(s, Success(r)), [])
    ensures Followable(r) && budget > 0 ==> o.1 != [] && o.1[0] == r.location
    ensures forall k :: 0 <= k < |o.1| ==> o.1[k] != []
    ensures o.0.result.Success? && |o.1| < budget ==> !Followable(o.0.result.value)
    ensures o.0.result.Failure? ==> o.0.result.error.Transport? && |o.1| >= 1
    decreases budget
  {
    if budget == 0 || !Followable(r) then (Outcome(s, Success(r)), [])
    else
      var next := Send(s, portal, Hop(r.location));
      if next.result.Failure? then (next, [r.location])
      else
        var rest := Follow(next.session, portal, next.result.value, budget - 1);
        (rest.0, [r.location] + rest.1)
  }

  /** The login loop's bound. */
  const MaxHops: nat := 3

  /** The landing page: a redirect is followed once (to its final page),
      and a redirect without a location raises. */
  function Land(s: Session, portal: Portal, landing: Response): (o: Outcome<Response>)
    ensures OnlyJar(s, o.session)
    ensures !IsRedirect(landing.status) ==> o == Outcome(s, Success(landing))
    ensures IsRedirect(landing.status) && landing.location == [] ==>
              o == Outcome(s, Failure(Raised(NoLocationMessage)))
    ensures IsRedirect(landing.status) && landing.location != [] ==>
              o == Send(s, portal, FinalPage(landing.location))
  {
    if !IsRedirect(landing.status) then Outcome(s, Success(landing))
    else if landing.location == [] then Outcome(s, Failure(Raised(NoLocationMessage)))
    else Send(s, portal, FinalPage(landing.location))
  }

  /** The requests of `authenticate` up to the page the token is read
      from. The responses to the two posts are not looked at; only
      transport errors stop the sequence. */
  function SignIn(s: Session, portal: Portal): (o: Outcome<Response>)
    ensures OnlyJar(s, o.session)
    ensures o.result.Failure? ==> o.result.error.Transport? || o.result.error == Raised(NoLocationMessage)
  {
    var sso := Send(s, portal, SsoLogin(s.user, s.password));
    if sso.result.Failure? then Stop(sso)
    else
      var login := Send(sso.session, portal, LoginPage);
      if login.result.Failure? then login
      else
        var hops := Follow(login.session, portal, login.result.value, MaxHops).0;
        if hops.result.Failure? then hops
        else
          var ingreso := Send(hops.session, portal, Ingreso(s.user));
          if ingreso.result.Failure? then Stop(ingreso)
          else
            var landing := Send(ingreso.session, portal, Landing);
            if landing.result.Failure? then landing
            else Land(landing.session, portal, landing.result.value)
  }

  /** Reading the token off the final page: the value of its first
      `javax.faces.ViewState` input, or the "No se encontró ViewState."
      error when there is none. */
  function TakeToken(o: Outcome<Response>, libs: Libs): (r: Outcome<()>)
    requires o.result.Success?
    ensures SameConfig(o.session, r.session) && r.session.jar == o.session.jar
    ensures r.session.authenticated == o.session.authenticated
    ensures var inputs := libs.parseHtml(o.result.value.body).inputs;
            r.result.Failure? <==> forall j :: 0 <= j < |inputs| ==> inputs[j].name != ViewStateName
    ensures r.result.Failure? ==> r == Outcome(o.session, Failure(Raised(NoLoginTokenMessage)))
    ensures var inputs := libs.parseHtml(o.result.value.body).inputs;
            r.result.Success? ==> exists i :: 0 <= i < |inputs| && inputs[i].name == ViewStateName &&
                                            r.session.viewState == inputs[i].value &&
                                            forall j :: 0 <= j < i ==> inputs[j].name != ViewStateName
  {
    match FindInput(libs.parseHtml(o.result.value.body).inputs, ViewStateName)
    case None => Outcome(o.session, Failure(Raised(NoLoginTokenMessage)))
    case Some(c) => Outcome(o.session.(viewState := c.value), Success(()))
  }

  /** `authenticate`: sign in, then read the token. Only the jar and the
      token can change; the authenticated flag is the caller's to set. */
  function Authenticate(s: Session, portal: Portal, libs: Libs): (o: Outcome<()>)
    ensures SameConfig(s, o.session) && o.session.authenticated == s.authenticated
    ensures o.result.Failure? ==> o.session.viewState == s.viewState
    ensures var page := SignIn(s, portal);
            page.result.Failure? ==> o.session == page.session && o.result == Failure(page.result.error)
  {
    var signIn := SignIn(s, portal);
    if signIn.result.Failure? then Stop(signIn) else TakeToken(signIn, libs)
  }

  /** When the sign-in reaches a page, authentication keeps its cookies and
      succeeds exactly when the page has a ViewState input, whose value
      becomes the token. */
  lemma AuthenticateReadsToken(s: Session, portal: Portal, libs: Libs)
    requires SignIn(s, portal).result.Success?
    ensures var page := SignIn(s, portal);
            var inputs := libs.parseHtml(page.result.value.body).inputs;
            var o := Authenticate(s, portal, libs);
            && o.session.jar == page.session.jar
            && (o.result.Failure? <==> forall j :: 0 <= j < |inputs| ==> inputs[j].name != ViewStateName)
            && (o.result.Success? ==> exists i :: 0 <= i < |inputs| && inputs[i].name == ViewStateName &&
                                                o.session.viewState == inputs[i].value)
  {
    var page := SignIn(s, portal);
    assert Authenticate(s, portal, libs) == TakeToken(page, libs);
  }

  /** `ensure_authenticated`. An authenticated session does nothing. A
      pasted cookie counts as a session and sends nothing. Otherwise the
      server's credentials are needed: without server authentication or
      without both credentials it raises before sending anything, and
      else it signs in. */
  function EnsureAuthenticated(s: Session, portal: Portal, libs: Libs): (o: Outcome<()>)
    ensures SameConfig(s, o.session)
    ensures s.authenticated ==> o == Outcome(s, Success(()))
    ensures !s.authenticated ==> (o.session.authenticated <==> o.result.Success?)
    ensures !s.authenticated && s.cookieHeader != [] ==>
              o == Outcome(s.(authenticated := true), Success(()))
    ensures !s.authenticated && s.cookieHeader == [] && !s.useServerAuth ==>
              o == Outcome(s, Failure(Raised(NoCookieMessage)))
    ensures !s.authenticated && s.cookieHeader == [] && s.useServerAuth &&
            (s.user == [] || s.password == []) ==>
              o == Outcome(s, Failure(Raised(MissingEnvMessage)))
    ensures !s.authenticated && s.cookieHeader == [] && s.useServerAuth && s.user != [] && s.password != [] ==>
              var a := Authenticate(s, portal, libs);
              && (o.result.Success? <==> a.result.Success?)
              && (a.result.Failure? ==> o == a)
              && (a.result.Success? ==> o.session == a.session.(authenticated := true))
  {
    if s.authenticated then Outcome(s, Success(()))
    else if s.cookieHeader != [] then Outcome(s.(authenticated := true), Success(()))
    else if !s.useServerAuth then Outcome(s, Failure(Raised(NoCookieMessage)))
    else if s.user == [] || s.password == [] then Outcome(s, Failure(Raised(MissingEnvMessage)))
    else
      var a := Authenticate(s, portal, libs);
      if a.result.Failure? then a else Outcome(a.session.(authenticated := true), Success(()))
  }

  /** Once authentication has succeeded, asking again sends nothing and
      changes nothing. */
  lemma EnsureIdempotent(s: Session, portal: Portal, libs: Libs)
    requires EnsureAuthenticated(s, portal, libs).result.Success?
    ensures var t := EnsureAuthenticated(s, portal, libs).session;
            EnsureAuthenticated(t, portal, libs) == Outcome(t, Success(()))
  {
  }

  // ---------------------------------------------------------------- query

  /** `_get_index`: fetch the index page, raise on an error status, and
      refresh the token from it. */
  function GetIndex(s: Session, portal: Portal, libs: Libs): (o: Outcome<string>)
    ensures SameConfig(s, o.session) && o.session.authenticated == s.authenticated
    ensures o.result.Success? ==> o.session.viewState == RefreshViewState(s.viewState, o.result.value, libs)
    ensures o.result.Failure? ==> o.session.viewState == s.viewState
    ensures o.result.Failure? ==> o.result.error.Transport? || o.result.error.HttpError?
    ensures var got := portal.send(s.jar, IndexPage);
            got.Success? ==> (o.result.Failure? <==> 400 <= got.value.status < 600) &&
                             (o.result.Success? ==> o.result.value == got.value.body)
  {
    var got := Send(s, portal, IndexPage);
    if got.result.Failure? then Stop(got)
    else
      var checked := CheckStatus(got.result.value);
      if checked.Failure? then Outcome(got.session, Failure(checked.error))
      else
        var body := checked.value.body;
        Outcome(got.session.(viewState := RefreshViewState(s.viewState, body, libs)), Success(body))
  }

  /** Where the search form posts: its action, or the index page when it
      has none, resolved against the index page. */
  function PostUrl(form: Form, portal: Portal): string {
    portal.resolve(IndexUrl, if form.action != [] then form.action else IndexUrl)
  }

  /** A form without an action posts where one whose action is the index
      page would, and a form's other parts do not change where it posts. */
  lemma PostUrlDefault(form: Form, portal: Portal)
    ensures form.action == [] ==> PostUrl(form, portal) == PostUrl(Form([], [], IndexUrl, []), portal)
    ensures PostUrl(form, portal) == PostUrl(Form([], [], form.action, []), portal)
  {
  }

  /** What one query yields: the raw status, its normalisation and the
      insured party. */
  datatype Reading = Reading(raw: string, normalized: string, insured: Option<string>)

  /** The reading for the extracted pair: "NO ENCONTRADO" twice when no
      status was read, else the raw status and its normalisation. In both
      cases the second field is the normalisation of the first. */
  function Interpret(info: (Option<string>, Option<string>)): (r: Reading)
    requires info.0.Some? ==> info.0.value != []
    ensures r.normalized == NormalizeEstado(r.raw) && r.raw != []
    ensures r.insured == info.1
    ensures info.0.None? ==> r.raw == NotFound
    ensures info.0.Some? ==> r.raw == info.0.value
  {
    NotFoundIsFixed();
    match info.0
    case None => Reading(NotFound, NotFound, info.1)
    case Some(raw) => Reading(raw, NormalizeEstado(raw), info.1)
  }

  /** The search proper, on an authenticated session that holds a token:
      pick the form, then submit it. */
  function Search(s: Session, indexHtml: string, solicitud: string, portal: Portal,
                  libs: Libs): (o: Outcome<Reading>)
    requires s.viewState != []
    ensures SameConfig(s, o.session) && o.session.authenticated == s.authenticated
    ensures o.session.viewState != []
    ensures libs.parseHtml(indexHtml).forms == [] ==>
              o == Outcome(s, Failure(Raised(NoFormMessage)))
    ensures var found := FindSearchForm(libs.parseHtml(indexHtml).forms);
            found.Some? ==> o == Submit(s, found.value, solicitud, portal, libs)
    ensures o.result.Success? ==>
              o.result.value.normalized == NormalizeEstado(o.result.value.raw) && o.result.value.raw != []
  {
    var found := FindSearchForm(libs.parseHtml(indexHtml).forms);
    if found.None? then Outcome(s, Failure(Raised(NoFormMessage)))
    else Submit(s, found.value, solicitud, portal, libs)
  }

  /** The search post for a form: to its action, with its search fields. */
  function SearchRequest(form: Form, solicitud: string, viewState: string, portal: Portal): Request {
    Request.Search(PostUrl(form, portal), SearchPayload(form, solicitud, viewState))
  }

  /** Posting the search fields of the chosen form and reading the reply:
      it succeeds exactly when the portal answers the post with a status
      outside 400-599, and the reading is what the answer's body holds. */
  function Submit(s: Session, form: Form, solicitud: string, portal: Portal, libs: Libs): (o: Outcome<Reading>)
    requires s.viewState != []
    ensures SameConfig(s, o.session) && o.session.authenticated == s.authenticated
    ensures o.session.viewState != []
    ensures var sent := portal.send(s.jar, SearchRequest(form, solicitud, s.viewState, portal));
            o.result.Success? <==> sent.Success? && !(400 <= sent.value.status < 600)
    ensures var sent := portal.send(s.jar, SearchRequest(form, solicitud, s.viewState, portal));
            o.result.Success? ==> o.result.value == Interpret(ExtractInfo(sent.value.body, libs))
    ensures var sent := portal.send(s.jar, SearchRequest(form, solicitud, s.viewState, portal));
            sent.Failure? ==> o == Outcome(s, Failure(Transport(sent.error)))
    ensures var sent := portal.send(s.jar, SearchRequest(form, solicitud, s.viewState, portal));
            sent.Success? && 400 <= sent.value.status < 600 ==>
              o == Outcome(s.(jar := Assign(s.jar, sent.value.cookies)),
                           Failure(HttpError(sent.value.status, sent.value.reason, sent.value.url)))
    ensures var sent := portal.send(s.jar, SearchRequest(form, solicitud, s.viewState, portal));
            o.result.Success? ==>
              o.session == s.(jar := Assign(s.jar, sent.value.cookies),
                              viewState := RefreshViewState(s.viewState, sent.value.body, libs))
    ensures o.result.Success? ==>
              o.result.value.normalized == NormalizeEstado(o.result.value.raw) && o.result.value.raw != []
  {
    Receive(Send(s, portal, SearchRequest(form, solicitud, s.viewState, portal)), libs)
  }

  /** Reading the reply to the search post: raise on an error status,
      refresh the token, read the result. */
  function Receive(posted: Outcome<Response>, libs: Libs): (o: Outcome<Reading>)
    requires posted.session.viewState != []
    ensures SameConfig(posted.session, o.session) && o.session.authenticated == posted.session.authenticated
    ensures o.session.viewState != []
    ensures o.result.Success? <==> posted.result.Success? && !(400 <= posted.result.value.status < 600)
    ensures o.result.Success? ==> o.result.value == Interpret(ExtractInfo(posted.result.value.body, libs))
    ensures o.result.Success? ==>
              o.session == posted.session.(viewState :=
                                           RefreshViewState(posted.session.viewState, posted.result.value.body, libs))
    ensures posted.result.Failure? ==>
              o.session == posted.session && o.result.Failure? && o.result.error == posted.result.error
    ensures posted.result.Success? && 400 <= posted.result.value.status < 600 ==>
              var r := posted.result.value;
              o == Outcome(posted.session, Failure(HttpError(r.status, r.reason, r.url)))
  {
    if posted.result.Failure? then Stop(posted)
    else
      var checked := CheckStatus(posted.result.value);
      if checked.Failure? then Outcome(posted.session, Failure(checked.error))
      else
        var body := checked.value.body;
        var refreshed := posted.session.(viewState := RefreshViewState(posted.session.viewState, body, libs));
        Outcome(refreshed, Success(Interpret(ExtractInfo(body, libs))))
  }

  /** `get_info_for_radicado`. A blank filing number reads as not found
      without touching the session; otherwise the session is authenticated,
      the index page fetched, a missing token raises, and the search runs.
      Every successful reading pairs a non-empty raw status with its own
      normalisation, and leaves a token for the next query. */
  function GetInfo(s: Session, radicado: string, portal: Portal, libs: Libs): (o: Outcome<Reading>)
    ensures SameConfig(s, o.session)
    ensures AllSpace(radicado) ==> o == Outcome(s, Success(Reading(NotFound, NotFound, None)))
    ensures o.result.Success? ==>
              o.result.value.normalized == NormalizeEstado(o.result.value.raw) && o.result.value.raw != []
    ensures o.result.Success? && !AllSpace(radicado) ==> o.session.authenticated && o.session.viewState != []
    ensures o.result.Success? && !AllSpace(radicado) ==>
              exists t: Session, f: Form :: t.viewState != [] && SameConfig(s, t) &&
                                           o == Submit(t, f, Strip(radicado), portal, libs)
    ensures !AllSpace(radicado) ==>
              var auth := EnsureAuthenticated(s, portal, libs);
              && (auth.result.Failure? ==>
                    o.session == auth.session && o.result.Failure? && o.result.error == auth.result.error)
              && (auth.result.Success? ==> o == Lookup(auth.session, Strip(radicado), portal, libs))
  {
    var solicitud := Strip(radicado);
    if solicitud == [] then
      NotFoundIsFixed();
      Outcome(s, Success(Reading(NotFound, NotFound, None)))
    else
      var auth := EnsureAuthenticated(s, portal, libs);
      if auth.result.Failure? then Stop(auth) else Lookup(auth.session, solicitud, portal, libs)
  }

  /** The query proper, on an authenticated session: fetch the index page,
      insist on a token from it, then search. */
  function Lookup(s: Session, solicitud: string, portal: Portal, libs: Libs): (o: Outcome<Reading>)
    requires s.authenticated
    ensures SameConfig(s, o.session) && o.session.authenticated
    ensures o.result.Success? ==>
              o.result.value.normalized == NormalizeEstado(o.result.value.raw) && o.result.value.raw != [] &&
              o.session.viewState != []
    ensures o.result.Success? ==>
              exists t: Session, f: Form :: t.viewState != [] && SameConfig(s, t) &&
                                           o == Submit(t, f, solicitud, portal, libs)
    ensures var index := GetIndex(s, portal, libs);
            && (index.result.Failure? ==>
                  o.session == index.session && o.result.Failure? && o.result.error == index.result.error)
            && (index.result.Success? && index.session.viewState == [] ==>
                  o == Outcome(index.session, Failure(Raised(NoIndexTokenMessage))))
            && (index.result.Success? && index.session.viewState != [] ==>
                  o == Search(index.session, index.result.value, solicitud, portal, libs))
  {
    var index := GetIndex(s, portal, libs);
    if index.result.Failure? then Stop(index)
    else if index.session.viewState == [] then Outcome(index.session, Failure(Raised(NoIndexTokenMessage)))
    else Search(index.session, index.result.value, solicitud, portal, libs)
  }

  /** Without a pasted cookie and without server authentication, every
      non-blank query of a fresh session fails with the "no cookie" error
      and sends nothing. */
  lemma NoCredentialsNoQuery(s: Session, radicado: string, portal: Portal, libs: Libs)
    requires !s.authenticated && s.cookieHeader == [] && !s.useServerAuth
    requires !AllSpace(radicado)
    ensures GetInfo(s, radicado, portal, libs) == Outcome(s, Failure(Raised(NoCookieMessage)))
  {
  }

  /** With server authentication requested but a credential missing, every
      non-blank query of a fresh session fails with the missing-credentials
      error and sends nothing. */
  lemma MissingEnvNoQuery(s: Session, radicado: string, portal: Portal, libs: Libs)
    requires !s.authenticated && s.cookieHeader == [] && s.useServerAuth && (s.user == [] || s.password == [])
    requires !AllSpace(radicado)
    ensures GetInfo(s, radicado, portal, libs) == Outcome(s, Failure(Raised(MissingEnvMessage)))
  {
  }
}
