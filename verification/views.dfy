/** The query endpoint `bolivar_radicados`: request validation, then one
    query per filing number with failures caught per item. The clock is a function: `clock(0)` is the batch's
    timestamp and `clock(k + 1)` the one taken before the `k`-th query. */
module Views {
  import opened Wrappers
  import opened Text
  import opened Lists
  import opened Markup
  import opened Json
  import opened Cookies
  import opened Status
  import opened Radicados
  import opened Session
  import opened Results


  const MissingAuthDetail: string :=
    "Falta 'cookie' o 'use_server_auth=true'. Este sistema solo consulta; no ejecuta acciones críticas."
  const MissingRadicadosDetail: string := "Falta 'radicados' (lista o texto con radicados)."

  // ------------------------------------------------------------ one item

  /** `str(exc)` for what a query can raise. An HTTP error reads as the
      HTTP client words it. */
  function Describe(f: Fault): (r: string)
    ensures f.Raised? || f.Transport? ==> r == f.message
    ensures f.HttpError? && f.status < 500 ==> StartsWith(r, IntText(f.status) + " Client Error: " + f.reason)
    ensures f.HttpError? && f.status >= 500 ==> StartsWith(r, IntText(f.status) + " Server Error: " + f.reason)
    ensures f.HttpError? ==> EndsWith(r, " for url: " + f.url)
  {
    match f
    case Raised(m) => m
    case Transport(m) => m
    case HttpError(status, reason, url) =>
      var head := IntText(status) + (if status < 500 then " Client Error: " else " Server Error: ") + reason;
      var tail := " for url: " + url;
      assert (head + tail)[..|head|] == head;
      assert (head + tail)[|head|..] == tail;
      head + tail
  }

  /** How every item is reported: a success carries a raw status and no
      error; a failure carries the error, no raw status, no insured party
      and "NO ENCONTRADO" as the normalised status. */
  predicate Reported(b: BolivarResult) {
    && (b.ok <==> b.error.None?)
    && (b.ok ==> b.estadoRaw.Some? && b.estadoNormalizado.Some?)
    && (!b.ok ==> b.estadoRaw.None? && b.estadoNormalizado == Some(NotFound) && b.asegurado.None?)
  }

  /** The normalised status is that of the raw one, when there is one. */
  predicate Consistent(b: BolivarResult) {
    b.estadoRaw.Some? ==> b.estadoNormalizado == Some(NormalizeEstado(b.estadoRaw.value))
  }

  /** The per-item query the endpoint runs on its session. */
  type Query = (Session, string) -> Outcome<Reading>

  function QueryOf(portal: Portal, libs: Libs): Query {
    (s: Session, radicado: string) => GetInfo(s, radicado, portal, libs)
  }

  /** A query that keeps the session's configuration and whose readings
      carry the normalisation of their raw status. */
  ghost predicate Sound(query: Query) {
    forall s: Session, radicado: string ::
      && SameConfig(s, query(s, radicado).session)
      && (query(s, radicado).result.Success? ==>
            query(s, radicado).result.value.normalized == NormalizeEstado(query(s, radicado).result.value.raw))
  }

  /** `get_info_for_radicado` is such a query. */
  lemma GetInfoSound(portal: Portal, libs: Libs)
    ensures Sound(QueryOf(portal, libs))
  {
    forall s: Session, radicado: string
      ensures SameConfig(s, QueryOf(portal, libs)(s, radicado).session)
      ensures var o := QueryOf(portal, libs)(s, radicado);
              o.result.Success? ==> o.result.value.normalized == NormalizeEstado(o.result.value.raw)
    {
      var o := GetInfo(s, radicado, portal, libs);
      assert QueryOf(portal, libs)(s, radicado) == o;
    }
  }

  /** One iteration of the loop: query, and turn a raised error into a
      failed result instead of stopping. */
  function Consult(s: Session, radicado: string, at: string, query: Query): (r: (Session, BolivarResult))
    ensures r.1.radicado == radicado && r.1.consultedAt == at
    ensures Reported(r.1)
    ensures r.0 == query(s, radicado).session
    ensures r.1.ok <==> query(s, radicado).result.Success?
    ensures Sound(query) ==> SameConfig(s, r.0) && Consistent(r.1)
    ensures query(s, radicado).result.Success? ==>
              var v := query(s, radicado).result.value;
              r.1.estadoRaw == Some(v.raw) && r.1.estadoNormalizado == Some(v.normalized) && r.1.asegurado == v.insured
    ensures query(s, radicado).result.Failure? ==> r.1.error == Some(Describe(query(s, radicado).result.error))
  {
    var o := query(s, radicado);
    match o.result
    case Success(reading) =>
      (o.session, BolivarResult(radicado, true, Some(reading.raw), Some(reading.normalized),
                                reading.insured, at, None))
    case Failure(f) =>
      (o.session, BolivarResult(radicado, false, None, Some(NotFound), None, at, Some(Describe(f))))
  }

  // --------------------------------------------------------------- batch

  /** The reference for the loop: the items from `k` on, each queried on
      the session the previous query left, with the clock read once per
      item. One result per item, in order, whatever fails. */
  function Batch(s: Session, rads: seq<string>, k: nat, clock: nat -> string,
                 query: Query): (r: (Session, seq<BolivarResult>))
    requires k <= |rads|
    ensures |r.1| == |rads| - k
    ensures forall j :: 0 <= j < |r.1| ==>
              r.1[j].radicado == rads[k + j] && r.1[j].consultedAt == clock(k + j + 1) && Reported(r.1[j])
    ensures Sound(query) ==> SameConfig(s, r.0) && forall j :: 0 <= j < |r.1| ==> Consistent(r.1[j])
    decreases |rads| - k
  {
    if k == |rads| then (s, [])
    else
      var first := Consult(s, rads[k], clock(k + 1), query);
      var rest := Batch(first.0, rads, k + 1, clock, query);
      (rest.0, [first.1] + rest.1)
  }

  /** The loop of `bolivar_radicados`. */
  method RunBatch(s: Session, rads: seq<string>, clock: nat -> string, query: Query)
    returns (results: seq<BolivarResult>, last: Session)
    ensures (last, results) == Batch(s, rads, 0, clock, query)
  {
    results := [];
    last := s;
    assert results + Batch(last, rads, 0, clock, query).1 == Batch(s, rads, 0, clock, query).1;
    for k := 0 to |rads|
      invariant Batch(last, rads, k, clock, query).0 == Batch(s, rads, 0, clock, query).0
      invariant results + Batch(last, rads, k, clock, query).1 == Batch(s, rads, 0, clock, query).1
    {
      var step := Consult(last, rads[k], clock(k + 1), query);
      assert results + Batch(last, rads, k, clock, query).1
             == (results + [step.1]) + Batch(step.0, rads, k + 1, clock, query).1;
      results := results + [step.1];
      last := step.0;
    }
    assert Batch(last, rads, |rads|, clock, query) == (last, []);
    assert results + [] == results;
  }

  /** A query that fails on every item without touching the session
      fails each item of the batch the same way, and the batch still runs
      to the end. */
  lemma {:induction false} FailingQueryFailsEachItem(s: Session, rads: seq<string>, k: nat, clock: nat -> string,
                                                     query: Query, f: Fault)
    requires k <= |rads|
    requires forall j :: k <= j < |rads| ==> query(s, rads[j]) == Outcome(s, Failure(f))
    ensures Batch(s, rads, k, clock, query).0 == s
    ensures var rs := Batch(s, rads, k, clock, query).1;
            forall j :: 0 <= j < |rs| ==> !rs[j].ok && rs[j].error == Some(Describe(f))
    decreases |rads| - k
  {
    if k < |rads| {
      FailingQueryFailsEachItem(s, rads, k + 1, clock, query, f);
    }
  }

  /** Authentication failures are per item: with server authentication
      requested but a credential missing, every non-blank item fails with
      the missing-credentials error, the session is never changed and the
      batch still runs to the end. */
  lemma MissingCredentialsFailEachItem(s: Session, rads: seq<string>, clock: nat -> string, portal: Portal,
                                       libs: Libs)
    requires !s.authenticated && s.cookieHeader == [] && s.useServerAuth && (s.user == [] || s.password == [])
    requires forall j :: 0 <= j < |rads| ==> !AllSpace(rads[j])
    ensures Batch(s, rads, 0, clock, QueryOf(portal, libs)).0 == s
    ensures var rs := Batch(s, rads, 0, clock, QueryOf(portal, libs)).1;
            forall j :: 0 <= j < |rs| ==> !rs[j].ok && rs[j].error == Some(MissingEnvMessage)
  {
    var query := QueryOf(portal, libs);
    var f := Raised(MissingEnvMessage);
    forall j | 0 <= j < |rads|
      ensures query(s, rads[j]) == Outcome(s, Failure(f))
    {
      MissingEnvNoQuery(s, rads[j], portal, libs);
    }
    FailingQueryFailsEachItem(s, rads, 0, clock, query, f);
  }

  // ------------------------------------------------------------ endpoint

  /** The endpoint's answer: a 400 with a detail message, the results, or
      an uncaught error (a non-string truthy `cookie` field makes the
      source call `strip` on it). */
  datatype Reply =
    | BadRequest(detail: string)
    | Ok(fetchedAt: string, count: nat, results: seq<map<string, Value>>)
    | Crashed

  /** `request.data.get("cookie") or ""`, when it is a string. */
  function CookieField(data: map<string, Value>): (r: Option<string>)
    ensures !Truthy(Get(data, "cookie")) ==> r == Some([])
    ensures Get(data, "cookie").Str? ==> r == Some(Get(data, "cookie").s)
    ensures r.None? <==> Truthy(Get(data, "cookie")) && !Get(data, "cookie").Str?
  {
    var v := Get(data, "cookie");
    if !Truthy(v) then Some([]) else if v.Str? then Some(v.s) else None
  }

  /** What a request asks for once normalised: the cookie header, whether
      the server's credentials may be used, and the distinct filing
      numbers in first-seen order. */
  datatype Intake = Intake(header: string, useServerAuth: bool, radicados: seq<string>)

  /** The validation of `bolivar_radicados`: a request with neither a
      cookie nor server authentication is refused first, then one with no
      filing number. */
  function IntakeOf(data: map<string, Value>, repr: Value -> string): (r: Result<Intake, Reply>)
  {
    var cookie := CookieField(data);
    if cookie.None? then Failure(Crashed)
    else
      Decide(NormalizeCookieHeader(cookie.value), Truthy(Get(data, "use_server_auth")),
             UniqueOf(Pieces(Get(data, "radicados"), repr)))
  }

  /** The two refusals, in the order the view makes them. */
  function Decide(header: string, useServerAuth: bool, rads: seq<string>): Result<Intake, Reply> {
    if header == [] && !useServerAuth then Failure(BadRequest(MissingAuthDetail))
    else if rads == [] then Failure(BadRequest(MissingRadicadosDetail))
    else Success(Intake(header, useServerAuth, rads))
  }

  lemma DecideNeedsAuth(header: string, useServerAuth: bool, rads: seq<string>)
    ensures Decide(header, useServerAuth, rads) == Failure(BadRequest(MissingAuthDetail)) <==>
              header == [] && !useServerAuth
  {
    assert MissingRadicadosDetail != MissingAuthDetail by {
      assert |MissingRadicadosDetail| != |MissingAuthDetail|;
    }
  }

  /** Only a truthy non-string `cookie` field makes the request fail
      outright. */
  lemma IntakeCrashes(data: map<string, Value>, repr: Value -> string)
    ensures IntakeOf(data, repr) == Failure(Crashed) <==> Truthy(Get(data, "cookie")) && !Get(data, "cookie").Str?
  {
  }

  /** A request refused for want of a session: an empty cookie header
      after normalisation and no server authentication, whatever the
      filing numbers. */
  lemma IntakeNeedsAuth(data: map<string, Value>, repr: Value -> string)
    requires CookieField(data).Some?
    ensures IntakeOf(data, repr) == Failure(BadRequest(MissingAuthDetail)) <==>
              NormalizeCookieHeader(CookieField(data).value) == [] && !Truthy(Get(data, "use_server_auth"))
  {
    DecideNeedsAuth(NormalizeCookieHeader(CookieField(data).value), Truthy(Get(data, "use_server_auth")),
                    UniqueOf(Pieces(Get(data, "radicados"), repr)));
  }

  /** A request with a session but no filing number is refused; with at
      least one, it goes ahead with the normalised header and the distinct
      filing numbers. */
  lemma IntakeNeedsRadicados(data: map<string, Value>, repr: Value -> string)
    requires CookieField(data).Some?
    requires NormalizeCookieHeader(CookieField(data).value) != [] || Truthy(Get(data, "use_server_auth"))
    ensures var rads := UniqueOf(Pieces(Get(data, "radicados"), repr));
            && (rads == [] ==> IntakeOf(data, repr) == Failure(BadRequest(MissingRadicadosDetail)))
            && (rads != [] ==> IntakeOf(data, repr) ==
                                 Success(Intake(NormalizeCookieHeader(CookieField(data).value),
                                                Truthy(Get(data, "use_server_auth")), rads)))
  {
  }

  /** The validation step, with the filing numbers deduplicated by the
      loop. */
  method ReadRequest(data: map<string, Value>, repr: Value -> string) returns (r: Result<Intake, Reply>)
    ensures r == IntakeOf(data, repr)
  {
    var cookie := CookieField(data);
    if cookie.None? {
      return Failure(Crashed);
    }
    var header := NormalizeCookieHeader(cookie.value);
    var rads := NormalizeRadicados(Get(data, "radicados"), repr);
    var useServerAuth := Truthy(Get(data, "use_server_auth"));
    if header == [] && !useServerAuth {
      return Failure(BadRequest(MissingAuthDetail));
    }
    if rads == [] {
      return Failure(BadRequest(MissingRadicadosDetail));
    }
    return Success(Intake(header, useServerAuth, rads));
  }

  /** `bolivar_radicados`: validate, then query each filing number once,
      on one session built from the request, reading the clock once for
      the batch and once per item. */
  method BolivarRadicados(data: map<string, Value>, user: string, password: string,
                          clock: nat -> string, repr: Value -> string, query: Query,
                          libs: Libs) returns (reply: Reply)
    ensures IntakeOf(data, repr).Failure? ==> reply == IntakeOf(data, repr).error
    ensures IntakeOf(data, repr).Success? ==>
              var i := IntakeOf(data, repr).value;
              var session := NewSession(i.header, i.useServerAuth, user, password, libs);
              reply == Ok(clock(0), |i.radicados|, Map(Batch(session, i.radicados, 0, clock, query).1, ToResultDict))
  {
    var intake := ReadRequest(data, repr);
    if intake.Failure? {
      return intake.error;
    }
    var i := intake.value;
    var fetchedAt := clock(0);
    var session := NewSession(i.header, i.useServerAuth, user, password, libs);
    var results, _ := RunBatch(session, i.radicados, clock, query);
    return Ok(fetchedAt, |results|, Map(results, ToResultDict));
  }
}
