/** The request gates of the gateway (`bridge_middleware`): each call is a
    decision over what the request carries, to forward it to the inner
    service with what was attached, or to answer at once. */
module BridgeMiddleware {
  import opened Wrappers
  import opened Models
  import opened Http
  import Strings
  import Utf8

  /** A cookie as the gate sees it: missing, present but not valid JSON for
      its type, or parsed. */
  datatype CookieState<C> = Absent | Malformed | Parsed(cookie: C)

  /** An answer with no headers and no body. */
  function Status(code: int): Response {
    Response(code, [], "")
  }

  // ------------------------------------------------------ cookie_check.rs

  /** `CookieCheckMW::call`: a missing gateway cookie is 401, a malformed one
      500; a parsed one is attached, with the notebook-status cookie when it
      is present and parses. */
  function CookieCheck<N>(bridge: CookieState<BridgeCookie>, notebook: CookieState<N>): (o: Outcome<(BridgeCookie, Option<N>)>)
    ensures bridge.Absent? <==> o == Respond(Status(401))
    ensures bridge.Malformed? <==> o == Respond(Status(500))
    ensures bridge.Parsed? <==> o.Forward?
    ensures o.Forward? ==> o.attached.0 == bridge.cookie
    ensures o.Forward? ==> (o.attached.1.Some? <==> notebook.Parsed?)
    ensures o.Forward? && notebook.Parsed? ==> o.attached.1 == Some(notebook.cookie)
  {
    match bridge
    case Absent => Respond(Status(401))
    case Malformed => Respond(Status(500))
    case Parsed(c) => Forward((c, if notebook.Parsed? then Some(notebook.cookie) else None))
  }

  /** The notebook-status cookie never decides whether the request passes. */
  lemma NotebookCookieNeverBlocks<N>(bridge: CookieState<BridgeCookie>, n1: CookieState<N>, n2: CookieState<N>)
    ensures CookieCheck(bridge, n1).Forward? == CookieCheck(bridge, n2).Forward?
    ensures CookieCheck(bridge, n1).Respond? ==> CookieCheck(bridge, n1) == CookieCheck(bridge, n2)
  {
  }

  // --------------------------------------------- resource_cookie_check.rs

  const RESOURCE_PREFIX: string := "/resource"

  /** The resource a path names: the second '/'-separated segment of the
      path after "/resource" (of the whole path when that is absent), or ""
      when there is none. */
  function RequestedResource(path: string): (r: string)
    ensures '/' !in r
  {
    var p := Strings.StripPrefixOr(path, RESOURCE_PREFIX);
    var parts := Strings.Split(p, "/");
    Strings.SplitPiecesFree(p, "/");
    if |parts| >= 2 then
      assert !Strings.Contains(parts[1], "/");
      assert '/' !in parts[1] by {
        if '/' in parts[1] {
          var i :| 0 <= i < |parts[1]| && parts[1][i] == '/';
          assert Strings.OccursAt(parts[1], "/", i);
        }
      }
      parts[1]
    else ""
  }

  /** The resource of `/resource/<name>...` is `<name>`. */
  lemma RequestedResourceOf(name: string, rest: string)
    requires '/' !in name
    requires rest == [] || rest[0] == '/'
    ensures RequestedResource(RESOURCE_PREFIX + "/" + name + rest) == name
  {
    var path := RESOURCE_PREFIX + "/" + name + rest;
    assert Strings.StartsWith(path, RESOURCE_PREFIX);
    var p := "/" + name + rest;
    assert path[|RESOURCE_PREFIX|..] == p;
    assert p == [] + ['/'] + (name + rest);
    Strings.SplitCharFirst([], '/', name + rest);
    if rest == [] {
      assert name + rest == name;
      Strings.SplitCharAbsent(name, '/');
    } else {
      assert name + rest == name + ['/'] + rest[1..];
      Strings.SplitCharFirst(name, '/', rest[1..]);
    }
  }

  /** `ResourceCookieCheckMW::call`: a missing cookie is 403 and a malformed
      one 500; a parsed one passes, with the requested resource attached,
      exactly when its allow-list is present and holds that resource. */
  function ResourceCookieCheck(path: string, bridge: CookieState<BridgeCookie>): (o: Outcome<(BridgeCookie, string)>)
    ensures bridge.Malformed? <==> o == Respond(Status(500))
    ensures o.Forward? <==> bridge.Parsed? && bridge.cookie.resources.Some? && RequestedResource(path) in bridge.cookie.resources.value
    ensures o.Forward? ==> o.attached == (bridge.cookie, RequestedResource(path))
    ensures !o.Forward? && !bridge.Malformed? ==> o == Respond(Status(403))
  {
    match bridge
    case Absent => Respond(Status(403))
    case Malformed => Respond(Status(500))
    case Parsed(c) =>
      if c.resources.Some? && RequestedResource(path) in c.resources.value then Forward((c, RequestedResource(path)))
      else Respond(Status(403))
  }

  // ------------------------------------------------------- maintenance.rs

  /** Reading the maintenance flag: the lock could not be taken for
      reading, or it holds the flag. */
  datatype LockRead = Unreadable | Readable(flag: bool)

  /** The redirect to the maintenance page. */
  const TO_MAINTENANCE: Response := Response(302, [("location", "/maintenance")], "")

  /** `MaintainenceMW::call`: while the flag is up, every request other
      than the maintenance page and the health check is sent to the
      maintenance page; an unreadable lock lets the request through. */
  function Maintenance(path: string, lock: LockRead): (o: Outcome<()>)
    ensures o == Respond(TO_MAINTENANCE) <==> path != "/maintenance" && path != "/health" && lock == Readable(true)
    ensures o.Respond? || o == Forward(())
  {
    if path != "/maintenance" && path != "/health" && lock == Readable(true) then Respond(TO_MAINTENANCE)
    else Forward(())
  }

  /** The exempt paths always pass. */
  lemma MaintenanceExempt(lock: LockRead)
    ensures Maintenance("/maintenance", lock) == Forward(())
    ensures Maintenance("/health", lock) == Forward(())
  {
  }

  // ------------------------------------------------------------- https.rs

  /** `HttpRedirectMW::call`: a plain-HTTP request is redirected for good to
      the same host and URI over HTTPS; any other scheme passes. */
  function HttpsRedirect(scheme: string, host: string, uri: string): (o: Outcome<()>)
    ensures scheme == "http" <==> o.Respond?
    ensures o.Respond? ==> o.response.status == 308 && o.response.body == ""
                           && o.response.headers == [("location", "https://" + host + uri)]
    ensures o.Respond? ==> Strings.EndsWith(o.response.headers[0].1, uri)
    ensures !o.Respond? ==> o == Forward(())
  {
    if scheme == "http" then
      var loc := "https://" + host + uri;
      assert loc[|loc| - |uri|..] == uri;
      Respond(Response(308, [("location", loc)], ""))
    else Forward(())
  }

  // -------------------------------------------------------------- htmx.rs

  /** `HtmxMW::call`: only a request whose `HX-Request` header is exactly
      the bytes of "true" passes; any other is 400. */
  function HtmxGate(hs: Headers): (o: Outcome<()>)
    ensures o.Forward? <==> GetHeader(hs, "hx-request") == Some(FromText("true"))
    ensures !o.Forward? ==> o == Respond(Status(400))
  {
    if GetHeader(hs, "hx-request") == Some(FromText("true")) then Forward(()) else Respond(Status(400))
  }

  /** Neither a missing header nor another spelling passes. */
  lemma HtmxOtherValues()
    ensures HtmxGate([]) == Respond(Status(400))
    ensures HtmxGate([("hx-request", FromText("TRUE"))]) == Respond(Status(400))
    ensures HtmxGate([("hx-request", FromText("false"))]) == Respond(Status(400))
    ensures HtmxGate([("hx-request", FromText("true"))]) == Forward(())
  {
    Utf8.DecodeEncode("TRUE");
    Utf8.DecodeEncode("false");
    Utf8.DecodeEncode("true");
  }

  // ------------------------------------------------------- authenicate.rs

  /** A bearer rejection: the realm and the error description. */
  datatype AuthError = AuthError(realm: string, description: Option<string>)

  /** The service the inference header names, "" when it is not text. */
  function InferenceName(v: HeaderValue): string {
    ToStr(v).GetOr("")
  }

  /** `validator`: `claims` is the validated token, `None` when validation
      fails. A valid token passes exactly when the inference header is
      there and names a service in its scope. */
  function Validator(claims: Option<TokenClaims>, hs: Headers): (r: Result<(), AuthError>)
    ensures claims.None? ==> r == Err(AuthError("proxy", None))
    ensures claims.Some? ==>
              (r.Ok? <==> GetHeader(hs, INFERENCE_HEADER).Some? && InferenceName(GetHeader(hs, INFERENCE_HEADER).value) in claims.value.scope)
    ensures claims.Some? && r.Err? ==> r == Err(AuthError("proxy", Some("Inference-Service Issue")))
  {
    match claims
    case None => Err(AuthError("proxy", None))
    case Some(c) =>
      var h := GetHeader(hs, INFERENCE_HEADER);
      if h.Some? && InferenceName(h.value) in c.scope then Ok(())
      else Err(AuthError("proxy", Some("Inference-Service Issue")))
  }

  /** A header value that is not text counts as "", so it passes exactly
      when "" is in scope. */
  lemma NonTextInference(c: TokenClaims, v: HeaderValue)
    requires !AllVisibleAscii(v)
    ensures Validator(Some(c), [(INFERENCE_HEADER, v)]).Ok? <==> "" in c.scope
  {
    assert GetHeader([(INFERENCE_HEADER, v)], INFERENCE_HEADER) == Some(v);
  }
}

/** The gates of the older `guardian_middleware` that differ in rule. */
module GuardianMiddleware {
  import opened Http
  import BridgeMiddleware

  /** `MaintainenceMW::call` of the older gate: while the flag is up every
      request, the maintenance page included, is redirected. */
  function Maintenance(lock: BridgeMiddleware.LockRead): (o: Outcome<()>)
    ensures o == Respond(BridgeMiddleware.TO_MAINTENANCE) <==> lock == BridgeMiddleware.Readable(true)
    ensures o.Respond? || o == Forward(())
  {
    if lock == BridgeMiddleware.Readable(true) then Respond(BridgeMiddleware.TO_MAINTENANCE) else Forward(())
  }

  /** The newer gate redirects a subset of what the older one does: the
      same rule less the exempt paths. */
  lemma BridgeExemptsMore(path: string, lock: BridgeMiddleware.LockRead)
    ensures BridgeMiddleware.Maintenance(path, lock).Respond? ==> Maintenance(lock).Respond?
    ensures Maintenance(lock).Respond? && path != "/maintenance" && path != "/health" ==> BridgeMiddleware.Maintenance(path, lock).Respond?
  {
  }
}
