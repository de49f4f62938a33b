/** The service catalog (`config/services.toml`) and URLs as the forwarding
    routes build them. */
module Services {
  import opened Wrappers
  import opened Errors
  import Strings
  import UrlPath

  /** The URL components the routes rewrite. */
  datatype Url = Url(scheme: string, host: string, path: string, query: Option<string>)

  /** `Url::set_path` on a URL with a host: only the path changes, to what
      the URL path parser makes of `p`. The input comes back as it is
      exactly when it is a plain path (or, on a URL that is not special, the
      empty path); whatever it is, the new path is plain or empty, and a
      special URL's path starts with '/'. */
  function SetPath(u: Url, p: string): (r: Url)
    ensures r == u.(path := r.path)
    ensures r.path == UrlPath.Resolved(p, IsSpecial(u.scheme))
    ensures r.path == p <==> UrlPath.PlainPath(p, IsSpecial(u.scheme)) || (!IsSpecial(u.scheme) && p == [])
    ensures UrlPath.PlainPath(r.path, IsSpecial(u.scheme)) || (!IsSpecial(u.scheme) && r.path == [])
    ensures IsSpecial(u.scheme) ==> Strings.StartsWith(r.path, "/")
  {
    UrlPath.ResolvedFixed(p, IsSpecial(u.scheme));
    UrlPath.ResolvedIsPlain(p, IsSpecial(u.scheme));
    u.(path := UrlPath.Resolved(p, IsSpecial(u.scheme)))
  }

  /** Setting the path to the one just set changes nothing. */
  lemma SetPathIdempotent(u: Url, p: string)
    ensures SetPath(SetPath(u, p), SetPath(u, p).path) == SetPath(u, p)
  {
    UrlPath.ResolvedIdempotent(p, IsSpecial(u.scheme));
  }

  /** `Url::set_query`: only the query changes. */
  function SetQuery(u: Url, q: Option<string>): (r: Url)
    ensures r == u.(query := r.query) && r.query == q
  {
    u.(query := q)
  }

  /** The schemes the URL standard calls special. */
  predicate IsSpecial(scheme: string) {
    scheme == "http" || scheme == "https" || scheme == "ws" || scheme == "wss" || scheme == "ftp" || scheme == "file"
  }

  /** `Url::set_scheme` to "ws" or "wss": refused when the URL's scheme is
      not special, or is `file` with an empty host. */
  function SetSocketScheme(u: Url, s: string): (r: Option<Url>)
    requires s == "ws" || s == "wss"
    ensures r.Some? <==> IsSpecial(u.scheme) && !(u.scheme == "file" && u.host == "")
    ensures r.Some? ==> r.value == u.(scheme := s)
  {
    if IsSpecial(u.scheme) && !(u.scheme == "file" && u.host == "") then Some(u.(scheme := s)) else None
  }

  /** A TOML value: a string, a table, or anything else. */
  datatype Toml = Str(s: string) | Table(entries: map<string, Toml>) | Other

  /** `Value::get` with a key: only tables have entries. */
  function Get(v: Toml, key: string): (r: Option<Toml>)
    ensures r.Some? <==> v.Table? && key in v.entries
    ensures r.Some? ==> r.value == v.entries[key]
  {
    if v.Table? && key in v.entries then Some(v.entries[key]) else None
  }

  /** `Catalog::get`: the `url` of `services.<name>`, parsed by `parse`
      (URL parsing is not modelled). */
  function CatalogGet(root: map<string, Toml>, name: string, parse: string -> Result<Url, string>): (r: Result<Url, RouteError>)
    ensures "services" !in root ==> r == Err(Errors.General("services definition not found in config"))
    ensures "services" in root && Get(root["services"], name).None? ==> r == Err(ServiceDoesNotExist(name))
    ensures "services" in root && Get(root["services"], name).Some? ==>
              var svc := Get(root["services"], name).value;
              && (Get(svc, "url").None? ==> r == Err(Errors.General("url not found in service definition")))
              && (Get(svc, "url").Some? && !Get(svc, "url").value.Str? ==> r == Err(Errors.General("url not a string")))
              && (Get(svc, "url").Some? && Get(svc, "url").value.Str? ==>
                    var parsed := parse(Get(svc, "url").value.s);
                    r == (if parsed.Ok? then Ok(parsed.value) else Err(Errors.General(parsed.error))))
  {
    if "services" !in root then Err(Errors.General("services definition not found in config"))
    else
      match Get(root["services"], name)
      case None => Err(ServiceDoesNotExist(name))
      case Some(svc) =>
        match Get(svc, "url")
        case None => Err(Errors.General("url not found in service definition"))
        case Some(u) =>
          if !u.Str? then Err(Errors.General("url not a string"))
          else
            match parse(u.s)
            case Ok(url) => Ok(url)
            case Err(e) => Err(Errors.General(e))
  }

  /** With the postman entry of the example configuration, "postman"
      resolves to its URL text. */
  lemma PostmanEntry(parse: string -> Result<Url, string>)
    requires parse("https://postman-echo.com/").Ok?
    ensures var root := map["services" := Table(map["postman" := Table(map["url" := Str("https://postman-echo.com/")])])];
            CatalogGet(root, "postman", parse) == Ok(parse("https://postman-echo.com/").value)
  {
  }
}

/** The forwarding routes `/mcp/`, `/proxy` and `/resource/`: where a request
    is sent and what it must carry. The lookups in the catalog, token
    validation and signing are given as inputs. */
module Routes {
  import opened Wrappers
  import opened Errors
  import opened Models
  import opened Http
  import opened Services
  import Strings
  import UrlPath

  // -------------------------------------------------------- mcp/mod.rs

  const MCP_PREFIX: string := "/mcp/"
  const MCP_SUFFIX: string := "-s"

  /** The MCP server a path names and the rest of the path: after "/mcp/"
      (the whole path when it is absent), the text up to the first '/' and
      what follows it. */
  function McpSplit(path: string): (r: (string, string))
    ensures '/' !in r.0
    ensures Strings.StripPrefixOr(path, MCP_PREFIX) == r.0 + r.1
    ensures r.1 == [] || r.1[0] == '/'
  {
    var p := Strings.StripPrefixOr(path, MCP_PREFIX);
    var mcp := Strings.Split(p, "/")[0];
    Strings.SplitHead(p, '/');
    assert p == mcp + p[|mcp|..];
    (mcp, Strings.StripPrefixOr(p, mcp))
  }

  /** `forward` of `/mcp/`: `isMcp` and `lookup` stand for the catalog's
      `is_service_mcp` and `get_service`, `claims` for the validated bearer
      token (`None` when it does not validate). The result is the URL the
      request is forwarded to, as an inference request. */
  function McpForward(path: string, query: Option<string>, isMcp: string -> Result<bool, RouteError>,
                      claims: Option<TokenClaims>, lookup: string -> Result<Url, RouteError>): (r: Result<Url, RouteError>)
    // a server that is not MCP is refused before the token is looked at
    ensures var mcp := McpSplit(path).0;
            isMcp(mcp) == Ok(false) ==> r == Err(ServiceDoesNotExist(mcp))
    ensures var mcp := McpSplit(path).0;
            isMcp(mcp).Err? ==> r == Err(isMcp(mcp).error)
    // then the token must be valid and grant the server
    ensures var mcp := McpSplit(path).0;
            isMcp(mcp) == Ok(true) && claims.None? ==> r == Err(Unauthorized("JWT token is invalid"))
    ensures var mcp := McpSplit(path).0;
            isMcp(mcp) == Ok(true) && claims.Some? && mcp !in claims.value.scope ==>
              r == Err(Unauthorized("User does not have access to " + mcp))
    ensures var mcp := McpSplit(path).0;
            r.Ok? <==> isMcp(mcp) == Ok(true) && claims.Some? && mcp in claims.value.scope && lookup(mcp).Ok?
    // the rest of the path is kept, with a '/' added for servers named "...-s", and so is the query
    ensures r.Ok? ==>
              var (mcp, rest) := McpSplit(path);
              r.value == SetQuery(SetPath(lookup(mcp).value, if Strings.EndsWith(mcp, MCP_SUFFIX) then rest + "/" else rest), query)
  {
    var (mcp, rest) := McpSplit(path);
    match isMcp(mcp)
    case Err(e) => Err(e)
    case Ok(false) => Err(ServiceDoesNotExist(mcp))
    case Ok(true) =>
      match claims
      case None => Err(Unauthorized("JWT token is invalid"))
      case Some(c) =>
        if mcp !in c.scope then Err(Unauthorized("User does not have access to " + mcp))
        else
          match lookup(mcp)
          case Err(e) => Err(e)
          case Ok(u) =>
            var target := if Strings.EndsWith(mcp, MCP_SUFFIX) then SetPath(u, rest + "/") else SetPath(u, rest);
            Ok(SetQuery(target, query))
  }

  /** The path forwarded to a server named "...-s" ends in '/'. */
  lemma McpTrailingSlash(path: string, query: Option<string>, isMcp: string -> Result<bool, RouteError>,
                         claims: Option<TokenClaims>, lookup: string -> Result<Url, RouteError>)
    requires McpForward(path, query, isMcp, claims, lookup).Ok?
    ensures var mcp := McpSplit(path).0;
            var p := McpForward(path, query, isMcp, claims, lookup).value.path;
            Strings.EndsWith(mcp, MCP_SUFFIX) ==> Strings.EndsWith(p, "/")
  {
    var (mcp, rest) := McpSplit(path);
    var u := lookup(mcp).value;
    if Strings.EndsWith(mcp, MCP_SUFFIX) {
      var q := rest + "/";
      assert Strings.StartsWith(q, "/") && Strings.EndsWith(q, "/") by {
        assert q[0] == '/' && q[|q| - 1..] == "/";
      }
      UrlPath.TrailingSlash(q, IsSpecial(u.scheme));
    }
  }

  // ------------------------------------------------------ proxy/mod.rs

  const BRIDGE_PREFIX: string := "/proxy"

  /** `forward` of `/proxy`: the `Inference-Service` header names the
      service, `lookup` stands for the catalog's `get_service`; the path
      loses its "/proxy" and the query is kept. */
  function ProxyForward(path: string, query: Option<string>, hs: Headers,
                        lookup: string -> Result<Url, RouteError>): (r: Result<Url, RouteError>)
    ensures GetHeader(hs, INFERENCE_HEADER).None? ==> r == Err(InferenceServiceHeaderNotFound)
    ensures GetHeader(hs, INFERENCE_HEADER).Some? && ToStr(GetHeader(hs, INFERENCE_HEADER).value).None? ==>
              r == Err(InferenceServiceHeaderNotFound)
    ensures GetHeader(hs, INFERENCE_HEADER).Some? && ToStr(GetHeader(hs, INFERENCE_HEADER).value).Some? ==>
              var service := ToStr(GetHeader(hs, INFERENCE_HEADER).value).value;
              && (lookup(service).Err? ==> r == Err(lookup(service).error))
              && (lookup(service).Ok? ==> r == Ok(SetQuery(SetPath(lookup(service).value, Strings.StripPrefixOr(path, BRIDGE_PREFIX)), query)))
  {
    match GetHeader(hs, INFERENCE_HEADER)
    case None => Err(InferenceServiceHeaderNotFound)
    case Some(v) =>
      match ToStr(v)
      case None => Err(InferenceServiceHeaderNotFound)
      case Some(service) =>
        match lookup(service)
        case Err(e) => Err(e)
        case Ok(u) => Ok(SetQuery(SetPath(u, Strings.StripPrefixOr(path, BRIDGE_PREFIX)), query))
  }

  /** A request under `/proxy` reaches the service with the path after the
      prefix as the URL path parser leaves it on the service's URL: the same
      text when it is a plain path, its dot segments resolved otherwise. */
  lemma ProxyPath(rest: string, query: Option<string>, hs: Headers, lookup: string -> Result<Url, RouteError>)
    requires ProxyForward(BRIDGE_PREFIX + rest, query, hs, lookup).Ok?
    ensures var u := ProxyForward(BRIDGE_PREFIX + rest, query, hs, lookup).value;
            u.path == UrlPath.Resolved(rest, IsSpecial(u.scheme))
    ensures var u := ProxyForward(BRIDGE_PREFIX + rest, query, hs, lookup).value;
            UrlPath.PlainPath(rest, IsSpecial(u.scheme)) ==> u.path == rest
  {
    assert Strings.StartsWith(BRIDGE_PREFIX + rest, BRIDGE_PREFIX);
    assert (BRIDGE_PREFIX + rest)[|BRIDGE_PREFIX|..] == rest;
  }

  /** ".." segments in a proxied path climb no higher than the service's
      root: "/proxy/a/../../x" reaches the service as "/x". */
  lemma ProxyClimb(a: string, x: string, query: Option<string>, hs: Headers, lookup: string -> Result<Url, RouteError>)
    requires ProxyForward(BRIDGE_PREFIX + "/" + a + "/../../" + x, query, hs, lookup).Ok?
    requires UrlPath.Plain(a, true) && UrlPath.Plain(x, true)
    ensures ProxyForward(BRIDGE_PREFIX + "/" + a + "/../../" + x, query, hs, lookup).value.path == "/" + x
  {
    var rest := "/" + a + "/../../" + x;
    ClimbRequest(a, x);
    ProxyPath(rest, query, hs, lookup);
    var special := IsSpecial(ProxyForward(BRIDGE_PREFIX + rest, query, hs, lookup).value.scheme);
    UrlPath.ClimbPastRoot(a, x, special);
  }

  lemma ClimbRequest(a: string, x: string)
    ensures BRIDGE_PREFIX + "/" + a + "/../../" + x == BRIDGE_PREFIX + ("/" + a + "/../../" + x)
  {
  }

  // --------------------------------------------------- resource/mod.rs

  /** A day, in seconds: the lifetime of a refreshed resource token. */
  const RESOURCE_TOKEN_LIFETIME: int := 60 * 60 * 24

  /** Where a resource request goes, and the refreshed gateway cookie, if
      any, sent back with the answer. */
  datatype ResourceTarget = ResourceTarget(url: Url, updatedCookie: Option<BridgeCookie>)

  /** The scope of a refreshed token: the first subscription list of the
      first document the user-group aggregation returns, or none. */
  function AggregateScope(docs: seq<seq<seq<string>>>): (scope: seq<string>)
    ensures |docs| > 0 && |docs[0]| > 0 ==> scope == docs[0][0]
    ensures |docs| == 0 || |docs[0]| == 0 ==> scope == []
  {
    if |docs| > 0 && |docs[0]| > 0 then docs[0][0] else []
  }

  /** `resource_http`: `cookie` and `resource` are what the allow-list gate
      attached; `aggregate` is the user-group aggregation's result (its
      documents' `group_subscriptions`), `sign` the token signer and
      `lookup` the catalog's `get_resource`. */
  function ResourceHttp(cookie: BridgeCookie, resource: string, path: string, query: Option<string>,
                        aggregate: Result<seq<seq<seq<string>>>, string>,
                        sign: TokenClaims -> Result<string, RouteError>,
                        lookup: string -> Result<Url, RouteError>): (r: Result<ResourceTarget, RouteError>)
    // a token is refreshed exactly when the query holds "token=true"
    ensures r.Ok? ==> (r.value.updatedCookie.Some? <==> query.Some? && Strings.Contains(query.value, "token=true"))
    // the refreshed cookie differs from the incoming one only in its token, signed for the aggregated scope
    ensures r.Ok? && r.value.updatedCookie.Some? ==>
              && aggregate.Ok?
              && var claims := TokenClaims(cookie.subject, RESOURCE_TOKEN_LIFETIME, AggregateScope(aggregate.value));
                 sign(claims).Ok? && r.value.updatedCookie.value == cookie.(token := Some(sign(claims).value))
    // the target is the resource's URL with the path after "/resource/<name>" and the query
    ensures r.Ok? ==>
              && lookup(resource).Ok?
              && r.value.url == SetQuery(SetPath(lookup(resource).value, Strings.StripPrefixOr(path, "/resource/" + resource)), query)
    ensures query.Some? && Strings.Contains(query.value, "token=true") && aggregate.Err? ==> r == Err(Errors.General(aggregate.error))
    ensures (query.None? || !Strings.Contains(query.value, "token=true")) ==> (r.Ok? <==> lookup(resource).Ok?)
    // the request goes through exactly when the resource is catalogued and a requested refresh succeeds
    ensures r.Ok? <==>
              && lookup(resource).Ok?
              && (query.Some? && Strings.Contains(query.value, "token=true") ==>
                    && aggregate.Ok?
                    && sign(TokenClaims(cookie.subject, RESOURCE_TOKEN_LIFETIME, AggregateScope(aggregate.value))).Ok?)
    ensures (&& query.Some? && Strings.Contains(query.value, "token=true") && aggregate.Ok?
             && sign(TokenClaims(cookie.subject, RESOURCE_TOKEN_LIFETIME, AggregateScope(aggregate.value))).Err?) ==>
              r == Err(sign(TokenClaims(cookie.subject, RESOURCE_TOKEN_LIFETIME, AggregateScope(aggregate.value))).error)
    // the catalog is asked only after the refresh, and its error is passed on
    ensures (&& (query.Some? && Strings.Contains(query.value, "token=true") ==>
                  && aggregate.Ok?
                  && sign(TokenClaims(cookie.subject, RESOURCE_TOKEN_LIFETIME, AggregateScope(aggregate.value))).Ok?)
             && lookup(resource).Err?) ==>
              r == Err(lookup(resource).error)
  {
    var refreshed: Result<Option<BridgeCookie>, RouteError> :=
      if query.Some? && Strings.Contains(query.value, "token=true") then
        match aggregate
        case Err(e) => Err(Errors.General(e))
        case Ok(docs) =>
          match sign(TokenClaims(cookie.subject, RESOURCE_TOKEN_LIFETIME, AggregateScope(docs)))
          case Err(e) => Err(e)
          case Ok(token) => Ok(Some(cookie.(token := Some(token))))
      else Ok(None);
    match refreshed
    case Err(e) => Err(e)
    case Ok(updated) =>
      match lookup(resource)
      case Err(e) => Err(e)
      case Ok(u) => Ok(ResourceTarget(SetQuery(SetPath(u, Strings.StripPrefixOr(path, "/resource/" + resource)), query), updated))
  }

  const WS_SCHEME_ERROR: string := "Could not set scheme to ws"

  /** `resource_ws`: the resource's URL switched to "ws", with the path
      captured after `/ws/` and the query. */
  function ResourceWs(resource: string, wsPath: string, query: Option<string>,
                      lookup: string -> Result<Url, RouteError>): (r: Result<Url, RouteError>)
    ensures r.Ok? ==> && lookup(resource).Ok?
                      && r.value == SetQuery(SetPath(lookup(resource).value.(scheme := "ws"), wsPath), query)
    ensures lookup(resource).Ok? && SetSocketScheme(lookup(resource).value, "ws").None? ==> r == Err(Errors.General(WS_SCHEME_ERROR))
    ensures r.Ok? <==> lookup(resource).Ok? && SetSocketScheme(lookup(resource).value, "ws").Some?
    ensures r.Ok? ==> r.value.scheme == "ws" && r.value.query == query
    ensures lookup(resource).Err? ==> r == Err(lookup(resource).error)
  {
    match lookup(resource)
    case Err(e) => Err(e)
    case Ok(u) =>
      match SetSocketScheme(u, "ws")
      case None => Err(Errors.General(WS_SCHEME_ERROR))
      case Some(w) => Ok(SetQuery(SetPath(w, wsPath), query))
  }

  /** `resource_wss`: the resource's URL switched to "wss", its own path
      kept, with the query. A refused scheme reports the "ws" message. */
  function ResourceWss(resource: string, query: Option<string>,
                       lookup: string -> Result<Url, RouteError>): (r: Result<Url, RouteError>)
    ensures r.Ok? ==> && lookup(resource).Ok?
                      && r.value == lookup(resource).value.(scheme := "wss", query := query)
    ensures lookup(resource).Ok? && SetSocketScheme(lookup(resource).value, "wss").None? ==> r == Err(Errors.General(WS_SCHEME_ERROR))
    ensures r.Ok? <==> lookup(resource).Ok? && SetSocketScheme(lookup(resource).value, "wss").Some?
    ensures lookup(resource).Err? ==> r == Err(lookup(resource).error)
  {
    match lookup(resource)
    case Err(e) => Err(e)
    case Ok(u) =>
      match SetSocketScheme(u, "wss")
      case None => Err(Errors.General(WS_SCHEME_ERROR))
      case Some(w) => Ok(SetQuery(w, query))
  }
}
