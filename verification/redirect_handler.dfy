/** `event_handler`: resolve the alias, look up the redirect for the effective
    domain, and answer 404 or 301. The URL encoder is a parameter (its
    internals are not modelled), as is the table. */
module RedirectHandler {
  import opened Wrappers
  import opened DynamoTable
  import opened DatabaseModels
  import opened RequestModels
  import opened RedirectController

  const ResolvedDomainHeader: string := "X-Resolved-Domain"
  const LocationHeader: string := "Location"

  /** The Lambda proxy response: status code and headers, no body. */
  datatype HttpResponse = HttpResponse(statusCode: int, headers: map<string, string>)

  /** `urllib.parse.urlencode`, left uninterpreted. */
  type UrlEncoder = QueryParams -> string

  /** The domain whose redirects apply: the alias target when an alias exists,
      otherwise the requested domain. */
  function EffectiveDomain(alias: Option<Alias>, request: ApiGatewayRequest): (domain: string)
    ensures alias.Some? ==> domain == alias.value.targetDomain
    ensures alias.None? ==> domain == request.domain
  {
    if alias.Some? then alias.value.targetDomain else request.domain
  }

  /** Python truthiness of `request.query_params`: present and non-empty. */
  predicate HasQueryParams(request: ApiGatewayRequest)
    ensures HasQueryParams(request) <==> request.queryParams != None && request.queryParams != Some([])
  {
    request.queryParams.Some? && |request.queryParams.value| > 0
  }

  /** The `Location` of a 301: the target, followed by `?` and the encoded
      query parameters when the request carried any. */
  function RedirectLocation(target: string, request: ApiGatewayRequest, urlencode: UrlEncoder): (r: string)
    ensures |r| >= |target| && r[..|target|] == target
    ensures HasQueryParams(request) ==> r[|target|..] == "?" + urlencode(request.queryParams.value)
    ensures !HasQueryParams(request) ==> r == target
  {
    if HasQueryParams(request) then target + "?" + urlencode(request.queryParams.value) else target
  }

  /** `event_handler`, with an exception escaping it as `Failure`. */
  function EventHandler(table: Table, urlencode: UrlEncoder, request: ApiGatewayRequest): (r: Result<HttpResponse, Error>)
    ensures r.Success? ==> r.value.statusCode == 301 || r.value.statusCode == 404
    ensures r.Success? ==> ResolvedDomainHeader in r.value.headers
    ensures GetAlias(table, request).Failure? ==> r == Failure(GetAlias(table, request).error)
    ensures GetAlias(table, request).Success? ==>
      var domain := EffectiveDomain(GetAlias(table, request).value, request);
      var location := GetRedirectLocation(table, domain, request.path);
      && (location.Failure? ==> r == Failure(location.error))
      && (location.Success? ==> r.Success? && r.value.headers[ResolvedDomainHeader] == domain)
      && (location.Success? && (location.value.None? || location.value.value == "") ==>
            r == Success(HttpResponse(404, map[ResolvedDomainHeader := domain])))
      && (location.Success? && location.value.Some? && location.value.value != "" ==>
            && r.value.statusCode == 301
            && r.value.headers.Keys == {ResolvedDomainHeader, LocationHeader}
            && r.value.headers[LocationHeader] == RedirectLocation(location.value.value, request, urlencode))
  {
    var alias :- GetAlias(table, request);
    var domain := EffectiveDomain(alias, request);
    var location :- GetRedirectLocation(table, domain, request.path);
    var baseHeaders := map[ResolvedDomainHeader := domain];
    if location.None? || location.value == "" then
      Success(HttpResponse(404, baseHeaders))
    else
      Success(HttpResponse(301, baseHeaders + map[LocationHeader := RedirectLocation(location.value, request, urlencode)]))
  }

  /** A found, non-empty location yields exactly this 301 response. */
  lemma RedirectResponse(table: Table, urlencode: UrlEncoder, request: ApiGatewayRequest,
                         alias: Option<Alias>, target: string)
    requires GetAlias(table, request) == Success(alias)
    requires GetRedirectLocation(table, EffectiveDomain(alias, request), request.path) == Success(Some(target))
    requires target != ""
    ensures EventHandler(table, urlencode, request)
         == Success(HttpResponse(301, map[ResolvedDomainHeader := EffectiveDomain(alias, request),
                                          LocationHeader := RedirectLocation(target, request, urlencode)]))
  {
    var domain, location := EffectiveDomain(alias, request), RedirectLocation(target, request, urlencode);
    assert map[ResolvedDomainHeader := domain] + map[LocationHeader := location]
        == map[ResolvedDomainHeader := domain, LocationHeader := location];
  }

  /** Once an alias is found the requested domain plays no further part: two
      requests whose domains are aliases of the same target, and that agree on
      path and query, get the same response. */
  lemma AliasReplacesDomain(table: Table, urlencode: UrlEncoder, r1: ApiGatewayRequest, r2: ApiGatewayRequest)
    requires GetAlias(table, r1).Success? && GetAlias(table, r1).value.Some?
    requires GetAlias(table, r2).Success? && GetAlias(table, r2).value.Some?
    requires GetAlias(table, r1).value.value.targetDomain == GetAlias(table, r2).value.value.targetDomain
    requires r1.path == r2.path && r1.queryParams == r2.queryParams
    ensures EventHandler(table, urlencode, r1) == EventHandler(table, urlencode, r2)
  {
  }

  /** Without an alias the requested domain is the one whose redirects apply
      and the one reported back. */
  lemma NoAliasKeepsDomain(table: Table, urlencode: UrlEncoder, request: ApiGatewayRequest)
    requires table(AliasQuery(request.domain)) == Success([])
    requires EventHandler(table, urlencode, request).Success?
    ensures EventHandler(table, urlencode, request).value.headers[ResolvedDomainHeader] == request.domain
  {
  }

  /** Query parameters reach the client only on a 301, appended once to the
      non-empty target the lookup returned. */
  lemma QueryStringOnlyOnRedirect(table: Table, urlencode: UrlEncoder, request: ApiGatewayRequest)
    requires EventHandler(table, urlencode, request).Success?
    ensures var response := EventHandler(table, urlencode, request).value;
      && (response.statusCode == 404 ==> LocationHeader !in response.headers)
      && (response.statusCode == 301 ==>
            var location := GetRedirectLocation(table, EffectiveDomain(GetAlias(table, request).value, request), request.path);
            && location.Success? && location.value.Some? && location.value.value != ""
            && response.headers[LocationHeader] == RedirectLocation(location.value.value, request, urlencode))
  {
  }
}
