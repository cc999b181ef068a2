/** The repository's unit tests and an end-to-end alias scenario, as lemmas
    over small concrete tables. */
module Scenarios {
  import opened Wrappers
  import opened PyStrings
  import opened DynamoTable
  import opened DatabaseModels
  import opened RequestModels
  import opened RedirectController
  import opened RedirectHandler

  // Split in two so that the verifier can index the literal; it cannot index
  // one string literal this long.
  const ApiDomain: string := "j3qfzmnyjl" + ".execute-api.eu-west-1.amazonaws.com"

  /** A table that finds nothing for any query. */
  function EmptyTable(): Table {
    q => Success([])
  }

  /** One alias item for `ApiDomain`, pointing at `example.com`. */
  function AliasTable(): Table {
    q => if q == AliasQuery(ApiDomain) then
           Success([map["pk" := AliasKeyPrefix + ApiDomain, "sk" := AliasKeyPrefix + ApiDomain,
                        "target_domain" := "example.com"]])
         else Success([])
  }

  /** One exact redirect for `/` on `ApiDomain`. */
  function ExactTable(): Table {
    q => if q == ExactQuery(ApiDomain, "/") then
           Success([map["pk" := RedirectKeyPrefix + ApiDomain, "sk" := "/", "target" := "https://example.com"]])
         else Success([])
  }

  /** Two fallback redirects on `ApiDomain`, `/path1` stored before `/`. */
  function FallbackTable(): Table {
    q => if q == FallbackQuery(ApiDomain) then
           Success([map["pk" := FallbackKeyPrefix + ApiDomain, "sk" := "/path1", "target" := "https://example.com/option1"],
                    map["pk" := FallbackKeyPrefix + ApiDomain, "sk" := "/", "target" := "https://example.com/option2"]])
         else Success([])
  }

  /** `get_alias` finds no item and answers `None`. */
  lemma AliasNotFound()
    ensures GetAlias(EmptyTable(), ApiGatewayRequest("mock_domain", "/mock_path", None)) == Success(None)
  {
  }

  /** `get_alias` decodes the stored item; the source domain survives the
      strip because `j` is not among the stripped characters. */
  lemma AliasFound()
    ensures GetAlias(AliasTable(), ApiGatewayRequest(ApiDomain, "/mock_path", None))
         == Success(Some(Alias(ApiDomain, "example.com")))
  {
    var item := AliasTable()(AliasQuery(ApiDomain)).value[0];
    assert forall i | 0 <= i < |AliasStripChars| :: AliasStripChars[i] != 'j';
    assert ApiDomain[0] == 'j';
    LStripOwnPrefix(AliasStripChars, ApiDomain);
    assert AliasFromItem(item) == Success(Alias(ApiDomain, "example.com"));
  }

  /** A single exact item wins. */
  lemma ExactMatchFound()
    ensures GetRedirectLocation(ExactTable(), ApiDomain, "/") == Success(Some("https://example.com"))
  {
  }

  /** Neither exact nor fallback items: no location. */
  lemma NoLocation()
    ensures GetRedirectLocation(EmptyTable(), ApiDomain, "/") == Success(None)
  {
    QueriesAreDistinct(ApiDomain, ApiDomain, "/", "/");
  }

  /** Of `/path1` and `/`, both inside `/path1/2`, the longer one is chosen. */
  lemma LongestFallbackChosen()
    ensures GetRedirectLocation(FallbackTable(), ApiDomain, "/path1/2") == Success(Some("https://example.com/option1"))
  {
    QueriesAreDistinct(ApiDomain, ApiDomain, "/path1/2", "/path1/2");
    assert FallbackTable()(ExactQuery(ApiDomain, "/path1/2")) == Success([]);
    LongestFallbackLocation();
  }

  /** The fallback half of the test above. */
  lemma LongestFallbackLocation()
    ensures FallbackLocation(FallbackTable(), ApiDomain, "/path1/2") == Success(Some("https://example.com/option1"))
  {
    var items := FallbackTable()(FallbackQuery(ApiDomain)).value;
    assert |items| == 2;
    assert FallbackOptionFromItem(items[0]).Success? && FallbackOptionFromItem(items[1]).Success?;
    assert FallbackOptions(items).Success?;
    var options := FallbackOptions(items).value;
    assert options[0].path == "/path1" && options[0].target == "https://example.com/option1";
    assert options[1].path == "/";
    assert StartsWith("/path1/2", "/path1");
    FallbackLocationSpec(FallbackTable(), ApiDomain, "/path1/2");
    assert FallbackSelection.IsFirstLongestMatch(options, "/path1/2", 0);
  }

  /** An end-to-end alias scenario: `old.com` is an alias of `new.com`, which has a
      fallback on `/`; any path under `old.com` is sent there with 301, and
      `new.com` is reported as the resolved domain. */
  function AliasScenarioTable(): Table {
    q => if q == AliasQuery("old.com") then
           Success([map["pk" := AliasKeyPrefix + "old.com", "sk" := AliasKeyPrefix + "old.com",
                        "target_domain" := "new.com"]])
         else if q == FallbackQuery("new.com") then
           Success([map["pk" := FallbackKeyPrefix + "new.com", "sk" := "/", "target" := "https://x.com/home"]])
         else Success([])
  }

  /** The first half of the scenario: `old.com` resolves to `new.com`, whose
      fallback on `/` covers `/anything`. */
  lemma AliasScenarioLookups()
    ensures GetAlias(AliasScenarioTable(), ApiGatewayRequest("old.com", "/anything", None)).Success?
    ensures EffectiveDomain(GetAlias(AliasScenarioTable(), ApiGatewayRequest("old.com", "/anything", None)).value,
                            ApiGatewayRequest("old.com", "/anything", None)) == "new.com"
    ensures GetRedirectLocation(AliasScenarioTable(), "new.com", "/anything") == Success(Some("https://x.com/home"))
  {
    QueriesAreDistinct("old.com", "new.com", "/anything", "/anything");
    assert AliasScenarioTable()(ExactQuery("new.com", "/anything")) == Success([]);
    AliasScenarioFallback();
  }

  /** The fallback lookup of the scenario on its own. */
  lemma AliasScenarioFallback()
    ensures FallbackLocation(AliasScenarioTable(), "new.com", "/anything") == Success(Some("https://x.com/home"))
  {
    var table := AliasScenarioTable();
    var items := table(FallbackQuery("new.com")).value;
    assert |items| == 1;
    assert FallbackOptionFromItem(items[0]).Success?;
    assert FallbackOptions(items).Success?;
    var options := FallbackOptions(items).value;
    assert options[0].path == "/" && options[0].target == "https://x.com/home";
    assert StartsWith("/anything", "/");
    FallbackLocationSpec(table, "new.com", "/anything");
    assert FallbackSelection.IsFirstLongestMatch(options, "/anything", 0);
  }

  /** The whole scenario: 301 to the fallback target, resolved domain `new.com`. */
  lemma AliasScenario(urlencode: UrlEncoder)
    ensures EventHandler(AliasScenarioTable(), urlencode, ApiGatewayRequest("old.com", "/anything", None))
         == Success(HttpResponse(301, map[ResolvedDomainHeader := "new.com", LocationHeader := "https://x.com/home"]))
  {
    AliasScenarioLookups();
    var request := ApiGatewayRequest("old.com", "/anything", None);
    var alias := GetAlias(AliasScenarioTable(), request).value;
    RedirectResponse(AliasScenarioTable(), urlencode, request, alias, "https://x.com/home");
  }

  /** One fallback on `/a` for `d.com`. */
  function SubstringTable(): Table {
    q => if q == FallbackQuery("d.com") then
           Success([map["pk" := FallbackKeyPrefix + "d.com", "sk" := "/a", "target" := "https://x.com/a"]])
         else Success([])
  }

  /** Fallback matching is substring containment: `/b/a` is redirected by the
      rule on `/a` although it does not start with `/a`. */
  lemma SubstringFallbackScenario()
    ensures !StartsWith("/b/a", "/a")
    ensures GetRedirectLocation(SubstringTable(), "d.com", "/b/a") == Success(Some("https://x.com/a"))
  {
    ContainsIsNotStartsWith();
    QueriesAreDistinct("d.com", "d.com", "/b/a", "/b/a");
    var table := SubstringTable();
    assert table(ExactQuery("d.com", "/b/a")) == Success([]);
    var options := FallbackOptions(table(FallbackQuery("d.com")).value).value;
    FallbackLocationSpec(table, "d.com", "/b/a");
    assert FallbackSelection.IsFirstLongestMatch(options, "/b/a", 0);
  }
}
