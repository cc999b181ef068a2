/** `RedirectController`: the queries the controller sends to the table and
    the decisions it takes on their answers. The table is a parameter (see
    `DynamoTable.Table`); everything else is as the controller computes it. */
module RedirectController {
  import opened Wrappers
  import opened PyStrings
  import opened DynamoTable
  import opened DatabaseModels
  import opened RequestModels
  import opened FallbackSelection

  /** Partition-key prefixes of the three kinds of record. */
  const AliasKeyPrefix: string := "DomainAlias#"
  const RedirectKeyPrefix: string := "Redirect#"
  const FallbackKeyPrefix: string := "RedirectFallback#"

  /** The message of the `RuntimeError` raised on duplicate exact redirects. */
  const MultipleOptionsMessage: string := "Multiple redirect options found for request path"

  /** The alias lookup: partition key and sort key are both `DomainAlias#<domain>`. */
  function AliasQuery(domain: string): (q: KeyCondition)
    ensures q.PartitionAndSortKeyEq? && q.pk == q.sk
    ensures |q.pk| >= |AliasKeyPrefix| && q.pk[..|AliasKeyPrefix|] == AliasKeyPrefix
    ensures q.pk[|AliasKeyPrefix|..] == domain
  {
    PartitionAndSortKeyEq(AliasKeyPrefix + domain, AliasKeyPrefix + domain)
  }

  /** The exact lookup: partition key `Redirect#<domain>`, sort key the request path. */
  function ExactQuery(domain: string, requestPath: string): (q: KeyCondition)
    ensures q.PartitionAndSortKeyEq? && q.sk == requestPath
    ensures |q.pk| >= |RedirectKeyPrefix| && q.pk[..|RedirectKeyPrefix|] == RedirectKeyPrefix
    ensures q.pk[|RedirectKeyPrefix|..] == domain
  {
    PartitionAndSortKeyEq(RedirectKeyPrefix + domain, requestPath)
  }

  /** The fallback lookup: every item under partition key `RedirectFallback#<domain>`. */
  function FallbackQuery(domain: string): (q: KeyCondition)
    ensures q.PartitionKeyEq?
    ensures |q.pk| >= |FallbackKeyPrefix| && q.pk[..|FallbackKeyPrefix|] == FallbackKeyPrefix
    ensures q.pk[|FallbackKeyPrefix|..] == domain
  {
    PartitionKeyEq(FallbackKeyPrefix + domain)
  }

  /** Different domains (and paths) never share a query, and the three kinds
      of query never coincide. */
  lemma QueriesAreDistinct(d1: string, d2: string, p1: string, p2: string)
    ensures AliasQuery(d1) == AliasQuery(d2) ==> d1 == d2
    ensures ExactQuery(d1, p1) == ExactQuery(d2, p2) ==> d1 == d2 && p1 == p2
    ensures FallbackQuery(d1) == FallbackQuery(d2) ==> d1 == d2
    ensures AliasQuery(d1) != ExactQuery(d2, p2)
  {
    if AliasQuery(d1) == AliasQuery(d2) {
      assert d1 == (AliasKeyPrefix + d1)[|AliasKeyPrefix|..];
      assert d2 == (AliasKeyPrefix + d2)[|AliasKeyPrefix|..];
    }
    if ExactQuery(d1, p1) == ExactQuery(d2, p2) {
      assert d1 == (RedirectKeyPrefix + d1)[|RedirectKeyPrefix|..];
      assert d2 == (RedirectKeyPrefix + d2)[|RedirectKeyPrefix|..];
    }
    if FallbackQuery(d1) == FallbackQuery(d2) {
      assert d1 == (FallbackKeyPrefix + d1)[|FallbackKeyPrefix|..];
      assert d2 == (FallbackKeyPrefix + d2)[|FallbackKeyPrefix|..];
    }
    assert (AliasKeyPrefix + d1)[0] == 'D';
    assert (RedirectKeyPrefix + d2)[0] == 'R';
  }

  /** `get_alias`: `None` when the alias query finds nothing, otherwise the
      decoding of the first item found. */
  function GetAlias(table: Table, request: ApiGatewayRequest): (r: Result<Option<Alias>, Error>)
    ensures table(AliasQuery(request.domain)).Failure? ==> r == Failure(table(AliasQuery(request.domain)).error)
    ensures r == Success(None) <==> table(AliasQuery(request.domain)) == Success([])
    ensures table(AliasQuery(request.domain)).Success? && |table(AliasQuery(request.domain)).value| > 0 ==>
      var decoded := AliasFromItem(table(AliasQuery(request.domain)).value[0]);
      && (r.Success? <==> decoded.Success?)
      && (r.Success? ==> r.value == Some(decoded.value))
      && (r.Failure? ==> r.error == decoded.error)
  {
    var items :- table(AliasQuery(request.domain));
    if |items| == 0 then
      Success(None)
    else
      var alias :- AliasFromItem(items[0]);
      Success(Some(alias))
  }

  /** `_get_redirect_from_ddb`: the exact query's items, of which there are at
      most one, or `RuntimeError` when the table holds several. */
  function QueryExactRedirects(table: Table, domain: string, requestPath: string): (r: Result<seq<Item>, Error>)
    ensures r.Success? ==> |r.value| <= 1 && r == table(ExactQuery(domain, requestPath))
    ensures table(ExactQuery(domain, requestPath)).Success? && |table(ExactQuery(domain, requestPath)).value| <= 1 ==>
      r == table(ExactQuery(domain, requestPath))
    ensures table(ExactQuery(domain, requestPath)).Failure? ==> r == table(ExactQuery(domain, requestPath))
    ensures table(ExactQuery(domain, requestPath)).Success? && |table(ExactQuery(domain, requestPath)).value| > 1 ==>
      r == Failure(RuntimeError(MultipleOptionsMessage))
  {
    var items :- table(ExactQuery(domain, requestPath));
    if |items| > 1 then Failure(RuntimeError(MultipleOptionsMessage)) else Success(items)
  }

  /** The first loop of `_get_fallback_redirect_location`: decode every
      fallback item, in order, stopping at the first one that lacks an
      attribute. */
  function FallbackOptions(items: seq<Item>): (r: Result<seq<RedirectFallbackOption>, Error>)
    ensures r.Success? ==>
      && |r.value| == |items|
      && forall i | 0 <= i < |items| :: FallbackOptionFromItem(items[i]) == Success(r.value[i])
    ensures r.Failure? ==>
      exists i | 0 <= i < |items| ::
        && FallbackOptionFromItem(items[i]) == Failure(r.error)
        && forall j | 0 <= j < i :: FallbackOptionFromItem(items[j]).Success?
    decreases |items|
  {
    if |items| == 0 then
      Success([])
    else
      match FallbackOptionFromItem(items[0])
      case Failure(e) => Failure(e)
      case Success(option) =>
        match FallbackOptions(items[1..])
        case Failure(e) =>
          var i :| 0 <= i < |items[1..]| && FallbackOptionFromItem(items[1..][i]) == Failure(e)
                   && forall j | 0 <= j < i :: FallbackOptionFromItem(items[1..][j]).Success?;
          assert forall j | 0 < j <= i :: items[j] == items[1..][j - 1];
          assert FallbackOptionFromItem(items[i + 1]) == Failure(e);
          Failure(e)
        case Success(rest) =>
          assert forall i | 0 < i < |items| :: items[i] == items[1..][i - 1];
          Success([option] + rest)
  }

  /** `_get_fallback_redirect_location`: the target of the selected fallback
      option, if any. */
  function FallbackLocation(table: Table, domain: string, requestPath: string): (r: Result<Option<string>, Error>)
    ensures table(FallbackQuery(domain)).Failure? ==> r == Failure(table(FallbackQuery(domain)).error)
    ensures r.Success? ==> table(FallbackQuery(domain)).Success?
    ensures table(FallbackQuery(domain)).Success? && FallbackOptions(table(FallbackQuery(domain)).value).Failure? ==>
      r == Failure(FallbackOptions(table(FallbackQuery(domain)).value).error)
    ensures r.Success? && r.value.Some? ==>
      exists item | item in table(FallbackQuery(domain)).value ::
        && "sk" in item && "target" in item
        && item["target"] == r.value.value
        && item["sk"] != []
        && Contains(requestPath, item["sk"])
  {
    var items :- table(FallbackQuery(domain));
    var options :- FallbackOptions(items);
    var best := SelectFallback(options, requestPath);
    SelectedFallbackIsStored(items, options, requestPath);
    if best.Some? then Success(Some(best.value.target)) else Success(None)
  }

  /** The selected option was decoded from a stored item with a non-empty
      path occurring in the request path. */
  lemma SelectedFallbackIsStored(items: seq<Item>, options: seq<RedirectFallbackOption>, requestPath: string)
    requires FallbackOptions(items) == Success(options)
    ensures SelectFallback(options, requestPath).Some? ==>
      exists item | item in items ::
        && "sk" in item && "target" in item
        && item["target"] == SelectFallback(options, requestPath).value.target
        && item["sk"] != []
        && Contains(requestPath, item["sk"])
  {
    var best := SelectFallback(options, requestPath);
    if best.Some? {
      SelectFallbackSpec(options, requestPath);
      var i :| IsFirstLongestMatch(options, requestPath, i) && best == Some(options[i]);
      var item := items[i];
      assert FallbackOptionFromItem(item) == Success(options[i]);
      assert "sk" in item && "target" in item;
      assert options[i].path == item["sk"] && options[i].target == item["target"];
      assert item in items;
    }
  }

  /** The fallback result in terms of the decoded options: the target of the
      first longest option whose path occurs in the request path, and `None`
      exactly when only empty paths (or none) occur in it. */
  lemma FallbackLocationSpec(table: Table, domain: string, requestPath: string)
    requires table(FallbackQuery(domain)).Success?
    requires FallbackOptions(table(FallbackQuery(domain)).value).Success?
    ensures var options := FallbackOptions(table(FallbackQuery(domain)).value).value;
      && (FallbackLocation(table, domain, requestPath) == Success(None) <==>
            forall j | 0 <= j < |options| && Matches(options[j], requestPath) :: options[j].path == [])
      && (forall i | IsFirstLongestMatch(options, requestPath, i) ::
            FallbackLocation(table, domain, requestPath) == Success(Some(options[i].target)))
      && (FallbackLocation(table, domain, requestPath).value.Some? ==>
            exists i :: IsFirstLongestMatch(options, requestPath, i)
                     && FallbackLocation(table, domain, requestPath).value.value == options[i].target)
  {
    var options := FallbackOptions(table(FallbackQuery(domain)).value).value;
    SelectFallbackSpec(options, requestPath);
  }

  /** The target is one the table stores for this domain: the one exact item,
      or a fallback item whose non-empty path occurs in the request path. */
  ghost predicate IsStoredTarget(table: Table, domain: string, requestPath: string, target: string) {
    || (&& table(ExactQuery(domain, requestPath)).Success?
        && exists item | item in table(ExactQuery(domain, requestPath)).value ::
             "target" in item && item["target"] == target)
    || (&& table(FallbackQuery(domain)).Success?
        && exists item | item in table(FallbackQuery(domain)).value ::
             && "sk" in item && "target" in item
             && item["target"] == target
             && item["sk"] != []
             && Contains(requestPath, item["sk"]))
  }

  /** `get_redirect_location`: an exact redirect wins outright; duplicates are
      an error that is never masked by a fallback; with no exact redirect the
      fallback rules decide. */
  function GetRedirectLocation(table: Table, domain: string, requestPath: string): (r: Result<Option<string>, Error>)
    ensures table(ExactQuery(domain, requestPath)).Failure? ==>
      r == Failure(table(ExactQuery(domain, requestPath)).error)
    ensures table(ExactQuery(domain, requestPath)).Success? && |table(ExactQuery(domain, requestPath)).value| > 1 ==>
      r == Failure(RuntimeError(MultipleOptionsMessage))
    ensures table(ExactQuery(domain, requestPath)).Success? && |table(ExactQuery(domain, requestPath)).value| == 1 ==>
      var item := table(ExactQuery(domain, requestPath)).value[0];
      r == (if "target" in item then Success(Some(item["target"])) else Failure(KeyError("target")))
    ensures table(ExactQuery(domain, requestPath)) == Success([]) ==>
      r == FallbackLocation(table, domain, requestPath)
    ensures r.Success? && r.value.Some? ==> IsStoredTarget(table, domain, requestPath, r.value.value)
  {
    var exact :- QueryExactRedirects(table, domain, requestPath);
    if |exact| == 1 then
      var target :- Attribute(exact[0], "target");
      assert exact[0] in table(ExactQuery(domain, requestPath)).value;
      Success(Some(target))
    else
      FallbackLocation(table, domain, requestPath)
  }

  /** The fallback rules are consulted only when the exact query succeeds and
      finds nothing: two tables that agree on the exact query otherwise give the
      same answer. */
  lemma FallbackOnlyWithoutExactMatch(t1: Table, t2: Table, domain: string, requestPath: string)
    requires t1(ExactQuery(domain, requestPath)) == t2(ExactQuery(domain, requestPath))
    requires t1(ExactQuery(domain, requestPath)) != Success([])
    ensures GetRedirectLocation(t1, domain, requestPath) == GetRedirectLocation(t2, domain, requestPath)
  {
  }
}
