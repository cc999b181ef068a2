# Redirect resolution of the redirect-service Lambda, in Dafny

The redirect service answers every HTTP request that reaches its API Gateway
with a 301 or a 404, or with an exception that escapes the handler (a store
error, a `KeyError` on a malformed item, or the `RuntimeError` for duplicate
exact redirects). Its Lambda function (`event_handler`) first asks the
DynamoDB table whether the requested host is an alias of another domain, then
asks `RedirectController` for the best redirect target of the effective domain
and request path: an exact redirect (partition key `Redirect#<domain>`, sort
key the path) wins outright, more than one exact redirect is a
`RuntimeError`, and otherwise the longest fallback path (partition key
`RedirectFallback#<domain>`) occurring in the request path is chosen. Alias and
fallback items are decoded by `Alias` and `RedirectFallbackOption`, which
recover the domain from the partition key with Python's `str.lstrip`. Exact
items are not decoded: the controller reads only their `target` attribute, so
an exact item without `pk` or `sk` still redirects. `RedirectOption` and its
decoder are modelled for completeness; nothing in the resolution path calls
them.

This project models that logic over an abstract table: a `Table` is any
function from a key condition to the items the query returns, or to the
exception it raises. Raised exceptions are `Failure`s of a `Result`
(`StoreError` for the client, `KeyError` for a missing attribute,
`RuntimeError` for duplicate exact redirects). `urllib.parse.urlencode` is a
function parameter.

Modules, one per source file or concern:

- `Wrappers`: `Option` (Python's `Optional`) and `Result` (value or exception).
- `PyStrings`: `str.lstrip(chars)` with its character-set semantics, `in` on
  strings, `startswith`.
- `DynamoTable`: items, key conditions, exceptions, the table.
- `DatabaseModels`: the three records and their `from_ddb_item` decoders.
- `RequestModels`: the API Gateway request.
- `FallbackSelection`: the best-match loop of the fallback lookup.
- `RedirectController`: alias lookup, exact lookup, fallback lookup.
- `RedirectHandler`: `event_handler`.
- `Scenarios`: the unit tests and an end-to-end alias scenario as lemmas.

Behaviour the model reproduces as the code has it:

- Fallback matching is Python substring containment (`redirect.path in
  request_path`), not a prefix test: a rule on `/a` applies to `/b/a`
  (`Scenarios.SubstringFallbackScenario`).
- The exact lookup is plain key equality on the sort key; no case folding.
- Exact and fallback redirects live under different partition keys; there is
  no per-rule match type.
- Decoded domains lose every leading character that occurs in the stripped
  literal: `"DomainAlias#mail.com"` decodes to `".com"` and
  `"Redirect#example.com"` to `"xample.com"`. The decoded domains are never
  used for routing, so this does not change any response.
- An empty redirect target is falsy in Python and gives a 404.
- A stored item without an expected attribute raises `KeyError`, which
  escapes the handler like any other exception.
- Ties between equally long fallback paths go to the first item the table
  returns; a fallback with an empty path is never chosen.

## Model

| member | source | states |
|---|---|---|
| PyStrings.LStrip | resources/functions/redirect/src/models/database.py:22 | the result is a suffix of the input, every removed character occurs in the strip literal, and the first remaining character does not |
| PyStrings.LStripUnique | resources/functions/redirect/src/models/database.py:22 | exactly one string meets that characterisation, so it determines `lstrip` completely |
| PyStrings.LStripIdempotent | resources/functions/redirect/src/models/database.py:22 | stripping an already stripped string with the same set changes nothing |
| PyStrings.LStripSkipsStrippable | resources/functions/redirect/src/models/database.py:22 | a leading block made only of strippable characters is removed entirely, whatever follows it |
| PyStrings.LStripOwnPrefix | resources/functions/redirect/src/models/database.py:22 | stripping the characters of `p` from `p + d` returns `d` exactly when `d` is empty or starts outside those characters |
| PyStrings.Contains | resources/functions/redirect/src/controllers/redirect_controller.py:71 | Python's `in` on strings: a match is no longer than the request path, and the empty path is in every request path |
| PyStrings.ContainsIff | resources/functions/redirect/src/controllers/redirect_controller.py:71 | the `in` test holds exactly when the needle occupies some position range of the request path |
| PyStrings.StartsWithContains | resources/functions/redirect/src/controllers/redirect_controller.py:71 | every prefix passes the `in` test |
| PyStrings.ContainsIsNotStartsWith | resources/functions/redirect/src/controllers/redirect_controller.py:71 | the `in` test is weaker than a prefix test: `/a` is in `/b/a` but does not start it |
| DynamoTable.Attribute | resources/functions/redirect/src/models/database.py:20-23 | `item[name]`: the attribute's value when present, `KeyError(name)` exactly when absent |
| DatabaseModels.AliasFromItem | resources/functions/redirect/src/models/database.py:18-24 | succeeds exactly when `pk` and `target_domain` are present, raises `KeyError` for the first one missing, copies `target_domain` and strips `pk` with the set of `DomainAlias#` |
| DatabaseModels.RedirectOptionFromItem | resources/functions/redirect/src/models/database.py:36-43 | succeeds exactly when `pk`, `sk` and `target` are present, raises `KeyError` for the first one missing, copies `sk` to the path and `target`, strips `pk` with the set of `Redirect#` |
| DatabaseModels.FallbackOptionFromItem | resources/functions/redirect/src/models/database.py:55-62 | as above with the set of `RedirectFallback#` |
| DatabaseModels.DecodedDomainsAreStable | resources/functions/redirect/src/models/database.py:22-59 | each decoded domain is a fixed point of stripping with its decoder's set |
| DatabaseModels.AliasDomainRoundTrip | resources/functions/redirect/src/models/database.py:18-24 | an alias item keyed `DomainAlias#d` decodes to source domain `d` exactly when `d` is empty or starts outside the strip set, and always keeps its target |
| DatabaseModels.RedirectDomainRoundTrip | resources/functions/redirect/src/models/database.py:36-43 | the same round trip for exact redirect items, with path and target kept |
| DatabaseModels.FallbackDomainRoundTrip | resources/functions/redirect/src/models/database.py:55-62 | the same round trip for fallback items, with path and target kept |
| DatabaseModels.AliasDomainLossExample | resources/functions/redirect/src/models/database.py:22 | `DomainAlias#mail.com` decodes to source domain `.com` |
| DatabaseModels.RedirectDomainLossExample | resources/functions/redirect/src/models/database.py:40 | `Redirect#example.com` decodes to domain `xample.com` |
| FallbackSelection.Matches | resources/functions/redirect/src/controllers/redirect_controller.py:71 | an option matches when its path occurs in the request path; a matching path is no longer than the request path and an empty path always matches |
| FallbackSelection.Scan | resources/functions/redirect/src/controllers/redirect_controller.py:64-84 | the loop ends with its starting best match or with one of the options it visited |
| FallbackSelection.SelectFallback | resources/functions/redirect/src/controllers/redirect_controller.py:64-84 | a selected option is one of the stored options |
| FallbackSelection.ScanSpec | resources/functions/redirect/src/controllers/redirect_controller.py:66-81 | loop invariant: with no remaining match longer than the running maximum the state is kept, otherwise the first longest remaining match is returned |
| FallbackSelection.FirstLongestMatchUnique | resources/functions/redirect/src/controllers/redirect_controller.py:79-81 | at most one option is the first longest match |
| FallbackSelection.SelectFallbackSpec | resources/functions/redirect/src/controllers/redirect_controller.py:64-84 | the loop selects the first longest option whose path occurs in the request path, and nothing exactly when only empty paths occur |
| FallbackSelection.EmptyPathNeverSelected | resources/functions/redirect/src/controllers/redirect_controller.py:66-79 | an option with an empty path is never selected, since the maximum starts at 0 |
| FallbackSelection.EarlierOptionWinsTie | resources/functions/redirect/src/controllers/redirect_controller.py:79-81 | of two equally long maximal matches the later one is never chosen over the earlier |
| RedirectController.AliasQuery | resources/functions/redirect/src/controllers/redirect_controller.py:26-29 | the alias query has equal partition and sort keys, `DomainAlias#` followed by the domain |
| RedirectController.ExactQuery | resources/functions/redirect/src/controllers/redirect_controller.py:93-96 | the exact query has partition key `Redirect#` followed by the domain and sort key the unmodified request path |
| RedirectController.FallbackQuery | resources/functions/redirect/src/controllers/redirect_controller.py:105-107 | the fallback query is on the partition key alone, `RedirectFallback#` followed by the domain |
| RedirectController.QueriesAreDistinct | resources/functions/redirect/src/controllers/redirect_controller.py:26-106 | the alias, exact and fallback keys determine their domain (and path), and alias and exact queries never coincide |
| RedirectController.GetAlias | resources/functions/redirect/src/controllers/redirect_controller.py:24-34 | queries `DomainAlias#<domain>` for both keys; `None` exactly when it finds nothing, otherwise the decoding of the first item; store errors propagate |
| RedirectController.QueryExactRedirects | resources/functions/redirect/src/controllers/redirect_controller.py:86-101 | returns the exact query's items exactly when it succeeds with at most one, raises `RuntimeError` when there are several, propagates store errors |
| RedirectController.FallbackOptions | resources/functions/redirect/src/controllers/redirect_controller.py:59-62 | decodes every item in order, or raises the error of the first item that fails to decode |
| RedirectController.FallbackLocation | resources/functions/redirect/src/controllers/redirect_controller.py:53-84 | a returned location is the target of a stored fallback item with a non-empty path occurring in the request path; store errors propagate; any fallback item that fails to decode makes the whole lookup raise its `KeyError`, matching or not |
| RedirectController.SelectedFallbackIsStored | resources/functions/redirect/src/controllers/redirect_controller.py:59-84 | the selected option comes from a stored item carrying its path and target |
| RedirectController.FallbackLocationSpec | resources/functions/redirect/src/controllers/redirect_controller.py:53-84 | the fallback location is the target of the first longest match, and `None` exactly when no non-empty path occurs in the request path |
| RedirectController.GetRedirectLocation | resources/functions/redirect/src/controllers/redirect_controller.py:36-51 | one exact item wins, several raise `RuntimeError`, none defers to the fallback lookup; every returned location is a target stored for the domain |
| RedirectController.FallbackOnlyWithoutExactMatch | resources/functions/redirect/src/controllers/redirect_controller.py:46-51 | the fallback rules affect the answer only when the exact query succeeds with no item |
| RedirectHandler.EffectiveDomain | resources/functions/redirect/src/index.py:31 | the alias target when an alias was found, otherwise the requested domain |
| RedirectHandler.HasQueryParams | resources/functions/redirect/src/index.py:47 | Python truthiness of the query parameters: neither `None` nor empty |
| RedirectHandler.RedirectLocation | resources/functions/redirect/src/index.py:47-48 | the location starts with the target and continues with `?` and the encoded parameters exactly when parameters are present and non-empty |
| RedirectHandler.EventHandler | resources/functions/redirect/src/index.py:16-54 | status is 301 or 404; `X-Resolved-Domain` is the alias target or the requested domain; a missing or empty location gives 404 with only that header; otherwise 301 with exactly that header and `Location`; exceptions propagate |
| RedirectHandler.RedirectResponse | resources/functions/redirect/src/index.py:39-54 | a found non-empty location gives exactly a 301 whose headers are the resolved domain and the location |
| RedirectHandler.AliasReplacesDomain | resources/functions/redirect/src/index.py:27-36 | two requests whose domains are aliases of the same target domain, with equal path and query, get the same response |
| RedirectHandler.NoAliasKeepsDomain | resources/functions/redirect/src/index.py:31-39 | without an alias the requested domain is reported as the resolved domain |
| RedirectHandler.QueryStringOnlyOnRedirect | resources/functions/redirect/src/index.py:42-54 | a 404 has no `Location`; a 301's `Location` is the non-empty target the redirect lookup returned, followed by the query string once when there are parameters |
| Scenarios.AliasNotFound | tests/unit/resources/functions/redirect/src/controllers/test_redirect_controller.py:17-44 | an empty alias answer gives `None` |
| Scenarios.AliasFound | tests/unit/resources/functions/redirect/src/controllers/test_redirect_controller.py:47-85 | the stored alias item decodes to the API domain and `example.com` |
| Scenarios.ExactMatchFound | tests/unit/resources/functions/redirect/src/controllers/test_redirect_controller.py:88-119 | a single exact item gives its target |
| Scenarios.NoLocation | tests/unit/resources/functions/redirect/src/controllers/test_redirect_controller.py:122-158 | no exact and no fallback item give `None` |
| Scenarios.LongestFallbackChosen | tests/unit/resources/functions/redirect/src/controllers/test_redirect_controller.py:206-253 | of `/path1` and `/` inside `/path1/2`, `/path1`'s target is chosen |
| Scenarios.LongestFallbackLocation | tests/unit/resources/functions/redirect/src/controllers/test_redirect_controller.py:224-253 | the fallback lookup alone selects `/path1`'s target for `/path1/2` |
| Scenarios.AliasScenarioLookups | resources/functions/redirect/src/index.py:27-36 | `old.com` resolves to `new.com`, whose `/` fallback covers `/anything` |
| Scenarios.AliasScenarioFallback | resources/functions/redirect/src/controllers/redirect_controller.py:53-84 | the `/` fallback of `new.com` is selected for `/anything` |
| Scenarios.AliasScenario | resources/functions/redirect/src/index.py:27-54 | the request answers 301 to the fallback target with `X-Resolved-Domain: new.com` |
| Scenarios.SubstringFallbackScenario | resources/functions/redirect/src/controllers/redirect_controller.py:71 | a fallback on `/a` redirects `/b/a` |

## Left out

- The DynamoDB client and `RedirectController.__init__`: the table is a parameter; a raised client exception is `StoreError`.
- Query pagination: the code reads only the first page of each query, and the table's answer stands for that page.
- `Count` differing from the number of `Items`: a query without a filter returns them equal, so `Count` is the length of the item sequence, and the `IndexError` the code would raise on a mismatch is not modelled.
- Attribute values other than strings: every attribute is a string.
- `urllib.parse.urlencode`: an uninterpreted function of the ordered query parameters.
- `ApiGatewayRequest.from_lambda_event`: the request is given directly as a datatype.
- `BaseDataclass.as_dict`, the module-level `DDB_TABLE_NAME` read and controller construction: configuration and I/O.
- The CDK stack and constructs (`app.py`, `redirect_service/`): infrastructure declarations.
- FallbackSelection.Scan: its own contract only places the result among the options; the full selection property is `FallbackSelection.ScanSpec`.
