/** The records stored in the table and how an item is decoded into each of
    them. Every decoder recovers the domain from the partition key with
    Python's `str.lstrip`, which removes a leading run of characters drawn from
    the given literal (read as a set), not the literal as a prefix. */
module DatabaseModels {
  import opened Wrappers
  import opened PyStrings
  import opened DynamoTable

  /** The literals handed to `lstrip` by the three decoders. */
  const AliasStripChars: string := "DomainAlias#"
  const RedirectStripChars: string := "Redirect#"
  const FallbackStripChars: string := "RedirectFallback#"

  /** A domain whose redirects are those of `targetDomain`. */
  datatype Alias = Alias(sourceDomain: string, targetDomain: string)

  /** An exact redirect: requests for `path` on `domain` go to `target`. */
  datatype RedirectOption = RedirectOption(domain: string, path: string, target: string)

  /** A fallback redirect, chosen when `path` occurs inside the request path. */
  datatype RedirectFallbackOption = RedirectFallbackOption(domain: string, path: string, target: string)

  /** `Alias.from_ddb_item`: reads `pk`, then `target_domain`. */
  function AliasFromItem(item: Item): (r: Result<Alias, Error>)
    ensures r.Success? <==> "pk" in item && "target_domain" in item
    ensures "pk" !in item ==> r == Failure(KeyError("pk"))
    ensures "pk" in item && "target_domain" !in item ==> r == Failure(KeyError("target_domain"))
    ensures r.Success? ==> IsLStripOf(item["pk"], AliasStripChars, r.value.sourceDomain)
    ensures r.Success? ==> r.value.targetDomain == item["target_domain"]
  {
    var pk :- Attribute(item, "pk");
    var target :- Attribute(item, "target_domain");
    Success(Alias(LStrip(pk, AliasStripChars), target))
  }

  /** `RedirectOption.from_ddb_item`: reads `pk`, then `sk`, then `target`. */
  function RedirectOptionFromItem(item: Item): (r: Result<RedirectOption, Error>)
    ensures r.Success? <==> "pk" in item && "sk" in item && "target" in item
    ensures "pk" !in item ==> r == Failure(KeyError("pk"))
    ensures "pk" in item && "sk" !in item ==> r == Failure(KeyError("sk"))
    ensures "pk" in item && "sk" in item && "target" !in item ==> r == Failure(KeyError("target"))
    ensures r.Success? ==> IsLStripOf(item["pk"], RedirectStripChars, r.value.domain)
    ensures r.Success? ==> r.value.path == item["sk"] && r.value.target == item["target"]
  {
    var pk :- Attribute(item, "pk");
    var path :- Attribute(item, "sk");
    var target :- Attribute(item, "target");
    Success(RedirectOption(LStrip(pk, RedirectStripChars), path, target))
  }

  /** `RedirectFallbackOption.from_ddb_item`: reads `pk`, then `sk`, then `target`. */
  function FallbackOptionFromItem(item: Item): (r: Result<RedirectFallbackOption, Error>)
    ensures r.Success? <==> "pk" in item && "sk" in item && "target" in item
    ensures "pk" !in item ==> r == Failure(KeyError("pk"))
    ensures "pk" in item && "sk" !in item ==> r == Failure(KeyError("sk"))
    ensures "pk" in item && "sk" in item && "target" !in item ==> r == Failure(KeyError("target"))
    ensures r.Success? ==> IsLStripOf(item["pk"], FallbackStripChars, r.value.domain)
    ensures r.Success? ==> r.value.path == item["sk"] && r.value.target == item["target"]
  {
    var pk :- Attribute(item, "pk");
    var path :- Attribute(item, "sk");
    var target :- Attribute(item, "target");
    Success(RedirectFallbackOption(LStrip(pk, FallbackStripChars), path, target))
  }

  /** A decoded domain is stable: stripping it again with the same set changes nothing. */
  lemma DecodedDomainsAreStable(item: Item)
    ensures AliasFromItem(item).Success? ==>
      LStrip(AliasFromItem(item).value.sourceDomain, AliasStripChars) == AliasFromItem(item).value.sourceDomain
    ensures RedirectOptionFromItem(item).Success? ==>
      LStrip(RedirectOptionFromItem(item).value.domain, RedirectStripChars) == RedirectOptionFromItem(item).value.domain
    ensures FallbackOptionFromItem(item).Success? ==>
      LStrip(FallbackOptionFromItem(item).value.domain, FallbackStripChars) == FallbackOptionFromItem(item).value.domain
  {
    if "pk" in item {
      LStripIdempotent(item["pk"], AliasStripChars);
      LStripIdempotent(item["pk"], RedirectStripChars);
      LStripIdempotent(item["pk"], FallbackStripChars);
    }
  }

  /** An alias item written under `"DomainAlias#" + d` decodes back to `d`
      exactly when `d` is empty or starts with a character outside the strip
      set; otherwise leading characters of `d` are lost. */
  lemma AliasDomainRoundTrip(d: string, target: string)
    ensures var r := AliasFromItem(map["pk" := AliasStripChars + d, "target_domain" := target]);
      && r.Success?
      && r.value.targetDomain == target
      && (r.value.sourceDomain == d <==> (d == [] || d[0] !in AliasStripChars))
  {
    LStripOwnPrefix(AliasStripChars, d);
  }

  /** The same round trip for exact redirect items. */
  lemma RedirectDomainRoundTrip(d: string, path: string, target: string)
    ensures var r := RedirectOptionFromItem(map["pk" := RedirectStripChars + d, "sk" := path, "target" := target]);
      && r == Success(r.value)
      && r.value.path == path && r.value.target == target
      && (r.value.domain == d <==> (d == [] || d[0] !in RedirectStripChars))
  {
    LStripOwnPrefix(RedirectStripChars, d);
  }

  /** The same round trip for fallback redirect items. */
  lemma FallbackDomainRoundTrip(d: string, path: string, target: string)
    ensures var r := FallbackOptionFromItem(map["pk" := FallbackStripChars + d, "sk" := path, "target" := target]);
      && r == Success(r.value)
      && r.value.path == path && r.value.target == target
      && (r.value.domain == d <==> (d == [] || d[0] !in FallbackStripChars))
  {
    LStripOwnPrefix(FallbackStripChars, d);
  }

  /** A concrete loss: the alias domain `"mail.com"` comes back as `".com"`,
      since `m`, `a`, `i` and `l` all occur in `"DomainAlias#"`. */
  lemma AliasDomainLossExample()
    ensures AliasFromItem(map["pk" := "DomainAlias#mail.com", "target_domain" := "x"]).value.sourceDomain == ".com"
  {
    var s: string := "DomainAlias#mail.com";
    assert s[16..] == ".com";
    assert forall i | 0 <= i < 16 :: s[i] in AliasStripChars;
    LStripUnique(s, AliasStripChars, ".com");
  }

  /** A concrete loss: the redirect domain `"example.com"` comes back as
      `"xample.com"`, since `e` occurs in `"Redirect#"`. */
  lemma RedirectDomainLossExample()
    ensures RedirectOptionFromItem(map["pk" := "Redirect#example.com", "sk" := "/", "target" := "x"]).value.domain == "xample.com"
  {
    var s: string := "Redirect#example.com";
    assert s[10..] == "xample.com";
    assert forall i | 0 <= i < 10 :: s[i] in RedirectStripChars;
    LStripUnique(s, RedirectStripChars, "xample.com");
  }
}
