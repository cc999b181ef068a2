/** The best-match loop of `_get_fallback_redirect_location`: walk the
    fallback options in table order, keep an option whose path occurs in the
    request path and is strictly longer than the best so far. The running
    maximum starts at 0, so an option with an empty path is never kept, and
    the strict comparison keeps the first of several equally long paths. */
module FallbackSelection {
  import opened Wrappers
  import opened PyStrings
  import opened DatabaseModels

  /** `redirect.path in request_path`: a substring test, not a prefix test. */
  predicate Matches(option: RedirectFallbackOption, requestPath: string)
    ensures Matches(option, requestPath) ==> |option.path| <= |requestPath|
    ensures option.path == [] ==> Matches(option, requestPath)
  {
    Contains(requestPath, option.path)
  }

  /** One step of the loop from state (`best`, `maxLength`) over the options
      not yet visited. */
  function Scan(options: seq<RedirectFallbackOption>, requestPath: string,
                best: Option<RedirectFallbackOption>, maxLength: nat): (r: Option<RedirectFallbackOption>)
    ensures r == best || (r.Some? && r.value in options)
    decreases |options|
  {
    if |options| == 0 then
      best
    else
      var option := options[0];
      if Matches(option, requestPath) && |option.path| > maxLength then
        Scan(options[1..], requestPath, Some(option), |option.path|)
      else
        Scan(options[1..], requestPath, best, maxLength)
  }

  /** The loop from its initial state (`best_match = None`, maximum 0). */
  function SelectFallback(options: seq<RedirectFallbackOption>, requestPath: string): (r: Option<RedirectFallbackOption>)
    ensures r.Some? ==> r.value in options
  {
    Scan(options, requestPath, None, 0)
  }

  /** Reference definition of the winner: option `i` matches, has a non-empty
      path, no matching option is longer, and every earlier matching option is
      strictly shorter. */
  ghost predicate IsFirstLongestMatch(options: seq<RedirectFallbackOption>, requestPath: string, i: int) {
    && 0 <= i < |options|
    && Matches(options[i], requestPath)
    && |options[i].path| > 0
    && (forall j | 0 <= j < |options| && Matches(options[j], requestPath) :: |options[j].path| <= |options[i].path|)
    && (forall j | 0 <= j < i && Matches(options[j], requestPath) :: |options[j].path| < |options[i].path|)
  }

  /** Some option matches with a path longer than `bound`. */
  ghost predicate MatchLongerThan(options: seq<RedirectFallbackOption>, requestPath: string, bound: nat) {
    exists j | 0 <= j < |options| :: Matches(options[j], requestPath) && |options[j].path| > bound
  }

  /** The loop invariant, stated for the remaining options: with nothing
      longer than the running maximum left the state is returned unchanged;
      otherwise the result is the first longest remaining match. */
  lemma {:induction false} ScanSpec(options: seq<RedirectFallbackOption>, requestPath: string,
                                    best: Option<RedirectFallbackOption>, maxLength: nat)
    ensures !MatchLongerThan(options, requestPath, maxLength) ==> Scan(options, requestPath, best, maxLength) == best
    ensures MatchLongerThan(options, requestPath, maxLength) ==>
      exists i :: IsFirstLongestMatch(options, requestPath, i)
               && |options[i].path| > maxLength
               && Scan(options, requestPath, best, maxLength) == Some(options[i])
    decreases |options|
  {
    if |options| > 0 {
      var option, rest := options[0], options[1..];
      var taken := Matches(option, requestPath) && |option.path| > maxLength;
      var best', max' := if taken then Some(option) else best, if taken then |option.path| else maxLength;
      ScanSpec(rest, requestPath, best', max');
      assert forall j | 0 < j < |options| :: options[j] == rest[j - 1];
      if MatchLongerThan(rest, requestPath, max') {
        var k :| IsFirstLongestMatch(rest, requestPath, k) && |rest[k].path| > max'
                 && Scan(rest, requestPath, best', max') == Some(rest[k]);
        assert IsFirstLongestMatch(options, requestPath, k + 1);
      } else if taken {
        assert IsFirstLongestMatch(options, requestPath, 0);
      }
    }
  }

  /** At most one option satisfies the reference definition. */
  lemma FirstLongestMatchUnique(options: seq<RedirectFallbackOption>, requestPath: string, i: int, k: int)
    requires IsFirstLongestMatch(options, requestPath, i)
    requires IsFirstLongestMatch(options, requestPath, k)
    ensures i == k
  {
  }

  /** The loop selects the first longest matching option, and nothing exactly
      when no option with a non-empty path matches. */
  lemma SelectFallbackSpec(options: seq<RedirectFallbackOption>, requestPath: string)
    ensures SelectFallback(options, requestPath).None? <==>
      forall j | 0 <= j < |options| && Matches(options[j], requestPath) :: options[j].path == []
    ensures forall i | IsFirstLongestMatch(options, requestPath, i) :: SelectFallback(options, requestPath) == Some(options[i])
    ensures SelectFallback(options, requestPath).Some? ==>
      exists i :: IsFirstLongestMatch(options, requestPath, i) && SelectFallback(options, requestPath) == Some(options[i])
  {
    ScanSpec(options, requestPath, None, 0);
    forall i | IsFirstLongestMatch(options, requestPath, i)
      ensures SelectFallback(options, requestPath) == Some(options[i])
    {
      assert MatchLongerThan(options, requestPath, 0);
      var k :| IsFirstLongestMatch(options, requestPath, k) && SelectFallback(options, requestPath) == Some(options[k]);
      FirstLongestMatchUnique(options, requestPath, i, k);
    }
  }

  /** An option with an empty path is never the one selected. */
  lemma EmptyPathNeverSelected(options: seq<RedirectFallbackOption>, requestPath: string)
    ensures SelectFallback(options, requestPath).Some? ==> SelectFallback(options, requestPath).value.path != []
  {
    SelectFallbackSpec(options, requestPath);
  }

  /** Ties go to the earlier option: if options `i < k` both match with paths
      of the same maximal length, the selected option sits at or before `i`,
      never at `k` alone. */
  lemma EarlierOptionWinsTie(options: seq<RedirectFallbackOption>, requestPath: string, i: int, k: int)
    requires 0 <= i < k < |options|
    requires Matches(options[i], requestPath) && Matches(options[k], requestPath)
    requires |options[i].path| == |options[k].path| > 0
    requires forall j | 0 <= j < |options| && Matches(options[j], requestPath) :: |options[j].path| <= |options[i].path|
    ensures exists w | 0 <= w <= i :: SelectFallback(options, requestPath) == Some(options[w])
  {
    SelectFallbackSpec(options, requestPath);
    assert SelectFallback(options, requestPath).Some?;
    var w :| IsFirstLongestMatch(options, requestPath, w) && SelectFallback(options, requestPath) == Some(options[w]);
    if w > i {
      assert false;
    }
  }
}
