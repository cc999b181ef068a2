/** The two Python string operations the redirect function relies on, with
    their exact CPython semantics: `s.lstrip(chars)` and `needle in haystack`. */
module PyStrings {

  /** `r` is what `s.lstrip(chars)` may return: a suffix of `s` such that every
      removed character occurs in `chars` and the first remaining one does not. */
  ghost predicate IsLStripOf(s: string, chars: string, r: string) {
    && |r| <= |s|
    && r == s[|s| - |r|..]
    && (forall i | 0 <= i < |s| - |r| :: s[i] in chars)
    && (r == [] || r[0] !in chars)
  }

  /** Python's `s.lstrip(chars)`: `chars` is a SET of characters, not a prefix,
      so the longest leading run of characters drawn from it is removed. */
  function LStrip(s: string, chars: string): (r: string)
    ensures IsLStripOf(s, chars, r)
    decreases |s|
  {
    if |s| > 0 && s[0] in chars then
      var r := LStrip(s[1..], chars);
      assert s[1..][|s[1..]| - |r|..] == s[|s| - |r|..];
      r
    else
      s
  }

  /** The characterisation above admits exactly one string. */
  lemma LStripUnique(s: string, chars: string, t: string)
    requires IsLStripOf(s, chars, t)
    ensures t == LStrip(s, chars)
  {
    var r := LStrip(s, chars);
    var m, k := |s| - |r|, |s| - |t|;
    if m < k {
      assert false;
    } else if k < m {
      assert false;
    }
  }

  /** Stripping twice with the same set removes nothing more. */
  lemma LStripIdempotent(s: string, chars: string)
    ensures LStrip(LStrip(s, chars), chars) == LStrip(s, chars)
  {
  }

  /** A leading block made only of strippable characters is swallowed whole, so
      `lstrip` of `p + d` is `lstrip` of `d` alone. */
  lemma {:induction false} LStripSkipsStrippable(p: string, d: string, chars: string)
    requires forall i | 0 <= i < |p| :: p[i] in chars
    ensures LStrip(p + d, chars) == LStrip(d, chars)
    decreases |p|
  {
    if |p| > 0 {
      assert (p + d)[0] == p[0];
      assert (p + d)[1..] == p[1..] + d;
      LStripSkipsStrippable(p[1..], d, chars);
    } else {
      assert p + d == d;
    }
  }

  /** Every character of a string belongs to the string itself as a set. */
  lemma AllCharsIn(p: string)
    ensures forall i | 0 <= i < |p| :: p[i] in p
  {
  }

  /** Stripping the characters of `p` from `p + d` recovers `d` exactly when `d`
      does not itself start with one of those characters. */
  lemma LStripOwnPrefix(p: string, d: string)
    ensures LStrip(p + d, p) == d <==> (d == [] || d[0] !in p)
  {
    AllCharsIn(p);
    LStripSkipsStrippable(p, d, p);
    if d != [] && d[0] !in p {
      assert LStrip(d, p) == d;
    }
  }

  /** Python's `s.startswith(p)`. */
  predicate StartsWith(s: string, p: string) {
    |p| <= |s| && s[..|p|] == p
  }

  /** Python's `needle in hay` on strings: `needle` occurs somewhere in `hay`
      (the empty string occurs in every string). */
  predicate Contains(hay: string, needle: string)
    ensures Contains(hay, needle) ==> |needle| <= |hay|
    ensures needle == [] ==> Contains(hay, needle)
    decreases |hay|
  {
    StartsWith(hay, needle) || (|hay| > 0 && Contains(hay[1..], needle))
  }

  /** `needle` occupies positions `k .. k + |needle|` of `hay`. */
  ghost predicate OccursAt(hay: string, needle: string, k: int) {
    0 <= k && k + |needle| <= |hay| && hay[k..k + |needle|] == needle
  }

  /** The scan agrees with the positional definition of a substring, both ways. */
  lemma {:induction false} ContainsIff(hay: string, needle: string)
    ensures Contains(hay, needle) <==> exists k :: OccursAt(hay, needle, k)
    decreases |hay|
  {
    if StartsWith(hay, needle) {
      assert OccursAt(hay, needle, 0);
    } else if |hay| > 0 {
      ContainsIff(hay[1..], needle);
      if Contains(hay[1..], needle) {
        var k :| OccursAt(hay[1..], needle, k);
        assert hay[k + 1..k + 1 + |needle|] == hay[1..][k..k + |needle|];
        assert OccursAt(hay, needle, k + 1);
      } else {
        forall k | OccursAt(hay, needle, k)
          ensures false
        {
          if k > 0 {
            assert hay[1..][k - 1..k - 1 + |needle|] == hay[k..k + |needle|];
            assert OccursAt(hay[1..], needle, k - 1);
          }
        }
      }
    } else {
      forall k | OccursAt(hay, needle, k)
        ensures false
      {
      }
    }
  }

  /** A prefix is in particular a substring. */
  lemma StartsWithContains(hay: string, needle: string)
    requires StartsWith(hay, needle)
    ensures Contains(hay, needle)
  {
  }

  /** ... but not conversely: `"/a" in "/b/a"` holds although `"/b/a"` does not
      start with `"/a"`. */
  lemma ContainsIsNotStartsWith()
    ensures Contains("/b/a", "/a") && !StartsWith("/b/a", "/a")
  {
    assert "/b/a"[2..][..2] == "/a";
    assert StartsWith("/b/a"[2..], "/a");
    assert Contains("/b/a"[2..], "/a");
    assert "/b/a"[2..] == "/b/a"[1..][1..];
    assert Contains("/b/a"[1..], "/a");
    assert "/b/a"[..2] != "/a" by { assert "/b/a"[..2][1] == 'b'; }
  }
}
