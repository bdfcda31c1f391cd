/** The regular expression `<title>([^|]+)\|` as `re.search` applies it to
    the raw page markup: the leftmost `<title>` that is followed by at least
    one character other than `|` and then a `|`; the group is that whole run
    of non-`|` characters. */
module TitleMatch {
  import opened Wrappers

  const TitleTag := "<title>"
  const Bar := '|'

  predicate NoBar(g: string) {
    forall k :: 0 <= k < |g| ==> g[k] != Bar
  }

  /** The pattern matches at position `p` of `s` with group `g`. Because `g`
      has no `|` and a `|` follows it, `g` is the longest run the greedy
      `[^|]+` can take. */
  ghost predicate MatchesAt(s: string, p: int, g: string) {
    && 0 <= p
    && p + |TitleTag| + |g| < |s|
    && s[p..p + |TitleTag|] == TitleTag
    && |g| > 0
    && s[p + |TitleTag|..p + |TitleTag| + |g|] == g
    && NoBar(g)
    && s[p + |TitleTag| + |g|] == Bar
  }

  /** The first `|` at or after `i`, or `|s|` when there is none. */
  function BarFrom(s: string, i: nat): (j: nat)
    requires i <= |s|
    ensures i <= j <= |s|
    ensures forall k :: i <= k < j ==> s[k] != Bar
    ensures j < |s| ==> s[j] == Bar
    decreases |s| - i
  {
    if i == |s| || s[i] == Bar then i else BarFrom(s, i + 1)
  }

  /** The attempt to match at position `p` alone. */
  function MatchAt(s: string, p: nat): (r: Option<string>)
    requires p <= |s|
    ensures r.Some? ==> MatchesAt(s, p, r.value)
    ensures r.None? ==> forall g :: !MatchesAt(s, p, g)
  {
    var start := p + |TitleTag|;
    if start <= |s| && s[p..start] == TitleTag then
      var j := BarFrom(s, start);
      if start < j < |s| then
        RunMatches(s, p);
        Some(s[start..j])
      else
        MatchIsRun(s, p);
        None
    else
      NoTagNoMatch(s, p);
      None
  }

  /** The tag followed by a non-empty run ending in `|` is a match whose
      group is that run. */
  lemma RunMatches(s: string, p: nat)
    requires p + |TitleTag| <= |s| && s[p..p + |TitleTag|] == TitleTag
    requires p + |TitleTag| < BarFrom(s, p + |TitleTag|) < |s|
    ensures MatchesAt(s, p, s[p + |TitleTag|..BarFrom(s, p + |TitleTag|)])
  {
    var start, j := p + |TitleTag|, BarFrom(s, p + |TitleTag|);
    var g := s[start..j];
    assert NoBar(g);
    assert start + |g| == j;
  }

  /** Without the tag at `p` there is no match at `p`. */
  lemma NoTagNoMatch(s: string, p: nat)
    requires !(p + |TitleTag| <= |s| && s[p..p + |TitleTag|] == TitleTag)
    ensures forall g :: !MatchesAt(s, p, g)
  {
  }

  /** Where there is a match, the tag is followed by the run of
      non-`|` characters that `BarFrom` finds, and that run is the group. */
  lemma MatchIsRun(s: string, p: nat)
    requires p + |TitleTag| <= |s|
    ensures forall g :: MatchesAt(s, p, g) ==>
              BarFrom(s, p + |TitleTag|) == p + |TitleTag| + |g|
  {
    forall g | MatchesAt(s, p, g)
      ensures BarFrom(s, p + |TitleTag|) == p + |TitleTag| + |g|
    {
      BarAfterRun(s, p + |TitleTag|, g, BarFrom(s, p + |TitleTag|));
    }
  }

  /** A run without `|` that ends in `|` ends where `BarFrom` stops. */
  lemma BarAfterRun(s: string, start: nat, g: string, j: nat)
    requires start <= |s| && j == BarFrom(s, start)
    requires start + |g| < |s| && s[start..start + |g|] == g && NoBar(g)
    requires s[start + |g|] == Bar
    ensures j == start + |g|
  {
    assert forall k :: start <= k < start + |g| ==> s[k] == g[k - start];
  }

  /** The first position at or after `p` where the pattern matches, or
      `|s|` when none does before the end. */
  function MatchPos(s: string, p: nat): (q: nat)
    requires p <= |s|
    ensures p <= q <= |s|
    ensures forall k :: p <= k < q ==> MatchAt(s, k).None?
    ensures q < |s| ==> MatchAt(s, q).Some?
    decreases |s| - p
  {
    if MatchAt(s, p).Some? || p == |s| then p else MatchPos(s, p + 1)
  }

  /** The leftmost match at a position `p` or later. */
  function SearchFrom(s: string, p: nat): Option<string>
    requires p <= |s|
  {
    MatchAt(s, MatchPos(s, p))
  }

  /** `re.search(r'<title>([^|]+)\|', html)` and its group 1. */
  function TitleGroup(html: string): Option<string> {
    SearchFrom(html, 0)
  }

  /** Nothing matches at or beyond the end of the text. */
  lemma NoMatchAtEnd(s: string, q: nat, g: string)
    requires |s| <= q
    ensures !MatchesAt(s, q, g)
  {
  }

  /** Specification of the title rule: `TitleGroup` returns `g` exactly when
      `g` is the group of the leftmost match. */
  lemma TitleGroupSpec(html: string)
    ensures TitleGroup(html).Some? ==>
              exists p :: 0 <= p && MatchesAt(html, p, TitleGroup(html).value)
                          && forall q, g :: 0 <= q < p ==> !MatchesAt(html, q, g)
    ensures TitleGroup(html).None? <==> forall p, g :: !MatchesAt(html, p, g)
  {
    var q := MatchPos(html, 0);
    forall k, g | 0 <= k < q
      ensures !MatchesAt(html, k, g)
    {
      assert MatchAt(html, k).None?;
    }
    if TitleGroup(html).None? {
      forall p, g
        ensures !MatchesAt(html, p, g)
      {
        if |html| <= p {
          NoMatchAtEnd(html, p, g);
        }
      }
    }
  }

  /** Where the pattern matches, the attempt at that position returns the
      match's group. */
  lemma MatchAtOfMatch(s: string, p: nat, g: string)
    requires MatchesAt(s, p, g)
    ensures MatchAt(s, p) == Some(g)
  {
    var start := p + |TitleTag|;
    BarAfterRun(s, start, g, BarFrom(s, start));
    assert s[p..start] == TitleTag;
    assert s[start..start + |g|] == g;
  }

  /** A match with nothing matching further left is the one the search
      finds, and its group is the one returned. */
  lemma TitleGroupOfLeftmost(html: string, p: nat, g: string)
    requires MatchesAt(html, p, g)
    requires forall q, h :: 0 <= q < p ==> !MatchesAt(html, q, h)
    ensures TitleGroup(html) == Some(g)
  {
    MatchAtOfMatch(html, p, g);
    var q := MatchPos(html, 0);
    assert q <= p;
    assert q < |html|;
    assert MatchesAt(html, q, MatchAt(html, q).value);
    assert q == p;
  }

  /** The group never contains `|` and is never empty. */
  lemma TitleGroupShape(html: string)
    ensures TitleGroup(html).Some? ==> |TitleGroup(html).value| > 0 && NoBar(TitleGroup(html).value)
  {
  }
}
