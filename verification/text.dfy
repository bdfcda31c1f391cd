/** The string primitives the crawler relies on: Python's `str.strip()`,
    `str.lower()`, `str.endswith()` and `str.replace(pat, '')`. */
module Text {

  /** The characters for which Python's `str.isspace()` holds: the ASCII
      controls TAB..CR and FS..US, SPACE, NEL, NO-BREAK SPACE and the Unicode
      space and line/paragraph separators. */
  const SpaceChars: set<char> := {
    '\t', '\n', '\U{0B}', '\U{0C}', '\r',
    '\U{1C}', '\U{1D}', '\U{1E}', '\U{1F}', ' ',
    '\U{85}', '\U{A0}', '\U{1680}',
    '\U{2000}', '\U{2001}', '\U{2002}', '\U{2003}', '\U{2004}', '\U{2005}',
    '\U{2006}', '\U{2007}', '\U{2008}', '\U{2009}', '\U{200A}',
    '\U{2028}', '\U{2029}', '\U{202F}', '\U{205F}', '\U{3000}'
  }

  predicate IsSpace(c: char) {
    c in SpaceChars
  }

  predicate AllSpace(s: string) {
    forall i :: 0 <= i < |s| ==> IsSpace(s[i])
  }

  /** Neither end of `s` is whitespace: what `strip()` leaves behind. */
  predicate IsTrimmed(s: string) {
    |s| == 0 || (!IsSpace(s[0]) && !IsSpace(s[|s| - 1]))
  }

  /** The end of the whitespace run of `s` that starts at `lo`. */
  function SpacesFrom(s: string, lo: nat): (n: nat)
    requires lo <= |s|
    ensures lo <= n <= |s|
    ensures forall k :: lo <= k < n ==> IsSpace(s[k])
    ensures n < |s| ==> !IsSpace(s[n])
    decreases |s| - lo
  {
    if lo < |s| && IsSpace(s[lo]) then SpacesFrom(s, lo + 1) else lo
  }

  /** The start of the whitespace run of `s` that ends at `hi`, not going
      below `lo`. */
  function SpacesBefore(s: string, lo: nat, hi: nat): (m: nat)
    requires lo <= hi <= |s|
    ensures lo <= m <= hi
    ensures forall k :: m <= k < hi ==> IsSpace(s[k])
    ensures m > lo ==> !IsSpace(s[m - 1])
    decreases hi
  {
    if lo < hi && IsSpace(s[hi - 1]) then SpacesBefore(s, lo, hi - 1) else hi
  }

  /** `s.strip()`: the slice of `s` that starts after its leading whitespace,
      has no whitespace at either end, and is followed only by whitespace. */
  function Strip(s: string): (r: string)
    ensures IsTrimmed(r)
    ensures var i := SpacesFrom(s, 0);
            && i + |r| <= |s| && r == s[i..i + |r|]
            && (forall k :: 0 <= k < i ==> IsSpace(s[k]))
            && (forall k :: i + |r| <= k < |s| ==> IsSpace(s[k]))
  {
    var i := SpacesFrom(s, 0);
    s[i..SpacesBefore(s, i, |s|)]
  }

  /** `SpacesFrom` stops exactly at the first non-whitespace character. */
  lemma {:induction false} SpacesFromExact(s: string, lo: nat, n: nat)
    requires lo <= n <= |s|
    requires forall k :: lo <= k < n ==> IsSpace(s[k])
    requires n < |s| ==> !IsSpace(s[n])
    ensures SpacesFrom(s, lo) == n
    decreases |s| - lo
  {
    if lo < n {
      SpacesFromExact(s, lo + 1, n);
    }
  }

  /** `SpacesBefore` stops exactly at the last non-whitespace character. */
  lemma {:induction false} SpacesBeforeExact(s: string, lo: nat, m: nat, hi: nat)
    requires lo <= m <= hi <= |s|
    requires forall k :: m <= k < hi ==> IsSpace(s[k])
    requires m > lo ==> !IsSpace(s[m - 1])
    ensures SpacesBefore(s, lo, hi) == m
    decreases hi
  {
    if m < hi {
      SpacesBeforeExact(s, lo, m, hi - 1);
    }
  }

  /** `strip()` is characterised by what it keeps: surrounding `t` with
      whitespace on both sides and stripping gives back exactly `t`. */
  lemma StripUnique(a: string, t: string, b: string)
    requires AllSpace(a) && AllSpace(b) && IsTrimmed(t)
    ensures Strip(a + t + b) == t
  {
    var s := a + t + b;
    if |t| == 0 {
      SpacesFromExact(s, 0, |s|);
      assert Strip(s) == s[|s|..|s|];
    } else {
      assert s[|a|] == t[0];
      SpacesFromExact(s, 0, |a|);
      assert s[|a| + |t| - 1] == t[|t| - 1];
      SpacesBeforeExact(s, |a|, |a| + |t|, |s|);
      assert s[|a|..|a| + |t|] == t;
    }
  }

  /** Stripping an already trimmed string changes nothing. */
  lemma StripTrimmed(s: string)
    requires IsTrimmed(s)
    ensures Strip(s) == s
  {
    StripUnique("", s, "");
    assert "" + s + "" == s;
  }

  /** `strip()` is idempotent. */
  lemma StripIdempotent(s: string)
    ensures Strip(Strip(s)) == Strip(s)
  {
    StripTrimmed(Strip(s));
  }

  /** `strip()` yields the empty string exactly for all-whitespace input:
      this is what makes a line blank. */
  lemma StripEmptyIffAllSpace(s: string)
    ensures Strip(s) == "" <==> AllSpace(s)
  {
    if AllSpace(s) {
      StripUnique(s, "", "");
      assert s + "" + "" == s;
    }
  }

  predicate IsUpper(c: char) {
    'A' <= c <= 'Z'
  }

  /** `str.lower()` restricted to ASCII letters. */
  function LowerChar(c: char): (r: char)
    ensures !IsUpper(r)
    ensures IsUpper(c) ==> r as int == c as int + 32
    ensures !IsUpper(c) ==> r == c
  {
    if IsUpper(c) then (c as int + 32) as char else c
  }

  predicate IsLower(s: string) {
    forall i :: 0 <= i < |s| ==> !IsUpper(s[i])
  }

  /** `s.lower()`: same length, every upper-case letter replaced by its
      lower-case partner, every other character untouched. */
  function Lower(s: string): (r: string)
    ensures |r| == |s|
    ensures IsLower(r)
    ensures forall i :: 0 <= i < |s| ==> IsUpper(s[i]) ==> r[i] as int == s[i] as int + 32
    ensures forall i :: 0 <= i < |s| ==> !IsUpper(s[i]) ==> r[i] == s[i]
  {
    seq(|s|, i requires 0 <= i < |s| => LowerChar(s[i]))
  }

  /** Lower-casing never turns a character into whitespace or out of it, so
      a trimmed string stays trimmed. */
  lemma LowerKeepsTrimmed(s: string)
    requires IsTrimmed(s)
    ensures IsTrimmed(Lower(s))
  {
  }

  /** Lower-casing is idempotent. */
  lemma LowerIdempotent(s: string)
    ensures Lower(Lower(s)) == Lower(s)
  {
  }

  predicate EndsWith(s: string, c: char) {
    |s| > 0 && s[|s| - 1] == c
  }

  /** `s.replace(pat, '')`: a left-to-right scan that deletes each
      non-overlapping occurrence of `pat`. Deleting can join two pieces into a
      fresh occurrence, which is not rescanned. */
  function RemoveAll(s: string, pat: string): (r: string)
    requires |pat| > 0
    ensures |r| <= |s|
    decreases |s|
  {
    if |pat| <= |s| && s[..|pat|] == pat then RemoveAll(s[|pat|..], pat)
    else if |s| == 0 then ""
    else [s[0]] + RemoveAll(s[1..], pat)
  }

  /** The number of occurrences `RemoveAll` deletes (Python's `str.count`). */
  function Occurrences(s: string, pat: string): nat
    requires |pat| > 0
    decreases |s|
  {
    if |pat| <= |s| && s[..|pat|] == pat then 1 + Occurrences(s[|pat|..], pat)
    else if |s| == 0 then 0
    else Occurrences(s[1..], pat)
  }

  lemma MulSucc(a: nat, n: nat)
    ensures a * (1 + n) == a + a * n
  {
  }

  /** Each deletion removes exactly `|pat|` characters. */
  lemma {:induction false} RemoveAllLength(s: string, pat: string)
    requires |pat| > 0
    ensures |RemoveAll(s, pat)| + |pat| * Occurrences(s, pat) == |s|
    decreases |s|
  {
    if |pat| <= |s| && s[..|pat|] == pat {
      var tail := s[|pat|..];
      var n := Occurrences(tail, pat);
      RemoveAllLength(tail, pat);
      assert Occurrences(s, pat) == 1 + n;
      assert RemoveAll(s, pat) == RemoveAll(tail, pat);
      assert |tail| == |s| - |pat|;
      MulSucc(|pat|, n);
    } else if |s| > 0 {
      RemoveAllLength(s[1..], pat);
    }
  }

  /** A prefix without the pattern's first character passes through. */
  lemma {:induction false} RemoveAllPlainPrefix(a: string, b: string, pat: string)
    requires |pat| > 0
    requires forall k :: 0 <= k < |a| ==> a[k] != pat[0]
    ensures RemoveAll(a + b, pat) == a + RemoveAll(b, pat)
    decreases |a|
  {
    if |a| == 0 {
      assert a + b == b;
    } else {
      var s := a + b;
      assert s[0] == a[0];
      assert s[1..] == a[1..] + b;
      RemoveAllPlainPrefix(a[1..], b, pat);
      assert a == [a[0]] + a[1..];
    }
  }

  /** A leading occurrence of the pattern is deleted. */
  lemma RemoveAllPatternPrefix(b: string, pat: string)
    requires |pat| > 0
    ensures RemoveAll(pat + b, pat) == RemoveAll(b, pat)
  {
    assert (pat + b)[..|pat|] == pat;
    assert (pat + b)[|pat|..] == b;
  }

  predicate ContainsAt(s: string, pat: string, i: int) {
    0 <= i && i + |pat| <= |s| && s[i..i + |pat|] == pat
  }

  /** Dropping the first character keeps a prefix free of occurrences. */
  lemma NoOccurrenceTail(a: string, pat: string)
    requires |a| > 0
    requires forall i :: 0 <= i < |a| ==> !ContainsAt(a + pat, pat, i)
    ensures forall i :: 0 <= i < |a| - 1 ==> !ContainsAt(a[1..] + pat, pat, i)
  {
    forall i | 0 <= i < |a| - 1
      ensures !ContainsAt(a[1..] + pat, pat, i)
    {
      assert (a[1..] + pat)[i..i + |pat|] == (a + pat)[i + 1..i + 1 + |pat|];
      assert !ContainsAt(a + pat, pat, i + 1);
    }
  }

  /** A string that does not start with the pattern keeps its first
      character. */
  lemma RemoveAllKeepsHead(s: string, pat: string)
    requires |pat| > 0 && |s| > 0
    requires !(|pat| <= |s| && s[..|pat|] == pat)
    ensures RemoveAll(s, pat) == [s[0]] + RemoveAll(s[1..], pat)
  {
  }

  /** The leftmost occurrence is deleted and the scan resumes right after
      it: text before the first occurrence is kept as it is. */
  lemma {:induction false} RemoveAllFirst(a: string, b: string, pat: string)
    requires |pat| > 0
    requires forall i :: 0 <= i < |a| ==> !ContainsAt(a + pat, pat, i)
    ensures RemoveAll(a + pat + b, pat) == a + RemoveAll(b, pat)
    decreases |a|
  {
    var s := a + pat + b;
    if |a| == 0 {
      assert s == pat + b;
      RemoveAllPatternPrefix(b, pat);
    } else {
      assert !ContainsAt(a + pat, pat, 0);
      assert s[..|pat|] == (a + pat)[0..|pat|];
      RemoveAllKeepsHead(s, pat);
      assert s[1..] == a[1..] + pat + b;
      NoOccurrenceTail(a, pat);
      RemoveAllFirst(a[1..], b, pat);
      assert a == [a[0]] + a[1..];
    }
  }

  /** A string without any occurrence of `pat` passes through unchanged. */
  lemma {:induction false} RemoveAllAbsent(s: string, pat: string)
    requires |pat| > 0
    requires forall i :: !ContainsAt(s, pat, i)
    ensures RemoveAll(s, pat) == s
    decreases |s|
  {
    assert !ContainsAt(s, pat, 0);
    if |s| > 0 {
      forall i
        ensures !ContainsAt(s[1..], pat, i)
      {
        if ContainsAt(s[1..], pat, i) {
          assert s[1..][i..i + |pat|] == s[i + 1..i + 1 + |pat|];
          assert ContainsAt(s, pat, i + 1);
        }
      }
      RemoveAllAbsent(s[1..], pat);
    }
  }
}
