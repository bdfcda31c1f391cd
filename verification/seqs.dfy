/** Generic sequence helpers: filtering, duplicate-freedom and element sets. */
module Seqs {
  import opened Wrappers

  /** The elements of `s` that satisfy `p`, in their original order. */
  function Filter<T>(p: T -> bool, s: seq<T>): (r: seq<T>)
    ensures |r| <= |s|
    ensures forall i :: 0 <= i < |r| ==> p(r[i])
  {
    if |s| == 0 then []
    else (if p(s[0]) then [s[0]] else []) + Filter(p, s[1..])
  }

  /** Filtering keeps exactly the elements that satisfy `p`. */
  lemma {:induction false} FilterElements<T>(p: T -> bool, s: seq<T>)
    ensures forall x :: x in Filter(p, s) <==> x in s && p(x)
  {
    if |s| > 0 {
      FilterElements(p, s[1..]);
      assert forall x :: x in s <==> x == s[0] || x in s[1..];
    }
  }

  predicate NoDuplicates<T(==)>(s: seq<T>) {
    forall i, j :: 0 <= i < j < |s| ==> s[i] != s[j]
  }

  /** Strictly increasing. */
  predicate Increasing(s: seq<int>) {
    forall a, b :: 0 <= a < b < |s| ==> s[a] < s[b]
  }

  /** The first element of an increasing sequence is below every other. */
  lemma IncreasingHead(s: seq<int>, x: int)
    requires Increasing(s) && x in s
    ensures s[0] <= x
    ensures x != s[0] ==> x in s[1..]
  {
    var i :| 0 <= i < |s| && s[i] == x;
    if i > 0 {
      assert s[1..][i - 1] == x;
    }
  }

  /** An increasing sequence is determined by its elements. */
  lemma {:induction false} IncreasingUnique(a: seq<int>, b: seq<int>)
    requires Increasing(a) && Increasing(b)
    requires forall x :: x in a <==> x in b
    ensures a == b
    decreases |a|
  {
    assert |a| > 0 ==> a[0] in a && a[0] in b;
    assert |b| > 0 ==> b[0] in b && b[0] in a;
    if |a| > 0 {
      IncreasingHead(a, b[0]);
      IncreasingHead(b, a[0]);
      assert a[0] == b[0];
      forall x
        ensures x in a[1..] <==> x in b[1..]
      {
        if x in a[1..] {
          assert x in a;
          IncreasingHead(b, x);
        }
        if x in b[1..] {
          assert x in b;
          IncreasingHead(a, x);
        }
      }
      IncreasingUnique(a[1..], b[1..]);
      assert a == [a[0]] + a[1..];
      assert b == [b[0]] + b[1..];
    }
  }

  /** Filtering keeps a duplicate-free sequence duplicate-free. */
  lemma {:induction false} FilterNoDuplicates<T>(p: T -> bool, s: seq<T>)
    requires NoDuplicates(s)
    ensures NoDuplicates(Filter(p, s))
  {
    if |s| > 0 {
      FilterNoDuplicates(p, s[1..]);
      FilterElements(p, s[1..]);
      var rest := Filter(p, s[1..]);
      assert s[0] !in s[1..];
      assert s[0] !in rest;
    }
  }

  /** Filtering distributes over concatenation. */
  lemma {:induction false} FilterAppend<T>(p: T -> bool, a: seq<T>, b: seq<T>)
    ensures Filter(p, a + b) == Filter(p, a) + Filter(p, b)
  {
    if |a| == 0 {
      assert a + b == b;
    } else {
      assert (a + b)[1..] == a[1..] + b;
      FilterAppend(p, a[1..], b);
    }
  }

  /** Filtering keeps everything when every element passes. */
  lemma {:induction false} FilterAll<T>(p: T -> bool, s: seq<T>)
    requires forall i :: 0 <= i < |s| ==> p(s[i])
    ensures Filter(p, s) == s
  {
    if |s| > 0 {
      FilterAll(p, s[1..]);
      assert s == [s[0]] + s[1..];
    }
  }

  /** The present results of `f` on the elements of `s`, in order. */
  function FilterMap<A, B>(f: A -> Option<B>, s: seq<A>): (r: seq<B>)
    ensures |r| <= |s|
  {
    if |s| == 0 then []
    else (if f(s[0]).Some? then [f(s[0]).value] else []) + FilterMap(f, s[1..])
  }

  /** When every present result remembers its argument through `key`, the
      keys of the results are the elements `p` keeps, and each result is
      what `f` gives for its own key. */
  lemma {:induction false} FilterMapKeys<A, B>(f: A -> Option<B>, key: B -> A, p: A -> bool, s: seq<A>)
    requires forall x :: f(x).Some? ==> key(f(x).value) == x
    requires forall x :: p(x) <==> f(x).Some?
    ensures Map(key, FilterMap(f, s)) == Filter(p, s)
    ensures forall k :: 0 <= k < |FilterMap(f, s)| ==>
              f(key(FilterMap(f, s)[k])) == Some(FilterMap(f, s)[k])
  {
    if |s| > 0 {
      var x := s[0];
      var t := FilterMap(f, s[1..]);
      FilterMapKeys(f, key, p, s[1..]);
      if f(x).Some? {
        var r := [f(x).value] + t;
        assert FilterMap(f, s) == r;
        assert Map(key, r) == [x] + Map(key, t);
        assert forall k :: 1 <= k < |r| ==> r[k] == t[k - 1];
      } else {
        assert FilterMap(f, s) == t;
      }
    }
  }

  /** `f` applied to every element. */
  function Map<A, B>(f: A -> B, s: seq<A>): (r: seq<B>)
    ensures |r| == |s|
    ensures forall i :: 0 <= i < |s| ==> r[i] == f(s[i])
  {
    seq(|s|, i requires 0 <= i < |s| => f(s[i]))
  }

  lemma MapAppend<A, B>(f: A -> B, a: seq<A>, b: seq<A>)
    ensures Map(f, a + b) == Map(f, a) + Map(f, b)
  {
  }

  /** Reference definition of first-occurrence deduplication of the first
      `n` values of `s`: a value is appended the first time it is met. */
  function FirstOf<T(==)>(s: seq<T>, n: nat): seq<T>
    requires n <= |s|
  {
    if n == 0 then []
    else FirstOf(s, n - 1) + (if s[n - 1] in s[..n - 1] then [] else [s[n - 1]])
  }

  function FirstOccurrences<T(==)>(s: seq<T>): seq<T> {
    FirstOf(s, |s|)
  }

  /** First-occurrence deduplication keeps every value exactly once. */
  lemma {:induction false} FirstOfElements<T>(s: seq<T>, n: nat)
    requires n <= |s|
    ensures NoDuplicates(FirstOf(s, n))
    ensures forall x :: x in FirstOf(s, n) <==> x in s[..n]
  {
    if n > 0 {
      FirstOfElements(s, n - 1);
      assert s[..n] == s[..n - 1] + [s[n - 1]];
    }
  }

  lemma FirstOccurrencesElements<T>(s: seq<T>)
    ensures NoDuplicates(FirstOccurrences(s))
    ensures forall x :: x in FirstOccurrences(s) <==> x in s
  {
    FirstOfElements(s, |s|);
    assert s[..|s|] == s;
  }

  /** Deduplicating fewer values yields a prefix of the result: a value met
      earlier is never placed after one met later. */
  lemma {:induction false} FirstOfPrefix<T>(s: seq<T>, i: nat, n: nat)
    requires i <= n <= |s|
    ensures FirstOf(s, i) <= FirstOf(s, n)
  {
    if i < n {
      FirstOfPrefix(s, i, n - 1);
    }
  }

  /** Only the first `n` values matter. */
  lemma {:induction false} FirstOfTake<T>(s: seq<T>, k: nat, n: nat)
    requires n <= k <= |s|
    ensures FirstOf(s[..k], n) == FirstOf(s, n)
  {
    if n > 0 {
      FirstOfTake(s, k, n - 1);
      assert s[..k][..n - 1] == s[..n - 1];
    }
  }

  /** Deduplicating a prefix yields a prefix of the result. */
  lemma FirstOccurrencesPrefix<T>(s: seq<T>, i: nat)
    requires i <= |s|
    ensures FirstOccurrences(s[..i]) <= FirstOccurrences(s)
  {
    FirstOfTake(s, i, i);
    FirstOfPrefix(s, i, |s|);
  }

  /** The seen-set loop over `s[i..]`: keep each value unless it is in
      `seen`, the values kept so far, and add it there. */
  function DedupFrom<T(==)>(s: seq<T>, i: nat, seen: set<T>): seq<T>
    requires i <= |s|
    decreases |s| - i
  {
    if i == |s| then []
    else if s[i] in seen then DedupFrom(s, i + 1, seen)
    else [s[i]] + DedupFrom(s, i + 1, seen + {s[i]})
  }

  function Dedup<T(==)>(s: seq<T>, seen: set<T>): seq<T> {
    DedupFrom(s, 0, seen)
  }

  /** The values of `s`, as a set. */
  function Elems<T>(s: seq<T>): set<T> {
    set x | x in s
  }

  lemma ElemsStep<T>(s: seq<T>, i: nat)
    requires i < |s|
    ensures Elems(s[..i + 1]) == Elems(s[..i]) + {s[i]}
    ensures s[i] in Elems(s[..i]) <==> s[i] in s[..i]
  {
    assert s[..i + 1] == s[..i] + [s[i]];
  }

  /** Running the seen-set loop on `s[i..]` with the values of `s[..i]` as
      the seen set continues first-occurrence deduplication of `s[..i]`. */
  lemma {:induction false} DedupPrefix<T>(s: seq<T>, i: nat)
    requires i <= |s|
    ensures FirstOf(s, i) + DedupFrom(s, i, Elems(s[..i])) == FirstOf(s, |s|)
    decreases |s| - i
  {
    if i < |s| {
      var seen := Elems(s[..i]);
      ElemsStep(s, i);
      DedupPrefix(s, i + 1);
      var before := FirstOf(s, i);
      var after := DedupFrom(s, i + 1, seen + {s[i]});
      if s[i] in seen {
        assert seen + {s[i]} == seen;
      } else {
        assert before + ([s[i]] + after) == (before + [s[i]]) + after;
      }
    }
  }

  /** The seen-set loop started from nothing computes first-occurrence
      deduplication. */
  lemma DedupIsFirstOccurrences<T>(s: seq<T>)
    ensures Dedup(s, {}) == FirstOccurrences(s)
  {
    DedupPrefix(s, 0);
    assert Elems(s[..0]) == {};
  }
}
