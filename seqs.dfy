/** Generic facts about order-preserving filtering of sequences. */
module Seqs {

  /** `a` can be obtained from `b` by deleting elements (order is kept). */
  ghost predicate IsSubsequence<T>(a: seq<T>, b: seq<T>)
    decreases |b|
  {
    if a == [] then true
    else if b == [] then false
    else (a[|a| - 1] == b[|b| - 1] && IsSubsequence(a[..|a| - 1], b[..|b| - 1]))
         || IsSubsequence(a, b[..|b| - 1])
  }

  /**
   * The elements of `s` that satisfy `p`, in their original order. It is
   * defined on the last element, so a left-to-right scan that appends the
   * accepted elements extends it one step at a time.
   */
  function Filter<T>(s: seq<T>, p: T -> bool): (r: seq<T>)
    ensures |r| <= |s|
    ensures forall k :: 0 <= k < |r| ==> p(r[k])
    decreases |s|
  {
    if s == [] then []
    else Filter(s[..|s| - 1], p) + (if p(s[|s| - 1]) then [s[|s| - 1]] else [])
  }

  /**
   * What a filter keeps: exactly the elements that satisfy `p`, each as
   * often as it occurs in `s`, and in the order of `s`.
   */
  lemma FilterFacts<T(!new)>(s: seq<T>, p: T -> bool)
    ensures forall x :: x in Filter(s, p) <==> x in s && p(x)
    ensures forall x :: multiset(Filter(s, p))[x] == if p(x) then multiset(s)[x] else 0
    ensures IsSubsequence(Filter(s, p), s)
  {
    FilterCounts(s, p);
    FilterSubsequence(s, p);
    forall x ensures x in Filter(s, p) <==> x in s && p(x) {
      assert x in Filter(s, p) <==> multiset(Filter(s, p))[x] > 0;
      assert x in s <==> multiset(s)[x] > 0;
    }
  }

  /** A filter keeps each satisfying element as often as it occurs, and no other. */
  lemma {:induction false} FilterCounts<T>(s: seq<T>, p: T -> bool)
    ensures forall x :: multiset(Filter(s, p))[x] == if p(x) then multiset(s)[x] else 0
    decreases |s|
  {
    if s != [] {
      var init, last := s[..|s| - 1], s[|s| - 1];
      FilterCounts(init, p);
      assert s == init + [last];
      assert multiset(s) == multiset(init) + multiset{last};
    }
  }

  /** A filter keeps the order of `s`. */
  lemma {:induction false} FilterSubsequence<T>(s: seq<T>, p: T -> bool)
    ensures IsSubsequence(Filter(s, p), s)
    decreases |s|
  {
    if s != [] {
      var init, last := s[..|s| - 1], s[|s| - 1];
      FilterSubsequence(init, p);
      var r := Filter(s, p);
      if p(last) {
        assert r == Filter(init, p) + [last];
        assert r[..|r| - 1] == Filter(init, p);
      } else {
        assert r == Filter(init, p);
      }
    }
  }

  /** Filtering distributes over concatenation. */
  lemma {:induction false} FilterAppend<T>(a: seq<T>, b: seq<T>, p: T -> bool)
    ensures Filter(a + b, p) == Filter(a, p) + Filter(b, p)
    decreases |b|
  {
    if b == [] {
      assert a + b == a;
    } else {
      var init, last := b[..|b| - 1], b[|b| - 1];
      assert (a + b)[..|a + b| - 1] == a + init;
      assert (a + b)[|a + b| - 1] == last;
      FilterAppend(a, init, p);
      var tail := if p(last) then [last] else [];
      calc {
        Filter(a + b, p);
        Filter(a + init, p) + tail;
        Filter(a, p) + Filter(init, p) + tail;
        Filter(a, p) + (Filter(init, p) + tail);
      }
    }
  }

  /** Filtering keeps a sequence whose every element passes. */
  lemma {:induction false} FilterKeepsAll<T>(s: seq<T>, p: T -> bool)
    requires forall k :: 0 <= k < |s| ==> p(s[k])
    ensures Filter(s, p) == s
    decreases |s|
  {
    if s != [] {
      FilterKeepsAll(s[..|s| - 1], p);
      assert s == s[..|s| - 1] + [s[|s| - 1]];
    }
  }

  /** The filter of a prefix is a prefix of the filter. */
  lemma FilterPrefix<T>(s: seq<T>, k: nat, p: T -> bool)
    requires k <= |s|
    ensures |Filter(s[..k], p)| <= |Filter(s, p)|
    ensures Filter(s, p)[..|Filter(s[..k], p)|] == Filter(s[..k], p)
  {
    assert s == s[..k] + s[k..];
    FilterAppend(s[..k], s[k..], p);
  }

  /** Every prefix of a subsequence of `b` is itself a subsequence of `b`. */
  lemma {:induction false} SubsequencePrefix<T>(a: seq<T>, b: seq<T>, k: nat)
    requires IsSubsequence(a, b) && k <= |a|
    ensures IsSubsequence(a[..k], b)
    decreases |b|
  {
    if k == 0 {
      assert a[..k] == [];
    } else if k == |a| {
      assert a[..k] == a;
    } else {
      var bi := b[..|b| - 1];
      if a[|a| - 1] == b[|b| - 1] && IsSubsequence(a[..|a| - 1], bi) {
        SubsequencePrefix(a[..|a| - 1], bi, k);
        assert a[..|a| - 1][..k] == a[..k];
      } else {
        SubsequencePrefix(a, bi, k);
      }
    }
  }
}
