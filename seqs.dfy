/**
 * The array operations the store and the handlers rely on, stated over sequences:
 * `findIndex`, `filter` and `splice(i, 1)`, with the subsequence relation that says what `filter` keeps.
 */
module Seqs {
  import opened Options

  /** Array.prototype.findIndex: the first index whose element passes p, None for -1. */
  function IndexOf<T>(s: seq<T>, p: T -> bool): (r: Option<nat>)
    ensures r.Some? ==> r.value < |s| && p(s[r.value])
    ensures r.Some? ==> forall k :: 0 <= k < r.value ==> !p(s[k])
    ensures r.None? ==> forall k :: 0 <= k < |s| ==> !p(s[k])
  {
    if s == [] then None
    else if p(s[0]) then Some(0)
    else match IndexOf(s[1..], p)
      case None => None
      case Some(k) => Some(k + 1)
  }

  /** a can be obtained from b by deleting elements, keeping the order of the rest. */
  ghost predicate Subseq<T>(a: seq<T>, b: seq<T>)
    decreases |b|
  {
    a == [] || (b != [] && ((a[0] == b[0] && Subseq(a[1..], b[1..])) || Subseq(a, b[1..])))
  }

  /** The elements of s that satisfy p, in their original order (Array.prototype.filter). */
  function Filter<T>(s: seq<T>, p: T -> bool): (r: seq<T>)
    ensures |r| <= |s|
    ensures forall k :: 0 <= k < |r| ==> r[k] in s && p(r[k])
    ensures forall k :: 0 <= k < |s| && p(s[k]) ==> s[k] in r
    ensures Subseq(r, s)
  {
    if s == [] then []
    else if p(s[0]) then [s[0]] + Filter(s[1..], p)
    else Filter(s[1..], p)
  }

  /** Filter keeps every element that passes as many times as it occurs, and no other. */
  lemma {:induction false} FilterCounts<T>(s: seq<T>, p: T -> bool)
    ensures forall x :: multiset(Filter(s, p))[x] == if p(x) then multiset(s)[x] else 0
  {
    if s != [] {
      var tail := s[1..];
      FilterCounts(tail, p);
      assert s == [s[0]] + tail;
      assert multiset(s) == multiset{s[0]} + multiset(tail);
      if p(s[0]) {
        assert Filter(s, p) == [s[0]] + Filter(tail, p);
        assert multiset(Filter(s, p)) == multiset{s[0]} + multiset(Filter(tail, p));
      }
    }
  }

  /** s without its element at index i (Array.prototype.splice(i, 1)). */
  function RemoveAt<T>(s: seq<T>, i: nat): (r: seq<T>)
    requires i < |s|
    ensures |r| == |s| - 1
    ensures forall k :: 0 <= k < |r| ==> r[k] == if k < i then s[k] else s[k + 1]
  {
    s[..i] + s[i + 1..]
  }

  /** Filtering twice is filtering once by the conjunction. */
  lemma {:induction false} FilterFilter<T>(s: seq<T>, p: T -> bool, q: T -> bool, pq: T -> bool)
    requires forall k :: 0 <= k < |s| ==> pq(s[k]) == (p(s[k]) && q(s[k]))
    ensures Filter(Filter(s, p), q) == Filter(s, pq)
  {
    if s != [] {
      FilterFilter(s[1..], p, q, pq);
    }
  }

  /** Two tests that agree on every element of s keep the same elements. */
  lemma {:induction false} FilterAgree<T>(s: seq<T>, p: T -> bool, q: T -> bool)
    requires forall k :: 0 <= k < |s| ==> p(s[k]) == q(s[k])
    ensures Filter(s, p) == Filter(s, q)
  {
    if s != [] {
      FilterAgree(s[1..], p, q);
    }
  }

  /** Whatever order relation holds between the elements of s still holds after one is spliced out. */
  lemma RemoveAtKeepsOrder<T>(s: seq<T>, i: nat, before: (T, T) -> bool)
    requires i < |s|
    requires forall a, b :: 0 <= a < b < |s| ==> before(s[a], s[b])
    ensures forall a, b :: 0 <= a < b < |RemoveAt(s, i)| ==> before(RemoveAt(s, i)[a], RemoveAt(s, i)[b])
  {
    var r := RemoveAt(s, i);
    forall a, b | 0 <= a < b < |r|
      ensures before(r[a], r[b])
    {
      var a' := if a < i then a else a + 1;
      var b' := if b < i then b else b + 1;
      assert r[a] == s[a'] && r[b] == s[b'];
    }
  }

  /** A filter that every element passes changes nothing. */
  lemma {:induction false} FilterKeepsAll<T>(s: seq<T>, p: T -> bool)
    requires forall i :: 0 <= i < |s| ==> p(s[i])
    ensures Filter(s, p) == s
  {
    if s != [] {
      FilterKeepsAll(s[1..], p);
    }
  }

  /** Whatever order relation holds between the elements of s still holds between those a filter keeps. */
  lemma {:induction false} FilterKeepsOrder<T>(s: seq<T>, p: T -> bool, before: (T, T) -> bool)
    requires forall i, j :: 0 <= i < j < |s| ==> before(s[i], s[j])
    ensures forall i, j :: 0 <= i < j < |Filter(s, p)| ==> before(Filter(s, p)[i], Filter(s, p)[j])
  {
    if s != [] {
      var tail := s[1..];
      FilterKeepsOrder(tail, p, before);
      var t := Filter(tail, p);
      if p(s[0]) {
        var r := Filter(s, p);
        assert r == [s[0]] + t;
        forall i, j | 0 <= i < j < |r|
          ensures before(r[i], r[j])
        {
          if i == 0 {
            assert r[j] == t[j - 1];
            var k :| 0 <= k < |tail| && tail[k] == t[j - 1];
            assert s[k + 1] == r[j];
          } else {
            assert r[i] == t[i - 1] && r[j] == t[j - 1];
          }
        }
      }
    }
  }

  lemma {:induction false} SubseqDropPrefix<T>(a: seq<T>, b1: seq<T>, b2: seq<T>)
    requires Subseq(a, b2)
    ensures Subseq(a, b1 + b2)
  {
    if b1 != [] {
      SubseqDropPrefix(a, b1[1..], b2);
      assert (b1 + b2)[1..] == b1[1..] + b2;
    } else {
      assert b1 + b2 == b2;
    }
  }

  /** Subsequences of two pieces put together make a subsequence of the pieces put together. */
  lemma {:induction false} SubseqConcat<T>(a1: seq<T>, b1: seq<T>, a2: seq<T>, b2: seq<T>)
    requires Subseq(a1, b1) && Subseq(a2, b2)
    ensures Subseq(a1 + a2, b1 + b2)
    decreases |b1|
  {
    if a1 == [] {
      SubseqDropPrefix(a2, b1, b2);
      assert a1 + a2 == a2;
    } else {
      assert (b1 + b2)[1..] == b1[1..] + b2;
      if a1[0] == b1[0] && Subseq(a1[1..], b1[1..]) {
        SubseqConcat(a1[1..], b1[1..], a2, b2);
        assert (a1 + a2)[1..] == a1[1..] + a2;
      } else {
        SubseqConcat(a1, b1[1..], a2, b2);
      }
    }
  }
}
