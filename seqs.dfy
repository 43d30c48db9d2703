/**
 `Array.prototype.filter` on sequences, used both by the delete handler and
 by the search view, with the facts the store needs about it.
 */
module Seqs {

  /** `sub` can be obtained from `s` by deleting elements (order is kept). */
  predicate IsSubsequence<T(==)>(sub: seq<T>, s: seq<T>)
    decreases |s|
  {
    sub == [] ||
    (s != [] &&
     (IsSubsequence(sub, s[1..]) || (sub[0] == s[0] && IsSubsequence(sub[1..], s[1..]))))
  }

  /** `s.filter(p)`: the elements of `s` that satisfy `p`, left to right. */
  function Keep<T(==)>(s: seq<T>, p: T -> bool): (r: seq<T>)
    ensures |r| <= |s|
    ensures forall x :: x in r ==> x in s && p(x)
    ensures forall x :: x in s && p(x) ==> x in r
  {
    if s == [] then []
    else if p(s[0]) then [s[0]] + Keep(s[1..], p)
    else Keep(s[1..], p)
  }

  /** The filtered sequence is an order-preserving subsequence of the input. */
  lemma {:induction false} KeepIsSubsequence<T>(s: seq<T>, p: T -> bool)
    ensures IsSubsequence(Keep(s, p), s)
  {
    if s != [] {
      KeepIsSubsequence(s[1..], p);
      if p(s[0]) {
        assert Keep(s, p)[1..] == Keep(s[1..], p);
      }
    }
  }

  /** Each element that satisfies `p` keeps all its occurrences; every other one has none. */
  lemma {:induction false} KeepMultiplicity<T>(s: seq<T>, p: T -> bool, x: T)
    ensures multiset(Keep(s, p))[x] == if p(x) then multiset(s)[x] else 0
  {
    if s != [] {
      KeepMultiplicity(s[1..], p, x);
      assert s == [s[0]] + s[1..];
    }
  }

  /** A filter that every element passes returns the input unchanged. */
  lemma {:induction false} KeepAll<T>(s: seq<T>, p: T -> bool)
    requires forall x :: x in s ==> p(x)
    ensures Keep(s, p) == s
  {
    if s != [] {
      KeepAll(s[1..], p);
      assert s == [s[0]] + s[1..];
    }
  }

  /** A stronger predicate keeps a subsequence of what a weaker one keeps. */
  lemma {:induction false} KeepNarrows<T>(s: seq<T>, p: T -> bool, q: T -> bool)
    requires forall x :: x in s && p(x) ==> q(x)
    ensures IsSubsequence(Keep(s, p), Keep(s, q))
  {
    if s != [] {
      KeepNarrows(s[1..], p, q);
      var kp, kq := Keep(s[1..], p), Keep(s[1..], q);
      if p(s[0]) {
        assert Keep(s, p) == [s[0]] + kp && Keep(s, q) == [s[0]] + kq;
        assert Keep(s, p)[1..] == kp && Keep(s, q)[1..] == kq;
      } else if q(s[0]) {
        assert Keep(s, q) == [s[0]] + kq;
        assert Keep(s, q)[1..] == kq;
        SubsequenceOfTail(Keep(s, p), Keep(s, q));
      }
    }
  }

  /** A subsequence of the tail is a subsequence of the whole. */
  lemma SubsequenceOfTail<T>(sub: seq<T>, s: seq<T>)
    requires s != [] && IsSubsequence(sub, s[1..])
    ensures IsSubsequence(sub, s)
  {
  }
}
