/** Row selection by a predicate, keeping order, as a frame's boolean row filter does. */
module Seqs {

  /** The elements of s that satisfy p, in their order in s. */
  function Filter<T(!new)>(s: seq<T>, p: T -> bool): (r: seq<T>)
    ensures |r| <= |s|
    ensures forall x :: x in r <==> x in s && p(x)
    decreases |s|
  {
    if s == [] then []
    else
      var init, last := s[..|s| - 1], s[|s| - 1];
      assert s == init + [last];
      Filter(init, p) + (if p(last) then [last] else [])
  }

  /** a can be obtained from b by deleting elements: b's order is kept in a. */
  ghost predicate Subsequence<T>(a: seq<T>, b: seq<T>)
    decreases |b|
  {
    if a == [] then true
    else if b == [] then false
    else (Subsequence(a, b[..|b| - 1])
          || (a[|a| - 1] == b[|b| - 1] && Subsequence(a[..|a| - 1], b[..|b| - 1])))
  }

  lemma {:induction false} FilterIsSubsequence<T(!new)>(s: seq<T>, p: T -> bool)
    ensures Subsequence(Filter(s, p), s)
    decreases |s|
  {
    if s != [] {
      var init, last := s[..|s| - 1], s[|s| - 1];
      FilterIsSubsequence(init, p);
      var f := Filter(init, p);
      if p(last) {
        assert Filter(s, p) == f + [last];
        assert (f + [last])[..|f|] == f;
      } else {
        assert Filter(s, p) == f;
      }
    }
  }

  /** Every element of s satisfies p. */
  predicate AllSatisfy<T>(s: seq<T>, p: T -> bool) {
    forall i :: 0 <= i < |s| ==> p(s[i])
  }

  lemma AllSatisfySnoc<T>(init: seq<T>, last: T, p: T -> bool)
    ensures AllSatisfy(init + [last], p) <==> AllSatisfy(init, p) && p(last)
  {
    var s := init + [last];
    if AllSatisfy(init, p) && p(last) {
      forall i | 0 <= i < |s| ensures p(s[i]) {
        if i < |init| { assert s[i] == init[i]; }
      }
    }
    if AllSatisfy(s, p) {
      assert s[|init|] == last;
      forall i | 0 <= i < |init| ensures p(init[i]) {
        assert s[i] == init[i];
      }
    }
  }

  /** Everything is kept exactly when every element satisfies the predicate. */
  lemma {:induction false} FilterKeepsAll<T(!new)>(s: seq<T>, p: T -> bool)
    ensures |Filter(s, p)| == |s| <==> AllSatisfy(s, p)
    ensures AllSatisfy(s, p) ==> Filter(s, p) == s
    decreases |s|
  {
    if s != [] {
      var init, last := s[..|s| - 1], s[|s| - 1];
      FilterKeepsAll(init, p);
      assert s == init + [last];
      AllSatisfySnoc(init, last, p);
      if p(last) {
        assert Filter(s, p) == Filter(init, p) + [last];
      } else {
        assert Filter(s, p) == Filter(init, p);
      }
    }
  }

  /** Filtering a sequence extended by one element extends the filtered sequence by that element or by nothing. */
  lemma FilterSnoc<T(!new)>(init: seq<T>, last: T, p: T -> bool)
    ensures Filter(init + [last], p) == Filter(init, p) + (if p(last) then [last] else [])
  {
    var s := init + [last];
    assert s[..|s| - 1] == init && s[|s| - 1] == last;
  }

  /** Filtering by complementary predicates splits a sequence into two parts with no loss or duplication. */
  lemma {:induction false} FilterComplement<T(!new)>(s: seq<T>, p: T -> bool, q: T -> bool)
    requires forall x :: q(x) <==> !p(x)
    ensures multiset(Filter(s, p)) + multiset(Filter(s, q)) == multiset(s)
    ensures |Filter(s, p)| + |Filter(s, q)| == |s|
    decreases |s|
  {
    if s != [] {
      var init, last := s[..|s| - 1], s[|s| - 1];
      assert s == init + [last];
      FilterComplement(init, p, q);
      FilterSnoc(init, last, p);
      FilterSnoc(init, last, q);
      var fp, fq := Filter(init, p), Filter(init, q);
      assert multiset(s) == multiset(init) + multiset{last};
      if p(last) {
        assert !q(last);
        assert multiset(fp + [last]) == multiset(fp) + multiset{last};
      } else {
        assert q(last);
        assert multiset(fq + [last]) == multiset(fq) + multiset{last};
      }
    }
  }
}
