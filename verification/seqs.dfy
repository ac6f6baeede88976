/** Order-preserving filtering and counting over sequences: the model of
    JavaScript's `Array.prototype.filter` and of `filter(...).length`. */
module Seqs {

  /** `sub` is obtained from `s` by deleting some elements, keeping the order of the rest. */
  predicate SubsequenceOf<T(==)>(sub: seq<T>, s: seq<T>)
    decreases |s|
  {
    if sub == [] then true
    else if s == [] then false
    else if sub[0] == s[0] then SubsequenceOf(sub[1..], s[1..])
    else SubsequenceOf(sub, s[1..])
  }

  /** Number of elements of `s` that satisfy `p`. */
  function Count<T>(s: seq<T>, p: T -> bool): (n: nat)
    ensures n <= |s|
  {
    if s == [] then 0 else (if p(s[0]) then 1 else 0) + Count(s[1..], p)
  }

  /** `s.filter(p)`. */
  function Filter<T>(s: seq<T>, p: T -> bool): (r: seq<T>)
    ensures |r| <= |s|
    ensures forall i :: 0 <= i < |r| ==> p(r[i])
  {
    if s == [] then []
    else if p(s[0]) then [s[0]] + Filter(s[1..], p)
    else Filter(s[1..], p)
  }

  /** What `Filter` keeps: exactly the elements satisfying `p`, as many times as
      they occur, in their original order. */
  lemma {:induction false} FilterSpec<T>(s: seq<T>, p: T -> bool)
    ensures SubsequenceOf(Filter(s, p), s)
    ensures |Filter(s, p)| == Count(s, p)
    ensures forall x :: x in s && p(x) ==> x in Filter(s, p)
    ensures forall x :: x in Filter(s, p) ==> x in s
  {
    if s != [] {
      FilterSpec(s[1..], p);
      var r := Filter(s[1..], p);
      if p(s[0]) {
        assert Filter(s, p) == [s[0]] + r;
        assert ([s[0]] + r)[1..] == r;
      } else {
        SubsequenceDropHead(r, s);
      }
      forall x | x in s && p(x) ensures x in Filter(s, p) {
        if x != s[0] { assert x in s[1..]; }
      }
    }
  }

  /** `Filter` keeps each element that satisfies `p` exactly as many times as
      it occurs, and drops every other element. */
  lemma {:induction false} FilterMultiplicity<T>(s: seq<T>, p: T -> bool, x: T)
    ensures multiset(Filter(s, p))[x] == if p(x) then multiset(s)[x] else 0
  {
    if s != [] {
      FilterMultiplicity(s[1..], p, x);
      assert s == [s[0]] + s[1..];
      assert multiset(s) == multiset([s[0]]) + multiset(s[1..]);
      if p(s[0]) {
        assert multiset(Filter(s, p)) == multiset([s[0]]) + multiset(Filter(s[1..], p));
      }
    }
  }

  lemma {:induction false} SubsequenceDropHead<T>(sub: seq<T>, s: seq<T>)
    requires s != []
    requires SubsequenceOf(sub, s[1..])
    ensures SubsequenceOf(sub, s)
    decreases |s|, 0
  {
    if sub != [] && sub[0] == s[0] {
      // Both the head-matching and the skipping reading apply; take the first.
      SubsequenceTail(sub, s[1..]);
      assert SubsequenceOf(sub[1..], s[1..]);
    }
  }

  lemma {:induction false} SubsequenceTail<T>(sub: seq<T>, s: seq<T>)
    requires sub != []
    requires SubsequenceOf(sub, s)
    ensures SubsequenceOf(sub[1..], s)
    decreases |s|, 1
  {
    if s != [] {
      if sub[0] == s[0] {
        SubsequenceDropHead(sub[1..], s);
      } else {
        SubsequenceTail(sub, s[1..]);
        SubsequenceDropHead(sub[1..], s);
      }
    }
  }

  /** Every element of a subsequence is an element of the sequence. */
  lemma {:induction false} SubsequenceMembers<T>(sub: seq<T>, s: seq<T>, x: T)
    requires SubsequenceOf(sub, s) && x in sub
    ensures x in s
    decreases |s|
  {
    if s != [] {
      if sub[0] == s[0] {
        if x != sub[0] {
          assert x in sub[1..];
          SubsequenceMembers(sub[1..], s[1..], x);
        }
      } else {
        SubsequenceMembers(sub, s[1..], x);
      }
    }
  }

  lemma {:induction false} SubsequenceOfSelf<T>(s: seq<T>)
    ensures SubsequenceOf(s, s)
  {
    if s != [] {
      SubsequenceOfSelf(s[1..]);
    }
  }

  /** A filter that keeps everything is the identity. */
  lemma {:induction false} FilterAll<T>(s: seq<T>, p: T -> bool)
    requires forall i :: 0 <= i < |s| ==> p(s[i])
    ensures Filter(s, p) == s
  {
    if s != [] {
      FilterAll(s[1..], p);
    }
  }

  /** Filtering is pointwise: predicates that agree on `s` filter it alike. */
  lemma {:induction false} FilterCongruent<T>(s: seq<T>, p: T -> bool, q: T -> bool)
    requires forall i :: 0 <= i < |s| ==> p(s[i]) == q(s[i])
    ensures Filter(s, p) == Filter(s, q)
    ensures Count(s, p) == Count(s, q)
  {
    if s != [] {
      FilterCongruent(s[1..], p, q);
    }
  }

  /** Splitting at a concatenation. */
  lemma {:induction false} FilterAppend<T>(a: seq<T>, b: seq<T>, p: T -> bool)
    ensures Filter(a + b, p) == Filter(a, p) + Filter(b, p)
    ensures Count(a + b, p) == Count(a, p) + Count(b, p)
  {
    if a == [] {
      assert a + b == b;
    } else {
      assert (a + b)[1..] == a[1..] + b;
      FilterAppend(a[1..], b, p);
    }
  }

  /** Filtering twice is filtering once by the conjunction. */
  lemma {:induction false} FilterFilter<T>(s: seq<T>, p: T -> bool, q: T -> bool, pq: T -> bool)
    requires forall i :: 0 <= i < |s| ==> pq(s[i]) == (p(s[i]) && q(s[i]))
    ensures Filter(Filter(s, p), q) == Filter(s, pq)
  {
    if s != [] {
      FilterFilter(s[1..], p, q, pq);
      if p(s[0]) {
        assert ([s[0]] + Filter(s[1..], p))[1..] == Filter(s[1..], p);
      }
    }
  }
}
