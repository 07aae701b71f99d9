/** Sequence facts shared by the scheduler, the store and the e-mail field:
    order-preserving filters (JavaScript's `Array.prototype.filter`) and subsequences. */
module Seqs {

  /** `a` can be obtained from `b` by deleting elements, keeping the order of the rest. */
  predicate IsSubsequence<T(==)>(a: seq<T>, b: seq<T>)
    decreases |b|
  {
    if a == [] then true
    else if b == [] then false
    else if a[0] == b[0] then IsSubsequence(a[1..], b[1..])
    else IsSubsequence(a, b[1..])
  }

  /** `r` is exactly the elements of `s` satisfying `p`, in their original order and
      with their original multiplicity. */
  ghost predicate IsFilterOf<T>(r: seq<T>, s: seq<T>, p: T -> bool) {
    && IsSubsequence(r, s)
    && (forall x :: x in r ==> x in s && p(x))
    && (forall x :: x in s && p(x) ==> multiset(r)[x] == multiset(s)[x])
  }

  /** Keeps the elements of `s` satisfying `p`, in order. */
  function Filter<T(==)>(s: seq<T>, p: T -> bool): (r: seq<T>)
    ensures IsFilterOf(r, s, p)
    ensures |r| <= |s|
    ensures forall i :: 0 <= i < |r| ==> p(r[i]) && r[i] in s
    ensures forall i :: 0 <= i < |s| ==> (p(s[i]) ==> s[i] in r)
  {
    if s == [] then []
    else
      var rest := Filter(s[1..], p);
      FilterStep(s, rest, p);
      if p(s[0]) then [s[0]] + rest else rest
  }

  /** One step of the filter: from the filter of the tail, keeping or dropping the head
      gives the filter of the whole sequence. */
  lemma FilterStep<T>(s: seq<T>, rest: seq<T>, p: T -> bool)
    requires s != [] && IsFilterOf(rest, s[1..], p)
    ensures IsFilterOf(if p(s[0]) then [s[0]] + rest else rest, s, p)
  {
    assert s == [s[0]] + s[1..];
    assert multiset(s) == multiset{s[0]} + multiset(s[1..]);
    if p(s[0]) {
      assert ([s[0]] + rest)[1..] == rest;
    } else {
      SubsequenceDropHead(rest, s);
    }
  }

  lemma {:induction false} SubsequenceDropHead<T>(a: seq<T>, b: seq<T>)
    requires b != [] && IsSubsequence(a, b[1..])
    ensures IsSubsequence(a, b)
    decreases |b|, 0
  {
    if a != [] && a[0] == b[0] {
      // Greedy matching: a[0] is matched at b[0], and a[1..] is still a
      // subsequence of b[1..] because it was one of a suffix of it.
      SubsequenceTail(a, b[1..]);
    }
  }

  lemma {:induction false} SubsequenceTail<T>(a: seq<T>, b: seq<T>)
    requires a != [] && IsSubsequence(a, b)
    ensures IsSubsequence(a[1..], b)
    decreases |b|, 1
  {
    if a[0] == b[0] {
      SubsequenceDropHead(a[1..], b);
    } else {
      SubsequenceTail(a, b[1..]);
      SubsequenceDropHead(a[1..], b);
    }
  }

  /** Every sequence is a subsequence of itself. */
  lemma {:induction false} SubsequenceReflexive<T>(s: seq<T>)
    ensures IsSubsequence(s, s)
    decreases |s|
  {
    if s != [] {
      SubsequenceReflexive(s[1..]);
    }
  }

  /** A filter every element passes keeps the whole sequence. */
  lemma {:induction false} FilterKeepsAll<T>(s: seq<T>, p: T -> bool)
    requires forall i :: 0 <= i < |s| ==> p(s[i])
    ensures Filter(s, p) == s
    decreases |s|
  {
    if s != [] {
      FilterKeepsAll(s[1..], p);
    }
  }

  /** Two predicates that agree on the elements of `s` select the same filter of `s`. */
  lemma FilterOfCongruent<T>(r: seq<T>, s: seq<T>, p: T -> bool, q: T -> bool)
    requires forall x :: x in s ==> p(x) == q(x)
    requires IsFilterOf(r, s, p)
    ensures IsFilterOf(r, s, q)
  {
  }
}
