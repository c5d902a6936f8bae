/** Kotlin's `List.filter`, and what it means to keep a subsequence. */
module Seqs {

  /** `a` is `b` with some elements dropped and the rest kept in order. */
  predicate IsSubsequence<T(==)>(a: seq<T>, b: seq<T>)
    decreases |b|
  {
    if |a| == 0 then true
    else if |b| == 0 then false
    else if a[0] == b[0] then IsSubsequence(a[1..], b[1..])
    else IsSubsequence(a, b[1..])
  }

  lemma {:induction false} SubsequenceReflexive<T>(xs: seq<T>)
    ensures IsSubsequence(xs, xs)
  {
    if |xs| > 0 {
      SubsequenceReflexive(xs[1..]);
    }
  }

  /** `xs.filter(keep)`. */
  function Filter<T>(xs: seq<T>, keep: T -> bool): (r: seq<T>)
    ensures |r| <= |xs|
    ensures forall i :: 0 <= i < |r| ==> r[i] in xs && keep(r[i])
    ensures forall i :: 0 <= i < |xs| && keep(xs[i]) ==> xs[i] in r
  {
    if |xs| == 0 then []
    else if keep(xs[0]) then [xs[0]] + Filter(xs[1..], keep)
    else Filter(xs[1..], keep)
  }

  lemma {:induction false} FilterIsSubsequence<T>(xs: seq<T>, keep: T -> bool)
    ensures IsSubsequence(Filter(xs, keep), xs)
  {
    if |xs| > 0 {
      FilterIsSubsequence(xs[1..], keep);
      var r := Filter(xs, keep);
      if keep(xs[0]) {
        assert r[1..] == Filter(xs[1..], keep);
      } else {
        SubsequenceOfTail(r, xs);
      }
    }
  }

  lemma {:induction false} SubsequenceOfTail<T>(a: seq<T>, b: seq<T>)
    requires |b| > 0 && IsSubsequence(a, b[1..])
    ensures IsSubsequence(a, b)
    decreases |a| + |b|
  {
    if |a| > 0 && a[0] == b[0] {
      SubsequenceDropHead(a, b[1..]);
    }
  }

  lemma {:induction false} SubsequenceDropHead<T>(a: seq<T>, b: seq<T>)
    requires |a| > 0 && IsSubsequence(a, b)
    ensures IsSubsequence(a[1..], b)
    decreases |a| + |b|
  {
    if |b| > 0 {
      if a[0] == b[0] {
        SubsequenceOfTail(a[1..], b);
      } else {
        SubsequenceDropHead(a, b[1..]);
        SubsequenceOfTail(a[1..], b);
      }
    }
  }

  /** Filtering twice with the same test is filtering once. */
  lemma {:induction false} FilterIdempotent<T>(xs: seq<T>, keep: T -> bool)
    ensures Filter(Filter(xs, keep), keep) == Filter(xs, keep)
  {
    if |xs| > 0 {
      FilterIdempotent(xs[1..], keep);
      if keep(xs[0]) {
        assert ([xs[0]] + Filter(xs[1..], keep))[1..] == Filter(xs[1..], keep);
      }
    }
  }

  /** Filtering keeps every copy of an element that passes the test and no
      copy of one that fails it. */
  lemma {:induction false} FilterCount<T>(xs: seq<T>, keep: T -> bool, x: T)
    ensures multiset(Filter(xs, keep))[x] == if keep(x) then multiset(xs)[x] else 0
  {
    if |xs| > 0 {
      FilterCount(xs[1..], keep, x);
      assert xs == [xs[0]] + xs[1..];
    }
  }

  /** A test and its negation split a list without loss or overlap. */
  lemma {:induction false} FilterPartition<T>(xs: seq<T>, keep: T -> bool, drop: T -> bool)
    requires forall x :: drop(x) == !keep(x)
    ensures multiset(Filter(xs, keep)) + multiset(Filter(xs, drop)) == multiset(xs)
    ensures |Filter(xs, keep)| + |Filter(xs, drop)| == |xs|
  {
    if |xs| > 0 {
      FilterPartition(xs[1..], keep, drop);
      assert xs == [xs[0]] + xs[1..];
    }
  }
}
