/** Sequence helpers shared by the walk, the sampler and the score aggregator. */
module Sequences {

  function Min(a: int, b: int): int
  {
    if a <= b then a else b
  }

  /** The elements of `s` that satisfy `keep`, in their original order: what a
      loop that appends under a condition leaves in its list. */
  function Filter<T>(s: seq<T>, keep: T -> bool): (r: seq<T>)
    ensures |r| <= |s|
    ensures forall i :: 0 <= i < |r| ==> keep(r[i])
    ensures forall i :: 0 <= i < |r| ==> exists j :: 0 <= j < |s| && s[j] == r[i]
    decreases |s|
  {
    if s == [] then []
    else
      var init := Filter(s[..|s| - 1], keep);
      var last := s[|s| - 1];
      assert forall i :: 0 <= i < |init| ==> exists j :: 0 <= j < |s| && s[j] == init[i] by {
        forall i | 0 <= i < |init| ensures exists j :: 0 <= j < |s| && s[j] == init[i] {
          var j :| 0 <= j < |s| - 1 && s[..|s| - 1][j] == init[i];
          assert s[j] == init[i];
        }
      }
      init + (if keep(last) then [last] else [])
  }

  /** Every element that satisfies `keep` survives the filter. */
  lemma {:induction false} FilterKeepsEverySatisfyingElement<T>(s: seq<T>, keep: T -> bool, j: nat)
    requires j < |s| && keep(s[j])
    ensures s[j] in Filter(s, keep)
    decreases |s|
  {
    if j < |s| - 1 {
      FilterKeepsEverySatisfyingElement(s[..|s| - 1], keep, j);
      assert s[..|s| - 1][j] == s[j];
    }
  }

  /** Filtering distributes over concatenation. */
  lemma {:induction false} FilterAppend<T>(a: seq<T>, b: seq<T>, keep: T -> bool)
    ensures Filter(a + b, keep) == Filter(a, keep) + Filter(b, keep)
    decreases |b|
  {
    if b == [] {
      assert a + b == a;
    } else {
      var b' := b[..|b| - 1];
      assert (a + b)[..|a + b| - 1] == a + b';
      FilterAppend(a, b', keep);
    }
  }

  /** Filtering by a conjunction is filtering twice: the result of the narrower
      filter is a subsequence of the result of the wider one. */
  lemma {:induction false} FilterOfFilter<T>(s: seq<T>, outer: T -> bool, inner: T -> bool, both: T -> bool)
    requires forall x :: both(x) == (outer(x) && inner(x))
    ensures Filter(s, both) == Filter(Filter(s, outer), inner)
    decreases |s|
  {
    if s != [] {
      var init, last := s[..|s| - 1], s[|s| - 1];
      FilterOfFilter(init, outer, inner, both);
      var tail := if outer(last) then [last] else [];
      FilterAppend(Filter(init, outer), tail, inner);
      if outer(last) {
        assert Filter(tail, inner) == Filter([], inner) + (if inner(last) then [last] else []);
      }
    }
  }

  /** No element occurs twice. */
  predicate NoDuplicates<T(==)>(s: seq<T>)
  {
    forall i, j :: 0 <= i < j < |s| ==> s[i] != s[j]
  }
}
