/** `Array.prototype.filter` and the facts about it the views rely on. */
module Seqs {

  /** `s.filter(x => p(x) == keep)`: the elements whose test comes out as
      `keep`, in their original order. Taking `keep` as a parameter lets the
      two halves of a partition (`filter(p)` and `filter(x => !p(x))`) share one
      definition. */
  function Filter<T>(s: seq<T>, p: T -> bool, keep: bool): (r: seq<T>)
    ensures |r| <= |s|
    ensures forall i :: 0 <= i < |r| ==> p(r[i]) == keep
    ensures multiset(r) <= multiset(s)
    ensures forall i :: 0 <= i < |r| ==> r[i] in s
    ensures forall i :: 0 <= i < |s| && p(s[i]) == keep ==> s[i] in r
    decreases |s|
  {
    if |s| == 0 then []
    else
      var rest := Filter(s[1..], p, keep);
      assert s == [s[0]] + s[1..];
      if p(s[0]) == keep then [s[0]] + rest else rest
  }

  /** Filtering distributes over concatenation. */
  lemma {:induction false} FilterAppend<T>(a: seq<T>, b: seq<T>, p: T -> bool, keep: bool)
    ensures Filter(a + b, p, keep) == Filter(a, p, keep) + Filter(b, p, keep)
    decreases |a|
  {
    if |a| > 0 {
      assert (a + b)[1..] == a[1..] + b;
      FilterAppend(a[1..], b, p, keep);
    } else {
      assert a + b == b;
    }
  }

  /** The two halves of a partition together hold every element exactly once. */
  lemma {:induction false} FilterPartition<T>(s: seq<T>, p: T -> bool)
    ensures |Filter(s, p, true)| + |Filter(s, p, false)| == |s|
    ensures multiset(Filter(s, p, true)) + multiset(Filter(s, p, false)) == multiset(s)
    decreases |s|
  {
    if |s| > 0 {
      FilterPartition(s[1..], p);
      assert s == [s[0]] + s[1..];
    }
  }

  /** A sequence whose elements all pass is its own filter. */
  lemma {:induction false} FilterKeepsAll<T>(s: seq<T>, p: T -> bool, keep: bool)
    requires forall i :: 0 <= i < |s| ==> p(s[i]) == keep
    ensures Filter(s, p, keep) == s
    decreases |s|
  {
    if |s| > 0 {
      FilterKeepsAll(s[1..], p, keep);
      assert s == [s[0]] + s[1..];
    }
  }

  /** A sequence whose elements all fail filters to nothing. */
  lemma {:induction false} FilterDropsAll<T>(s: seq<T>, p: T -> bool, keep: bool)
    requires forall i :: 0 <= i < |s| ==> p(s[i]) != keep
    ensures Filter(s, p, keep) == []
    decreases |s|
  {
    if |s| > 0 {
      FilterDropsAll(s[1..], p, keep);
    }
  }

  /** Filtering twice by the same test changes nothing more. */
  lemma FilterIdempotent<T>(s: seq<T>, p: T -> bool, keep: bool)
    ensures Filter(Filter(s, p, keep), p, keep) == Filter(s, p, keep)
  {
    FilterKeepsAll(Filter(s, p, keep), p, keep);
  }

  /** `r` can be obtained from `s` by deleting elements: its elements occur in
      `s` in the same order. */
  predicate IsSubsequence<T(==)>(r: seq<T>, s: seq<T>)
    decreases |s|
  {
    || |r| == 0
    || (&& |s| > 0
        && ((r[0] == s[0] && IsSubsequence(r[1..], s[1..])) || IsSubsequence(r, s[1..])))
  }

  /** The filter keeps the survivors in their original order. */
  lemma {:induction false} FilterSubsequence<T>(s: seq<T>, p: T -> bool, keep: bool)
    ensures IsSubsequence(Filter(s, p, keep), s)
    decreases |s|
  {
    if |s| > 0 {
      var rest := Filter(s[1..], p, keep);
      FilterSubsequence(s[1..], p, keep);
      if p(s[0]) == keep {
        assert ([s[0]] + rest)[1..] == rest;
      }
    }
  }

  /** The filter keeps every copy of a survivor and no copy of anything
      else. */
  lemma {:induction false} FilterMultiplicity<T>(s: seq<T>, p: T -> bool, keep: bool)
    ensures forall x :: multiset(Filter(s, p, keep))[x] == if p(x) == keep then multiset(s)[x] else 0
    decreases |s|
  {
    if |s| > 0 {
      FilterMultiplicity(s[1..], p, keep);
      assert s == [s[0]] + s[1..];
      assert multiset(s) == multiset{s[0]} + multiset(s[1..]);
    }
  }

  /** Deleting elements never adds copies. */
  lemma {:induction false} SubsequenceMultiset<T>(r: seq<T>, s: seq<T>)
    requires IsSubsequence(r, s)
    ensures multiset(r) <= multiset(s)
    decreases |s|
  {
    if |r| > 0 {
      assert s == [s[0]] + s[1..];
      if r[0] == s[0] && IsSubsequence(r[1..], s[1..]) {
        SubsequenceMultiset(r[1..], s[1..]);
        assert r == [r[0]] + r[1..];
      } else {
        SubsequenceMultiset(r, s[1..]);
      }
    }
  }

  /** Order and multiplicity determine the filter: a subsequence holding
      every copy of each passing element and nothing else is the filter. */
  lemma {:induction false} FilterUnique<T>(r: seq<T>, s: seq<T>, p: T -> bool, keep: bool)
    requires IsSubsequence(r, s)
    requires forall x :: multiset(r)[x] == if p(x) == keep then multiset(s)[x] else 0
    ensures r == Filter(s, p, keep)
    decreases |s|
  {
    if |s| == 0 {
      assert |r| == 0;
    } else {
      var x, tail := s[0], s[1..];
      assert s == [x] + tail;
      assert multiset(s) == multiset{x} + multiset(tail);
      if p(x) == keep {
        assert multiset(r)[x] >= 1;
        assert |r| > 0;
        if !(r[0] == x && IsSubsequence(r[1..], tail)) {
          SubsequenceMultiset(r, tail);
          assert false;
        }
        assert r == [r[0]] + r[1..];
        assert multiset(r) == multiset{x} + multiset(r[1..]);
        FilterUnique(r[1..], tail, p, keep);
      } else {
        assert IsSubsequence(r, tail);
        FilterUnique(r, tail, p, keep);
      }
    }
  }

  /** Past the head, a sequence built by putting `x` in front is `r`. */
  lemma ConsIndex<T>(x: T, r: seq<T>, i: int)
    requires 1 <= i <= |r|
    ensures ([x] + r)[i] == r[i - 1]
  {
  }

  /** A sequence is what precedes position `k`, the element there, and what
      follows. */
  lemma SplitAround<T>(s: seq<T>, k: nat)
    requires k < |s|
    ensures s == s[..k] + ([s[k]] + s[k + 1..])
    ensures s == s[..k] + [s[k]] + s[k + 1..]
  {
  }

  /** `s.filter(p).length`: how many elements pass. */
  function Count<T>(s: seq<T>, p: T -> bool): (n: nat)
    ensures n <= |s|
  {
    |Filter(s, p, true)|
  }
}
