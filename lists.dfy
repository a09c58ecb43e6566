/**
  Python list semantics that the concordance functions rely on: slicing with
  negative and out-of-range bounds, the indices of a value, `list.index`,
  and the vocabulary used to state results (distinct elements,
  order-preserving subsequences).
 */
module Lists {

  function Min(a: int, b: int): int { if a <= b then a else b }
  function Max(a: int, b: int): int { if a >= b then a else b }

  /** Python's normalisation of one bound of a step-1 slice over a list of
      length n: a negative bound is counted from the end once, and what is
      still outside [0, n] is clamped. */
  function SliceBound(i: int, n: nat): (b: nat)
    ensures b <= n
  {
    if i < 0 then (if i + n < 0 then 0 else i + n)
    else if i > n then n
    else i
  }

  /** `s[start:end]`: never fails; empty when the normalised start is not
      below the normalised end. */
  function PySlice<T>(s: seq<T>, start: int, end: int): (r: seq<T>)
    ensures |r| == Max(0, SliceBound(end, |s|) - SliceBound(start, |s|))
  {
    var lo, hi := SliceBound(start, |s|), SliceBound(end, |s|);
    if lo < hi then s[lo..hi] else []
  }

  /** With a start inside the list and an end not before it, a Python slice
      is Dafny's, with the end clamped to the length. */
  lemma PySliceInRange<T>(s: seq<T>, start: int, end: int)
    requires 0 <= start <= |s| && start <= end
    ensures PySlice(s, start, end) == s[start..Min(end, |s|)]
  {
  }

  /** A start that is negative but not below -|s| wraps around to the end of
      the list instead of being clamped to 0. */
  lemma PySliceWrapsStart<T>(s: seq<T>, start: int, end: int)
    requires -|s| <= start < 0 <= end
    ensures PySlice(s, start, end) ==
      if start + |s| < Min(end, |s|) then s[start + |s| .. Min(end, |s|)] else []
  {
  }

  /** A start below -|s| is clamped to 0. */
  lemma PySliceClampsStart<T>(s: seq<T>, start: int, end: int)
    requires start < -|s| && 0 <= end
    ensures PySlice(s, start, end) == s[..Min(end, |s|)]
  {
  }

  /** The indices `i` with `s[i] == x`, in increasing order
      (`[i for i, y in enumerate(s) if y == x]`). */
  function Occurrences<T(==)>(s: seq<T>, x: T): (r: seq<nat>)
    ensures forall k | 0 <= k < |r| :: r[k] < |s| && s[r[k]] == x
    ensures forall k, m | 0 <= k < m < |r| :: r[k] < r[m]
    decreases |s|
  {
    if s == [] then []
    else
      var n := |s| - 1;
      var before := Occurrences(s[..n], x);
      assert s == s[..n] + [s[n]];
      assert forall i | 0 <= i < n :: s[..n][i] == s[i];
      before + (if s[n] == x then [n] else [])
  }

  /** Every position holding x is listed. */
  lemma {:induction false} OccurrencesComplete<T>(s: seq<T>, x: T, i: nat)
    requires i < |s| && s[i] == x
    ensures i in Occurrences(s, x)
  {
    var n := |s| - 1;
    if i < n {
      assert s[..n][i] == s[i];
      OccurrencesComplete(s[..n], x, i);
    }
  }

  /** There are as many occurrences as copies of x in s. */
  lemma {:induction false} OccurrencesCount<T>(s: seq<T>, x: T)
    ensures |Occurrences(s, x)| == multiset(s)[x]
  {
    if s != [] {
      var n := |s| - 1;
      var last := if s[n] == x then 1 else 0;
      OccurrencesCount(s[..n], x);
      assert |Occurrences(s, x)| == |Occurrences(s[..n], x)| + last;
      assert s == s[..n] + [s[n]];
      assert multiset(s) == multiset(s[..n]) + multiset{s[n]};
      assert multiset(s)[x] == multiset(s[..n])[x] + last;
    }
  }

  /** `s.index(x)`: the first position of x. */
  function IndexOf<T(==)>(s: seq<T>, x: T): (r: nat)
    requires x in s
    ensures r < |s| && s[r] == x
    ensures forall k | 0 <= k < r :: s[k] != x
  {
    if s[0] == x then 0 else 1 + IndexOf(s[1..], x)
  }

  predicate Distinct<T(==)>(s: seq<T>) {
    forall i, j | 0 <= i < j < |s| :: s[i] != s[j]
  }

  /** `a` is an order-preserving subsequence of `b`. */
  predicate IsSubsequence<T(==)>(a: seq<T>, b: seq<T>)
    decreases |b|
  {
    if a == [] then true
    else if b == [] then false
    else (a[0] == b[0] && IsSubsequence(a[1..], b[1..])) || IsSubsequence(a, b[1..])
  }

  lemma {:induction false} DistinctCount<T>(s: seq<T>, x: T)
    requires Distinct(s)
    ensures multiset(s)[x] <= 1
  {
    if s != [] {
      assert s == [s[0]] + s[1..];
      DistinctCount(s[1..], x);
      if s[0] == x {
        assert x !in s[1..];
      }
    }
  }

  lemma TwoCopies<T>(s: seq<T>, i: nat, j: nat)
    requires i < j < |s| && s[i] == s[j]
    ensures multiset(s)[s[i]] >= 2
  {
    assert s == s[..j] + s[j..];
    assert s[i] in s[..j];
    assert s[j] == s[j..][0];
  }

  /** Rearranging a list keeps it free of duplicates. */
  lemma DistinctPermutation<T>(a: seq<T>, b: seq<T>)
    requires multiset(a) == multiset(b) && Distinct(a)
    ensures Distinct(b)
  {
    forall i, j | 0 <= i < j < |b|
      ensures b[i] != b[j]
    {
      if b[i] == b[j] {
        TwoCopies(b, i, j);
        DistinctCount(a, b[i]);
      }
    }
  }

  /** A duplicate-free list that holds an element holds it once. */
  lemma DistinctCountOne<T>(s: seq<T>, x: T)
    requires Distinct(s) && x in s
    ensures multiset(s)[x] == 1
  {
    DistinctCount(s, x);
  }

  /** Two duplicate-free lists with the same elements are permutations of
      each other, hence equally long. */
  lemma DistinctSameElements<T>(a: seq<T>, b: seq<T>)
    requires Distinct(a) && Distinct(b)
    requires forall x | x in a :: x in b
    requires forall x | x in b :: x in a
    ensures multiset(a) == multiset(b) && |a| == |b|
  {
    forall x ensures multiset(a)[x] == multiset(b)[x] {
      if x in a {
        DistinctCountOne(a, x);
        DistinctCountOne(b, x);
      }
    }
    assert multiset(a) == multiset(b);
    assert |multiset(a)| == |multiset(b)|;
  }
}
