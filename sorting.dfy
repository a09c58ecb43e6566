/**
  Python's `sorted`: a stable sort that consults only `<`. It is modelled
  by insertion sort, and `StableSortUnique` shows that every sorted, stable
  rearrangement of the input is this one, so the choice of algorithm does
  not matter.
 */
module StableSorting {
  import opened Ordering

  /** No later element is smaller than an earlier one. */
  predicate Sorted<T>(s: seq<T>, lt: (T, T) -> bool) {
    forall i, j | 0 <= i < j < |s| :: !lt(s[j], s[i])
  }

  /** Neither is smaller: the two compare as equal keys. */
  predicate Equiv<T>(lt: (T, T) -> bool, a: T, b: T) {
    !lt(a, b) && !lt(b, a)
  }

  /** The elements of s whose key ties with y's, in their order in s. */
  function Ties<T>(s: seq<T>, y: T, lt: (T, T) -> bool): seq<T> {
    if s == [] then []
    else (if Equiv(lt, s[0], y) then [s[0]] else []) + Ties(s[1..], y, lt)
  }

  /** Ties keeps only elements of s that tie with y. */
  lemma {:induction false} TiesMembers<T>(s: seq<T>, y: T, lt: (T, T) -> bool)
    ensures forall z | z in Ties(s, y, lt) :: z in s && Equiv(lt, z, y)
  {
    if s != [] {
      TiesMembers(s[1..], y, lt);
    }
  }

  /** `r` lists the elements of `s` sorted, and elements with tied keys keep
      the order they had in `s`. */
  ghost predicate IsStableSortOf<T(!new)>(r: seq<T>, s: seq<T>, lt: (T, T) -> bool) {
    && multiset(r) == multiset(s)
    && Sorted(r, lt)
    && forall y :: Ties(r, y, lt) == Ties(s, y, lt)
  }

  /** Puts x in front of the first element that is not smaller than x, so x
      stays ahead of every element it ties with. */
  function Insert<T>(x: T, s: seq<T>, lt: (T, T) -> bool): seq<T> {
    if s == [] || !lt(s[0], x) then [x] + s
    else [s[0]] + Insert(x, s[1..], lt)
  }

  /** Inserting adds x and loses nothing. */
  lemma {:induction false} InsertPermutes<T>(x: T, s: seq<T>, lt: (T, T) -> bool)
    ensures multiset(Insert(x, s, lt)) == multiset(s) + multiset{x}
  {
    if s == [] || !lt(s[0], x) {
      assert multiset([x] + s) == multiset{x} + multiset(s);
    } else {
      var tail := Insert(x, s[1..], lt);
      InsertPermutes(x, s[1..], lt);
      assert s == [s[0]] + s[1..];
      assert multiset([s[0]] + tail) == multiset{s[0]} + multiset(tail);
      assert multiset(s) == multiset{s[0]} + multiset(s[1..]);
    }
  }

  lemma {:induction false} InsertSorted<T(!new)>(x: T, s: seq<T>, lt: (T, T) -> bool)
    requires StrictWeakOrder(lt) && Sorted(s, lt)
    ensures Sorted(Insert(x, s, lt), lt)
  {
    if s != [] && lt(s[0], x) {
      var tail := Insert(x, s[1..], lt);
      InsertSorted(x, s[1..], lt);
      InsertPermutes(x, s[1..], lt);
      forall j | 0 <= j < |tail| ensures !lt(tail[j], s[0]) {
        assert tail[j] in multiset(s[1..]) + multiset{x};
        if tail[j] != x {
          assert tail[j] in s[1..];
        }
      }
    }
  }

  /** What is smaller than x is smaller than everything tied with x. */
  lemma BelowTie<T(!new)>(a: T, x: T, y: T, lt: (T, T) -> bool)
    requires StrictWeakOrder(lt) && lt(a, x) && Equiv(lt, x, y)
    ensures !Equiv(lt, a, y)
  {
  }

  /** BelowTie for one x and y and every a; the only consequence of a strict
      weak order that inserting x needs. */
  ghost predicate BelowTies<T(!new)>(x: T, y: T, lt: (T, T) -> bool) {
    Equiv(lt, x, y) ==> forall a | lt(a, x) :: !Equiv(lt, a, y)
  }

  lemma AllBelowTies<T(!new)>(x: T, y: T, lt: (T, T) -> bool)
    requires StrictWeakOrder(lt)
    ensures BelowTies(x, y, lt)
  {
    if Equiv(lt, x, y) {
      forall a | lt(a, x) ensures !Equiv(lt, a, y) {
        BelowTie(a, x, y, lt);
      }
    }
  }

  lemma TiesCons<T>(h: T, t: seq<T>, y: T, lt: (T, T) -> bool)
    ensures Ties([h] + t, y, lt) == (if Equiv(lt, h, y) then [h] else []) + Ties(t, y, lt)
  {
    assert ([h] + t)[1..] == t;
  }

  /** Ties skips an element that does not tie with y. */
  lemma TiesSkip<T>(h: T, t: seq<T>, y: T, lt: (T, T) -> bool)
    requires !Equiv(lt, h, y)
    ensures Ties([h] + t, y, lt) == Ties(t, y, lt)
  {
    TiesCons(h, t, y, lt);
    assert [] + Ties(t, y, lt) == Ties(t, y, lt);
  }

  /** Ties keeps an element that ties with y. */
  lemma TiesKeep<T>(h: T, t: seq<T>, y: T, lt: (T, T) -> bool)
    requires Equiv(lt, h, y)
    ensures Ties([h] + t, y, lt) == [h] + Ties(t, y, lt)
  {
    TiesCons(h, t, y, lt);
  }

  lemma {:induction false} InsertTies<T(!new)>(x: T, s: seq<T>, y: T, lt: (T, T) -> bool)
    requires BelowTies(x, y, lt)
    ensures Ties(Insert(x, s, lt), y, lt) == (if Equiv(lt, x, y) then [x] else []) + Ties(s, y, lt)
  {
    if s == [] || !lt(s[0], x) {
      TiesCons(x, s, y, lt);
    } else {
      var tail, rest := Insert(x, s[1..], lt), s[1..];
      InsertTies(x, rest, y, lt);
      assert [s[0]] + rest == s;
      if Equiv(lt, x, y) {
        TiesSkip(s[0], tail, y, lt);
        TiesSkip(s[0], rest, y, lt);
      } else {
        assert Ties(tail, y, lt) == Ties(rest, y, lt);
        if Equiv(lt, s[0], y) {
          TiesKeep(s[0], tail, y, lt);
          TiesKeep(s[0], rest, y, lt);
        } else {
          TiesSkip(s[0], tail, y, lt);
          TiesSkip(s[0], rest, y, lt);
        }
      }
    }
  }

  /** `sorted(s)` with `<` given by lt. */
  function StableSort<T(!new)>(s: seq<T>, lt: (T, T) -> bool): (r: seq<T>)
    requires StrictWeakOrder(lt)
    ensures IsStableSortOf(r, s, lt)
  {
    if s == [] then []
    else
      var rest := StableSort(s[1..], lt);
      InsertSorted(s[0], rest, lt);
      InsertPermutes(s[0], rest, lt);
      assert s == [s[0]] + s[1..];
      assert forall y :: Ties(Insert(s[0], rest, lt), y, lt) == Ties(s, y, lt) by {
        forall y ensures Ties(Insert(s[0], rest, lt), y, lt) == Ties(s, y, lt) {
          AllBelowTies(s[0], y, lt);
          InsertTies(s[0], rest, y, lt);
        }
      }
      Insert(s[0], rest, lt)
  }

  lemma SortedTail<T>(s: seq<T>, lt: (T, T) -> bool)
    requires Sorted(s, lt) && s != []
    ensures Sorted(s[1..], lt)
  {
  }

  lemma TiesOfHead<T(!new)>(s: seq<T>, lt: (T, T) -> bool)
    requires StrictWeakOrder(lt) && s != []
    ensures Ties(s, s[0], lt) != []
  {
  }

  /** Two sorted lists whose tie groups agree are the same list. */
  lemma {:induction false} SortedTiesEqual<T(!new)>(a: seq<T>, b: seq<T>, lt: (T, T) -> bool)
    requires StrictWeakOrder(lt)
    requires Sorted(a, lt) && Sorted(b, lt)
    requires forall y :: Ties(a, y, lt) == Ties(b, y, lt)
    ensures a == b
    decreases |a|
  {
    if a == [] || b == [] {
      if a != [] {
        TiesOfHead(a, lt);
        assert false;
      } else if b != [] {
        TiesOfHead(b, lt);
        assert false;
      }
    } else {
      var x, z := a[0], b[0];
      TiesMembers(a, z, lt);
      TiesMembers(b, x, lt);
      assert z in Ties(b, z, lt);
      assert z in a;
      assert !lt(z, x);
      assert x in Ties(a, x, lt);
      assert x in b;
      assert !lt(x, z);
      assert Ties(a, x, lt)[0] == x;
      assert Ties(b, x, lt)[0] == z;
      assert x == z;
      forall y ensures Ties(a[1..], y, lt) == Ties(b[1..], y, lt) {
        var p := if Equiv(lt, x, y) then [x] else [];
        assert Ties(a, y, lt) == p + Ties(a[1..], y, lt);
        assert Ties(b, y, lt) == p + Ties(b[1..], y, lt);
        assert Ties(a[1..], y, lt) == (p + Ties(a[1..], y, lt))[|p|..];
        assert Ties(b[1..], y, lt) == (p + Ties(b[1..], y, lt))[|p|..];
      }
      SortedTail(a, lt);
      SortedTail(b, lt);
      SortedTiesEqual(a[1..], b[1..], lt);
      assert a == [x] + a[1..] && b == [z] + b[1..];
    }
  }

  /** Whatever stable sort Python runs, its result is StableSort's. */
  lemma StableSortUnique<T(!new)>(r: seq<T>, s: seq<T>, lt: (T, T) -> bool)
    requires StrictWeakOrder(lt)
    requires IsStableSortOf(r, s, lt)
    ensures r == StableSort(s, lt)
  {
    SortedTiesEqual(r, StableSort(s, lt), lt);
  }

  /** Sorting a list that is already sorted leaves it as it is. */
  lemma StableSortOfSorted<T(!new)>(s: seq<T>, lt: (T, T) -> bool)
    requires StrictWeakOrder(lt) && Sorted(s, lt)
    ensures StableSort(s, lt) == s
  {
    StableSortUnique(s, s, lt);
  }
}
