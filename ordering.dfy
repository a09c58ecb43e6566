/**
  Python's `<` on the values the concordance sorts: characters by code point,
  strings and lists lexicographically (the first differing element decides;
  a proper prefix is smaller), plus the order properties `sorted` relies on.
 */
module Ordering {

  /** What `sorted` needs of `<`: irreflexive, transitive, and
      incomparability is transitive too (so "neither is smaller" is an
      equivalence). */
  ghost predicate StrictWeakOrder<T(!new)>(lt: (T, T) -> bool) {
    && (forall a :: !lt(a, a))
    && (forall a, b, c :: lt(a, b) && lt(b, c) ==> lt(a, c))
    && (forall a, b, c :: !lt(a, b) && !lt(b, c) ==> !lt(a, c))
  }

  ghost predicate StrictTotalOrder<T(!new)>(lt: (T, T) -> bool) {
    && (forall a :: !lt(a, a))
    && (forall a, b, c :: lt(a, b) && lt(b, c) ==> lt(a, c))
    && (forall a, b :: a != b ==> lt(a, b) || lt(b, a))
  }

  lemma TotalIsWeak<T(!new)>(lt: (T, T) -> bool)
    requires StrictTotalOrder(lt)
    ensures StrictWeakOrder(lt)
  {
    forall a, b, c | !lt(a, b) && !lt(b, c)
      ensures !lt(a, c)
    {
      if a != b && b != c {
        assert lt(b, a) && lt(c, b);
        assert lt(c, a);
      }
    }
  }

  /** Lexicographic comparison of two sequences, given `<` on the elements. */
  predicate LexLt<T(==)>(a: seq<T>, b: seq<T>, lt: (T, T) -> bool)
    decreases |a|
  {
    if a == [] then b != []
    else if b == [] then false
    else lt(a[0], b[0]) || (a[0] == b[0] && LexLt(a[1..], b[1..], lt))
  }

  lemma {:induction false} LexIrreflexive<T(!new)>(a: seq<T>, lt: (T, T) -> bool)
    requires forall x :: !lt(x, x)
    ensures !LexLt(a, a, lt)
    decreases |a|
  {
    if a != [] {
      LexIrreflexive(a[1..], lt);
    }
  }

  lemma {:induction false} LexTransitive<T(!new)>(a: seq<T>, b: seq<T>, c: seq<T>, lt: (T, T) -> bool)
    requires StrictTotalOrder(lt)
    requires LexLt(a, b, lt) && LexLt(b, c, lt)
    ensures LexLt(a, c, lt)
    decreases |a|
  {
    if a != [] {
      assert b != [] && c != [];
      if a[0] == b[0] && b[0] == c[0] {
        LexTransitive(a[1..], b[1..], c[1..], lt);
      }
    }
  }

  lemma {:induction false} LexTrichotomous<T(!new)>(a: seq<T>, b: seq<T>, lt: (T, T) -> bool)
    requires StrictTotalOrder(lt)
    requires a != b
    ensures LexLt(a, b, lt) || LexLt(b, a, lt)
    decreases |a|
  {
    if a != [] && b != [] && a[0] == b[0] {
      assert a == [a[0]] + a[1..] && b == [b[0]] + b[1..];
      LexTrichotomous(a[1..], b[1..], lt);
    }
  }

  /** The lexicographic extension of a strict total order is one. */
  lemma LexStrictTotal<T(!new)>(lt: (T, T) -> bool)
    requires StrictTotalOrder(lt)
    ensures forall a: seq<T> :: !LexLt(a, a, lt)
    ensures forall a: seq<T>, b, c :: LexLt(a, b, lt) && LexLt(b, c, lt) ==> LexLt(a, c, lt)
    ensures forall a: seq<T>, b :: a != b ==> LexLt(a, b, lt) || LexLt(b, a, lt)
  {
    forall a: seq<T> ensures !LexLt(a, a, lt) {
      LexIrreflexive(a, lt);
    }
    forall a: seq<T>, b, c | LexLt(a, b, lt) && LexLt(b, c, lt)
      ensures LexLt(a, c, lt)
    {
      LexTransitive(a, b, c, lt);
    }
    forall a: seq<T>, b | a != b
      ensures LexLt(a, b, lt) || LexLt(b, a, lt)
    {
      LexTrichotomous(a, b, lt);
    }
  }

  /** `<` on one-character strings: code point order. */
  predicate CharLt(c: char, d: char) { c < d }

  /** `<` on Python strings. */
  predicate StrLt(a: string, b: string) { LexLt(a, b, CharLt) }

  /** `<` on lists of strings, the order `sorted(conc)` uses. */
  predicate WindowLt(a: seq<string>, b: seq<string>) { LexLt(a, b, StrLt) }

  lemma StrLtIsTotal()
    ensures StrictTotalOrder(StrLt)
  {
    assert StrictTotalOrder(CharLt);
    LexStrictTotal(CharLt);
  }

  lemma WindowLtIsTotal()
    ensures StrictTotalOrder(WindowLt)
  {
    StrLtIsTotal();
    LexStrictTotal(StrLt);
  }

  /** Comparing by a key: `sorted(xs, key=f)` compares `f(a) < f(b)`. */
  function ByKey<T, K>(f: T -> K, lt: (K, K) -> bool): (T, T) -> bool {
    (a: T, b: T) => lt(f(a), f(b))
  }

  lemma ByKeyIsWeak<T(!new), K(!new)>(f: T -> K, lt: (K, K) -> bool)
    requires StrictWeakOrder(lt)
    ensures StrictWeakOrder(ByKey(f, lt))
  {
    var klt := ByKey(f, lt);
    forall a ensures !klt(a, a) {
      assert !lt(f(a), f(a));
    }
    forall a, b, c | klt(a, b) && klt(b, c) ensures klt(a, c) {
      assert lt(f(a), f(b)) && lt(f(b), f(c));
    }
    forall a, b, c | !klt(a, b) && !klt(b, c) ensures !klt(a, c) {
      assert !lt(f(a), f(b)) && !lt(f(b), f(c));
    }
  }
}
