/**
  `calculate_frequencies` and `get_top_n_words` (main.py).

  A frequency dict is modelled by its items in the dict's order. The dict
  that `calculate_frequencies` builds first is keyed by `set(tokens)`, whose
  iteration order Python leaves unspecified; that order is a parameter here
  (any duplicate-free listing of the distinct tokens), and every property
  below holds for all of them.
 */
module Frequencies {
  import opened Lists
  import opened Ordering
  import opened StableSorting

  type FreqTable = seq<(string, nat)>

  function Keys(t: FreqTable): seq<string> {
    seq(|t|, i requires 0 <= i < |t| => t[i].0)
  }

  /** The sum of the values. */
  function Total(t: FreqTable): nat {
    if t == [] then 0 else t[0].1 + Total(t[1..])
  }

  /** `order` is one way `set(tokens)` may be iterated. */
  predicate IsIterationOrder(order: seq<string>, tokens: seq<string>) {
    && Distinct(order)
    && (forall w | w in order :: w in tokens)
    && (forall w | w in tokens :: w in order)
  }

  /** The distinct tokens in order of first appearance: one possible
      iteration order, so the requirement below can always be met. */
  function FirstSeen(tokens: seq<string>): (r: seq<string>)
    ensures IsIterationOrder(r, tokens)
    decreases |tokens|
  {
    if tokens == [] then []
    else
      var n := |tokens| - 1;
      var seen := FirstSeen(tokens[..n]);
      assert tokens == tokens[..n] + [tokens[n]];
      if tokens[n] in seen then seen else seen + [tokens[n]]
  }

  /** `key=lambda x: x[1], reverse=True`: a larger count sorts first, and
      equal counts keep their order, as Python's `reverse` promises. */
  predicate ByCountDesc(a: (string, nat), b: (string, nat)) {
    a.1 > b.1
  }

  lemma ByCountDescIsWeak()
    ensures StrictWeakOrder(ByCountDesc)
  {
  }

  /** `{i: tokens.count(i) for i in set(tokens)}`, iterated in `order`. */
  function CountAll(tokens: seq<string>, order: seq<string>): (r: FreqTable)
    ensures Keys(r) == order
    ensures forall i | 0 <= i < |r| :: r[i].1 == multiset(tokens)[r[i].0]
  {
    seq(|order|, i requires 0 <= i < |order| => (order[i], multiset(tokens)[order[i]]))
  }

  /** `calculate_frequencies(tokens)` when `set(tokens)` iterates in `order`. */
  function CalculateFrequencies(tokens: seq<string>, order: seq<string>): (r: FreqTable)
    requires IsIterationOrder(order, tokens)
    ensures multiset(r) == multiset(CountAll(tokens, order))
    ensures forall i, j | 0 <= i < j < |r| :: r[i].1 >= r[j].1
  {
    ByCountDescIsWeak();
    StableSort(CountAll(tokens, order), ByCountDesc)
  }

  lemma MultisetRemoveAt<T>(s: seq<T>, k: nat)
    requires k < |s|
    ensures multiset(s[..k] + s[k + 1..]) == multiset(s) - multiset{s[k]}
  {
    assert s == s[..k] + [s[k]] + s[k + 1..];
  }

  lemma KeysRemoveAt(t: FreqTable, k: nat)
    requires k < |t|
    ensures Keys(t[..k] + t[k + 1..]) == Keys(t)[..k] + Keys(t)[k + 1..]
  {
  }

  /** Dropping item k drops its key from the keys' multiset. */
  lemma KeysWithout(b: FreqTable, k: nat)
    requires k < |b|
    ensures b[k].0 in multiset(Keys(b))
    ensures multiset(Keys(b[..k] + b[k + 1..])) == multiset(Keys(b)) - multiset{b[k].0}
  {
    KeysRemoveAt(b, k);
    MultisetRemoveAt(Keys(b), k);
    assert Keys(b)[k] == b[k].0;
  }

  /** The items after the first of a are the items of b without a copy of
      a's first. */
  lemma RestOfPermutation(a: FreqTable, b: FreqTable, k: nat)
    requires multiset(a) == multiset(b) && a != [] && k < |b| && b[k] == a[0]
    ensures multiset(a[1..]) == multiset(b[..k] + b[k + 1..])
  {
    MultisetRemoveAt(b, k);
    assert a == [a[0]] + a[1..];
  }

  lemma KeysCons(a: FreqTable)
    requires a != []
    ensures multiset(Keys(a)) == multiset{a[0].0} + multiset(Keys(a[1..]))
  {
    assert Keys(a) == [a[0].0] + Keys(a[1..]);
  }

  /** Rearranging the items rearranges the keys the same way. */
  lemma {:induction false} KeysPermutation(a: FreqTable, b: FreqTable)
    requires multiset(a) == multiset(b)
    ensures multiset(Keys(a)) == multiset(Keys(b))
    decreases |a|
  {
    if a != [] {
      assert a[0] in multiset(b);
      var k :| 0 <= k < |b| && b[k] == a[0];
      RestOfPermutation(a, b, k);
      KeysPermutation(a[1..], b[..k] + b[k + 1..]);
      KeysWithout(b, k);
      KeysCons(a);
    } else {
      assert b == [];
    }
  }

  /** The table has one entry per distinct token, holding that token's
      count, and the counts never increase along the table. */
  lemma FrequenciesEntries(tokens: seq<string>, order: seq<string>)
    requires IsIterationOrder(order, tokens)
    ensures Distinct(Keys(CalculateFrequencies(tokens, order)))
    ensures forall w :: w in Keys(CalculateFrequencies(tokens, order)) <==> w in tokens
    ensures forall i | 0 <= i < |CalculateFrequencies(tokens, order)| ::
      CalculateFrequencies(tokens, order)[i].1 == multiset(tokens)[CalculateFrequencies(tokens, order)[i].0]
    ensures forall i, j | 0 <= i < j < |CalculateFrequencies(tokens, order)| ::
      CalculateFrequencies(tokens, order)[i].1 >= CalculateFrequencies(tokens, order)[j].1
  {
    var items := CountAll(tokens, order);
    var r := CalculateFrequencies(tokens, order);
    assert Keys(items) == order;
    KeysPermutation(items, r);
    DistinctPermutation(order, Keys(r));
    forall w ensures w in Keys(r) <==> w in tokens {
      assert w in Keys(r) <==> w in multiset(Keys(r));
      assert w in order <==> w in multiset(order);
    }
    forall i | 0 <= i < |r| ensures r[i].1 == multiset(tokens)[r[i].0] {
      assert r[i] in multiset(items);
    }
  }

  /** `sum(m[k] for k in ks)` */
  function SumCounts(ks: seq<string>, m: multiset<string>): nat {
    if ks == [] then 0 else m[ks[0]] + SumCounts(ks[1..], m)
  }

  lemma {:induction false} SumCountsAdd(ks: seq<string>, m: multiset<string>, x: string)
    ensures SumCounts(ks, m + multiset{x}) == SumCounts(ks, m) + multiset(ks)[x]
  {
    if ks != [] {
      SumCountsAdd(ks[1..], m, x);
      assert ks == [ks[0]] + ks[1..];
    }
  }

  lemma {:induction false} SumCountsNone(ks: seq<string>)
    ensures SumCounts(ks, multiset{}) == 0
  {
    if ks != [] {
      SumCountsNone(ks[1..]);
    }
  }

  /** Counting every token under a duplicate-free list of keys that covers
      them counts each token once. */
  lemma {:induction false} SumCountsCover(ks: seq<string>, tokens: seq<string>)
    requires Distinct(ks) && forall w | w in tokens :: w in ks
    ensures SumCounts(ks, multiset(tokens)) == |tokens|
    decreases |tokens|
  {
    if tokens == [] {
      SumCountsNone(ks);
    } else {
      var n := |tokens| - 1;
      var x := tokens[n];
      assert tokens == tokens[..n] + [x];
      assert forall w | w in tokens[..n] :: w in tokens;
      SumCountsCover(ks, tokens[..n]);
      SumCountsAdd(ks, multiset(tokens[..n]), x);
      DistinctCountOne(ks, x);
    }
  }

  lemma {:induction false} TotalOfCounts(t: FreqTable, m: multiset<string>)
    requires forall i | 0 <= i < |t| :: t[i].1 == m[t[i].0]
    ensures Total(t) == SumCounts(Keys(t), m)
  {
    if t != [] {
      TotalOfCounts(t[1..], m);
      assert Keys(t)[1..] == Keys(t[1..]);
    }
  }

  /** The counts add up to the number of tokens. */
  lemma FrequenciesTotal(tokens: seq<string>, order: seq<string>)
    requires IsIterationOrder(order, tokens)
    ensures Total(CalculateFrequencies(tokens, order)) == |tokens|
  {
    var r := CalculateFrequencies(tokens, order);
    FrequenciesEntries(tokens, order);
    TotalOfCounts(r, multiset(tokens));
    SumCountsCover(Keys(r), tokens);
  }

  /** `freq_dict.get(w)`, or 0 when w is not a key. */
  function FreqOf(t: FreqTable, w: string): nat {
    if t == [] then 0 else if t[0].0 == w then t[0].1 else FreqOf(t[1..], w)
  }

  lemma {:induction false} FreqOfEntry(t: FreqTable, i: nat)
    requires Distinct(Keys(t)) && i < |t|
    ensures FreqOf(t, t[i].0) == t[i].1
  {
    if i > 0 {
      assert Keys(t)[0] != Keys(t)[i];
      assert Keys(t[1..]) == Keys(t)[1..];
      FreqOfEntry(t[1..], i - 1);
    }
  }

  /** `sorted(freq_dict, key=freq_dict.get, reverse=True)`, with each key
      kept beside its value: keys are unique, so sorting the items by value
      orders the keys the same way. */
  function Ranked(freq: FreqTable): (r: FreqTable)
    ensures multiset(r) == multiset(freq)
    ensures forall i, j | 0 <= i < j < |r| :: r[i].1 >= r[j].1
  {
    ByCountDescIsWeak();
    StableSort(freq, ByCountDesc)
  }

  /** `get_top_n_words(freq_dict, top_n)` */
  function GetTopNWords(freq: FreqTable, topN: int): (r: seq<string>)
    ensures |r| <= |freq|
    ensures r == Keys(Ranked(freq))[..|r|]
  {
    assert |multiset(Ranked(freq))| == |multiset(freq)|;
    PySlice(Keys(Ranked(freq)), 0, topN)
  }

  lemma RankedKeys(freq: FreqTable)
    requires Distinct(Keys(freq))
    ensures multiset(Keys(Ranked(freq))) == multiset(Keys(freq))
    ensures Distinct(Keys(Ranked(freq)))
    ensures forall i | 0 <= i < |Ranked(freq)| :: FreqOf(freq, Ranked(freq)[i].0) == Ranked(freq)[i].1
  {
    var r := Ranked(freq);
    KeysPermutation(freq, r);
    DistinctPermutation(Keys(freq), Keys(r));
    forall i | 0 <= i < |r| ensures FreqOf(freq, r[i].0) == r[i].1 {
      assert r[i] in multiset(freq);
      var j :| 0 <= j < |freq| && freq[j] == r[i];
      FreqOfEntry(freq, j);
    }
  }

  /** `[:top_n]`: at most top_n words for top_n >= 0, none for 0, and a
      negative top_n leaves out that many words; since the result is a
      prefix of the ranking, they are the last ones. */
  lemma TopNLength(freq: FreqTable, topN: int)
    ensures topN >= 0 ==> |GetTopNWords(freq, topN)| == Min(topN, |freq|)
    ensures topN < 0 ==> |GetTopNWords(freq, topN)| == Max(0, |freq| + topN)
    ensures topN == 0 ==> GetTopNWords(freq, topN) == []
  {
    assert |multiset(Ranked(freq))| == |multiset(freq)|;
  }

  /** The words returned are distinct keys of the table, in non-increasing
      order of frequency, and none of them is less frequent than a key that
      was left out. */
  lemma TopNRanking(freq: FreqTable, topN: int)
    requires Distinct(Keys(freq))
    ensures Distinct(GetTopNWords(freq, topN))
    ensures forall w | w in GetTopNWords(freq, topN) :: w in Keys(freq)
    ensures forall i, j | 0 <= i < j < |GetTopNWords(freq, topN)| ::
      FreqOf(freq, GetTopNWords(freq, topN)[i]) >= FreqOf(freq, GetTopNWords(freq, topN)[j])
    ensures forall w, v | w in GetTopNWords(freq, topN) && v in Keys(freq) && v !in GetTopNWords(freq, topN) ::
      FreqOf(freq, w) >= FreqOf(freq, v)
  {
    var ks := Keys(Ranked(freq));
    var r := GetTopNWords(freq, topN);
    RankedKeys(freq);
    var m := |r|;
    assert Distinct(r) by {
      assert r == ks[..m];
    }
    forall w | w in r ensures w in Keys(freq) {
      assert w in multiset(ks);
    }
    forall i, j | 0 <= i < j < m ensures FreqOf(freq, r[i]) >= FreqOf(freq, r[j]) {
      RankedKeyOrder(freq, i, j);
    }
    forall w, v | w in r && v in Keys(freq) && v !in r
      ensures FreqOf(freq, w) >= FreqOf(freq, v)
    {
      TopNBeatsOmitted(freq, topN, w, v);
    }
  }

  /** A returned word is at least as frequent as a key left out. */
  lemma TopNBeatsOmitted(freq: FreqTable, topN: int, w: string, v: string)
    requires Distinct(Keys(freq))
    requires w in GetTopNWords(freq, topN) && v in Keys(freq) && v !in GetTopNWords(freq, topN)
    ensures FreqOf(freq, w) >= FreqOf(freq, v)
  {
    var ks := Keys(Ranked(freq));
    var r := GetTopNWords(freq, topN);
    RankedKeys(freq);
    var i :| 0 <= i < |r| && r[i] == w;
    assert v in multiset(ks);
    var j :| 0 <= j < |ks| && ks[j] == v;
    assert j >= |r|;
    RankedKeyOrder(freq, i, j);
  }

  /** Along the ranking, the frequency of the keys never increases. */
  lemma RankedKeyOrder(freq: FreqTable, i: nat, j: nat)
    requires Distinct(Keys(freq))
    requires i < j < |Ranked(freq)|
    ensures FreqOf(freq, Keys(Ranked(freq))[i]) >= FreqOf(freq, Keys(Ranked(freq))[j])
  {
    RankedKeys(freq);
  }

  /** The table calculate_frequencies builds is already ranked, so the top
      words are simply its first keys. */
  lemma TopNOfFrequencies(tokens: seq<string>, order: seq<string>, topN: nat)
    requires IsIterationOrder(order, tokens)
    ensures GetTopNWords(CalculateFrequencies(tokens, order), topN)
      == Keys(CalculateFrequencies(tokens, order))[..Min(topN, |CalculateFrequencies(tokens, order)|)]
  {
    var f := CalculateFrequencies(tokens, order);
    ByCountDescIsWeak();
    StableSortOfSorted(f, ByCountDesc);
  }

  /** When no token repeats, every count is 1 and the table keeps the
      iteration order of the set. */
  lemma FrequenciesOfUnique(tokens: seq<string>, order: seq<string>)
    requires IsIterationOrder(order, tokens)
    requires forall w :: multiset(tokens)[w] <= 1
    ensures CalculateFrequencies(tokens, order) == seq(|order|, i requires 0 <= i < |order| => (order[i], 1))
  {
    var ones := seq(|order|, i requires 0 <= i < |order| => (order[i], 1));
    forall i | 0 <= i < |order| ensures CountAll(tokens, order)[i] == ones[i] {
      assert order[i] in order;
    }
    assert CountAll(tokens, order) == ones;
    ByCountDescIsWeak();
    StableSortOfSorted(ones, ByCountDesc);
  }

  /** The first entry holds the largest count. */
  lemma FirstIsMostFrequent(tokens: seq<string>, order: seq<string>, w: string)
    requires IsIterationOrder(order, tokens) && w in tokens
    ensures |CalculateFrequencies(tokens, order)| > 0
    ensures CalculateFrequencies(tokens, order)[0].1 == multiset(tokens)[CalculateFrequencies(tokens, order)[0].0]
    ensures multiset(tokens)[w] <= CalculateFrequencies(tokens, order)[0].1
  {
    var f := CalculateFrequencies(tokens, order);
    FrequenciesEntries(tokens, order);
    assert w in Keys(f);
    var j :| 0 <= j < |f| && f[j].0 == w;
    if j > 0 {
      assert f[0].1 >= f[j].1;
    }
  }

  /** A word that occurs more often than any other is the top word. */
  lemma TopOneIsMostFrequent(tokens: seq<string>, order: seq<string>, w: string)
    requires IsIterationOrder(order, tokens)
    requires forall v | v != w :: multiset(tokens)[v] < multiset(tokens)[w]
    ensures GetTopNWords(CalculateFrequencies(tokens, order), 1) == [w]
  {
    var other: string := if w == [] then "a" else [];
    assert multiset(tokens)[other] < multiset(tokens)[w];
    assert w in tokens;
    var f := CalculateFrequencies(tokens, order);
    FirstIsMostFrequent(tokens, order, w);
    assert multiset(tokens)[f[0].0] >= multiset(tokens)[w];
    assert f[0].0 == w;
    TopNOfFrequencies(tokens, order, 1);
    assert Keys(f)[..1] == [w];
  }
}
