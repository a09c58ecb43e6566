/**
  The docstring examples of `get_concordance`, `get_adjacent_words` and
  `sort_concordance` (main.py), proved about the model.
 */
module ConcordanceExamples {
  import opened Lists
  import opened Ordering
  import opened StableSorting
  import opened Concordance

  /** The token list shared by the concordance examples, written around its
      two occurrences of "happy". */
  const BeforeFirst: seq<string> := ["the", "weather", "is", "sunny", "the", "man", "is"]
  const Between: seq<string> := ["the", "dog", "is"]
  const AfterSecond: seq<string> := ["but", "the", "cat", "is", "sad"]
  const Text: seq<string> := BeforeFirst + ["happy"] + Between + ["happy"] + AfterSecond

  const ManWindow: Window := ["man", "is", "happy", "the", "dog", "is"]
  const DogWindow: Window := ["dog", "is", "happy", "but", "the", "cat"]

  /** A value that occurs exactly twice has exactly those two indices. */
  lemma OccurrencesOfTwo<T>(s: seq<T>, x: T, a: nat, b: nat)
    requires a < b < |s| && s[a] == x && s[b] == x && multiset(s)[x] == 2
    ensures Occurrences(s, x) == [a, b]
  {
    var r := Occurrences(s, x);
    OccurrencesCount(s, x);
    OccurrencesComplete(s, x, a);
    OccurrencesComplete(s, x, b);
    assert a in r && b in r;
    assert r[0] < r[1];
  }

  lemma TwoMarks<T>(p: seq<T>, x: T, q: seq<T>, t: seq<T>)
    requires x !in p && x !in q && x !in t
    ensures var s := p + [x] + q + [x] + t;
            |p| + 1 + |q| < |s| && s[|p|] == x && s[|p| + 1 + |q|] == x && multiset(s)[x] == 2
  {
    assert multiset(p)[x] == 0 && multiset(q)[x] == 0 && multiset(t)[x] == 0;
  }

  lemma HappyOccurrences()
    ensures Occurrences(Text, "happy") == [7, 11]
  {
    TwoMarks(BeforeFirst, "happy", Between, AfterSecond);
    OccurrencesOfTwo(Text, "happy", 7, 11);
  }

  lemma TextWindows()
    ensures |Text| == 17 && Text[5..11] == ManWindow && Text[9..15] == DogWindow
  {
    assert Text[5..11] == BeforeFirst[5..] + ["happy"] + Between + ["happy"][..0];
    assert Text[9..15] == Between[1..] + ["happy"] + AfterSecond[..3];
  }

  /** Two interior occurrences give two full windows. */
  lemma ConcordanceOfTwo(tokens: seq<string>, word: string, lcs: int, rcs: int, a: nat, b: nat)
    requires lcs > 0 && rcs > 0
    requires Occurrences(tokens, word) == [a, b]
    requires lcs <= a < b && b + rcs < |tokens|
    ensures GetConcordance(tokens, word, lcs, rcs) ==
            [tokens[a - lcs .. a + rcs + 1], tokens[b - lcs .. b + rcs + 1]]
  {
    var conc := GetConcordance(tokens, word, lcs, rcs);
    ConcordanceBothSides(tokens, word, lcs, rcs, 0, a);
    ConcordanceBothSides(tokens, word, lcs, rcs, 1, b);
    assert |conc| == 2;
  }

  /** get_concordance(Text, 'happy', 2, 3) */
  lemma ConcordanceExample()
    ensures GetConcordance(Text, "happy", 2, 3) == [ManWindow, DogWindow]
  {
    HappyOccurrences();
    TextWindows();
    ConcordanceOfTwo(Text, "happy", 2, 3, 7, 11);
  }

  /** Two non-empty windows give their two entries. */
  lemma AdjacentWordsTwo<T>(x: seq<T>, y: seq<T>, leftN: int, rightN: int)
    requires x != [] && y != []
    ensures AdjacentWords([x, y], leftN, rightN) == Ok([AdjacentOf(x, leftN, rightN), AdjacentOf(y, leftN, rightN)])
  {
    assert [x, y][1..] == [y];
    assert [y][1..] == [];
    assert AdjacentWords([y][1..], leftN, rightN) == Ok([]);
    assert [AdjacentOf(y, leftN, rightN)] + [] == [AdjacentOf(y, leftN, rightN)];
    assert AdjacentWords([y], leftN, rightN) == Ok([AdjacentOf(y, leftN, rightN)]);
    assert [AdjacentOf(x, leftN, rightN)] + [AdjacentOf(y, leftN, rightN)] ==
           [AdjacentOf(x, leftN, rightN), AdjacentOf(y, leftN, rightN)];
  }

  /** get_adjacent_words(Text, 'happy', 2, 3) */
  lemma AdjacentExample()
    ensures GetAdjacentWords(Text, "happy", 2, 3) == Ok([["man", "is"], ["dog", "cat"]])
  {
    ConcordanceExample();
    assert |ManWindow| == 6 && ManWindow[0] == "man" && ManWindow[5] == "is";
    assert |DogWindow| == 6 && DogWindow[0] == "dog" && DogWindow[5] == "cat";
    AdjacentWordsTwo(ManWindow, DogWindow, 2, 3);
    assert AdjacentOf(ManWindow, 2, 3) == ["man", "is"];
    assert AdjacentOf(DogWindow, 2, 3) == ["dog", "cat"];
  }

  /** Sorting two elements swaps them exactly when the second is smaller. */
  lemma SortTwo<T(!new)>(a: T, b: T, lt: (T, T) -> bool)
    requires StrictWeakOrder(lt)
    ensures StableSort([a, b], lt) == if lt(b, a) then [b, a] else [a, b]
  {
    assert [a, b][1..] == [b];
    assert StableSort([b], lt) == [b] by {
      assert [b][1..] == [];
    }
  }

  /** sort_concordance(Text, 'happy', 2, 3, True) */
  lemma SortExample()
    ensures SortConcordance(Text, "happy", 2, 3, true) == Ok([DogWindow, ManWindow])
  {
    ConcordanceExample();
    WindowLtIsWeak();
    assert WindowLt(DogWindow, ManWindow) by {
      assert StrLt("dog", "man");
    }
    SortTwo(ManWindow, DogWindow, WindowLt);
  }
}
