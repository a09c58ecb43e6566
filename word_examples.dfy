/**
  The docstring examples of `remove_stop_words`, `calculate_frequencies`
  and `get_top_n_words` (main.py), proved about the model.
 */
module WordExamples {
  import opened Lists
  import opened StopWords
  import opened Frequencies
  import opened TokenizeExamples

  /* remove_stop_words */

  /** The content words of the sentence. */
  const Content: seq<string> := ["weather", "sunny", "man", "happy"]
  const Stop: seq<string> := ["the", "is"]

  /** A stop word followed by a kept word leaves the kept word. */
  lemma DropThenKeep(s: string, k: string, rest: seq<string>, stopWords: seq<string>)
    requires s in stopWords && k !in stopWords
    ensures RemoveStopWords([s, k] + rest, stopWords) == [k] + RemoveStopWords(rest, stopWords)
  {
    assert ([s, k] + rest)[1..] == [k] + rest;
    assert ([k] + rest)[1..] == rest;
  }

  /** Four (stop word, kept word) pairs leave the four kept words. */
  lemma FourPairsFiltered(s1: string, k1: string, s2: string, k2: string,
                          s3: string, k3: string, s4: string, k4: string, stopWords: seq<string>)
    requires s1 in stopWords && s2 in stopWords && s3 in stopWords && s4 in stopWords
    requires k1 !in stopWords && k2 !in stopWords && k3 !in stopWords && k4 !in stopWords
    ensures RemoveStopWords([s1, k1, s2, k2, s3, k3, s4, k4], stopWords) == [k1, k2, k3, k4]
  {
    var t4 := [s4, k4];
    var t3 := [s3, k3] + t4;
    var t2 := [s2, k2] + t3;
    DropThenKeep(s4, k4, [], stopWords);
    assert t4 == [s4, k4] + [];
    DropThenKeep(s3, k3, t4, stopWords);
    DropThenKeep(s2, k2, t3, stopWords);
    DropThenKeep(s1, k1, t2, stopWords);
    Nest4(s1, k1, s2, k2, s3, k3, s4, k4);
    Nest4Singles(k1, k2, k3, k4);
  }

  /** Regrouping list displays is stated over a type parameter: proved on
      lists of string literals directly, the same equalities are costly for
      the solver. */
  lemma Nest4<T>(a: T, b: T, c: T, d: T, e: T, f: T, g: T, h: T)
    ensures [a, b] + ([c, d] + ([e, f] + [g, h])) == [a, b, c, d, e, f, g, h]
  {
  }

  lemma Nest4Singles<T>(a: T, b: T, c: T, d: T)
    ensures [a] + ([b] + ([c] + ([d] + []))) == [a, b, c, d]
  {
  }

  /** remove_stop_words(SentenceTokens, ['the', 'is']) */
  lemma RemoveStopWordsExample()
    ensures RemoveStopWords(SentenceTokens, Stop) == Content
  {
    FourPairsFiltered("the", "weather", "is", "sunny", "the", "man", "is", "happy", Stop);
  }

  /* calculate_frequencies and get_top_n_words */

  /** calculate_frequencies(['weather', 'sunny', 'man', 'happy']): every word
      once, whatever order the set is iterated in. */
  lemma FrequenciesExample(order: seq<string>)
    requires IsIterationOrder(order, Content)
    ensures |order| == 4
    ensures CalculateFrequencies(Content, order) == seq(4, i requires 0 <= i < 4 => (order[i], 1))
  {
    assert Distinct(Content);
    DistinctSameElements(order, Content);
    assert forall w :: multiset(Content)[w] <= 1;
    FrequenciesOfUnique(Content, order);
  }

  const TopTokens: seq<string> := ["weather", "sunny", "man", "happy", "and", "dog", "happy"]

  /** get_top_n_words(calculate_frequencies(TopTokens), 1) */
  lemma TopNExample(order: seq<string>)
    requires IsIterationOrder(order, TopTokens)
    ensures GetTopNWords(CalculateFrequencies(TopTokens, order), 1) == ["happy"]
  {
    assert multiset(TopTokens)["happy"] == 2;
    assert forall v | v != "happy" :: multiset(TopTokens)[v] <= 1;
    TopOneIsMostFrequent(TopTokens, order, "happy");
  }
}
