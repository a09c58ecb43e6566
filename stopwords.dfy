/**
  `remove_stop_words` (main.py): keep the tokens that are not stop words, in
  their order and with their repetitions.
 */
module StopWords {
  import opened Lists

  /** `[word for word in tokens if word not in stop_words]` */
  function RemoveStopWords(tokens: seq<string>, stopWords: seq<string>): (r: seq<string>)
    ensures |r| <= |tokens|
    ensures forall k | 0 <= k < |r| :: r[k] in tokens && r[k] !in stopWords
  {
    if tokens == [] then []
    else (if tokens[0] in stopWords then [] else [tokens[0]]) + RemoveStopWords(tokens[1..], stopWords)
  }

  /** The result keeps the tokens' order: it is a subsequence of them. */
  lemma {:induction false} RemoveStopWordsInOrder(tokens: seq<string>, stopWords: seq<string>)
    ensures IsSubsequence(RemoveStopWords(tokens, stopWords), tokens)
  {
    if tokens != [] {
      var rest := RemoveStopWords(tokens[1..], stopWords);
      RemoveStopWordsInOrder(tokens[1..], stopWords);
      if tokens[0] in stopWords {
        assert RemoveStopWords(tokens, stopWords) == rest;
      } else {
        var r := RemoveStopWords(tokens, stopWords);
        assert r == [tokens[0]] + rest;
        assert r[1..] == rest;
      }
    }
  }

  /** Every stop word is dropped and every other token is kept as often as
      it occurs. */
  lemma {:induction false} RemoveStopWordsCounts(tokens: seq<string>, stopWords: seq<string>)
    ensures forall w :: multiset(RemoveStopWords(tokens, stopWords))[w] ==
                          (if w in stopWords then 0 else multiset(tokens)[w])
  {
    if tokens != [] {
      var rest := RemoveStopWords(tokens[1..], stopWords);
      RemoveStopWordsCounts(tokens[1..], stopWords);
      assert tokens == [tokens[0]] + tokens[1..];
      if tokens[0] in stopWords {
        assert RemoveStopWords(tokens, stopWords) == rest;
      } else {
        assert RemoveStopWords(tokens, stopWords) == [tokens[0]] + rest;
      }
    }
  }

  /** An empty stop list changes nothing. */
  lemma {:induction false} NoStopWords(tokens: seq<string>)
    ensures RemoveStopWords(tokens, []) == tokens
  {
    if tokens != [] {
      NoStopWords(tokens[1..]);
      assert tokens == [tokens[0]] + tokens[1..];
    }
  }

  /** Filtering twice with the same list is filtering once. */
  lemma {:induction false} RemoveStopWordsIdempotent(tokens: seq<string>, stopWords: seq<string>)
    ensures RemoveStopWords(RemoveStopWords(tokens, stopWords), stopWords) == RemoveStopWords(tokens, stopWords)
  {
    if tokens != [] {
      RemoveStopWordsIdempotent(tokens[1..], stopWords);
      var rest := RemoveStopWords(tokens[1..], stopWords);
      if tokens[0] !in stopWords {
        var once := [tokens[0]] + rest;
        assert once[0] == tokens[0] && once[1..] == rest;
        assert RemoveStopWords(once, stopWords) == [tokens[0]] + RemoveStopWords(rest, stopWords);
      } else {
        assert RemoveStopWords(tokens, stopWords) == rest;
      }
    }
  }

  /** The filter works token by token: it distributes over concatenation. */
  lemma {:induction false} RemoveStopWordsAppend(a: seq<string>, b: seq<string>, stopWords: seq<string>)
    ensures RemoveStopWords(a + b, stopWords) == RemoveStopWords(a, stopWords) + RemoveStopWords(b, stopWords)
  {
    if a != [] {
      RemoveStopWordsAppend(a[1..], b, stopWords);
      assert (a + b)[1..] == a[1..] + b;
      assert (a + b)[0] == a[0];
    } else {
      assert a + b == b;
    }
  }
}
