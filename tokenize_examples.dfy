/**
  The docstring example of `tokenize` (main.py), proved about the model.
 */
module TokenizeExamples {
  import opened Tokenizer

  const Sentence: string := "The weather is sunny, the man is happy."
  /** The sentence around the space that follows the comma. */
  const Front: string := "The weather is sunny,"
  const Back: string := "the man is happy."
  /** The sentence cut at its spaces. */
  const FrontPieces: seq<string> := ["The", "weather", "is", "sunny,"]
  const BackPieces: seq<string> := ["the", "man", "is", "happy."]
  const Pieces: seq<string> := FrontPieces + BackPieces
  const SentenceTokens: seq<string> := ["the", "weather", "is", "sunny", "the", "man", "is", "happy"]

  /** A lower-case word, possibly followed by one punctuation mark, is one
      token: the word. */
  lemma LowerWordThen(w: string, rest: string)
    requires w != [] && forall c | c in w :: 'a' <= c <= 'z'
    requires rest == [] || (|rest| == 1 && !IsAlnum(rest[0]) && !IsSpace(rest[0]))
    ensures Tokenize(w + rest) == [w]
  {
    TokenizeWord(w);
    LowerTextNoCapitals(w);
    if rest != [] {
      TokenizeDropsPunctuation(w, rest[0], []);
      assert w + rest == w + [rest[0]] + [];
    }
    assert w + [] == w;
  }

  lemma PieceTokens(k: nat, w: string, rest: string)
    requires k < |Pieces| && Pieces[k] == w + rest && SentenceTokens[k] == w
    requires w != [] && forall c | c in w :: 'a' <= c <= 'z'
    requires rest == [] || (|rest| == 1 && !IsAlnum(rest[0]) && !IsSpace(rest[0]))
    ensures Tokenize(Pieces[k]) == [SentenceTokens[k]]
  {
    LowerWordThen(w, rest);
  }

  /** One lemma per piece keeps each proof about literals small: a single
      quantified lemma over all eight pieces makes the solver unfold every
      literal at once and is too costly. */
  lemma Piece0Tokens()
    ensures Tokenize(Pieces[0]) == [SentenceTokens[0]]
  {
    TokenizeWord("The");
    assert LowerText("The") == "the";
  }

  lemma Piece1Tokens()
    ensures Tokenize(Pieces[1]) == [SentenceTokens[1]]
  {
    PieceTokens(1, "weather", []);
  }

  lemma Piece2Tokens()
    ensures Tokenize(Pieces[2]) == [SentenceTokens[2]]
  {
    PieceTokens(2, "is", []);
  }

  lemma Piece3Tokens()
    ensures Tokenize(Pieces[3]) == [SentenceTokens[3]]
  {
    PieceTokens(3, "sunny", ",");
  }

  lemma Piece4Tokens()
    ensures Tokenize(Pieces[4]) == [SentenceTokens[4]]
  {
    PieceTokens(4, "the", []);
  }

  lemma Piece5Tokens()
    ensures Tokenize(Pieces[5]) == [SentenceTokens[5]]
  {
    PieceTokens(5, "man", []);
  }

  lemma Piece6Tokens()
    ensures Tokenize(Pieces[6]) == [SentenceTokens[6]]
  {
    PieceTokens(6, "is", []);
  }

  lemma Piece7Tokens()
    ensures Tokenize(Pieces[7]) == [SentenceTokens[7]]
  {
    PieceTokens(7, "happy", ".");
  }

  lemma AllPiecesTokens()
    ensures forall i | 0 <= i < |Pieces| :: Tokenize(Pieces[i]) == [SentenceTokens[i]]
  {
    forall i | 0 <= i < |Pieces| ensures Tokenize(Pieces[i]) == [SentenceTokens[i]] {
      if i == 0 { Piece0Tokens(); }
      else if i == 1 { Piece1Tokens(); }
      else if i == 2 { Piece2Tokens(); }
      else if i == 3 { Piece3Tokens(); }
      else if i == 4 { Piece4Tokens(); }
      else if i == 5 { Piece5Tokens(); }
      else if i == 6 { Piece6Tokens(); }
      else { Piece7Tokens(); }
    }
  }

  lemma SentenceHalves()
    ensures Sentence == Front + " " + Back
  {
  }

  lemma FrontJoin()
    ensures Join(FrontPieces) == Front
  {
  }

  lemma BackJoin()
    ensures Join(BackPieces) == Back
  {
  }

  lemma SentencePieces()
    ensures Join(Pieces) == Sentence
  {
    JoinAppend(FrontPieces, BackPieces);
    SentenceHalves();
    FrontJoin();
    BackJoin();
  }

  lemma {:induction false} TokenizeEachSingles(pieces: seq<string>, words: seq<string>)
    requires |pieces| == |words|
    requires forall i | 0 <= i < |pieces| :: Tokenize(pieces[i]) == [words[i]]
    ensures TokenizeEach(pieces) == words
  {
    if pieces != [] {
      TokenizeEachSingles(pieces[1..], words[1..]);
      assert words == [words[0]] + words[1..];
    }
  }

  /** tokenize('The weather is sunny, the man is happy.') */
  lemma TokenizeExample()
    ensures Tokenize(Sentence) == SentenceTokens
  {
    SentencePieces();
    TokenizeJoin(Pieces);
    AllPiecesTokens();
    TokenizeEachSingles(Pieces, SentenceTokens);
  }
}
