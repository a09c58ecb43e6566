/**
  `tokenize` (main.py): lower-case the text, keep only alphanumeric and
  whitespace characters, and split on runs of whitespace.

  Characters are classified as Python classifies ASCII: `str.isalnum` holds
  for 0-9, a-z and A-Z, `str.isspace` (also what `str.split()` splits on) for
  tab, line feed, vertical tab, form feed, carriage return, the four
  separators 0x1C-0x1F and the space; `str.lower` maps A-Z to a-z. Every
  other character counts as neither alphanumeric nor whitespace.
 */
module Tokenizer {

  predicate IsSpace(c: char) {
    var n := c as int;
    n == 32 || 9 <= n <= 13 || 28 <= n <= 31
  }

  predicate IsAlnum(c: char) {
    '0' <= c <= '9' || 'a' <= c <= 'z' || 'A' <= c <= 'Z'
  }

  function Lower(c: char): char {
    if 'A' <= c <= 'Z' then (c as int + 32) as char else c
  }

  /** A character a token may hold: alphanumeric and already lower case. */
  predicate IsTokenChar(c: char) {
    IsAlnum(c) && Lower(c) == c
  }

  /** What `str.split()` produces: non-empty and free of whitespace. */
  predicate IsWord(w: string) {
    w != [] && forall c | c in w :: !IsSpace(c)
  }

  /** `text.lower()` */
  function LowerText(text: string): string {
    seq(|text|, i requires 0 <= i < |text| => Lower(text[i]))
  }

  /** `''.join([c for c in s if c.isalnum() or c.isspace()])` */
  function KeepWordChars(s: string): string {
    if s == [] then []
    else (if IsAlnum(s[0]) || IsSpace(s[0]) then [s[0]] else []) + KeepWordChars(s[1..])
  }

  /** The characters of s that are not whitespace, in order. */
  function RemoveSpaces(s: string): string {
    if s == [] then []
    else (if IsSpace(s[0]) then [] else [s[0]]) + RemoveSpaces(s[1..])
  }

  /** The alphanumeric characters of s, in order. */
  function AlnumChars(s: string): string {
    if s == [] then []
    else (if IsAlnum(s[0]) then [s[0]] else []) + AlnumChars(s[1..])
  }

  /** The tokens glued together without separators. */
  function Concat(ws: seq<string>): string {
    if ws == [] then [] else ws[0] + Concat(ws[1..])
  }

  /** `' '.join(ws)` */
  function Join(ws: seq<string>): string {
    if ws == [] then []
    else if |ws| == 1 then ws[0]
    else ws[0] + " " + Join(ws[1..])
  }

  /** Joining two non-empty lists puts one space between their joins. */
  lemma {:induction false} JoinAppend(a: seq<string>, b: seq<string>)
    requires a != [] && b != []
    ensures Join(a + b) == Join(a) + " " + Join(b)
  {
    if |a| == 1 {
      assert (a + b)[1..] == b;
    } else {
      JoinAppend(a[1..], b);
      assert (a + b)[1..] == a[1..] + b;
    }
  }

  /** Length of the run of non-whitespace characters that starts s. */
  function WordEnd(s: string): (n: nat)
    ensures n <= |s|
    ensures forall k | 0 <= k < n :: !IsSpace(s[k])
    ensures n < |s| ==> IsSpace(s[n])
  {
    if s == [] || IsSpace(s[0]) then 0 else 1 + WordEnd(s[1..])
  }

  /** `s.split()`: the maximal runs of non-whitespace characters. */
  function Split(s: string): (r: seq<string>)
    ensures forall k | 0 <= k < |r| :: IsWord(r[k])
    ensures forall k, c | 0 <= k < |r| && c in r[k] :: c in s
    decreases |s|
  {
    if s == [] then []
    else if IsSpace(s[0]) then
      assert forall c | c in s[1..] :: c in s;
      Split(s[1..])
    else
      var n := WordEnd(s);
      assert forall c | c in s[..n] :: c in s;
      assert forall c | c in s[n..] :: c in s;
      [s[..n]] + Split(s[n..])
  }

  /** `tokenize(text)` */
  function Tokenize(text: string): (r: seq<string>)
    ensures forall k | 0 <= k < |r| :: IsWord(r[k])
  {
    Split(KeepWordChars(LowerText(text)))
  }

  lemma {:induction false} RemoveSpacesOfWord(s: string, n: nat)
    requires n <= |s| && forall k | 0 <= k < n :: !IsSpace(s[k])
    ensures RemoveSpaces(s) == s[..n] + RemoveSpaces(s[n..])
  {
    if n > 0 {
      RemoveSpacesOfWord(s[1..], n - 1);
      assert s[1..][..n - 1] == s[1..n];
      assert s[1..][n - 1..] == s[n..];
      assert s[..n] == [s[0]] + s[1..n];
    }
  }

  /** Splitting loses nothing but whitespace, and keeps the order. */
  lemma {:induction false} SplitConcat(s: string)
    ensures Concat(Split(s)) == RemoveSpaces(s)
    decreases |s|
  {
    if s != [] {
      if IsSpace(s[0]) {
        SplitConcat(s[1..]);
      } else {
        var n := WordEnd(s);
        SplitConcat(s[n..]);
        RemoveSpacesOfWord(s, n);
        assert ([s[..n]] + Split(s[n..]))[1..] == Split(s[n..]);
      }
    }
  }

  lemma {:induction false} WordEndOfJoin(w: string, t: string)
    requires IsWord(w) && (t == [] || IsSpace(t[0]))
    ensures WordEnd(w + t) == |w|
    decreases |w|
  {
    if |w| > 1 {
      assert IsWord(w[1..]) by {
        forall c | c in w[1..] ensures !IsSpace(c) { assert c in w; }
      }
      WordEndOfJoin(w[1..], t);
      assert (w + t)[1..] == w[1..] + t;
    } else {
      assert w[0] in w;
      assert (w + t)[1..] == t;
    }
  }

  /** A word followed by nothing or by whitespace is the first piece. */
  lemma SplitWordFirst(w: string, t: string)
    requires IsWord(w) && (t == [] || IsSpace(t[0]))
    ensures Split(w + t) == [w] + Split(t)
  {
    WordEndOfJoin(w, t);
    var s := w + t;
    assert s[0] == w[0] && w[0] in w;
    assert s[..|w|] == w;
    assert s[|w|..] == t;
  }

  /** Splitting undoes `' '.join` of whitespace-free, non-empty words. */
  lemma {:induction false} SplitJoin(ws: seq<string>)
    requires forall k | 0 <= k < |ws| :: IsWord(ws[k])
    ensures Split(Join(ws)) == ws
  {
    if ws != [] {
      var w := ws[0];
      if |ws| == 1 {
        SplitWordFirst(w, []);
        assert w + [] == w;
      } else {
        var rest := Join(ws[1..]);
        assert Join(ws) == w + (" " + rest);
        SplitWordFirst(w, " " + rest);
        assert Split(" " + rest) == Split(rest) by {
          assert (" " + rest)[1..] == rest;
        }
        SplitJoin(ws[1..]);
        assert ws == [w] + ws[1..];
      }
    }
  }

  lemma {:induction false} RemoveSpacesEmpty(s: string)
    ensures RemoveSpaces(s) == [] <==> forall c | c in s :: IsSpace(c)
  {
    if s != [] {
      RemoveSpacesEmpty(s[1..]);
      assert s == [s[0]] + s[1..];
    }
  }

  lemma {:induction false} ConcatEmpty(ws: seq<string>)
    requires forall k | 0 <= k < |ws| :: ws[k] != []
    ensures Concat(ws) == [] <==> ws == []
  {
    if ws != [] {
      assert ws[0] != [];
    }
  }

  /** `s.split()` is empty exactly when s is nothing but whitespace. */
  lemma SplitEmpty(s: string)
    ensures Split(s) == [] <==> forall c | c in s :: IsSpace(c)
  {
    SplitConcat(s);
    ConcatEmpty(Split(s));
    RemoveSpacesEmpty(s);
  }

  lemma {:induction false} KeptCharsNoSpaces(s: string)
    ensures RemoveSpaces(KeepWordChars(s)) == AlnumChars(s)
  {
    if s != [] {
      KeptCharsNoSpaces(s[1..]);
      var head := if IsAlnum(s[0]) || IsSpace(s[0]) then [s[0]] else [];
      assert KeepWordChars(s) == head + KeepWordChars(s[1..]);
      assert AlnumChars(s) == (if IsAlnum(s[0]) then [s[0]] else []) + AlnumChars(s[1..]);
      var kept := KeepWordChars(s);
      if IsAlnum(s[0]) {
        assert !IsSpace(s[0]);
        assert kept == [s[0]] + KeepWordChars(s[1..]);
        assert RemoveSpaces(kept) == [s[0]] + RemoveSpaces(KeepWordChars(s[1..]));
      } else if IsSpace(s[0]) {
        assert kept == [s[0]] + KeepWordChars(s[1..]);
        assert RemoveSpaces(kept) == RemoveSpaces(KeepWordChars(s[1..]));
      } else {
        assert kept == KeepWordChars(s[1..]);
      }
    }
  }

  lemma {:induction false} KeptChars(s: string, c: char)
    requires c in KeepWordChars(s)
    ensures c in s && (IsAlnum(c) || IsSpace(c))
  {
    if s != [] {
      var head := if IsAlnum(s[0]) || IsSpace(s[0]) then [s[0]] else [];
      if c !in head {
        KeptChars(s[1..], c);
      }
    }
  }

  /** Every token is a non-empty run of lower-case alphanumeric characters. */
  lemma TokenizeTokens(text: string)
    ensures forall k | 0 <= k < |Tokenize(text)| ::
      Tokenize(text)[k] != [] && forall c | c in Tokenize(text)[k] :: IsTokenChar(c) && !IsSpace(c)
  {
    var lowered := LowerText(text);
    var r := Tokenize(text);
    forall k, c | 0 <= k < |r| && c in r[k]
      ensures IsTokenChar(c) && !IsSpace(c)
    {
      assert c in KeepWordChars(lowered);
      KeptChars(lowered, c);
    }
  }

  /** The tokens hold the alphanumeric characters of the lowered text, in
      their original order. */
  lemma TokenizeKeepsOrder(text: string)
    ensures Concat(Tokenize(text)) == AlnumChars(LowerText(text))
  {
    SplitConcat(KeepWordChars(LowerText(text)));
    KeptCharsNoSpaces(LowerText(text));
  }

  lemma {:induction false} AlnumCharsEmpty(s: string)
    ensures AlnumChars(s) == [] <==> forall c | c in s :: !IsAlnum(c)
  {
    if s != [] {
      AlnumCharsEmpty(s[1..]);
      assert s == [s[0]] + s[1..];
    }
  }

  /** No tokens come out exactly when the text has no letter or digit: an
      empty, blank or all-punctuation text gives []. Letters and digits are
      the ASCII ones of IsAlnum; a non-ASCII letter counts as punctuation
      here, unlike in Python. */
  lemma TokenizeEmpty(text: string)
    ensures Tokenize(text) == [] <==> forall c | c in text :: !IsAlnum(c)
  {
    TokenizeKeepsOrder(text);
    TokenizeTokens(text);
    ConcatEmpty(Tokenize(text));
    AlnumCharsEmpty(LowerText(text));
    var lowered := LowerText(text);
    assert forall i | 0 <= i < |text| :: IsAlnum(lowered[i]) == IsAlnum(text[i]);
    forall c | c in text ensures exists i :: 0 <= i < |text| && text[i] == c {
    }
  }

  lemma {:induction false} JoinChars(ws: seq<string>)
    requires forall k | 0 <= k < |ws| :: forall c | c in ws[k] :: IsTokenChar(c)
    ensures forall c | c in Join(ws) :: IsTokenChar(c) || c == ' '
  {
    if |ws| > 1 {
      JoinChars(ws[1..]);
      assert Join(ws) == ws[0] + " " + Join(ws[1..]);
    } else if |ws| == 1 {
      assert Join(ws) == ws[0];
    }
  }

  lemma {:induction false} KeepWordCharsAll(s: string)
    requires forall c | c in s :: IsAlnum(c) || IsSpace(c)
    ensures KeepWordChars(s) == s
  {
    if s != [] {
      assert s[0] in s;
      assert forall c | c in s[1..] :: c in s;
      KeepWordCharsAll(s[1..]);
      assert s == [s[0]] + s[1..];
    }
  }

  /** Tokenizing the space-joined tokens gives the same tokens back. */
  lemma TokenizeIdempotent(text: string)
    ensures Tokenize(Join(Tokenize(text))) == Tokenize(text)
  {
    var ws := Tokenize(text);
    TokenizeTokens(text);
    JoinChars(ws);
    var s := Join(ws);
    forall i | 0 <= i < |s| ensures LowerText(s)[i] == s[i] {
      assert s[i] in s;
    }
    assert LowerText(s) == s;
    KeepWordCharsAll(s);
    SplitJoin(ws);
  }

  lemma LowerTextAppend(a: string, b: string)
    ensures LowerText(a + b) == LowerText(a) + LowerText(b)
  {
  }

  lemma {:induction false} KeepWordCharsAppend(a: string, b: string)
    ensures KeepWordChars(a + b) == KeepWordChars(a) + KeepWordChars(b)
  {
    if a != [] {
      KeepWordCharsAppend(a[1..], b);
      assert (a + b)[0] == a[0] && (a + b)[1..] == a[1..] + b;
    } else {
      assert a + b == b;
    }
  }

  /** A whitespace character ends the run of non-whitespace at the start. */
  lemma {:induction false} WordEndBeforeSpace(x: string, t: string)
    requires t != [] && IsSpace(t[0])
    ensures WordEnd(x + t) == WordEnd(x)
  {
    if x != [] && !IsSpace(x[0]) {
      WordEndBeforeSpace(x[1..], t);
      assert (x + t)[1..] == x[1..] + t;
    }
  }

  /** Splitting at a whitespace character splits the words. */
  lemma {:induction false} SplitAppendSpace(x: string, c: char, y: string)
    requires IsSpace(c)
    ensures Split(x + [c] + y) == Split(x) + Split(y)
    decreases |x|
  {
    var s := x + [c] + y;
    if x == [] {
      assert s[1..] == y;
    } else if IsSpace(x[0]) {
      assert s[1..] == x[1..] + [c] + y;
      SplitAppendSpace(x[1..], c, y);
    } else {
      var m := WordEnd(x);
      WordEndBeforeSpace(x, [c] + y);
      assert s == x + ([c] + y);
      assert s[..m] == x[..m];
      assert s[m..] == x[m..] + [c] + y;
      SplitAppendSpace(x[m..], c, y);
    }
  }

  /** Tokenizing two texts joined by whitespace gives the tokens of the
      first followed by the tokens of the second. */
  lemma TokenizeAppendSpace(a: string, c: char, b: string)
    requires IsSpace(c)
    ensures Tokenize(a + [c] + b) == Tokenize(a) + Tokenize(b)
  {
    LowerTextAppend(a + [c], b);
    LowerTextAppend(a, [c]);
    var la, lb := LowerText(a), LowerText(b);
    assert LowerText([c]) == [c];
    KeepWordCharsAppend(la + [c], lb);
    KeepWordCharsAppend(la, [c]);
    assert KeepWordChars([c]) == [c];
    SplitAppendSpace(KeepWordChars(la), c, KeepWordChars(lb));
  }

  /** Text without capital letters is its own lower-casing. */
  lemma LowerTextNoCapitals(w: string)
    requires forall c | c in w :: !('A' <= c <= 'Z')
    ensures LowerText(w) == w
  {
    forall i | 0 <= i < |w| ensures LowerText(w)[i] == w[i] {
      assert w[i] in w;
    }
  }

  /** A run of letters and digits is one token, lower-cased. */
  lemma TokenizeWord(w: string)
    requires w != [] && forall c | c in w :: IsAlnum(c)
    ensures Tokenize(w) == [LowerText(w)]
  {
    var lw := LowerText(w);
    forall c | c in lw ensures IsAlnum(c) && !IsSpace(c) {
      var i :| 0 <= i < |lw| && lw[i] == c;
      assert w[i] in w;
    }
    KeepWordCharsAll(lw);
    assert IsWord(lw);
    SplitJoin([lw]);
  }

  /** A character that is neither alphanumeric nor whitespace is deleted,
      not treated as a separator: the text around it runs together. This is
      a statement about ASCII punctuation; Python would keep a non-ASCII
      letter, which this character model does not classify as one. */
  lemma TokenizeDropsPunctuation(a: string, c: char, b: string)
    requires !IsAlnum(c) && !IsSpace(c)
    ensures Tokenize(a + [c] + b) == Tokenize(a + b)
  {
    var la, lb := LowerText(a), LowerText(b);
    assert LowerText(a + [c] + b) == la + [c] + lb by {
      LowerTextAppend(a + [c], b);
      LowerTextAppend(a, [c]);
      assert LowerText([c]) == [c];
    }
    assert LowerText(a + b) == la + lb by {
      LowerTextAppend(a, b);
    }
    assert KeepWordChars(la + [c] + lb) == KeepWordChars(la + lb) by {
      KeepWordCharsAppend(la + [c], lb);
      KeepWordCharsAppend(la, [c]);
      KeepWordCharsAppend(la, lb);
      assert [c][1..] == [];
      assert KeepWordChars([c]) == [];
      assert KeepWordChars(la) + [] == KeepWordChars(la);
    }
  }

  /** The tokens of each piece, one after the other. */
  function TokenizeEach(pieces: seq<string>): seq<string> {
    if pieces == [] then [] else Tokenize(pieces[0]) + TokenizeEach(pieces[1..])
  }

  lemma TokenizeNothing()
    ensures Tokenize([]) == []
  {
  }

  /** Tokenizing space-joined pieces tokenizes each piece on its own. */
  lemma {:induction false} TokenizeJoin(pieces: seq<string>)
    ensures Tokenize(Join(pieces)) == TokenizeEach(pieces)
  {
    if pieces == [] {
      TokenizeNothing();
    } else if |pieces| == 1 {
      assert TokenizeEach(pieces[1..]) == [];
      assert Tokenize(pieces[0]) + [] == Tokenize(pieces[0]);
    } else {
      TokenizeJoin(pieces[1..]);
      TokenizeAppendSpace(pieces[0], ' ', Join(pieces[1..]));
      assert Join(pieces) == pieces[0] + [' '] + Join(pieces[1..]);
    }
  }
}
