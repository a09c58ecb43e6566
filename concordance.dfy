/**
  `get_concordance`, `get_adjacent_words` and `sort_concordance` (main.py).

  Windows are Python slices of the token list, built with `PySlice`, so a
  start index that falls before the beginning of the list wraps around to its
  end (and only a start below -len is clamped to 0): an occurrence too close
  to the beginning gets an empty or tail window, not a shortened one.

  The two exceptions these functions can raise are results here: indexing an
  empty window (`IndexError`) and `list.index` not finding the word in the
  first window (`ValueError`).
 */
module Concordance {
  import opened Lists
  import opened Ordering
  import opened StableSorting

  datatype Error = IndexError | ValueError
  datatype Result<T> = Ok(value: T) | Err(error: Error)

  type Window = seq<string>

  /** The window around the occurrence at index i, by the same three
      branches as `get_concordance` (the caller has ruled out the fourth). */
  function ContextSlice<T>(tokens: seq<T>, i: int, lcs: int, rcs: int): (r: seq<T>)
    ensures |r| <= |tokens|
  {
    if lcs > 0 && rcs > 0 then PySlice(tokens, i - lcs, i + rcs + 1)
    else if rcs > 0 then PySlice(tokens, i, i + rcs + 1)
    else PySlice(tokens, i - lcs, i + 1)
  }

  /** The comprehension over the word's indices: one window per index, in
      order. */
  function Windows<T>(tokens: seq<T>, idx: seq<nat>, lcs: int, rcs: int): (r: seq<seq<T>>)
    ensures |r| == |idx|
  {
    if idx == [] then [] else [ContextSlice(tokens, idx[0], lcs, rcs)] + Windows(tokens, idx[1..], lcs, rcs)
  }

  /** Window k is the slice around index k. */
  lemma {:induction false} WindowsAt<T>(tokens: seq<T>, idx: seq<nat>, lcs: int, rcs: int, k: nat)
    ensures k < |idx| ==> Windows(tokens, idx, lcs, rcs)[k] == ContextSlice(tokens, idx[k], lcs, rcs)
  {
    if idx != [] {
      WindowsAt(tokens, idx[1..], lcs, rcs, if k > 0 then k - 1 else 0);
    }
  }

  /** `get_concordance(tokens, word, left_context_size, right_context_size)` */
  function GetConcordance<T(==)>(tokens: seq<T>, word: T, lcs: int, rcs: int): (r: seq<seq<T>>)
    ensures lcs <= 0 && rcs <= 0 ==> r == []
    ensures lcs > 0 || rcs > 0 ==> |r| == |Occurrences(tokens, word)|
  {
    if lcs > 0 || rcs > 0 then Windows(tokens, Occurrences(tokens, word), lcs, rcs) else []
  }

  /** One window per occurrence of the word, none at all when neither side
      asks for context, and none when the word does not occur. */
  lemma ConcordanceCount<T>(tokens: seq<T>, word: T, lcs: int, rcs: int)
    ensures |GetConcordance(tokens, word, lcs, rcs)| ==
            (if lcs > 0 || rcs > 0 then multiset(tokens)[word] else 0)
    ensures word !in tokens ==> GetConcordance(tokens, word, lcs, rcs) == []
    ensures lcs <= 0 && rcs <= 0 ==> GetConcordance(tokens, word, lcs, rcs) == []
  {
    OccurrencesCount(tokens, word);
  }

  /** The occurrence a window belongs to: the k-th window of
      `get_concordance` is built around the k-th index of the word. */
  predicate IsOccurrence<T(==)>(tokens: seq<T>, word: T, k: nat, i: nat) {
    k < |Occurrences(tokens, word)| && Occurrences(tokens, word)[k] == i
  }

  lemma WindowOfOccurrence<T>(tokens: seq<T>, word: T, lcs: int, rcs: int, k: nat, i: nat)
    requires lcs > 0 || rcs > 0
    requires IsOccurrence(tokens, word, k, i)
    ensures i < |tokens| && tokens[i] == word
    ensures k < |GetConcordance(tokens, word, lcs, rcs)|
    ensures GetConcordance(tokens, word, lcs, rcs)[k] == ContextSlice(tokens, i, lcs, rcs)
  {
    WindowsAt(tokens, Occurrences(tokens, word), lcs, rcs, k);
  }

  lemma SliceAround<T>(tokens: seq<T>, i: nat, lcs: int, rcs: int)
    requires 0 < lcs <= i < |tokens| && rcs > 0
    ensures ContextSlice(tokens, i, lcs, rcs) == tokens[i - lcs .. Min(i + rcs + 1, |tokens|)]
    ensures ContextSlice(tokens, i, lcs, rcs)[lcs] == tokens[i]
    ensures i + rcs < |tokens| ==> |ContextSlice(tokens, i, lcs, rcs)| == lcs + 1 + rcs
  {
    PySliceInRange(tokens, i - lcs, i + rcs + 1);
  }

  lemma SliceAfter<T>(tokens: seq<T>, i: nat, lcs: int, rcs: int)
    requires lcs <= 0 < rcs && i < |tokens|
    ensures ContextSlice(tokens, i, lcs, rcs) == tokens[i .. Min(i + rcs + 1, |tokens|)]
    ensures |ContextSlice(tokens, i, lcs, rcs)| == Min(rcs + 1, |tokens| - i)
    ensures ContextSlice(tokens, i, lcs, rcs)[0] == tokens[i]
  {
    PySliceInRange(tokens, i, i + rcs + 1);
  }

  lemma SliceBefore<T>(tokens: seq<T>, i: nat, lcs: int, rcs: int)
    requires rcs <= 0 < lcs <= i < |tokens|
    ensures ContextSlice(tokens, i, lcs, rcs) == tokens[i - lcs .. i + 1]
    ensures |ContextSlice(tokens, i, lcs, rcs)| == lcs + 1
    ensures ContextSlice(tokens, i, lcs, rcs)[lcs] == tokens[i]
  {
    PySliceInRange(tokens, i - lcs, i + 1);
  }

  /** Both sides asked for, and the left context fits: the k-th window is the
      k-th occurrence with lcs tokens before it and up to rcs after it; when
      the right context fits too it has exactly lcs + 1 + rcs tokens. */
  lemma ConcordanceBothSides<T>(tokens: seq<T>, word: T, lcs: int, rcs: int, k: nat, i: nat)
    requires lcs > 0 && rcs > 0
    requires IsOccurrence(tokens, word, k, i) && lcs <= i
    ensures i < |tokens| && k < |GetConcordance(tokens, word, lcs, rcs)|
    ensures GetConcordance(tokens, word, lcs, rcs)[k] == tokens[i - lcs .. Min(i + rcs + 1, |tokens|)]
    ensures GetConcordance(tokens, word, lcs, rcs)[k][lcs] == word
    ensures i + rcs < |tokens| ==> |GetConcordance(tokens, word, lcs, rcs)[k]| == lcs + 1 + rcs
  {
    WindowOfOccurrence(tokens, word, lcs, rcs, k, i);
    SliceAround(tokens, i, lcs, rcs);
  }

  /** Right context only: every window starts with the word and runs on for
      up to rcs tokens. */
  lemma ConcordanceRightOnly<T>(tokens: seq<T>, word: T, lcs: int, rcs: int, k: nat, i: nat)
    requires lcs <= 0 < rcs
    requires IsOccurrence(tokens, word, k, i)
    ensures i < |tokens| && k < |GetConcordance(tokens, word, lcs, rcs)|
    ensures GetConcordance(tokens, word, lcs, rcs)[k] == tokens[i .. Min(i + rcs + 1, |tokens|)]
    ensures |GetConcordance(tokens, word, lcs, rcs)[k]| == Min(rcs + 1, |tokens| - i)
    ensures GetConcordance(tokens, word, lcs, rcs)[k][0] == word
  {
    WindowOfOccurrence(tokens, word, lcs, rcs, k, i);
    SliceAfter(tokens, i, lcs, rcs);
  }

  lemma LastOfSlice<T>(w: seq<T>, tokens: seq<T>, lo: nat, end: nat)
    requires lo < end <= |tokens| && w == tokens[lo..end]
    ensures w != [] && w[|w| - 1] == tokens[end - 1]
  {
  }

  /** The ends of a right-only window: the word, and the token rcs places
      after it or the last token of the list. */
  lemma RightOnlyEnds<T>(tokens: seq<T>, word: T, lcs: int, rcs: int, k: nat, i: nat)
    requires lcs <= 0 < rcs
    requires IsOccurrence(tokens, word, k, i)
    ensures i < |tokens| && k < |GetConcordance(tokens, word, lcs, rcs)|
    ensures var w := GetConcordance(tokens, word, lcs, rcs)[k];
            w != [] && w[0] == word && w[|w| - 1] == tokens[Min(i + rcs, |tokens| - 1)]
  {
    ConcordanceRightOnly(tokens, word, lcs, rcs, k, i);
    var end := Min(i + rcs + 1, |tokens|);
    LastOfSlice(GetConcordance(tokens, word, lcs, rcs)[k], tokens, i, end);
  }

  /** Left context only, and it fits: the window is the lcs tokens before
      the occurrence followed by the word. */
  lemma ConcordanceLeftOnly<T>(tokens: seq<T>, word: T, lcs: int, rcs: int, k: nat, i: nat)
    requires rcs <= 0 < lcs
    requires IsOccurrence(tokens, word, k, i) && lcs <= i
    ensures i < |tokens| && k < |GetConcordance(tokens, word, lcs, rcs)|
    ensures GetConcordance(tokens, word, lcs, rcs)[k] == tokens[i - lcs .. i + 1]
    ensures |GetConcordance(tokens, word, lcs, rcs)[k]| == lcs + 1
    ensures GetConcordance(tokens, word, lcs, rcs)[k][lcs] == word
  {
    WindowOfOccurrence(tokens, word, lcs, rcs, k, i);
    SliceBefore(tokens, i, lcs, rcs);
  }

  /** The end (exclusive) Python clamps the slice to. */
  function WindowEnd(i: int, rcs: int, n: nat): int {
    Min(if rcs > 0 then i + rcs + 1 else i + 1, n)
  }

  /** A left context that reaches before the first token, but by no more
      than the length of the list: the start wraps around to index
      i - lcs + |tokens|, so the window is a stretch near the end of the list
      that ends at the usual end, or empty when that start is not before it. */
  lemma ConcordanceWrapped<T>(tokens: seq<T>, word: T, lcs: int, rcs: int, k: nat, i: nat)
    requires lcs > 0
    requires IsOccurrence(tokens, word, k, i) && i < lcs <= i + |tokens|
    ensures k < |GetConcordance(tokens, word, lcs, rcs)|
    ensures var start, end := i - lcs + |tokens|, WindowEnd(i, rcs, |tokens|);
            GetConcordance(tokens, word, lcs, rcs)[k] == if start < end then tokens[start..end] else []
  {
    WindowOfOccurrence(tokens, word, lcs, rcs, k, i);
    var end := if rcs > 0 then i + rcs + 1 else i + 1;
    PySliceWrapsStart(tokens, i - lcs, end);
  }

  /** In particular, when the whole window would fit in the list, an
      occurrence closer to the start than lcs gets an empty window. */
  lemma ConcordanceWrapEmpty<T>(tokens: seq<T>, word: T, lcs: int, rcs: int, k: nat, i: nat)
    requires lcs > 0
    requires IsOccurrence(tokens, word, k, i) && i < lcs
    requires lcs + Max(rcs, 0) < |tokens|
    ensures k < |GetConcordance(tokens, word, lcs, rcs)|
    ensures GetConcordance(tokens, word, lcs, rcs)[k] == []
  {
    ConcordanceWrapped(tokens, word, lcs, rcs, k, i);
  }

  /** A left context longer than the occurrence's index plus the list's
      length: the start is clamped to 0 and the window is a prefix. */
  lemma ConcordanceClamped<T>(tokens: seq<T>, word: T, lcs: int, rcs: int, k: nat, i: nat)
    requires lcs > 0
    requires IsOccurrence(tokens, word, k, i) && i + |tokens| < lcs
    ensures k < |GetConcordance(tokens, word, lcs, rcs)|
    ensures GetConcordance(tokens, word, lcs, rcs)[k] == tokens[..WindowEnd(i, rcs, |tokens|)]
  {
    WindowOfOccurrence(tokens, word, lcs, rcs, k, i);
    var end := if rcs > 0 then i + rcs + 1 else i + 1;
    PySliceClampsStart(tokens, i - lcs, end);
  }

  predicate HasEmptyWindow<T>(conc: seq<seq<T>>) {
    exists k | 0 <= k < |conc| :: conc[k] == []
  }

  /** Right-only windows always hold at least the word. */
  lemma RightOnlyNonEmpty<T>(tokens: seq<T>, word: T, lcs: int, rcs: int)
    requires lcs <= 0 < rcs
    ensures !HasEmptyWindow(GetConcordance(tokens, word, lcs, rcs))
  {
    var conc := GetConcordance(tokens, word, lcs, rcs);
    forall m | 0 <= m < |conc| ensures conc[m] != [] {
      ConcordanceRightOnly(tokens, word, lcs, rcs, m, Occurrences(tokens, word)[m]);
    }
  }

  /** The entry for one window: its last word when left_n is 0, its first
      when right_n is 0, otherwise both. */
  function AdjacentOf<T>(w: seq<T>, leftN: int, rightN: int): seq<T>
    requires w != []
  {
    if leftN == 0 then [w[|w| - 1]]
    else if rightN == 0 then [w[0]]
    else [w[0], w[|w| - 1]]
  }

  /** The list comprehension over the windows, in order: the first empty
      window raises IndexError. */
  function AdjacentWords<T>(conc: seq<seq<T>>, leftN: int, rightN: int): (r: Result<seq<seq<T>>>)
    ensures r.Err? ==> r.error == IndexError
    ensures r.Ok? ==> |r.value| == |conc|
  {
    if conc == [] then Ok([])
    else if conc[0] == [] then Err(IndexError)
    else
      var rest := AdjacentWords(conc[1..], leftN, rightN);
      if rest.Err? then rest else Ok([AdjacentOf(conc[0], leftN, rightN)] + rest.value)
  }

  /** `get_adjacent_words(tokens, word, left_n, right_n)` */
  function GetAdjacentWords<T(==)>(tokens: seq<T>, word: T, leftN: int, rightN: int): (r: Result<seq<seq<T>>>)
    ensures r.Err? ==> r.error == IndexError
    ensures r.Ok? ==> |r.value| == |GetConcordance(tokens, word, leftN, rightN)|
  {
    AdjacentWords(GetConcordance(tokens, word, leftN, rightN), leftN, rightN)
  }

  /** It fails, with IndexError, exactly when some window is empty, and
      otherwise gives one entry per window. */
  lemma {:induction false} AdjacentWordsShape<T>(conc: seq<seq<T>>, leftN: int, rightN: int)
    ensures var r := AdjacentWords(conc, leftN, rightN);
            && (r.Err? <==> HasEmptyWindow(conc))
            && (r.Err? ==> r.error == IndexError)
            && (r.Ok? ==> |r.value| == |conc|)
  {
    if conc != [] {
      AdjacentWordsShape(conc[1..], leftN, rightN);
      if conc[0] != [] && HasEmptyWindow(conc[1..]) {
        var m :| 0 <= m < |conc[1..]| && conc[1..][m] == [];
        assert conc[m + 1] == [];
      }
      if HasEmptyWindow(conc) && conc[0] != [] {
        var m :| 0 <= m < |conc| && conc[m] == [];
        assert conc[1..][m - 1] == [];
      }
    }
  }

  /** Entry k is read off window k. */
  lemma {:induction false} AdjacentWordsAt<T>(conc: seq<seq<T>>, leftN: int, rightN: int, k: nat)
    requires k < |conc|
    ensures var r := AdjacentWords(conc, leftN, rightN);
            r.Ok? ==> conc[k] != [] && k < |r.value| && r.value[k] == AdjacentOf(conc[k], leftN, rightN)
  {
    if k > 0 {
      AdjacentWordsAt(conc[1..], leftN, rightN, k - 1);
    }
  }

  /** For the word's windows: IndexError exactly when one of them is empty,
      otherwise one entry per window, of one word when either side is 0 and
      of two otherwise. */
  lemma AdjacentShape<T>(tokens: seq<T>, word: T, leftN: int, rightN: int)
    ensures var conc := GetConcordance(tokens, word, leftN, rightN);
            var r := GetAdjacentWords(tokens, word, leftN, rightN);
            && (r.Err? <==> exists k | 0 <= k < |conc| :: conc[k] == [])
            && (r.Err? ==> r.error == IndexError)
            && (r.Ok? ==> |r.value| == |conc|)
            && (r.Ok? ==> forall k | 0 <= k < |conc| ::
                  |r.value[k]| == (if leftN == 0 || rightN == 0 then 1 else 2))
  {
    var conc := GetConcordance(tokens, word, leftN, rightN);
    AdjacentWordsShape(conc, leftN, rightN);
    forall k | 0 <= k < |conc| {
      AdjacentWordsAt(conc, leftN, rightN, k);
    }
  }

  /** With left_n == 0 there is nothing to fail on: each entry is the token
      right_n places after the word, or the last token of the list. */
  lemma AdjacentRight<T>(tokens: seq<T>, word: T, leftN: int, rightN: int, k: nat, i: nat)
    requires leftN == 0 < rightN
    requires IsOccurrence(tokens, word, k, i)
    ensures i < |tokens|
    ensures GetAdjacentWords(tokens, word, leftN, rightN).Ok?
    ensures k < |GetAdjacentWords(tokens, word, leftN, rightN).value|
    ensures GetAdjacentWords(tokens, word, leftN, rightN).value[k] == [tokens[Min(i + rightN, |tokens| - 1)]]
  {
    RightOnlyNonEmpty(tokens, word, leftN, rightN);
    RightOnlyEnds(tokens, word, leftN, rightN, k, i);
    AdjacentWordsShape(GetConcordance(tokens, word, leftN, rightN), leftN, rightN);
    AdjacentWordsAt(GetConcordance(tokens, word, leftN, rightN), leftN, rightN, k);
  }

  /** With right_n == 0 and a left context that fits, the entry is the token
      left_n places before the word. */
  lemma AdjacentLeft<T>(tokens: seq<T>, word: T, leftN: int, rightN: int, k: nat, i: nat)
    requires rightN == 0 < leftN
    requires IsOccurrence(tokens, word, k, i) && leftN <= i
    ensures var r := GetAdjacentWords(tokens, word, leftN, rightN);
            r.Ok? ==> k < |r.value| && r.value[k] == [tokens[i - leftN]]
  {
    ConcordanceLeftOnly(tokens, word, leftN, rightN, k, i);
    AdjacentWordsAt(GetConcordance(tokens, word, leftN, rightN), leftN, rightN, k);
  }

  /** When the right context fits as well, the window runs from the token
      lcs places before the word to the one rcs places after it. */
  lemma BothSidesFit<T>(tokens: seq<T>, word: T, lcs: int, rcs: int, k: nat, i: nat)
    requires lcs > 0 && rcs > 0
    requires IsOccurrence(tokens, word, k, i) && lcs <= i && i + rcs < |tokens|
    ensures k < |GetConcordance(tokens, word, lcs, rcs)|
    ensures var w := GetConcordance(tokens, word, lcs, rcs)[k];
            |w| == lcs + 1 + rcs && w[0] == tokens[i - lcs] && w[lcs + rcs] == tokens[i + rcs]
  {
    ConcordanceBothSides(tokens, word, lcs, rcs, k, i);
  }

  /** With both sides non-zero, each entry is the first and last word of its
      window. */
  lemma AdjacentBothEnds<T>(tokens: seq<T>, word: T, leftN: int, rightN: int, k: nat)
    requires leftN != 0 && rightN != 0
    requires k < |GetConcordance(tokens, word, leftN, rightN)|
    ensures var w := GetConcordance(tokens, word, leftN, rightN)[k];
            var r := GetAdjacentWords(tokens, word, leftN, rightN);
            r.Ok? ==> w != [] && k < |r.value| && r.value[k] == [w[0], w[|w| - 1]]
  {
    AdjacentWordsAt(GetConcordance(tokens, word, leftN, rightN), leftN, rightN, k);
  }

  /** An entry made of the ends of a window holds the window's first and
      last tokens. It takes the entry list and the window's last index as
      parameters only so that `AdjacentPair` can hand over those two facts
      alone: proved inline, the step costs the solver far more. */
  lemma EndsOfWindow<T>(conc: seq<seq<T>>, r: Result<seq<seq<T>>>, k: nat, n: nat, first: T, last: T)
    requires k < |conc| && |conc[k]| == n + 1 && conc[k][0] == first && conc[k][n] == last
    requires r.Ok? ==> conc[k] != [] && k < |r.value| && r.value[k] == [conc[k][0], conc[k][|conc[k]| - 1]]
    ensures r.Ok? ==> k < |r.value| && r.value[k] == [first, last]
  {
  }

  /** Both sides asked for and both fit: the pair is the token left_n places
      before the word and the one right_n places after it. */
  lemma AdjacentPair<T>(tokens: seq<T>, word: T, leftN: int, rightN: int, k: nat, i: nat)
    requires leftN > 0 && rightN > 0
    requires IsOccurrence(tokens, word, k, i) && leftN <= i && i + rightN < |tokens|
    ensures var r := GetAdjacentWords(tokens, word, leftN, rightN);
            r.Ok? ==> k < |r.value| && r.value[k] == [tokens[i - leftN], tokens[i + rightN]]
  {
    BothSidesFit(tokens, word, leftN, rightN, k, i);
    AdjacentBothEnds(tokens, word, leftN, rightN, k);
    EndsOfWindow(GetConcordance(tokens, word, leftN, rightN), GetAdjacentWords(tokens, word, leftN, rightN),
                 k, leftN + rightN, tokens[i - leftN], tokens[i + rightN]);
  }

  /** A negative left_n is truthy, so the pair branch is taken over
      right-only windows: the first element is the word itself. */
  lemma AdjacentNegativeLeft<T>(tokens: seq<T>, word: T, leftN: int, rightN: int, k: nat, i: nat)
    requires leftN < 0 < rightN
    requires IsOccurrence(tokens, word, k, i)
    ensures i < |tokens|
    ensures GetAdjacentWords(tokens, word, leftN, rightN).Ok?
    ensures k < |GetAdjacentWords(tokens, word, leftN, rightN).value|
    ensures GetAdjacentWords(tokens, word, leftN, rightN).value[k] == [word, tokens[Min(i + rightN, |tokens| - 1)]]
  {
    RightOnlyNonEmpty(tokens, word, leftN, rightN);
    RightOnlyEnds(tokens, word, leftN, rightN, k, i);
    AdjacentWordsShape(GetConcordance(tokens, word, leftN, rightN), leftN, rightN);
    AdjacentWordsAt(GetConcordance(tokens, word, leftN, rightN), leftN, rightN, k);
  }

  /** `x[k:]` */
  function SuffixFrom(x: Window, k: int): Window {
    PySlice(x, k, |x|)
  }

  /** `key=lambda x: x[offset:]` compared with `<` on lists of strings. */
  function BySuffix(offset: int): (Window, Window) -> bool {
    ByKey((x: Window) => SuffixFrom(x, offset), WindowLt)
  }

  lemma WindowLtIsWeak()
    ensures StrictWeakOrder(WindowLt)
  {
    WindowLtIsTotal();
    TotalIsWeak(WindowLt);
  }

  lemma BySuffixIsWeak(offset: int)
    ensures StrictWeakOrder(BySuffix(offset))
  {
    WindowLtIsWeak();
    ByKeyIsWeak((x: Window) => SuffixFrom(x, offset), WindowLt);
  }

  /** `sort_concordance(tokens, word, left_context_size, right_context_size, left_sort)` */
  function SortConcordance(tokens: seq<string>, word: string, lcs: int, rcs: int, leftSort: bool): (r: Result<seq<Window>>)
    ensures r.Err? ==> r.error == ValueError && !leftSort && rcs > 0
    ensures r.Ok? ==> r.value == [] || multiset(r.value) == multiset(GetConcordance(tokens, word, lcs, rcs))
  {
    var conc := GetConcordance(tokens, word, lcs, rcs);
    if leftSort && lcs > 0 then
      WindowLtIsWeak();
      Ok(StableSort(conc, WindowLt))
    else if !leftSort && rcs > 0 then
      if conc == [] then Ok([])
      else if word !in conc[0] then Err(ValueError)
      else
        var offset := IndexOf(conc[0], word) + 1;
        BySuffixIsWeak(offset);
        Ok(StableSort(conc, BySuffix(offset)))
    else
      Ok([])
  }

  /** Sorting by the left: the windows rearranged into ascending
      lexicographic order. */
  lemma SortByLeft(tokens: seq<string>, word: string, lcs: int, rcs: int)
    requires lcs > 0
    ensures var conc := GetConcordance(tokens, word, lcs, rcs);
            var r := SortConcordance(tokens, word, lcs, rcs, true);
            && r.Ok?
            && multiset(r.value) == multiset(conc)
            && forall i, j | 0 <= i < j < |r.value| :: !WindowLt(r.value[j], r.value[i])
  {
  }

  /** Sorting by the right: when the first window holds the word, the windows
      are stably sorted by what follows the word's first position in that
      first window; the same offset is used for every window. With no windows
      the key is never called, so the result is [] and not ValueError. */
  lemma SortByRight(tokens: seq<string>, word: string, lcs: int, rcs: int)
    requires rcs > 0
    ensures var conc := GetConcordance(tokens, word, lcs, rcs);
            var r := SortConcordance(tokens, word, lcs, rcs, false);
            && (r.Err? <==> conc != [] && word !in conc[0])
            && (r.Err? ==> r.error == ValueError)
            && (conc == [] ==> r == Ok([]))
            && (conc != [] && word in conc[0] ==>
                  r.Ok? && IsStableSortOf(r.value, conc, BySuffix(IndexOf(conc[0], word) + 1)))
  {
  }

  /** With right context only every window starts with the word, so the
      right sort never fails and orders by the tokens after the word. */
  lemma SortByRightOnly(tokens: seq<string>, word: string, lcs: int, rcs: int)
    requires lcs <= 0 < rcs
    ensures var conc := GetConcordance(tokens, word, lcs, rcs);
            var r := SortConcordance(tokens, word, lcs, rcs, false);
            r.Ok? && IsStableSortOf(r.value, conc, BySuffix(1))
  {
    var conc := GetConcordance(tokens, word, lcs, rcs);
    SortByRight(tokens, word, lcs, rcs);
    if conc != [] {
      ConcordanceRightOnly(tokens, word, lcs, rcs, 0, Occurrences(tokens, word)[0]);
      assert IndexOf(conc[0], word) == 0;
    } else {
      assert SortConcordance(tokens, word, lcs, rcs, false) == Ok([]);
    }
  }

  /** Sorting on a side with no context gives []. */
  lemma SortOtherwiseEmpty(tokens: seq<string>, word: string, lcs: int, rcs: int, leftSort: bool)
    requires !(leftSort && lcs > 0) && !(!leftSort && rcs > 0)
    ensures SortConcordance(tokens, word, lcs, rcs, leftSort) == Ok([])
  {
  }
}
