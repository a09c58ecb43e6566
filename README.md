# Concordance extraction, modelled in Dafny

This project models `main.py`, a small concordance tool. It has five steps:

- `tokenize` lower-cases a text, drops punctuation and splits it into words.
- `remove_stop_words` filters out the words of a stop list.
- `calculate_frequencies` and `get_top_n_words` count the words and rank them by count.
- `get_concordance` lists every occurrence of a word with a window of the tokens around it.
- `get_adjacent_words` and `sort_concordance` read the two ends of each window, or sort the windows by their left or right context.

Every one of these functions is pure Python, so the model is made of
datatypes, functions and lemmas.

The modules are:

| module | file | models |
|---|---|---|
| `Lists` | `lists.dfy` | Python list slicing, `enumerate` filtering and `list.index`. |
| `Ordering` | `ordering.dfy` | Python's `<` on strings and on lists of strings, and comparison by a key. |
| `StableSorting` | `sorting.dfy` | `sorted`. |
| `Tokenizer` | `tokenizer.dfy` | `tokenize`. |
| `StopWords` | `stopwords.dfy` | `remove_stop_words`. |
| `Frequencies` | `frequencies.dfy` | `calculate_frequencies` and `get_top_n_words`. |
| `Concordance` | `concordance.dfy` | `get_concordance`, `get_adjacent_words` and `sort_concordance`. |

The docstring examples of `main.py` are proved as lemmas in
`tokenize_examples.dfy`, `word_examples.dfy` and
`concordance_examples.dfy`.

How Python's behaviour is modelled:

- **Slices.** `tokens[a:b]` is `Lists.PySlice`. Each bound is normalised as Python does it: a negative bound has the length added once and is then clamped to `0`, and a bound past the end is clamped to the length. The slice is empty when the start is not below the end.
- **Sorting.** `sorted` is a stable sort that only asks `<`. It is `StableSorting.StableSort`, an insertion sort parameterised by a strict weak order. `StableSortUnique` proves that every sorted, stable rearrangement of the input equals it, so Timsort produces the same list.
- **Exceptions.** The two exceptions the core can raise are results, not preconditions:
  - `get_adjacent_words` indexes an empty window (`IndexError`);
  - the right-context sort key calls `list.index` on a first window that lacks the word (`ValueError`).
- **Dictionaries and sets.** A dict is the sequence of its items, in the dict's order. The order in which `set(tokens)` is iterated is a parameter `order`: any duplicate-free listing of the distinct tokens (`Frequencies.IsIterationOrder`). `Frequencies.FirstSeen` shows that such an order always exists.

A left context that reaches before the first token is not truncated. The
slice start `i - left_context_size` is then negative, and Python adds the
length once, clamping to 0 only if the start is still negative. The window is
therefore one of three things:

- a stretch near the end of the list, when the wrapped start is below the window's end (`Concordance.ConcordanceWrapped`);
- empty, when it is not, which is always the case when the whole window would fit in the list (`Concordance.ConcordanceWrapEmpty`);
- a prefix of the list, when the start is below minus the length (`Concordance.ConcordanceClamped`).

## Model

| member | source | states |
|---|---|---|
| Lists.PySlice | main.py:87 | A Python slice has max(0, normalised end − normalised start) elements. |
| Lists.PySliceInRange | main.py:87-93 | With a start inside the list and an end not before it, the slice is the plain sub-sequence, with the end clamped to the length. |
| Lists.PySliceWrapsStart | main.py:87 | A start in [-len, 0) wraps around to start + len instead of being clamped to 0. |
| Lists.PySliceClampsStart | main.py:87 | A start below -len is clamped to 0, giving a prefix. |
| Lists.Occurrences | main.py:84 | `[i for i, x in enumerate(tokens) if x == word]` lists valid indices holding the word, in strictly increasing order. |
| Lists.OccurrencesComplete | main.py:84 | Every index that holds the word is listed. |
| Lists.OccurrencesCount | main.py:84 | There are exactly as many indices as copies of the word. |
| Lists.IndexOf | main.py:170 | `list.index` returns a position holding the value with no earlier one. |
| Ordering.LexStrictTotal | main.py:168 | Python's lexicographic `<` on lists, over a strict total order on elements, is irreflexive, transitive and trichotomous. |
| Ordering.WindowLtIsTotal | main.py:168 | `<` on lists of strings, the order `sorted(conc)` uses, is a strict total order. |
| Ordering.ByKeyIsWeak | main.py:170 | Comparing by a key keeps a strict weak order, which is what `sorted(..., key=...)` needs. |
| StableSorting.StableSort | main.py:168 | `sorted` returns a permutation of its input that is sorted and keeps tied elements in their input order. |
| StableSorting.StableSortUnique | main.py:168 | Any sorted, stable permutation of the input is StableSort's result, so the sort algorithm does not matter. |
| StableSorting.StableSortOfSorted | main.py:57-58 | Sorting an already sorted list leaves it unchanged. |
| Tokenizer.Split | main.py:19 | `str.split()` yields non-empty pieces without whitespace, made of characters of the input. |
| Tokenizer.SplitConcat | main.py:19 | The pieces, glued together, are the input with all whitespace removed. |
| Tokenizer.SplitJoin | main.py:19 | `' '.join` of non-empty whitespace-free words is split back into the same words. |
| Tokenizer.SplitEmpty | main.py:19 | `str.split()` gives [] exactly when the input is all whitespace. |
| Tokenizer.Tokenize | main.py:18-19 | `tokenize` lower-cases the text, keeps letters, digits and whitespace, and splits. Every token is non-empty and free of whitespace. |
| Tokenizer.TokenizeTokens | main.py:18-19 | Every token is non-empty and consists of lower-case letters and digits. |
| Tokenizer.TokenizeKeepsOrder | main.py:18-19 | The tokens, glued together, are the alphanumeric characters of the lower-cased text, in order. |
| Tokenizer.TokenizeEmpty | main.py:18-19 | No tokens come out exactly when the text has no letter or digit. |
| Tokenizer.TokenizeIdempotent | main.py:18-19 | Tokenizing the space-joined tokens gives the same tokens. |
| Tokenizer.TokenizeAppendSpace | main.py:18-19 | Texts joined by whitespace tokenize to the concatenation of their tokens. |
| Tokenizer.TokenizeDropsPunctuation | main.py:18-19 | A punctuation character is deleted, not a separator: the text around it runs together. |
| Tokenizer.TokenizeWord | main.py:18-19 | A run of letters and digits is one token, lower-cased. |
| Tokenizer.TokenizeJoin | main.py:18-19 | Tokenizing space-joined pieces is tokenizing each piece and concatenating. |
| TokenizeExamples.TokenizeExample | main.py:15-16 | The docstring example: 'The weather is sunny, the man is happy.' gives the eight lower-case words. |
| StopWords.RemoveStopWords | main.py:32 | `remove_stop_words` keeps the tokens not in the stop list, in order. No result is longer than the tokens, and every word in it is a token and not a stop word. |
| StopWords.RemoveStopWordsInOrder | main.py:32 | The result is a subsequence of the tokens. |
| StopWords.RemoveStopWordsCounts | main.py:32 | A stop word occurs 0 times in the result; every other word occurs as often as in the tokens. |
| StopWords.NoStopWords | main.py:32 | An empty stop list changes nothing. |
| StopWords.RemoveStopWordsIdempotent | main.py:32 | Filtering twice is filtering once. |
| StopWords.RemoveStopWordsAppend | main.py:32 | Filtering distributes over concatenation of token lists. |
| WordExamples.RemoveStopWordsExample | main.py:28-30 | The docstring example: removing 'the' and 'is' leaves weather, sunny, man, happy. |
| Frequencies.CountAll | main.py:43 | `{i: tokens.count(i) for i in set(tokens)}` in the set's iteration order: its keys are that order, and each value is the key's number of occurrences. |
| Frequencies.CalculateFrequencies | main.py:43-44 | `calculate_frequencies` stably sorts the counted items by descending count. The result is a rearrangement of the counted items, with counts that never increase. |
| Frequencies.FirstSeen | main.py:43 | Some iteration order of `set(tokens)` always exists: the result is a duplicate-free listing of exactly the distinct tokens. |
| Frequencies.ByCountDescIsWeak | main.py:44 | `key=x[1], reverse=True` is a strict weak order, so the stable sort applies. |
| Frequencies.FrequenciesEntries | main.py:43-44 | The table has each distinct token exactly once with its count, and the counts never increase along it. |
| Frequencies.FrequenciesTotal | main.py:43-44 | The counts add up to the number of tokens. |
| Frequencies.FrequenciesOfUnique | main.py:43-44 | With no repeated token every count is 1 and the table keeps the set's iteration order. |
| Frequencies.FirstIsMostFrequent | main.py:43-44 | The first entry holds the largest count. |
| WordExamples.FrequenciesExample | main.py:40-41 | The docstring example: four distinct words each get count 1, in whatever order the set yields them. |
| Frequencies.Ranked | main.py:57-58 | The table's items sorted by descending value, as `sorted(freq_dict, key=freq_dict.get, reverse=True)` orders the keys. The result rearranges the items, with values that never increase. |
| Frequencies.GetTopNWords | main.py:57-58 | `get_top_n_words` takes `[:top_n]` of the ranked keys. The result is a prefix of the ranked keys and no longer than the table. |
| Frequencies.RankedKeys | main.py:57 | Ranking the keys by their value permutes them and keeps each key's value. |
| Frequencies.TopNLength | main.py:57-58 | `[:top_n]` gives min(top_n, len) words for top_n ≥ 0, none for 0, and max(0, len + top_n) words for negative top_n. |
| Frequencies.TopNRanking | main.py:57-58 | The words returned are distinct keys in non-increasing frequency, and no key left out is more frequent than one returned. |
| Frequencies.TopNOfFrequencies | main.py:43-58 | On a table built by calculate_frequencies the top words are its first keys. |
| Frequencies.TopOneIsMostFrequent | main.py:43-58 | A word strictly more frequent than all others is the single top word. |
| WordExamples.TopNExample | main.py:53-55 | The docstring example: the top word of weather, sunny, man, happy, and, dog, happy is happy. |
| Concordance.ContextSlice | main.py:86-93 | The slice taken around index i, by the branch the context sizes select. A window never holds more tokens than the list. |
| Concordance.Windows | main.py:87 | The comprehension over the indices: one window per index, in order (`WindowsAt` gives window k). |
| Concordance.GetConcordance | main.py:84-94 | `get_concordance`: no windows when neither context size is positive, and otherwise one window per index where the word occurs. |
| Concordance.ConcordanceCount | main.py:84-94 | One window per occurrence when either context size is positive, and none otherwise or when the word is absent. |
| Concordance.WindowOfOccurrence | main.py:84-93 | Window k is the slice around the k-th occurrence, by the branch the context sizes select. |
| Concordance.ConcordanceBothSides | main.py:86-87 | Both sizes positive and the left fits: the window is the lcs tokens before the word, the word, and up to rcs tokens after it. Exactly lcs + 1 + rcs tokens when the right fits too. |
| Concordance.ConcordanceRightOnly | main.py:89-90 | Right context only: the window starts with the word and has min(rcs + 1, tokens left) tokens. |
| Concordance.ConcordanceLeftOnly | main.py:92-93 | Left context only and it fits: lcs tokens then the word. |
| Concordance.ConcordanceWrapped | main.py:86-93 | A left context reaching before index 0 (by at most len) wraps: the window starts at i − lcs + len, or is empty. |
| Concordance.ConcordanceWrapEmpty | main.py:86-93 | When the whole window would fit in the list, an occurrence closer to the start than lcs gets an empty window. |
| Concordance.ConcordanceClamped | main.py:86-93 | A left context longer than i + len is clamped to 0: the window is a prefix of the list. |
| Concordance.RightOnlyNonEmpty | main.py:89-90 | Right-only windows are never empty. |
| Concordance.RightOnlyEnds | main.py:89-90 | A right-only window starts with the word and ends rcs tokens later or at the last token. |
| Concordance.BothSidesFit | main.py:86-87 | When both contexts fit, the window runs from the token lcs before the word to the one rcs after it. |
| Concordance.AdjacentWords | main.py:116-120 | The comprehensions over the windows: the only exception is IndexError, and a success has one entry per window. |
| Concordance.GetAdjacentWords | main.py:115-120 | `get_adjacent_words`: the only exception is IndexError, and a success has one entry per window of the word's concordance. |
| Concordance.AdjacentWordsShape | main.py:116-120 | The comprehension over the windows raises IndexError exactly when a window is empty, and otherwise gives one entry per window. |
| Concordance.AdjacentWordsAt | main.py:116-120 | Entry k is built from window k: its last word when left_n is 0, its first when right_n is 0, both otherwise. |
| Concordance.AdjacentShape | main.py:115-120 | For the word's windows: IndexError exactly when one is empty; otherwise one entry per window, of 1 word when a side is 0 and 2 otherwise. |
| Concordance.AdjacentRight | main.py:116-117 | With left_n = 0 it never fails; each entry is the token right_n after the word, or the list's last token. |
| Concordance.AdjacentLeft | main.py:118-119 | With right_n = 0 and the left context fitting, the entry is the token left_n before the word. |
| Concordance.AdjacentBothEnds | main.py:120 | With both sides non-zero, each entry is the first and last word of its window. |
| Concordance.AdjacentPair | main.py:120 | Both sides fit: the entry is the token left_n before the word and the one right_n after it. |
| Concordance.AdjacentNegativeLeft | main.py:116-120 | A negative left_n is truthy: the pair branch runs over right-only windows, so the first element is the word itself. |
| Concordance.BySuffixIsWeak | main.py:170 | `key=lambda x: x[k:]` compared with `<` is a strict weak order. |
| Concordance.SortConcordance | main.py:166-171 | `sort_concordance`: only the right sort with a positive right size can fail, with ValueError. A success is [] or a rearrangement of the concordance. |
| Concordance.SortByLeft | main.py:167-168 | Left sort with lcs > 0 returns the windows rearranged into ascending lexicographic order. |
| Concordance.SortByRight | main.py:169-170 | Right sort fails with ValueError exactly when the first window lacks the word; with no windows it returns [], since the key is never called. Otherwise it stably sorts by the suffix after the word's first position in the first window. |
| Concordance.SortByRightOnly | main.py:169-170 | With right context only the right sort never fails and sorts by the tokens after the word. |
| Concordance.SortOtherwiseEmpty | main.py:171 | Sorting on a side without context returns []. |
| ConcordanceExamples.HappyOccurrences | main.py:74-76 | In the docstring token list 'happy' occurs at indices 7 and 11. |
| ConcordanceExamples.ConcordanceExample | main.py:74-79 | The docstring example of get_concordance with 'happy', 2, 3. |
| ConcordanceExamples.AdjacentExample | main.py:108-113 | The docstring example of get_adjacent_words with 'happy', 2, 3: [man, is] and [dog, cat]. |
| ConcordanceExamples.SortExample | main.py:155-161 | The docstring example of sort_concordance with left_sort=True: the dog window comes before the man window. |

## Left out

- `read_from_file` and `write_to_file` (main.py:123-139) do file I/O. They are not part of this model, and neither is the module's `import os`.
- Character classes are modelled on ASCII only:
  - `str.isalnum` is 0-9, a-z, A-Z;
  - `str.isspace` is tab through carriage return, 0x1C-0x1F and the space;
  - `str.lower` maps A-Z to a-z.
  Non-ASCII letters, digits and whitespace, and Unicode case mapping, are not modelled.
- The iteration order of `set(tokens)` is unspecified in Python. It is a parameter constrained only to list each distinct token once.
- `get_top_n_words` sorts the dict's keys by `freq_dict.get`. The model sorts the items by value and reads the keys off. Keys are unique, so the two orders agree.
- Python's Timsort is replaced by an insertion sort. `StableSortUnique` shows the two give the same list.
- `sorted` on mixed types, and comparisons that raise, do not arise: tokens are strings.
- Exceptions are `Result` values. The model does not capture which element was being processed when the exception was raised.
