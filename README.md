# Most similar pair of files: a verified model

`p02.py` looks for the two most similar files in a directory. It works coarse to fine, in passes:

- It turns every file into a **histogram**. The text is split on `'\n'`, each line on `' '`, and every piece is `rstrip()`ped. Empty pieces are dropped. The tokens are hashed, counted (`mapper`, `reducer`), sorted by count (largest first, stable), and cut to the first `COMPARE_LEN` entries.
- It sorts the file indices by their histograms in Python's list order, which puts similar histograms next to each other.
- It scores every adjacent pair with the cosine similarity of `Counter(h1)` and `Counter(h2)`.
- It keeps the best pair as `top`. Every pair scoring above 0.9 of the best goes on a **short list** for the next pass.
- `main` repeats the pass over the short list. Each pass doubles the histogram length, or uses whole histograms once fewer than 500 names are left. The loop stops when the short list holds at most one name, when a pass keeps its names and finds a unique best score, after a pass with whole histograms, or once the length exceeds 10000.

The model is seven modules, one per stage:

| file | models |
|---|---|
| `Tokens.dfy` | `str.split` with one separator, `str.rstrip`, and the tokenising loop of `genHistogram` |
| `Counting.dfy` | `mapper`, and `reducer`, with the dictionary as an insertion-ordered `dict` (`Dict(order, value)`) |
| `Histograms.dfy` | the stable descending sort by count, the `[:COMPARE_LEN]` cut, `genHistogram` and `genHistograms` |
| `Similarity.dfy` | `similarity` and `scorePair`, with the integer dot product and magnitudes exact |
| `Ordering.dfy` | Python's order on lists of `(hash, count)` tuples, and the stable index sort `sortedIDX` |
| `Pass.dfy` | `getScore` and `compare` |
| `Driver.dfy` | the pass loop of `main` |

Where the source computes step by step, the model is a method proved equal to a specification function. The loops among them are the tokeniser, `reducer`, `genHistograms`, the short-list loop and the pass loop of `main` (`Driver.FindMostSimilar`, proved equal to `Driver.Refine`). `genHistogram` and `compare` are methods without a loop of their own, which call those methods. The properties are then proved about the specification functions.

What the model does not take from the source:
- **File system.** It is the map `fs` from path to text. `os.path.isfile(fname)` is `fname in fs`.
- **Python's `hash()`.** It is the parameter `hash`.

Two points where the model follows the code rather than the usual reading of it:

- **What similarity compares.** `similarity(Counter(h1), Counter(h2))` builds each `Counter` from a histogram, which is a *list of `(hash, count)` tuples*. So the Counter counts tuples, not words. Within a histogram every tuple is different, so each Counter value is 1. The score is therefore the number of shared `(hash, count)` entries divided by `sqrt(|h1| * |h2|)`. Word counts affect it only through whether two entries agree exactly. `Similarity.Dot` models this: the dot product of the two Counters of entries. `Similarity.SquaredMagnitudeIsLength` proves that the squared magnitude of a histogram is its length.
- **The score is squared.** Each score is `dot / (sqrt(m1²) * sqrt(m2²))`. The model keeps its square, `dot² / (m1² * m2²)`, which is an exact rational. The source uses scores only in four ways, and squaring preserves each of them between non-negative numbers: `max`, `.index`, `.count`, and the comparison `score > 0.9 * best`. That comparison becomes `square > 0.81 * best²`, as `Similarity.SquaringKeepsComparisons` proves.

**Python version.** The model reads the program as Python 2, which the `#!/usr/bin/env python` line names, and it does so throughout:

- `50000000 / len(fnames)` is integer division. Under Python 3 the quotient is a float and the slice `[:COMPARE_LEN]` would raise.
- The text of a file is a byte string, so `rstrip()` removes only ASCII whitespace: `' '`, `'\t'`, `'\n'`, `'\v'`, `'\f'` and `'\r'` (`Tokens.IsSpace`).
- One exception is the order in which `countedWords.items()` lists the dictionary. Python 2 does not define that order. The model takes insertion order, as Python 3.7+ does (see "## Left out").

## Model

| member | source | states |
|---|---|---|
| Tokens.Tokenize | p02.py:63-70 | the loop over the lines yields exactly `TokensOf(text)`, and every token is non-empty, holds no `' '` and no `'\n'`, and does not end in whitespace |
| Tokens.TokensAreWords | p02.py:69-70 | every token of a text is non-empty, free of `' '` and `'\n'`, and ends in a non-whitespace character |
| Tokens.JoinSplit | p02.py:65 | `'\n'.join(text.split('\n')) == text`: splitting loses nothing |
| Tokens.SplitJoin | p02.py:65 | splitting the join of pieces that hold no separator gives back the pieces |
| Tokens.SplitParts | p02.py:65 | no piece of a split holds the separator, and every character of a piece comes from the text |
| Tokens.RStripFacts | p02.py:70 | `rstrip()` leaves a prefix of the word that does not end in whitespace, and removes only whitespace |
| Tokens.KeepWordsStripped | p02.py:70 | every word the comprehension keeps is non-empty and does not end in whitespace |
| Tokens.TokenizeJoined | p02.py:63-70 | round trip: tokens written on one line separated by single spaces tokenise back to the same tokens |
| Counting.Mapper | p02.py:39-40 | `mapper` keeps the length and pairs every word's hash with 1 |
| Counting.MapperOccurrences | p02.py:39-40 | after `mapper`, the occurrences of key k add up to the number of words hashing to k, and all occurrences add up to the number of words |
| Counting.Reduce | p02.py:43-53 | the `reducer` loop gives `Reduced(mapped)`, a dict with each key once, exactly the keys of the input, and each key's count equal to the sum of its occurrences |
| Counting.ReducedCounts | p02.py:43-53 | the dict `reducer` builds lists each key once, has exactly the input's keys, and maps each to its total occurrence |
| Counting.ReducedTotal | p02.py:43-53 | the counts of the `reducer` dict add up to the sum of all occurrences |
| Counting.WordCounts | p02.py:73 | `reducer(mapper(words))` has one key per distinct hash, each counted as often as words carry it (so at least 1), and the counts sum to `len(words)` |
| Histograms.Items | p02.py:75 | `countedWords.items()` lists each key of the dict once with its count, in the dict's insertion order |
| Histograms.TopK | p02.py:75 | the slice `[:k]` keeps `min(k, len)` entries and is a prefix |
| Histograms.SortByCountSorts | p02.py:75 | `sorted(..., key=itemgetter(1), reverse=True)` is a permutation of its input with non-increasing counts |
| Histograms.InsertPermutes | p02.py:75 | one insertion step of the sort adds its entry and nothing else |
| Histograms.SortStable | p02.py:75 | the sort is stable: the entries of every count keep their original order |
| Histograms.SortKeys | p02.py:75 | sorting entries with distinct keys keeps the keys distinct |
| Histograms.GenHistogram | p02.py:56-75 | `genHistogram` computes `HistogramOf`, and gives `[]` for a name that is not a file |
| Histograms.SortedPrefixFacts | p02.py:75 | sorting entries with distinct keys and cutting to the first k leaves at most k entries, largest count first, one per key |
| Histograms.HistogramFacts | p02.py:56-75 | a histogram has at most `COMPARE_LEN` entries, non-increasing counts, and one entry per key |
| Histograms.TopKHistogram | p02.py:56-75 | a missing file gives `[]`. Otherwise the histogram has `min(COMPARE_LEN, distinct hashes)` entries, sorted and with distinct keys. Each entry is a hash of the file's tokens paired with how many tokens carry it (at least 1). No hash left out counts more than any kept entry |
| Histograms.TopKOfSorted | p02.py:75 | the first k sorted entries are input entries, and no entry whose key they leave out counts more than any of them |
| Histograms.HistogramsOf | p02.py:78-87 | `genHistograms` gives as many histograms as there are names |
| Histograms.HistogramsOfNames | p02.py:85-87 | histogram i of `genHistograms(fnames)` is `genHistogram(fnames[i])`, as `pool.map` keeps the order of its inputs |
| Histograms.GenHistograms | p02.py:78-87 | the collecting loop computes `HistogramsOf` |
| Similarity.SquaredSimilarity | p02.py:91-100 | the score is never negative |
| Similarity.DotSymmetric | p02.py:92-94 | the dot product is symmetric |
| Similarity.DotMultiset | p02.py:92-97 | the dot product depends only on the two Counters, not on the order of their entries |
| Similarity.SquaredMagnitudeIsLength | p02.py:96-97 | with one entry per key, the squared magnitude of `Counter(h)` is `len(h)` |
| Similarity.DotBounded | p02.py:94-97 | between histograms, the dot product is at most either squared magnitude |
| Similarity.DotOfEqualCounters | p02.py:94-97 | for equal Counters, the dot product equals each squared magnitude |
| Similarity.SimilarityZero | p02.py:98-99 | the score is 0 exactly when a histogram is empty or the two share no entry |
| Similarity.SimilaritySymmetric | p02.py:91-104 | `similarity(a, b) == similarity(b, a)` |
| Similarity.SimilarityOrderIndependent | p02.py:103-104 | the score does not depend on the order of either histogram's entries |
| Similarity.SimilarityOfSelf | p02.py:91-100 | a non-empty histogram scores 1 against itself |
| Similarity.SimilarityAtMostOne | p02.py:91-100 | between histograms the score lies in [0, 1] |
| Similarity.SquaringKeepsComparisons | p02.py:160-161 | for non-negative scores, the squares decide `>` 0.9 of the best, `==` and `<` exactly as the scores do |
| Ordering.LexLeReflexive | p02.py:147 | Python's list order is reflexive |
| Ordering.LexLeTotal | p02.py:147 | Python's list order is total |
| Ordering.LexLeAntisymmetric | p02.py:147 | Python's list order is antisymmetric |
| Ordering.LexLeTransitive | p02.py:147 | Python's list order is transitive |
| Ordering.SortedIndices | p02.py:147 | `sortedIDX` is a permutation of `range(len(histograms))`: every index exactly once |
| Ordering.SortedIndicesOrdered | p02.py:147 | `sortedIDX` orders the histograms non-decreasingly in list order, and keeps indices with equal histograms in increasing order (stable) |
| Ordering.InsertIndexSorted | p02.py:147 | one insertion step of the index sort keeps the indices sorted |
| Ordering.InsertIndexStable | p02.py:147 | one insertion step of a smaller index keeps equal histograms in index order |
| Ordering.InsertIndexDistinct | p02.py:147 | one insertion step of a new index keeps the indices distinct |
| Pass.CompareLenValue | p02.py:134-137 | the length is `size` when given, otherwise the largest n with `n * len(fnames) <= 50000000` (the integer quotient) |
| Pass.Reorder | p02.py:150 | position j of the reordered list holds `histograms[sortedIDX[j]]` |
| Pass.AdjacentScores | p02.py:112-121 | there are `len - 1` scores, and score i is the similarity of sorted histograms i and i+1 |
| Pass.Max | p02.py:124 | `max(scores)` is one of the scores and no score exceeds it |
| Pass.IndexOf | p02.py:124 | `s.index(v)` is the first position that holds v |
| Pass.BestPair | p02.py:124 | the best pair is the first position of a maximal score: every earlier score is smaller |
| Pass.SortedTop | p02.py:107-127 | `getScore`'s `top` names two different files, its score is their similarity, and no adjacent pair in sorted order scores more |
| Pass.RankedTop | p02.py:124 | `compare`'s `top` names two different files, its score is their similarity, and no adjacent pair scores more |
| Pass.PickPairs | p02.py:158-162 | the short-list loop computes `Picked` |
| Pass.PickedMembers | p02.py:158-162 | position e is picked iff the pair it starts or ends scores above 0.9 of the best |
| Pass.Deduplicated | p02.py:163 | `list(set(...))` gives no more than n positions, all below n |
| Pass.DeduplicatedMembers | p02.py:163 | `list(set(xs))` holds exactly the elements of xs, in increasing order, each once |
| Pass.ShortListNames | p02.py:166 | short-list entry k is `fnames[sortedIDX[shortListIDX[k]]]` |
| Pass.RankedShortListNames | p02.py:166 | every short-listed name is one of the pass's names, and there are no more of them than names |
| Pass.RankedShortListDistinct | p02.py:163-166 | no name is short-listed twice when the names are distinct |
| Pass.ShortListKeepsBest | p02.py:158-166 | when the best score is above 0, both files of the best pair are on the short list |
| Pass.ShortListEmptyIffNoSignal | p02.py:158-166 | the short list is empty exactly when the best score is 0 |
| Pass.CountOne | p02.py:169 | `s.count(v) == 1` iff v occurs at exactly one position |
| Pass.FoundIffUniqueBest | p02.py:169 | `found` holds exactly when only one adjacent pair reaches the best score |
| Pass.Compare | p02.py:130-171 | `compare` computes `PassOf`: the histograms, index sort, scores, short list and `found` |
| Pass.PassFacts | p02.py:130-171 | `compare`'s best pair is two different names, and its short list is drawn from the names and is no longer than them |
| Driver.ScaledLengthGrows | p02.py:208 | repeated doubling never shrinks the length |
| Driver.NextLength | p02.py:205-208 | the next length is None exactly below 500 names, and otherwise the doubled length, which is larger than a positive length |
| Driver.ScaledLengthBound | p02.py:215 | a length of at most 10000 that is at least 50 doubled d times means d is at most 7 |
| Driver.NextPass | p02.py:205-211 | one iteration computes the next length and the pass over the short list, whose best pair lies inside the list and whose short list is drawn from it. From a length within 10000 the next length is at most 20000 |
| Driver.RefineStops | p02.py:203-215 | the passes `Refine` describes stop for one of the loop's reasons: a short list of at most one name, a pass that kept its names and found a unique best score, a pass over whole histograms, or a length beyond 10000 |
| Driver.FindMostSimilar | p02.py:197-215 | the loop terminates, and its final pass, names and length are exactly those of `Refine` from the first pass over the initial names with length 50: each further pass runs over the previous short list with `NextLength`, until a break test holds. The final result is the pass over the final names, which are among the initial ones, with the best pair inside them. The loop stopped for one of the source's reasons. The length is 50 doubled once per doubling pass, and a bounded final length means at most 7 doublings. The final length is at most 20000, and a final pass over whole histograms comes after a length within 10000. The ghost result `passes` counts the calls of `compare`, and it equals the count `Refine` returns |
| Driver.RefinePassesBound | p02.py:203-215 | from a length of at least 50 doubled d times, at most 8 - d further passes follow, as each pass doubles the length and none starts beyond 10000 |
| Driver.AtMostNinePasses | p02.py:197-215 | `main` calls `compare` at least once and at most nine times: the count `Refine` returns from the first pass, which `FindMostSimilar`'s `passes` equals |

The functions that have no contract of their own are covered by the lemma rows about them: `Tokens.Split` by `Tokens.JoinSplit`, `Tokens.SplitJoin` and `Tokens.SplitParts`; `Tokens.RStrip` by `Tokens.RStripFacts`; `Histograms.SortByCount` by `Histograms.SortByCountSorts`; `Ordering.LexLe` by the four `Ordering.LexLe…` lemmas; `Similarity.Dot` by the `Similarity.Dot…` lemmas and `Similarity.SquaredMagnitudeIsLength`; `Pass.CompareLen` (p02.py:134-137) by `Pass.CompareLenValue`; `Pass.Count` (p02.py:169) by `Pass.CountOne`; and `Pass.GetScore` (p02.py:107-127) by `Pass.SortedTop`.

## Left out

- `getFileList` (`os.walk`) and reading files: the file system is the map `fs`. Files that exist but cannot be read are not modelled.
- Python's `hash()`: a parameter. The model proves nothing about collisions: two words with the same hash count as one.
- Threads (`ThreadPool`): `pool.map` keeps its results in input order, so the model computes them in sequence.
- `math.sqrt` and floating point: the model keeps exact squared scores. Ties that float rounding might create or break are not modelled.
- Printing, timing, `sys.argv`, `help()` and `exit()`.
- Fewer than two files: `max([])` in `getScore` raises. `Compare` and `FindMostSimilar` require at least two names; inside the loop, the short list has more than one name.
- Pass.Deduplicated: `list(set(...))` is modelled in ascending order. CPython's set order is not modelled, and it is not always ascending (`list(set([0, 1, 9, 10]))` gives `[0, 1, 10, 9]`). The set of short-listed names does not depend on it, but their order does, and that order has two consequences. First, the short list is the next pass's `fnames`, so its order sets the tie order of that pass's stable index sort, and with it which of two files with equal histograms `top` names. Second, it decides whether `shortList == fnames` holds one pass later, so the model can stop after a different pass than CPython would.
- Histograms.Items: lists the dictionary in insertion order, as Python 3.7+ does. Python 2 lists a `dict` in the order of its hash table, which the model does not capture. That order decides only which of several entries with equal counts survive the `[:COMPARE_LEN]` cut, and in what order they appear.
- Similarity.SquaredSimilarity: states the square of the source's score (see above). The source's value itself is never computed.
- Driver.FindMostSimilar: its ensures fix the ghost result `doublings` only while the final length is a number. After a final pass over whole histograms they bound it but do not fix it. The number of passes is the ghost result `passes` instead, which equals `Refine`'s count. Termination is proved with the measure `10000 - length`.
