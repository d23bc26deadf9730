# corpustools: ternary search tree, n-gram language model and corpus helpers

This project models the counting core of `corpustools` in Dafny and proves
properties of that model. The core has four parts:

- **The ternary search tree** (`src/corpustools/tst.py`). It stores strings
  character by character in nodes with `lo`, `eq` and `hi` children. Each
  node carries a count.
  - An insert adds to the count of the node where the string ends.
  - It also adds to every node that the separator symbol follows. Every
    separator-bounded prefix of an n-gram key is therefore counted as well.
  - The tree counts its inserts. That total is the frequency of the empty
    string.
- **The language model** (`src/corpustools/language_model.py`). `train`
  slides a window of `n` tokens over a token stream. It trains on full
  windows as they appear. At a boundary token, and at the end of the stream,
  it flushes the window's shorter suffixes. Each trained n-gram is:
  - cut at its first out-of-vocabulary token;
  - discarded when a `must_contain` filter finds no required token in it;
  - otherwise joined with the separator and inserted into the tree.

  The model answers frequencies, conditional probabilities (the frequency of
  an n-gram over that of its history), completions of a prefix,
  probabilities of all target n-grams, and membership.
- **The balanced insertion order** (`src/corpustools/insertion_order.py`).
  The keys of a frequency table are sorted and turned into cumulative
  masses. They are then emitted median first, followed recursively by the
  medians of the left and right remainders.
- **The corpus helpers** (`src/corpustools/corpustools.py`):
  - reading tokens or fields out of a tagged corpus;
  - cutting a stream into units at a boundary;
  - n-grams of a sequence;
  - replacing tokens that hold disallowed symbols;
  - filtering a tagged vocabulary;
  - padding a target set with the most frequent words;
  - the dummy container that contains everything.

The module `NGramCounts` ties training to counting: with every token in the
vocabulary and a target and no `must_contain` filter, the count a trained
model stores for an n-gram of at most `n` tokens is how often that n-gram
occurs in the token stream. This is the count `ngrams` (`corpustools.py`)
gives, and the one the package's own tests compare against.

## Design

- **Two views of the tree.** `TstSpec` describes the tree as a value. The
  value is the datatype `Shape`, whose table of stored strings is
  `Strings`. Inserts are stated through a counting law: a key gains its
  weight, and so does every separator-bounded prefix when subsequences are
  counted. `Tst` has the tree as the source has it: classes `Node` and
  `TernarySearchTree` whose methods update fields in place. Each node
  carries its `Shape` as ghost state, and every method is proved against
  the pure `TstSpec.Insert`.
- **Training.** `Training` describes what `train` inserts as a pure
  left-to-right scan: `Run`, `Step`, `Flush` and `Events`.
  `NGramModel.LanguageModel` is a class around a `TernarySearchTree`. Its
  `Train` method has the source's loop and is proved to insert exactly the
  keys of `Training.Events`.
- **Ghost state of the model.** The ghost variable `Trained` lists the keys
  that training inserted. `OnlyTrained` states that the tree is exactly
  those inserts. While it holds, these are proved from the subsequence
  counting invariant (`TstSpec.Dominated`):
  - frequencies are counts of trained keys;
  - a seen n-gram's history is never rarer than the n-gram itself;
  - every probability exists and lies between 0 and 1.
- **Generators** become the finite sequence they yield. A generator that
  raises part-way becomes an `Err` of the whole result, with the first error
  (`Result`, module `Wrappers`).
- **Behaviour the documentation states differently.** The model follows the
  code in each case.
  - `train` drops a full window's last token when that token is not a
    *target* (`language_model.py:106`). It does not check the vocabulary.
  - A stream `A B C D E` with `n = 3` trains `[E]` before `[D, E]`. The
    docstring lists them the other way round (`language_model.py:83-89`).
  - `n = 0` is accepted: the window is then always empty. Nothing demands
    `n >= 1`.
  - `completions` loses everything when `must_contain` is unset (see
    Findings).

## Model

| member | source | states |
|---|---|---|
| Text.Split | src/corpustools/language_model.py:228 | `str.split` on one symbol: at least one piece, and no piece holds the separator |
| Text.SplitCount | src/corpustools/language_model.py:228 | a split has one piece more than the string has separators |
| Text.JoinAppend | src/corpustools/language_model.py:293 | joining two non-empty lists of tokens is joining each and putting the separator between |
| Text.SplitConcat | src/corpustools/language_model.py:228 | splitting two strings glued by the separator gives the pieces of the first, then those of the second |
| Text.JoinSplit | src/corpustools/language_model.py:227-228 | joining the pieces of a split gives the original string back, for every string |
| Text.SplitJoin | src/corpustools/language_model.py:293 | a key made by joining separator-free tokens splits back into exactly those tokens |
| TstSpec.CountingLaw | src/corpustools/tst.py:105-131 | an insert adds the weight to the key and, with subsequences, to each of its separator-bounded prefixes; every other count is unchanged |
| TstSpec.InsertCounts | src/corpustools/tst.py:105-131 | after `_insert`, a string has a node iff it had one before or is a non-empty prefix of the key, and its count grew by exactly the counting-law increment |
| TstSpec.InsertStrings | src/corpustools/tst.py:105-131 | the table of an inserted subtree is the old table with every node on the key's path present and counts bumped by the counting law |
| TstSpec.InsertSorted | src/corpustools/tst.py:113-129 | inserting keeps the lo/eq/hi search-tree order |
| TstSpec.InsertAdds | src/corpustools/tst.py:32-41 | the positive counts after an insert are the table-level `Add` of those before, so the class and the counting law agree |
| TstSpec.AddAllCounts | src/corpustools/tst.py:32-41 | after a series of inserts, each count grows by the number of inserted keys equal to it or having it as a separator-bounded prefix |
| TstSpec.AddAllDominated | src/corpustools/tst.py:32-41 | after any series of inserts, no count exceeds the number of inserts, and a separator-bounded prefix never counts less than a string extending it |
| Tst.Node.constructor | src/corpustools/tst.py:4-10 | a fresh leaf with the symbol, count zero and no children |
| Tst.Node.Search | src/corpustools/tst.py:133-150 | for a non-empty string: a node is found iff the string has a node in the subtree, and it carries the string's count; when none is found, no extension of the string is stored; for the empty string the start node |
| Tst.Node.Completions | src/corpustools/tst.py:152-171 | lists every string of the subtree with a positive count, with that count, each once, and nothing else |
| Tst.TernarySearchTree.constructor | src/corpustools/tst.py:18-30 | an empty tree with the given separator and total 0 |
| Tst.TernarySearchTree.InsertAt | src/corpustools/tst.py:105-131 | the subtree afterwards is the pure `TstSpec.Insert` of the old one; the empty string leaves it as is; a node is created only where none existed |
| Tst.TernarySearchTree.Insert | src/corpustools/tst.py:32-41 | the tree becomes the one-argument insert (weight 1, subsequences counted) of the old tree, and the total grows by one |
| Tst.TernarySearchTree.InsertWeighted | src/corpustools/language_model.py:165-166 | the tree becomes the weighted insert of the old tree, subsequences counted only on request; the total grows by one per call |
| Tst.TernarySearchTree.Frequency | src/corpustools/tst.py:43-69 | the number of inserts for the empty string, otherwise the string's stored count (zero when it was never inserted) |
| Tst.TernarySearchTree.Contains | src/corpustools/tst.py:173-180 | the stored count of a non-empty string; for the empty string the root's own count, not the total |
| Tst.TernarySearchTree.Completions | src/corpustools/tst.py:71-103 | every stored string strictly extending the prefix, with its count, each exactly once, with or without the prefix as `full` says |
| InsertionOrder.SearchSorted | src/corpustools/insertion_order.py:14 | the insertion point of `searchsorted`: everything before it is smaller, the entry at it is not |
| InsertionOrder.MedianElement | src/corpustools/insertion_order.py:4-19 | the entry closest to the midpoint of the first and last masses, the left one on a tie; for three or more entries it is never an end |
| InsertionOrder.RecursiveMedian | src/corpustools/insertion_order.py:22-55 | lists every index exactly once; from four entries on, the median first, then all indices left of it, then all right of it |
| InsertionOrder.SplitOrder | src/corpustools/insertion_order.py:48-55 | the median, then a permutation of the left part, then one of the right part shifted past the median, together a permutation |
| InsertionOrder.Cumulative | src/corpustools/insertion_order.py:81 | `cumsum`: same length, each entry the one before plus its own count |
| InsertionOrder.CumulativeIncreasing | src/corpustools/insertion_order.py:79-81 | with positive counts the cumulative masses strictly increase and end at the whole mass |
| InsertionOrder.SortStrings | src/corpustools/insertion_order.py:76 | `sorted`: ordered as Python compares strings, and a permutation of the input |
| InsertionOrder.MedianSplitVocabulary | src/corpustools/insertion_order.py:58-86 | IndexError exactly for an empty table; otherwise every key exactly once, nothing else, in the order of the recursive median of the cumulative masses of the sorted keys |
| InsertionOrder.MedianSplitOrder | src/corpustools/insertion_order.py:76-86 | from four keys on, the sorted key at the median of the cumulative masses comes first, then every key sorted before it, then every key sorted after it |
| Corpus.Container.Add | src/corpustools/corpustools.py:495-496 | a set gains the element; the dummy container stays as it is |
| Corpus.EverythingContainsAll | src/corpustools/corpustools.py:487-496 | the dummy container contains every string, before and after `add` |
| Corpus.SegmentsSound | src/corpustools/corpustools.py:172-203 | no sublist is empty or holds the separator, and the sublists together are the input without separators |
| Corpus.SplitCollection | src/corpustools/corpustools.py:172-203 | the loop yields non-empty, separator-free sublists that together are the input without separators |
| Corpus.NGrams | src/corpustools/corpustools.py:399-403 | `max(0, len - n + 1)` n-grams, the i-th being the n elements from position i |
| Corpus.NGramsReassemble | src/corpustools/corpustools.py:399-403 | neighbouring n-grams overlap in n - 1 elements, and the first n-gram plus each later one's last element is the sequence |
| Corpus.NGramStringsSplit | src/corpustools/corpustools.py:400-401 | when no word holds the joining symbol, splitting a joined n-gram gives its words back |
| Corpus.StripNewlines | src/corpustools/corpustools.py:65 | a prefix of the line, ending in no newline, with only newlines cut off |
| Corpus.Lower | src/corpustools/corpustools.py:67-68 | same length, no upper-case ASCII letter left, every other symbol unchanged |
| Corpus.Select | src/corpustools/corpustools.py:95-98 | IndexError exactly when the single index is past the end; otherwise the chosen field or fields |
| Corpus.LineItem | src/corpustools/corpustools.py:63-98 | empty lines are skipped; kept meta lines are yielded as they are; other meta lines only when meta is not dropped; any other yielded line had the expected number of fields and a tag not dropped; such a line yields exactly the selected fields, or the error selecting them raises; with tags to drop, a tag field past the end raises IndexError |
| Corpus.ExtractFields | src/corpustools/corpustools.py:21-98 | the loop's result is `Extracted`, the items of the lines in order or the first error |
| Corpus.ExtractedStops | src/corpustools/corpustools.py:95-98 | once a line raises, later lines do not change the outcome |
| Corpus.ExtractedFromLines | src/corpustools/corpustools.py:63-98 | at most one item per line, and every item is what some line gives |
| Corpus.UnitMeta | src/corpustools/corpustools.py:127-131 | the kept meta lines always include the boundary and every line given |
| Corpus.ExtractUnits | src/corpustools/corpustools.py:101-134 | fails iff extraction with the boundary kept fails; otherwise the extracted items cut at the boundary, no unit empty or holding the boundary |
| Corpus.BoundaryLineSplits | src/corpustools/corpustools.py:127-131 | with the boundary kept, a line reading as the boundary becomes the boundary token |
| Corpus.ReplaceItem | src/corpustools/corpustools.py:157-167 | a token with a disallowed symbol becomes the replacement, others stay; a field list keeps its length with each such field replaced |
| Corpus.ReplaceDisallowed | src/corpustools/corpustools.py:137-169 | fails iff the symbols are empty (`[^]` is not a valid pattern); otherwise same length, each entry the replacement of the input entry at the same index |
| Corpus.ReplaceClean | src/corpustools/corpustools.py:154-167 | with an allowed replacement every result is clean, and replacing twice is replacing once |
| Corpus.FilterTaggedVocabulary | src/corpustools/corpustools.py:259-279 | a tagged word is kept iff its part before the first split symbol is in the vocabulary |
| Corpus.RankWords | src/corpustools/corpustools.py:308 | counts never increase along the result, which holds exactly the given words |
| Corpus.MostCommon | src/corpustools/corpustools.py:308-309 | the vocabulary's words, each once, by non-increasing count |
| Corpus.BaseTargets | src/corpustools/corpustools.py:297-301 | a subset of the targets; when filtering, exactly the targets in the vocabulary |
| Corpus.Update | src/corpustools/corpustools.py:311 | `set.update`: the set plus every listed word |
| Corpus.AddMostFrequent | src/corpustools/corpustools.py:282-312 | ValueError iff the (filtered) targets exceed the size; otherwise they are kept, the size is not exceeded, every added word is a vocabulary word counting at least as much as any word left out, and a result below the size holds the whole vocabulary |
| Corpus.ChosenFill | src/corpustools/corpustools.py:303-311 | the chosen words are new vocabulary words filling at most the free places, and all of the vocabulary when they fill fewer |
| Corpus.ChosenOutrank | src/corpustools/corpustools.py:308-311 | a chosen word counts at least as much as every vocabulary word left out |
| Training.LastN | src/corpustools/language_model.py:196 | the suffix of the stream of length `n`, or the whole stream when it is shorter |
| Training.PushLastN | src/corpustools/language_model.py:188-190 | appending to a deque of capacity n holding the last n tokens holds the last n tokens of the longer stream |
| Training.Suffixes | src/corpustools/language_model.py:98-99 | the suffixes of lengths 1 to k of the window, shortest first |
| Training.Flush | src/corpustools/language_model.py:97-99 | a boundary trains every suffix of the window, except the full window when it was already trained |
| Training.FinalFlush | src/corpustools/language_model.py:112-118 | the end of the stream trains the same n-grams as a boundary would |
| Training.FlushShort | src/corpustools/language_model.py:94-99 | a flush never retrains a full window: every flushed n-gram is non-empty and shorter than n |
| Training.RunCounted | src/corpustools/language_model.py:91-110 | the window holds at most n tokens, and each non-boundary token read is trained once now or at the next flush |
| Training.RunPlaced | src/corpustools/language_model.py:91-110 | the window is the boundary-free end of the stream read so far, and each trained n-gram is a boundary-free run of the stream |
| Training.EventsWithinUnits | src/corpustools/language_model.py:73-118 | no trained n-gram holds the boundary; each is a contiguous run of the stream |
| Training.EventCount | src/corpustools/language_model.py:73-118 | training passes on exactly one n-gram per token that is not the boundary |
| Training.TrainExample | src/corpustools/language_model.py:83-118 | the stream A B C D E with n = 3 trains [A,B,C], [B,C,D], [C,D,E], [E], [D,E], in that order |
| Training.RunSnoc | src/corpustools/language_model.py:92-110 | the scan is a left fold: one more token is one more step |
| Training.TakeVocab | src/corpustools/language_model.py:282-285 | the longest in-vocabulary start of the n-gram; the token after it is out of vocabulary |
| Training.TrainKey | src/corpustools/language_model.py:280-294 | no key iff filtering finds no required token in the kept start; otherwise that start joined by the separator |
| Training.TrainedKeys | src/corpustools/language_model.py:288-291 | at most one key per n-gram, exactly one without a `must_contain` filter |
| Training.KeyCount | src/corpustools/language_model.py:73-118 | without a filter, training inserts one key per non-boundary token |
| Training.InsertKeysTable | src/corpustools/tst.py:32-41 | a series of inserts keeps the tree ordered and its positive counts are the table-level inserts |
| Training.TrainedFrequencies | src/corpustools/language_model.py:280-294 | after training into an empty tree, a string's count is the number of trained keys touching it, and counts are dominated |
| Training.HistoryBound | src/corpustools/language_model.py:296-306 | in a dominated table, a seen n-gram's history is seen at least as often |
| NGramModel.SizesOr | src/corpustools/language_model.py:224-225 | never empty; the given sizes when there are any |
| NGramModel.Windows | src/corpustools/language_model.py:184-191 | one window per token: the last n tokens up to it |
| NGramModel.TargetNGramsSound | src/corpustools/language_model.py:227-239 | every reported n-gram is non-empty, of a wanted size, ends in a target and joins back to a completion with the same frequency |
| NGramModel.TargetNGramsComplete | src/corpustools/language_model.py:227-239 | every completion of a wanted size ending in a target is reported |
| NGramModel.RequiredMembers | src/corpustools/language_model.py:273-278 | the filter keeps exactly the completions with a required piece |
| NGramModel.RequiredDistinct | src/corpustools/language_model.py:273-278 | the filter keeps completions distinct |
| NGramModel.HashSplitLoses | src/corpustools/language_model.py:274 | with another separator, cutting at `#` drops a key that only its first word makes required, which cutting at the separator keeps |
| NGramModel.LanguageModel.constructor | src/corpustools/language_model.py:31-71 | an empty model; missing or empty vocabulary and targets become the dummy container |
| NGramModel.LanguageModel.KeepVocabulary | src/corpustools/language_model.py:282-285 | the loop keeps the tokens before the first out-of-vocabulary one |
| NGramModel.LanguageModel.TrainOne | src/corpustools/language_model.py:280-294 | the tree gains exactly the key `TrainKey` gives for the n-gram, or nothing |
| NGramModel.LanguageModel.Learn | src/corpustools/language_model.py:293-294 | the tree gains the key once, and the key is recorded as trained |
| NGramModel.LanguageModel.TrainSuffixes | src/corpustools/language_model.py:98-99 | the tree gains the keys of the suffixes of lengths 1 to upto - 1, shortest first |
| NGramModel.LanguageModel.TrainShortestSuffixes | src/corpustools/language_model.py:117-118 | the loop trains the suffixes of lengths 1 to k, shortest first |
| NGramModel.LanguageModel.TrainToken | src/corpustools/language_model.py:103-110 | the window takes the token; a full window is trained, without its last token when that is not a target |
| NGramModel.LanguageModel.TrainBoundary | src/corpustools/language_model.py:93-101 | the tree gains the keys of the window's flush |
| NGramModel.LanguageModel.TrainRemainder | src/corpustools/language_model.py:112-118 | the tree gains the keys of the final flush |
| NGramModel.LanguageModel.Train | src/corpustools/language_model.py:73-118 | the tree gains exactly the keys of `Events`, in order, and a model holding only trained keys still does |
| NGramModel.LanguageModel.Insert | src/corpustools/language_model.py:142-166 | the tree becomes the weighted insert of the joined key, and the total grows by one |
| NGramModel.LanguageModel.InsertSequence | src/corpustools/language_model.py:120-140 | the tree becomes the weighted inserts of all pairs in order, and the total grows by their number |
| NGramModel.LanguageModel.Frequency | src/corpustools/language_model.py:241-255 | the tree's frequency of the joined n-gram: the total for an empty join |
| NGramModel.LanguageModel.FrequencyTrained | src/corpustools/language_model.py:241-255 | with only trained keys, a non-empty n-gram's frequency is the number of trained keys touching it, never more than all of them |
| NGramModel.LanguageModel.TrainedCounts | src/corpustools/language_model.py:280-294 | with only trained keys, the counts are those of the trained keys and are dominated |
| NGramModel.LanguageModel.ProbabilityOf | src/corpustools/language_model.py:296-306 | fails with ValueError exactly for the empty n-gram of a non-empty model; never negative |
| NGramModel.LanguageModel.ProbabilityBounded | src/corpustools/language_model.py:296-306 | with only trained keys, a non-empty n-gram always has a probability, at most 1 |
| NGramModel.LanguageModel.HistoryAtLeast | src/corpustools/language_model.py:302-305 | with only trained keys, a seen n-gram's history is seen at least as often, so the division is safe |
| NGramModel.LanguageModel.PredictedOk | src/corpustools/language_model.py:186-192 | a successful result has one entry per n-gram: its probability |
| NGramModel.LanguageModel.PredictedErr | src/corpustools/language_model.py:186-192 | a failure is that of some n-gram, and every n-gram before it has a probability |
| NGramModel.LanguageModel.PredictedTrained | src/corpustools/language_model.py:186-192 | with only trained keys, non-empty n-grams all get probabilities between 0 and 1 |
| NGramModel.LanguageModel.PredictedFails | src/corpustools/language_model.py:186-192 | once a probability fails, later n-grams do not change the result |
| NGramModel.LanguageModel.ProbabilityAll | src/corpustools/language_model.py:184-192 | the loop's result is the probabilities of the windows, in order, or the first failure |
| NGramModel.LanguageModel.ProbabilitiesOfWindows | src/corpustools/language_model.py:184-192 | one probability per token, that of the window ending there, or the first failing window; with only trained keys and n >= 1 all succeed within [0, 1] |
| NGramModel.LanguageModel.ProbabilityLast | src/corpustools/language_model.py:194-205 | with only trained keys and n >= 1, a probability in [0, 1]; for n = 0 a failure iff the model is not empty |
| NGramModel.LanguageModel.Completions | src/corpustools/language_model.py:257-278 | every stored key strictly extending the prefix, with its count, each once; when filtering, only keys with a required word |
| NGramModel.LanguageModel.CompletionsAsWritten | src/corpustools/language_model.py:270-278 | as written: nothing without filtering; with filtering, the keys with a required piece when cut at `#` |
| NGramModel.LanguageModel.CompletionsLost | src/corpustools/language_model.py:270-271 | without filtering, every stored key is in the intended completions and missing from the written ones |
| NGramModel.LanguageModel.ScoredOk | src/corpustools/language_model.py:227-239 | a successful result has one row per n-gram with its frequency and its probability |
| NGramModel.LanguageModel.ScoredErr | src/corpustools/language_model.py:227-239 | a failure is the failing probability of one of the n-grams |
| NGramModel.LanguageModel.ScoredTrained | src/corpustools/language_model.py:227-239 | with only trained keys, rows of non-empty n-grams never fail |
| NGramModel.LanguageModel.ScoreTargets | src/corpustools/language_model.py:227-239 | the loop's result is the scored target rows of the given completions |
| NGramModel.LanguageModel.AllTargetProbabilities | src/corpustools/language_model.py:207-239 | the rows of the target n-grams among all completions, of the wanted sizes, in order, or the first failure |
| NGramModel.LanguageModel.AllTargetsBounded | src/corpustools/language_model.py:207-239 | with only trained keys, no failure and every probability in [0, 1] |
| NGramModel.LanguageModel.Contains | src/corpustools/language_model.py:308-309 | a non-empty key is in the model iff its count is positive; with only trained keys every trained key is in it |
| NGramModel.LanguageModel.TrainedStored | tests/test_language_model.py:43-48 | with only trained keys, every non-empty trained key has a positive count |
| NGramCounts.OccSnoc | src/corpustools/corpustools.py:399-403 | one token more adds an occurrence of an n-gram exactly when the stream now ends with it |
| NGramCounts.OccFront | src/corpustools/corpustools.py:399-403 | the occurrences in a stream are one if it starts with the n-gram, plus those in its rest |
| NGramCounts.SuffixesOcc | src/corpustools/language_model.py:98-99 | training every suffix of a window counts each occurrence inside the window once |
| NGramCounts.FlushOcc | src/corpustools/language_model.py:94-99 | a flush counts the occurrences inside the window, except those of the full window already trained |
| NGramCounts.RunMaximal | src/corpustools/language_model.py:91-110 | the window is the longest boundary-free end of the stream read so far, up to `n` tokens |
| NGramCounts.EndsWithWindow | src/corpustools/language_model.py:103-110 | after a token, the window ends with a boundary-free n-gram of at most `n` tokens iff the stream does |
| NGramCounts.RunOccurrences | src/corpustools/language_model.py:73-118 | with every token a target, the trained n-grams starting with a boundary-free `g` of at most `n` tokens are as many as the occurrences of `g` in the stream |
| NGramCounts.KeyTouches | src/corpustools/tst.py:105-131 | for plain tokens, inserting an n-gram's key adds one to another n-gram's key iff the first starts with the second |
| NGramCounts.TrainedOccurrences | src/corpustools/language_model.py:73-118 | without filtering, the trained keys add up, at the key of a boundary-free n-gram of at most `n` plain tokens, to its occurrences in the stream |
| NGramCounts.TouchedKeyShape | src/corpustools/language_model.py:280-294 | every string with a positive count after training is the key of 1 to `n` plain tokens without the boundary |
| NGramModel.LanguageModel.FrequencyIsStreamCount | tests/test_language_model.py:14-17 | trained once, the frequency of an n-gram of at most `n` tokens is its number of occurrences in the stream, and for no tokens the number of tokens other than the boundary |
| NGramModel.LanguageModel.TokensStored | tests/test_language_model.py:43-48 | trained once with n >= 1, every token of the stream other than the boundary is in the model |
| NGramModel.LanguageModel.AllTargetsAreStreamCounts | tests/test_language_model.py:21-40 | trained once, `all_target_probabilities` succeeds, and each row's frequency is the n-gram's occurrences in the stream and its probability that over the (positive) count of its history |
| NGramModel.TrainedModel | tests/test_language_model.py:22-23 | `LanguageModel(n)` trained on a stream of plain tokens is a model trained once on it |

## Left out

- Tst.TernarySearchTree.InsertWeighted: the weighted `insert(key, frequency, subsequences)` that the language model calls belongs to the compiled `src/corpustools/tst.pyx` (built by `setup.py:28-29`), which is not part of this model. It is modelled like the visible one-argument insert: the weight goes where the one-argument insert adds one, and the total grows by one per call.
- NGramModel.LanguageModel.ProbabilityOf: the bound of 1 and the absence of `ZeroDivisionError` are stated only while the tree holds just trained keys (`ProbabilityBounded`). After direct `insert` calls the source promises neither.
- NGramModel.LanguageModel.AllTargetProbabilities: yields the full n-gram in every row. The `return_n_gram` flag, which selects between the n-gram and its last token, is not modelled.
- NGramModel.LanguageModel.Insert: the `is_string` flag is the `NGram` datatype (`Joined` or `Words`), not a boolean beside an untyped value.
- InsertionOrder.MedianSplitVocabulary: requires positive counts. With a zero count the cumulative masses are not strictly increasing, and the source's median can land at an end.
- InsertionOrder.MedianSplitVocabulary: masses are integer cumulative counts, not floating-point cumulative probabilities. Dividing by the positive total changes none of the median comparisons; rounding is not modelled.
- Corpus.AddMostFrequent: the `Counter` is an insertion-ordered list of distinct keys with counts (`InsertionOrder.Counts`). Ties in `most_common` keep insertion order.
- Corpus.ReplaceDisallowed: the regular-expression character class `[^symbols]` is a plain set of allowed symbols. Only the empty set is an invalid pattern here. Ranges, escapes and other patterns `re.compile` rejects are not interpreted.
- Corpus.Lower: lower-cases ASCII letters only. Unicode case mapping is not modelled.
- `__iter__` (`language_model.py:311-312`) is `Completions([])` and has no separate member.
- Probabilities are `real`, not floating point, and frequencies are unbounded `nat`.
- Generators are the finite sequences they yield. Laziness and early stopping by the caller are not modelled.
- The `TypeError` fallback in `probability` (`language_model.py:198-202`) for sequences that cannot be sliced is not modelled. Every sequence here is a finite `seq`, which slices.
- Corpus.Select: field indices (`tag_field`, `return_fields`) are `nat`. Python also accepts negative indices, which count from the end of the fields; those are not modelled.
- NGramModel.LanguageModel.constructor: `n` is a `nat`. A negative `n` makes `deque(maxlen=self.n)` raise `ValueError` in `train` and `probability` (`language_model.py:91`, `language_model.py:184`); that error is not modelled.
- Text.Split: the separator is one symbol (`char`). The source's `splitchar` and `delimiter` may be any string. A `splitchar` of several symbols also never equals the single symbol compared at `tst.py:121`, so such a tree counts no subsequences; that case is not modelled.
- Tst.TernarySearchTree.Completions: always yields `(string, count)` pairs. The `return_frequency=False` option (`tst.py:71`, `tst.py:100-103`), which yields the strings alone, is not modelled.
- NGramModel.LanguageModel.FrequencyIsStreamCount: the tests' setting only. Every token is in the vocabulary and a target, there is no `must_contain` filter, and tokens are non-empty and free of the separator. The tests treat every token starting with `<` as a boundary; here the boundary is the one token `boundary`.
- Warnings (`extract_fields`, `ngrams`) have no effect on results and are left out.
- File I/O and the rest of `corpustools.py` are left out: `merge_tokens_tags_corpus`, `filter_tagged_event_file`, `random_strings`, `random_string`, `verbose_generator` and `memory_usage`. They read or write files, draw random numbers or measure the process.
- The convenience wrapper `train_lm` (`language_model.py:339`) is left out. It reads a corpus file before calling `train`.
- The read-only properties at `language_model.py:314-336` are the model's `const` fields.

## Findings

| source | as written | input that shows it | evidently intended | confidence | as-written member | corrected member |
|---|---|---|---|---|---|---|
| src/corpustools/language_model.py:270-271 | `completions` contains `yield`, so it is a generator; `return self._counts.completions(prefix)` inside it ends the generator without yielding anything | any trained model built without `must_contain`: `list(lm.completions())` is empty, so are `all_target_probabilities()` and `iter(lm)` | yield every completion of the tree (`yield from`) | high, not executed | NGramModel.LanguageModel.CompletionsAsWritten | NGramModel.LanguageModel.Completions |
| src/corpustools/language_model.py:274 | filtered completions are cut into words at a hard-coded `"#"` | a model with `splitchar="_"` and `must_contain={"x"}` storing `"x_y"`: cut at `#` the only piece is `"x_y"`, so the key is dropped | cut at `self.splitchar`, as training and `all_target_probabilities` do | high, not executed | NGramModel.HashSplitLoses | NGramModel.LanguageModel.Completions |

`NGramModel.LanguageModel.CompletionsLost` proves the first row for every stored key. The remaining members, such as `AllTargetProbabilities`, use the corrected `Completions`.
