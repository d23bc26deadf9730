/**
 * The n-gram language model of src/corpustools/language_model.py.
 *
 * A `LanguageModel` keeps its counts in a ternary search tree whose
 * separator is the model's `splitchar`: `train` slides a window of `n`
 * tokens over a stream and inserts the key of every n-gram it passes on
 * (`Training.Events`, `Training.TrainKey`), and `insert` adds weighted keys
 * directly.  The ghost state records the keys `train` inserted and whether
 * anything else was ever inserted; while nothing else was, the tree is
 * exactly the inserts of those keys, which is what makes the frequencies
 * and probabilities it answers meaningful.
 */
module NGramModel {
  import opened Wrappers
  import opened Text
  import opened TstSpec
  import opened Tst
  import opened Training
  import opened NGramCounts
  import Corpus

  /** `if not x: x = ContainsEverything()`: a missing or empty container becomes the dummy one. */
  function OrEverything(c: Option<Corpus.Container>): Corpus.Container
  {
    if c.None? || c.value == Corpus.Only({}) then Corpus.Everything else c.value
  }

  class LanguageModel {
    const n: nat
    const boundary: string
    const splitchar: char
    const vocabulary: Corpus.Container
    const targets: Corpus.Container
    const mustContain: Option<Corpus.Container>
    const counts: TernarySearchTree

    /** The keys `train` has inserted, oldest first. */
    ghost var Trained: seq<string>

    /** The settings the training functions read. */
    function Settings(): Config
    {
      Config(n, boundary, splitchar, vocabulary, targets, mustContain)
    }

    ghost predicate Valid()
      reads this, counts, counts.Repr
    {
      && counts.Valid()
      && this !in counts.Repr
      && counts.splitchar == Some(splitchar)
    }

    /** The tree holds exactly the inserts of the trained keys, as when no direct `insert` was made. */
    ghost predicate OnlyTrained()
      reads this, counts
    {
      counts.Model == InsertKeys(Empty, Trained, Some(splitchar)) && counts.total == |Trained|
    }

    /** Since the state `(T0, M0, n0)` the keys `keys` have been trained and nothing else inserted. */
    ghost predicate Extends(T0: seq<string>, M0: Shape, n0: nat, keys: seq<string>)
      reads this, counts
    {
      Trained == T0 + keys && counts.Model == InsertKeys(M0, keys, Some(splitchar)) && counts.total == n0 + |keys|
    }

    /** A model with an empty tree; vocabulary and targets default to the dummy container. */
    constructor (n: nat, boundary: string, splitchar: char, vocabulary: Option<Corpus.Container>,
                 targets: Option<Corpus.Container>, mustContain: Option<Corpus.Container>)
      ensures Valid() && fresh(counts.Repr)
      ensures OnlyTrained() && Trained == [] && counts.total == 0
      ensures this.n == n && this.boundary == boundary && this.splitchar == splitchar
      ensures this.vocabulary == OrEverything(vocabulary) && this.targets == OrEverything(targets)
      ensures this.mustContain == mustContain
    {
      this.n := n;
      this.boundary := boundary;
      this.splitchar := splitchar;
      this.vocabulary := OrEverything(vocabulary);
      this.targets := OrEverything(targets);
      this.mustContain := mustContain;
      counts := new TernarySearchTree(Some(splitchar));
      Trained := [];
    }

    /** The loop at the start of `_train`: the tokens before the first one outside the vocabulary. */
    method KeepVocabulary(ngram: seq<string>) returns (kept: seq<string>)
      ensures kept == TakeVocab(ngram, vocabulary)
    {
      kept := ngram;
      var i := 0;
      while i < |ngram|
        invariant 0 <= i <= |ngram| && kept == ngram
        invariant forall j :: 0 <= j < i ==> vocabulary.Contains(ngram[j])
      {
        if !vocabulary.Contains(ngram[i]) {
          kept := ngram[..i];
          break;
        }
        i := i + 1;
      }
      TakeVocabAt(ngram, vocabulary, i);
    }

    /**
     * `_train`: cuts the n-gram at its first out-of-vocabulary token, skips
     * it when filtering finds no required token, and otherwise inserts the
     * joined key once.
     */
    method TrainOne(ngram: seq<string>)
      requires Valid()
      modifies this, counts.Repr
      ensures Valid() && fresh(counts.Repr - old(counts.Repr))
      ensures Extends(old(Trained), old(counts.Model), old(counts.total), TrainedKeys([ngram], Settings()))
    {
      var kept := KeepVocabulary(ngram);
      KeyOfOne(ngram, Settings());
      if Filtering(Settings()) && !AnyIn(kept, mustContain.value) {
        NoKeys(counts.Model, Some(splitchar));
        return;
      }
      Learn(Join(kept, splitchar));
    }

    /** `self._counts.insert(n_gram_string)` at the end of `_train`: one more trained key. */
    method Learn(key: string)
      requires Valid()
      modifies this, counts.Repr
      ensures Valid() && fresh(counts.Repr - old(counts.Repr))
      ensures Extends(old(Trained), old(counts.Model), old(counts.total), [key])
    {
      InsertSingle(counts.Model, key, Some(splitchar));
      counts.Insert(key);
      Trained := Trained + [key];
    }

    /** `for length in range(1, upto): self._train(w[-length:])`. */
    method TrainSuffixes(w: seq<string>, upto: nat)
      requires Valid() && upto <= |w| + 1
      modifies this, counts.Repr
      ensures Valid() && fresh(counts.Repr - old(counts.Repr))
      ensures Extends(old(Trained), old(counts.Model), old(counts.total),
                      TrainedKeys(Suffixes(w, if upto == 0 then 0 else upto - 1), Settings()))
    {
      var k := if upto == 0 then 0 else upto - 1;
      TrainShortestSuffixes(w, k);
      KeysOfSuffixesAre(w, k, Settings());
    }

    /** The loop of `TrainSuffixes`: the suffixes of lengths 1 to `k` are trained, shortest first. */
    method TrainShortestSuffixes(w: seq<string>, k: nat)
      requires Valid() && k <= |w|
      modifies this, counts.Repr
      ensures Valid() && fresh(counts.Repr - old(counts.Repr))
      ensures Extends(old(Trained), old(counts.Model), old(counts.total), KeysOfSuffixes(w, k, Settings()))
    {
      ghost var T0, M0, n0 := Trained, counts.Model, counts.total;
      assert InsertKeys(M0, [], Some(splitchar)) == M0;
      var length := 1;
      while length <= k
        invariant 1 <= length <= k + 1
        invariant Valid() && fresh(counts.Repr - old(counts.Repr))
        invariant Extends(T0, M0, n0, KeysOfSuffixes(w, length - 1, Settings()))
      {
        TrainSuffix(w, length, T0, M0, n0);
        length := length + 1;
      }
    }

    /** One round of the loop in `TrainSuffixes`: the suffix of the given length is trained. */
    method TrainSuffix(w: seq<string>, length: nat, ghost T0: seq<string>, ghost M0: Shape, ghost n0: nat)
      requires Valid() && 1 <= length <= |w|
      requires Extends(T0, M0, n0, KeysOfSuffixes(w, length - 1, Settings()))
      modifies this, counts.Repr
      ensures Valid() && fresh(counts.Repr - old(counts.Repr))
      ensures Extends(T0, M0, n0, KeysOfSuffixes(w, length, Settings()))
    {
      ghost var T1, M1, n1 := Trained, counts.Model, counts.total;
      TrainOne(w[|w| - length..]);
      Chain(T0, M0, n0, KeysOfSuffixes(w, length - 1, Settings()), T1, M1, n1, TrainedKeys([w[|w| - length..]], Settings()),
            Trained, counts.Model, counts.total, Some(splitchar));
    }

    /** One token that is not the boundary: it enters the window, and a full window is trained. */
    method TrainToken(window: seq<string>, element: string) returns (window': seq<string>)
      requires Valid()
      modifies this, counts.Repr
      ensures Valid() && fresh(counts.Repr - old(counts.Repr))
      ensures window' == Push(window, element, n)
      ensures Extends(old(Trained), old(counts.Model), old(counts.total),
                      TrainedKeys(FullWindow(window', element, Settings()), Settings()))
    {
      window' := Push(window, element, n);
      if |window'| == n {
        if !targets.Contains(element) {
          TrainOne(DropLast(window'));
        } else {
          TrainOne(window');
        }
      } else {
        assert TrainedKeys([], Settings()) == [];
        assert InsertKeys(counts.Model, [], Some(splitchar)) == counts.Model;
      }
    }

    /**
     * `train`: passes every n-gram of the stream to `_train`, in the order
     * `Training.Events` gives them, so the tree gains exactly their keys.
     */
    method Train(sequence: seq<string>)
      requires Valid()
      modifies this, counts.Repr
      ensures Valid() && fresh(counts.Repr - old(counts.Repr))
      ensures Extends(old(Trained), old(counts.Model), old(counts.total),
                      TrainedKeys(Events(sequence, Settings()), Settings()))
      ensures old(OnlyTrained()) ==> OnlyTrained()
    {
      ghost var T0, M0, n0 := Trained, counts.Model, counts.total;
      var window: seq<string> := [];
      var i := 0;
      while i < |sequence|
        invariant 0 <= i <= |sequence|
        invariant Valid() && fresh(counts.Repr - old(counts.Repr))
        invariant window == Run(sequence[..i], Settings()).window
        invariant Extends(T0, M0, n0, TrainedKeys(Run(sequence[..i], Settings()).events, Settings()))
      {
        window := TrainElement(sequence, i, window, T0, M0, n0);
        i := i + 1;
      }
      assert sequence[..i] == sequence;
      TrainRemainder(sequence, window, T0, M0, n0);
      StillOnlyTrained(T0, M0, n0, TrainedKeys(Events(sequence, Settings()), Settings()),
                       Trained, counts.Model, counts.total, Some(splitchar));
    }

    /** One round of the loop in `train`: the next element either ends a unit or enters the window. */
    method TrainElement(sequence: seq<string>, i: nat, window: seq<string>,
                        ghost T0: seq<string>, ghost M0: Shape, ghost n0: nat) returns (window': seq<string>)
      requires Valid() && i < |sequence|
      requires window == Run(sequence[..i], Settings()).window
      requires Extends(T0, M0, n0, TrainedKeys(Run(sequence[..i], Settings()).events, Settings()))
      modifies this, counts.Repr
      ensures Valid() && fresh(counts.Repr - old(counts.Repr))
      ensures window' == Run(sequence[..i + 1], Settings()).window
      ensures Extends(T0, M0, n0, TrainedKeys(Run(sequence[..i + 1], Settings()).events, Settings()))
    {
      var element := sequence[i];
      ghost var T1, M1, n1 := Trained, counts.Model, counts.total;
      ghost var added := Added(sequence, i, Settings());
      RunCounted(sequence[..i], Settings());
      if element == boundary {
        TrainBoundary(window);
        window' := [];
      } else {
        window' := TrainToken(window, element);
      }
      RunNext(sequence, i, Settings());
      Chain(T0, M0, n0, TrainedKeys(Run(sequence[..i], Settings()).events, Settings()), T1, M1, n1,
            TrainedKeys(added, Settings()), Trained, counts.Model, counts.total, Some(splitchar));
    }

    /** A boundary in the stream: the n-grams still in the window are trained, shortest first, unless the window is full. */
    method TrainBoundary(window: seq<string>)
      requires Valid() && |window| <= n
      modifies this, counts.Repr
      ensures Valid() && fresh(counts.Repr - old(counts.Repr))
      ensures Extends(old(Trained), old(counts.Model), old(counts.total), TrainedKeys(Flush(window, n), Settings()))
    {
      var notTrained := if |window| < n then 1 else 0;
      TrainSuffixes(window, |window| + notTrained);
      assert FlushCount(window, n) == if |window| + notTrained == 0 then 0 else |window| + notTrained - 1;
    }

    /** The end of `train`: the n-grams still in the window are trained, shortest first. */
    method TrainRemainder(sequence: seq<string>, window: seq<string>,
                          ghost T0: seq<string>, ghost M0: Shape, ghost n0: nat)
      requires Valid()
      requires window == Run(sequence, Settings()).window
      requires Extends(T0, M0, n0, TrainedKeys(Run(sequence, Settings()).events, Settings()))
      modifies this, counts.Repr
      ensures Valid() && fresh(counts.Repr - old(counts.Repr))
      ensures Extends(T0, M0, n0, TrainedKeys(Events(sequence, Settings()), Settings()))
    {
      ghost var st := Run(sequence, Settings());
      ghost var T1, M1, n1 := Trained, counts.Model, counts.total;
      RunCounted(sequence, Settings());
      var rest := if |window| == n && window != [] then window[1..] else if |window| == n then [] else window;
      FinalFlush(window, n);
      TrainSuffixes(rest, |rest| + 1);
      Chain(T0, M0, n0, TrainedKeys(st.events, Settings()), T1, M1, n1, TrainedKeys(Flush(window, n), Settings()),
            Trained, counts.Model, counts.total, Some(splitchar));
      TrainedKeysAppend(st.events, Flush(window, n), Settings());
    }

    /**
     * `insert`: adds `frequency` to the count of the n-gram's key (and, with
     * `subsequences`, to each of its boundary prefixes) in one insert of the
     * tree.  After it the tree is no longer just the trained keys.
     */
    method Insert(g: NGram, frequency: nat, subsequences: bool)
      requires Valid()
      modifies this, counts.Repr
      ensures Valid() && fresh(counts.Repr - old(counts.Repr))
      ensures Trained == old(Trained)
      ensures counts.Model == TstSpec.Insert(old(counts.Model), KeyOf(g, splitchar), frequency, subsequences, Some(splitchar))
      ensures counts.total == old(counts.total) + 1
    {
      counts.InsertWeighted(KeyOf(g, splitchar), frequency, subsequences);
    }

    /** `insert_sequence`: `insert` of every (n-gram, frequency) pair, in order. */
    method InsertSequence(items: seq<(NGram, nat)>, subsequences: bool)
      requires Valid()
      modifies this, counts.Repr
      ensures Valid() && fresh(counts.Repr - old(counts.Repr))
      ensures Trained == old(Trained)
      ensures counts.Model == InsertPairs(old(counts.Model), items, subsequences, splitchar)
      ensures counts.total == old(counts.total) + |items|
    {
      var i := 0;
      while i < |items|
        invariant 0 <= i <= |items|
        invariant Valid() && fresh(counts.Repr - old(counts.Repr))
        invariant Trained == old(Trained)
        invariant counts.Model == InsertPairs(old(counts.Model), items[..i], subsequences, splitchar)
        invariant counts.total == old(counts.total) + i
      {
        Insert(items[i].0, items[i].1, subsequences);
        assert items[..i + 1][..i] == items[..i];
        i := i + 1;
      }
      assert items[..i] == items;
    }

    /**
     * `frequency`: the count of the joined n-gram; for an n-gram that joins
     * to the empty string, the number of inserts.  While only `train` has
     * inserted, that is how many trained keys touch it, and never more than
     * the number of trained keys.
     */
    function Frequency(ngram: seq<string>): (r: nat)
      reads this, counts, counts.Repr
      requires Valid()
      ensures r == Freq(counts.Counts(), counts.total, Join(ngram, splitchar))
    {
      counts.Frequency(Join(ngram, splitchar))
    }

    /**
     * While only `train` has inserted, the frequency of a non-empty n-gram is
     * the number of trained keys it touches, and no frequency exceeds the
     * number of trained keys.
     */
    lemma FrequencyTrained(ngram: seq<string>)
      requires Valid()
      ensures OnlyTrained() && Join(ngram, splitchar) != [] ==>
        Frequency(ngram) == Touches(Trained, Join(ngram, splitchar), Some(splitchar))
      ensures OnlyTrained() ==> Frequency(ngram) <= |Trained|
    {
      TrainedCounts();
    }

    /** While only `train` has inserted, the counts are those `Touches` gives and bounded as `Dominated` says. */
    lemma TrainedCounts()
      requires Valid()
      ensures OnlyTrained() ==> forall s :: Get(counts.Counts(), s) == Touches(Trained, s, Some(splitchar))
      ensures OnlyTrained() ==> Dominated(counts.Counts(), counts.total, Some(splitchar))
    {
      if OnlyTrained() {
        forall s ensures Get(counts.Counts(), s) == Touches(Trained, s, Some(splitchar)) {
          TrainedFrequencies(Trained, splitchar, s);
        }
        TrainedFrequencies(Trained, splitchar, []);
      }
    }

    /**
     * `_probability`: zero for an unseen n-gram; otherwise its frequency
     * over that of its history (all but the last token).  Unpacking an empty
     * n-gram fails, and so does a history of frequency zero.
     */
    function ProbabilityOf(ngram: seq<string>): (r: Result<real>)
      reads this, counts, counts.Repr
      requires Valid()
      ensures r == Err(ValueError) <==> ngram == [] && counts.total > 0
      ensures r.Ok? ==> 0.0 <= r.value
    {
      var frequency := Frequency(ngram);
      if frequency == 0 then Ok(0.0)
      else if ngram == [] then Err(ValueError)
      else
        var history := Frequency(ngram[..|ngram| - 1]);
        if history == 0 then Err(ZeroDivisionError)
        else
          Ratio(frequency, history);
          Ok(frequency as real / history as real)
    }

    /**
     * While only `train` has inserted, a non-empty n-gram always has a
     * probability (its history is never unseen), and it is at most 1.
     */
    lemma ProbabilityBounded(ngram: seq<string>)
      requires Valid()
      ensures OnlyTrained() && ngram != [] ==> ProbabilityOf(ngram).Ok? && ProbabilityOf(ngram).value <= 1.0
    {
      if OnlyTrained() && ngram != [] && Frequency(ngram) > 0 {
        HistoryAtLeast(ngram);
        Ratio(Frequency(ngram), Frequency(ngram[..|ngram| - 1]));
      }
    }

    /** While only `train` has inserted, a seen n-gram's history is seen at least as often. */
    lemma HistoryAtLeast(ngram: seq<string>)
      requires Valid() && ngram != [] && Frequency(ngram) > 0
      ensures OnlyTrained() ==> Frequency(ngram[..|ngram| - 1]) >= Frequency(ngram)
    {
      TrainedCounts();
      if OnlyTrained() {
        HistoryBound(counts.Counts(), counts.total, ngram, splitchar);
      }
    }

    /**
     * The probabilities of `ngrams` in order, or the first failure among
     * them.
     */
    function Predicted(ngrams: seq<seq<string>>): Result<seq<real>>
      reads this, counts, counts.Repr
      requires Valid()
    {
      if ngrams == [] then Ok([])
      else
        match Predicted(ngrams[..|ngrams| - 1])
        case Err(e) => Err(e)
        case Ok(done) =>
          match ProbabilityOf(ngrams[|ngrams| - 1])
          case Err(e) => Err(e)
          case Ok(p) => Ok(done + [p])
    }

    /** A successful `Predicted` holds the probability of each n-gram at its index. */
    lemma {:induction false} PredictedOk(ngrams: seq<seq<string>>)
      requires Valid()
      ensures var r := Predicted(ngrams);
        r.Ok? ==> |r.value| == |ngrams| && forall i :: 0 <= i < |ngrams| ==> ProbabilityOf(ngrams[i]) == Ok(r.value[i])
    {
      if ngrams != [] {
        PredictedOk(ngrams[..|ngrams| - 1]);
      }
    }

    /** A failing `Predicted` fails as the first failing n-gram does: every n-gram before it has a probability. */
    lemma {:induction false} PredictedErr(ngrams: seq<seq<string>>)
      requires Valid()
      ensures var r := Predicted(ngrams);
        r.Err? ==> exists i :: 0 <= i < |ngrams| && ProbabilityOf(ngrams[i]) == Err(r.error)
                                && forall j :: 0 <= j < i ==> ProbabilityOf(ngrams[j]).Ok?
    {
      if ngrams != [] {
        var front := ngrams[..|ngrams| - 1];
        if Predicted(front).Err? {
          PredictedErr(front);
          var i :| 0 <= i < |front| && ProbabilityOf(front[i]) == Err(Predicted(front).error)
                   && forall j :: 0 <= j < i ==> ProbabilityOf(front[j]).Ok?;
          assert ngrams[i] == front[i];
          assert forall j :: 0 <= j < i ==> ngrams[j] == front[j];
        } else if Predicted(ngrams).Err? {
          PredictedLastFails(ngrams);
        }
      }
    }

    /** When all but the last n-gram have probabilities, a failing `Predicted` fails at the last. */
    lemma PredictedLastFails(ngrams: seq<seq<string>>)
      requires Valid() && ngrams != []
      requires Predicted(ngrams[..|ngrams| - 1]).Ok? && Predicted(ngrams).Err?
      ensures ProbabilityOf(ngrams[|ngrams| - 1]) == Err(Predicted(ngrams).error)
      ensures forall j :: 0 <= j < |ngrams| - 1 ==> ProbabilityOf(ngrams[j]).Ok?
    {
      var front := ngrams[..|ngrams| - 1];
      PredictedOk(front);
      assert forall j :: 0 <= j < |front| ==> ngrams[j] == front[j];
    }

    /** While only `train` has inserted, `Predicted` of non-empty n-grams succeeds with values between 0 and 1. */
    lemma {:induction false} PredictedTrained(ngrams: seq<seq<string>>)
      requires Valid()
      ensures var r := Predicted(ngrams);
        OnlyTrained() && (forall i :: 0 <= i < |ngrams| ==> ngrams[i] != []) ==>
          r.Ok? && forall i :: 0 <= i < |r.value| ==> 0.0 <= r.value[i] <= 1.0
    {
      if ngrams != [] {
        var front := ngrams[..|ngrams| - 1];
        PredictedTrained(front);
        ProbabilityBounded(ngrams[|ngrams| - 1]);
      }
    }

    /** Once `Predicted` fails, more n-grams do not change the result. */
    lemma {:induction false} PredictedFails(a: seq<seq<string>>, b: seq<seq<string>>)
      requires Valid() && Predicted(a).Err?
      ensures Predicted(a + b) == Predicted(a)
    {
      if b == [] {
        assert a + b == a;
      } else {
        PredictedFails(a, b[..|b| - 1]);
        assert (a + b)[..|a + b| - 1] == a + b[..|b| - 1];
      }
    }

    /** One n-gram more extends `Predicted` of a prefix by that n-gram's probability. */
    lemma PredictedNext(ngrams: seq<seq<string>>, i: nat)
      requires Valid() && i < |ngrams|
      ensures Predicted(ngrams[..i + 1]) == match Predicted(ngrams[..i])
        case Err(e) => Err(e)
        case Ok(done) => match ProbabilityOf(ngrams[i])
          case Err(e) => Err(e)
          case Ok(p) => Ok(done + [p])
    {
      assert ngrams[..i + 1][..i] == ngrams[..i];
    }

    /** A failure among the first `i` n-grams is the result for all of them. */
    lemma PredictedPrefixFails(ngrams: seq<seq<string>>, i: nat)
      requires Valid() && i <= |ngrams| && Predicted(ngrams[..i]).Err?
      ensures Predicted(ngrams) == Predicted(ngrams[..i])
    {
      PredictedFails(ngrams[..i], ngrams[i..]);
      assert ngrams[..i] + ngrams[i..] == ngrams;
    }

    /** `Predicted` of the whole prefix is `Predicted` of the n-grams. */
    lemma PredictedPrefixAll(ngrams: seq<seq<string>>)
      requires Valid()
      ensures Predicted(ngrams[..|ngrams|]) == Predicted(ngrams)
    {
      assert ngrams[..|ngrams|] == ngrams;
    }

    /**
     * `probability(sequence, predict_all=True)`: the probability of every
     * prefix's last `n` tokens, in order; the first failure is the result.
     */
    method ProbabilityAll(sequence: seq<string>) returns (r: Result<seq<real>>)
      requires Valid()
      ensures r == Predicted(Windows(sequence, n))
    {
      ghost var windows := Windows(sequence, n);
      var window: seq<string> := [];
      var probabilities: seq<real> := [];
      var i := 0;
      while i < |sequence|
        invariant 0 <= i <= |sequence|
        invariant window == if i == 0 then [] else windows[i - 1]
        invariant Predicted(windows[..i]) == Ok(probabilities)
      {
        WindowNext(sequence, i, n);
        window := Push(window, sequence[i], n);
        PredictedNext(windows, i);
        var p := ProbabilityOf(window);
        if p.Err? {
          PredictedPrefixFails(windows, i + 1);
          return Err(p.error);
        }
        probabilities := probabilities + [p.value];
        i := i + 1;
      }
      PredictedPrefixAll(windows);
      return Ok(probabilities);
    }

    /**
     * The probabilities `probability(sequence, predict_all=True)` gives: the
     * first failure or, on success, one per token, that of the window ending
     * there; while only `train` has inserted and `n >= 1`, there is no failure
     * and every probability lies between 0 and 1.
     */
    lemma ProbabilitiesOfWindows(sequence: seq<string>)
      requires Valid()
      ensures var r := Predicted(Windows(sequence, n));
        && (r.Ok? ==> |r.value| == |sequence| && forall i :: 0 <= i < |sequence| ==> ProbabilityOf(Window(sequence, i, n)) == Ok(r.value[i]))
        && (r.Err? ==> exists i :: 0 <= i < |sequence| && ProbabilityOf(Window(sequence, i, n)) == Err(r.error)
                                   && forall j :: 0 <= j < i ==> ProbabilityOf(Window(sequence, j, n)).Ok?)
        && (OnlyTrained() && n >= 1 ==> r.Ok? && forall i :: 0 <= i < |r.value| ==> 0.0 <= r.value[i] <= 1.0)
    {
      var windows := Windows(sequence, n);
      PredictedOk(windows);
      PredictedErr(windows);
      PredictedTrained(windows);
    }

    /** `probability(sequence)`: the probability of the last `n` tokens. */
    function ProbabilityLast(sequence: seq<string>): (r: Result<real>)
      reads this, counts, counts.Repr
      requires Valid()
      ensures OnlyTrained() && n >= 1 && sequence != [] ==> r.Ok? && 0.0 <= r.value <= 1.0
      ensures n == 0 ==> (r.Err? <==> counts.total > 0)
    {
      ProbabilityBounded(LastN(sequence, n));
      ProbabilityOf(LastN(sequence, n))
    }

    /**
     * `completions` as it is meant to behave: every stored key extending
     * `prefix`, with its count; when filtering, only those with a required
     * word among the pieces between separators.
     */
    function Completions(prefix: string): (r: seq<(string, nat)>)
      reads this, counts, counts.Repr
      requires Valid()
      ensures DistinctKeys(r)
      ensures forall k, c :: (k, c) in r <==>
        && |k| > |prefix| && k[..|prefix|] == prefix && c > 0 && Get(counts.Counts(), k) == c
        && (Filtering(Settings()) ==> AnyIn(Split(k, splitchar), mustContain.value))
    {
      var found := counts.Completions(prefix, true);
      if !Filtering(Settings()) then found
      else
        RequiredMembers(found, mustContain.value, splitchar);
        RequiredDistinct(found, mustContain.value, splitchar);
        Required(found, mustContain.value, splitchar)
    }

    /**
     * `completions` as written: without filtering, the function is still a
     * generator, so its `return` of the tree's completions yields nothing;
     * with filtering, keys are cut at `'#'` whatever the separator is.
     */
    function CompletionsAsWritten(prefix: string): (r: seq<(string, nat)>)
      reads this, counts, counts.Repr
      requires Valid()
      ensures !Filtering(Settings()) ==> r == []
      ensures Filtering(Settings()) ==> forall k, c :: (k, c) in r <==>
        && |k| > |prefix| && k[..|prefix|] == prefix && c > 0 && Get(counts.Counts(), k) == c
        && AnyIn(Split(k, '#'), mustContain.value)
    {
      if !Filtering(Settings()) then []
      else
        var found := counts.Completions(prefix, true);
        RequiredMembers(found, mustContain.value, '#');
        Required(found, mustContain.value, '#')
    }

    /** Without filtering, every stored key is lost by the written `completions` but given by the intended one. */
    lemma CompletionsLost(k: string)
      requires Valid() && !Filtering(Settings())
      requires k != [] && Get(counts.Counts(), k) > 0
      ensures (k, Get(counts.Counts(), k)) in Completions([])
      ensures (k, Get(counts.Counts(), k)) !in CompletionsAsWritten([])
    {
      assert k[..0] == [];
    }

    /**
     * The rows of `all_target_probabilities` for the given n-grams: each with
     * its frequency and probability, in order; the first failing probability
     * is the result.
     */
    function Scored(rows: seq<(seq<string>, nat)>): Result<seq<TargetProbability>>
      reads this, counts, counts.Repr
      requires Valid()
    {
      if rows == [] then Ok([])
      else
        var (ngram, frequency) := rows[|rows| - 1];
        match Scored(rows[..|rows| - 1])
        case Err(e) => Err(e)
        case Ok(done) =>
          match ProbabilityOf(ngram)
          case Err(e) => Err(e)
          case Ok(p) => Ok(done + [TargetProbability(ngram, frequency, p)])
    }

    /** A successful `Scored` has one row per n-gram, with its frequency and its probability. */
    lemma {:induction false} ScoredOk(rows: seq<(seq<string>, nat)>)
      requires Valid()
      ensures var r := Scored(rows);
        r.Ok? ==> |r.value| == |rows| && forall i :: 0 <= i < |rows| ==>
          r.value[i].ngram == rows[i].0 && r.value[i].frequency == rows[i].1 && ProbabilityOf(rows[i].0) == Ok(r.value[i].probability)
    {
      if rows != [] {
        ScoredOk(rows[..|rows| - 1]);
      }
    }

    /** A failing `Scored` fails as the probability of one of the n-grams does. */
    lemma {:induction false} ScoredErr(rows: seq<(seq<string>, nat)>)
      requires Valid()
      ensures Scored(rows).Err? ==> exists i :: 0 <= i < |rows| && ProbabilityOf(rows[i].0) == Err(Scored(rows).error)
    {
      if rows != [] {
        var front := rows[..|rows| - 1];
        ScoredErr(front);
        if Scored(rows).Err? && Scored(front).Err? {
          var i :| 0 <= i < |front| && ProbabilityOf(front[i].0) == Err(Scored(front).error);
          assert rows[i] == front[i];
        }
      }
    }

    /** While only `train` has inserted, `Scored` of non-empty n-grams does not fail. */
    lemma {:induction false} ScoredTrained(rows: seq<(seq<string>, nat)>)
      requires Valid()
      ensures OnlyTrained() && (forall g :: g in rows ==> g.0 != []) ==> Scored(rows).Ok?
    {
      if rows != [] {
        var front := rows[..|rows| - 1];
        assert forall g :: g in front ==> g in rows;
        ScoredTrained(front);
        ProbabilityBounded(rows[|rows| - 1].0);
      }
    }

    /** Once a row fails, more rows do not change the result. */
    lemma {:induction false} ScoredFails(a: seq<(seq<string>, nat)>, b: seq<(seq<string>, nat)>)
      requires Valid() && Scored(a).Err?
      ensures Scored(a + b) == Scored(a)
    {
      if b == [] {
        assert a + b == a;
      } else {
        ScoredFails(a, b[..|b| - 1]);
        assert (a + b)[..|a + b| - 1] == a + b[..|b| - 1];
      }
    }

    /**
     * `all_target_probabilities`: for every completion whose length in tokens
     * is one of `sizes` (by default just `n`) and whose last token is a
     * target, the n-gram, its frequency and its probability, in the order of
     * the completions; the first failure is the result.  While only `train`
     * has inserted, there is no failure and every probability lies between
     * 0 and 1.
     */
    method AllTargetProbabilities(sizes: seq<nat>) returns (r: Result<seq<TargetProbability>>)
      requires Valid()
      ensures r == Scored(TargetNGrams(Completions([]), SizesOr(sizes, n), targets, splitchar))
    {
      var found := Completions([]);
      r := ScoreTargets(found, SizesOr(sizes, n));
    }

    /** While only `train` has inserted, `all_target_probabilities` does not fail and gives probabilities between 0 and 1. */
    lemma AllTargetsBounded(sizes: seq<nat>)
      requires Valid()
      ensures var r := Scored(TargetNGrams(Completions([]), SizesOr(sizes, n), targets, splitchar));
        OnlyTrained() ==> r.Ok? && forall i :: 0 <= i < |r.value| ==> 0.0 <= r.value[i].probability <= 1.0
    {
      var found := Completions([]);
      var rows := TargetNGrams(found, SizesOr(sizes, n), targets, splitchar);
      TargetNGramsSound(found, SizesOr(sizes, n), targets, splitchar);
      ScoredTrained(rows);
      ScoredOk(rows);
      forall i | 0 <= i < |rows|
        ensures OnlyTrained() ==> ProbabilityOf(rows[i].0).Ok? && ProbabilityOf(rows[i].0).value <= 1.0
      {
        assert rows[i] in rows;
        ProbabilityBounded(rows[i].0);
      }
    }

    /** The loop of `all_target_probabilities` over the given completions. */
    method ScoreTargets(found: seq<(string, nat)>, wanted: seq<nat>) returns (r: Result<seq<TargetProbability>>)
      requires Valid()
      ensures r == Scored(TargetNGrams(found, wanted, targets, splitchar))
    {
      var rows: seq<TargetProbability> := [];
      var i := 0;
      while i < |found|
        invariant 0 <= i <= |found|
        invariant Scored(TargetNGrams(found[..i], wanted, targets, splitchar)) == Ok(rows)
      {
        var (key, frequency) := found[i];
        var ngram := Split(key, splitchar);
        TargetNGramsNext(found, i, wanted, targets, splitchar);
        if |ngram| in wanted && targets.Contains(ngram[|ngram| - 1]) {
          ScoredSnoc(TargetNGrams(found[..i], wanted, targets, splitchar), (ngram, frequency));
          var p := ProbabilityOf(ngram);
          if p.Err? {
            ScoredPrefixFails(found, i + 1, wanted);
            return Err(p.error);
          }
          rows := rows + [TargetProbability(ngram, frequency, p.value)];
        } else {
          assert TargetNGrams(found[..i], wanted, targets, splitchar) + [] == TargetNGrams(found[..i], wanted, targets, splitchar);
        }
        i := i + 1;
      }
      assert found[..i] == found;
      r := Ok(rows);
    }

    /** `Scored` of one more row: the earlier rows' result, then that row's probability. */
    lemma ScoredSnoc(rows: seq<(seq<string>, nat)>, g: (seq<string>, nat))
      requires Valid()
      ensures Scored(rows + [g]) == match Scored(rows)
        case Err(e) => Err(e)
        case Ok(done) => match ProbabilityOf(g.0)
          case Err(e) => Err(e)
          case Ok(p) => Ok(done + [TargetProbability(g.0, g.1, p)])
    {
      assert (rows + [g])[..|rows|] == rows;
    }

    /** A failure among the first `i` completions is the result for all of them. */
    lemma ScoredPrefixFails(found: seq<(string, nat)>, i: nat, wanted: seq<nat>)
      requires Valid() && i <= |found|
      requires Scored(TargetNGrams(found[..i], wanted, targets, splitchar)).Err?
      ensures Scored(TargetNGrams(found, wanted, targets, splitchar)) == Scored(TargetNGrams(found[..i], wanted, targets, splitchar))
    {
      TargetNGramsAppend(found[..i], found[i..], wanted, targets, splitchar);
      assert found[..i] + found[i..] == found;
      ScoredFails(TargetNGrams(found[..i], wanted, targets, splitchar), TargetNGrams(found[i..], wanted, targets, splitchar));
    }

    /** `n_gram in model`: the key is stored with a positive count. */
    function Contains(s: string): (r: bool)
      reads this, counts, counts.Repr
      requires Valid()
      ensures s != [] ==> (r <==> Get(counts.Counts(), s) > 0)
      ensures OnlyTrained() && s != [] && s in Trained ==> r
    {
      TrainedStored(s);
      counts.Contains(s) > 0
    }

    /**
     * The model of the tests of `train`: every token in the vocabulary and
     * a target, no `must_contain` filter, and trained once on `s`, a stream
     * of plain tokens.
     */
    ghost predicate TrainedOnce(s: seq<string>)
      reads this, counts
    {
      && vocabulary == Corpus.Everything && targets == Corpus.Everything && !Filtering(Settings())
      && OnlyTrained() && Trained == TrainedKeys(Events(s, Settings()), Settings())
      && Plain(s, boundary, splitchar)
    }

    /**
     * In a model trained once on `s`, the frequency of an n-gram of at most
     * `n` plain tokens without the boundary is what counting the n-grams of
     * `s` gives: its occurrences, and for no tokens the number of tokens
     * other than the boundary.
     */
    lemma FrequencyIsStreamCount(s: seq<string>, g: seq<string>)
      requires Valid() && TrainedOnce(s)
      requires |g| <= n && boundary !in g && PlainTokens(g, splitchar)
      ensures Frequency(g) == StreamCount(s, g, boundary)
    {
      TrainedCounts();
      if g == [] {
        KeyCount(s, Settings());
      } else {
        JoinPlain(g, splitchar);
        TrainedOccurrences(s, Settings(), g);
      }
    }

    /** In a model trained once on `s`, every token of `s` other than the boundary is in the model. */
    lemma TokensStored(s: seq<string>, i: nat)
      requires Valid() && TrainedOnce(s) && n >= 1
      requires i < |s| && s[i] != boundary
      ensures Contains(s[i])
    {
      var g := [s[i]];
      assert s[i] in s;
      FrequencyIsStreamCount(s, g);
      assert Corpus.NGrams(s, 1)[i] == g;
      CountOfMember(Corpus.NGrams(s, 1), g);
    }

    /**
     * In a model trained once on `s`, `all_target_probabilities` gives, for
     * every n-gram, the count of its n-grams in `s` as frequency, and as
     * probability that count over the count of its history.
     */
    lemma AllTargetsAreStreamCounts(s: seq<string>, sizes: seq<nat>)
      requires Valid() && TrainedOnce(s)
      ensures var r := Scored(TargetNGrams(Completions([]), SizesOr(sizes, n), targets, splitchar));
        r.Ok? && forall i :: 0 <= i < |r.value| ==> StreamRow(s, r.value[i], boundary)
    {
      var found := Completions([]);
      var wanted := SizesOr(sizes, n);
      var rows := TargetNGrams(found, wanted, targets, splitchar);
      AllTargetsBounded(sizes);
      ScoredOk(rows);
      TargetNGramsSound(found, wanted, targets, splitchar);
      var r := Scored(rows);
      forall i | 0 <= i < |r.value|
        ensures StreamRow(s, r.value[i], boundary)
      {
        assert rows[i] in rows;
        ReportedRow(s, rows[i], wanted, r.value[i]);
      }
    }

    /** A row scored from a reported completion of a model trained once on `s` holds the counts of `s`. */
    lemma ReportedRow(s: seq<string>, g: (seq<string>, nat), wanted: seq<nat>, row: TargetProbability)
      requires Valid() && TrainedOnce(s)
      requires Reported(g, Completions([]), wanted, targets, splitchar)
      requires row.ngram == g.0 && row.frequency == g.1 && ProbabilityOf(g.0) == Ok(row.probability)
      ensures StreamRow(s, row, boundary)
    {
      RowShape(s, g, wanted);
      RowIsStreamCount(s, g.0, g.1, row.probability);
    }

    /** One row of a model trained once on `s`, for an n-gram of the shape training gives: its counts are those of `s`. */
    lemma RowIsStreamCount(s: seq<string>, ngram: seq<string>, frequency: nat, p: real)
      requires Valid() && TrainedOnce(s)
      requires 1 <= |ngram| <= n && boundary !in ngram && PlainTokens(ngram, splitchar)
      requires frequency == Frequency(ngram) > 0 && ProbabilityOf(ngram) == Ok(p)
      ensures frequency == StreamCount(s, ngram, boundary)
      ensures StreamCount(s, ngram[..|ngram| - 1], boundary) > 0
      ensures p == frequency as real / StreamCount(s, ngram[..|ngram| - 1], boundary) as real
    {
      var history := ngram[..|ngram| - 1];
      StartShape(history, ngram, Settings());
      FrequencyIsStreamCount(s, ngram);
      FrequencyIsStreamCount(s, history);
      ProbabilityRatio(ngram, p);
    }

    /** A probability of a seen n-gram is its frequency over its history's, which is positive. */
    lemma ProbabilityRatio(ngram: seq<string>, p: real)
      requires Valid() && ngram != [] && Frequency(ngram) > 0 && ProbabilityOf(ngram) == Ok(p)
      ensures Frequency(ngram[..|ngram| - 1]) > 0
      ensures p == Frequency(ngram) as real / Frequency(ngram[..|ngram| - 1]) as real
    {
    }

    /** A reported row of a model trained once: its n-gram has the shape of a trained one, and its frequency is the n-gram's. */
    lemma RowShape(s: seq<string>, g: (seq<string>, nat), wanted: seq<nat>)
      requires Valid() && TrainedOnce(s)
      requires Reported(g, Completions([]), wanted, targets, splitchar)
      ensures 1 <= |g.0| <= n && boundary !in g.0 && PlainTokens(g.0, splitchar)
      ensures g.1 == Frequency(g.0) > 0
    {
      var k := Join(g.0, splitchar);
      assert (k, g.1) in Completions([]);
      assert k != [] && g.1 > 0 && Get(counts.Counts(), k) == g.1;
      TrainedCounts();
      TouchedKeyShape(s, Settings(), k);
    }

    /** While only `train` has inserted, every non-empty trained key is stored. */
    lemma TrainedStored(s: string)
      requires Valid()
      ensures OnlyTrained() && s != [] && s in Trained ==> Get(counts.Counts(), s) > 0
    {
      TrainedCounts();
      if OnlyTrained() && s != [] && s in Trained {
        TouchesMember(Trained, s, splitchar);
      }
    }
  }

  /** The model of the tests: `LanguageModel(n)` with its default containers, trained once on `s`. */
  method TrainedModel(n: nat, boundary: string, splitchar: char, s: seq<string>) returns (lm: LanguageModel)
    ensures lm.Valid() && lm.n == n && lm.boundary == boundary && lm.splitchar == splitchar
    ensures Plain(s, boundary, splitchar) ==> lm.TrainedOnce(s)
  {
    lm := new LanguageModel(n, boundary, splitchar, None, None, None);
    lm.Train(s);
  }

  /** Training more keys into a tree that holds only trained keys leaves one that holds only trained keys. */
  lemma StillOnlyTrained(T0: seq<string>, M0: Shape, n0: nat, keys: seq<string>,
                         T: seq<string>, M: Shape, n: nat, sep: Option<char>)
    requires T == T0 + keys && M == InsertKeys(M0, keys, sep) && n == n0 + |keys|
    ensures M0 == InsertKeys(Empty, T0, sep) && n0 == |T0| ==> M == InsertKeys(Empty, T, sep) && n == |T|
  {
    InsertKeysAppend(Empty, T0, keys, sep);
  }

  /** Two runs of training one after the other are one run with both lists of keys. */
  lemma Chain(T0: seq<string>, M0: Shape, n0: nat, K1: seq<string>,
              T1: seq<string>, M1: Shape, n1: nat, K2: seq<string>,
              T2: seq<string>, M2: Shape, n2: nat, sep: Option<char>)
    requires T1 == T0 + K1 && M1 == InsertKeys(M0, K1, sep) && n1 == n0 + |K1|
    requires T2 == T1 + K2 && M2 == InsertKeys(M1, K2, sep) && n2 == n1 + |K2|
    ensures T2 == T0 + (K1 + K2) && M2 == InsertKeys(M0, K1 + K2, sep) && n2 == n0 + |K1 + K2|
  {
    InsertKeysAppend(M0, K1, K2, sep);
  }

  /** The n-grams the element at `i` passes on. */
  function Added(sequence: seq<string>, i: nat, c: Config): seq<seq<string>>
    requires i < |sequence|
  {
    var w := Run(sequence[..i], c).window;
    if sequence[i] == c.boundary then Flush(w, c.n) else FullWindow(Push(w, sequence[i], c.n), sequence[i], c)
  }

  /** One more element of the stream: the window moves as `Step` says, and the keys of `Added` follow. */
  lemma RunNext(sequence: seq<string>, i: nat, c: Config)
    requires i < |sequence|
    ensures Run(sequence[..i + 1], c).window
         == if sequence[i] == c.boundary then [] else Push(Run(sequence[..i], c).window, sequence[i], c.n)
    ensures TrainedKeys(Run(sequence[..i + 1], c).events, c)
         == TrainedKeys(Run(sequence[..i], c).events, c) + TrainedKeys(Added(sequence, i, c), c)
  {
    assert sequence[..i + 1][..i] == sequence[..i];
    TrainedKeysAppend(Run(sequence[..i], c).events, Added(sequence, i, c), c);
  }

  /** The keys of a single n-gram: its `TrainKey`, if any. */
  lemma OneKey(ngram: seq<string>, c: Config)
    ensures TrainedKeys([ngram], c) == match TrainKey(ngram, c) case None => [] case Some(k) => [k]
  {
    assert [ngram][..0] == [];
  }

  /** The keys `_train` inserts for one n-gram, from its in-vocabulary start. */
  lemma KeyOfOne(ngram: seq<string>, c: Config)
    ensures TrainedKeys([ngram], c)
         == var kept := TakeVocab(ngram, c.vocabulary);
            if Filtering(c) && !AnyIn(kept, c.mustContain.value) then [] else [Join(kept, c.splitchar)]
  {
    OneKey(ngram, c);
  }

  /** Inserting no keys leaves a tree as it is. */
  lemma NoKeys(t: Shape, sep: Option<char>)
    ensures InsertKeys(t, [], sep) == t
  {
  }

  /** Inserting a single key is one `Insert`. */
  lemma InsertSingle(t: Shape, key: string, sep: Option<char>)
    ensures InsertKeys(t, [key], sep) == Insert(t, key, 1, true, sep)
  {
    assert [key][..0] == [];
  }

  /** The keys of the suffixes of `w` of lengths 1 to `k`, shortest first. */
  function KeysOfSuffixes(w: seq<string>, k: nat, c: Config): seq<string>
    requires k <= |w|
  {
    if k == 0 then [] else KeysOfSuffixes(w, k - 1, c) + TrainedKeys([w[|w| - k..]], c)
  }

  /** `KeysOfSuffixes` are the keys `TrainedKeys` gives for `Suffixes`. */
  lemma {:induction false} KeysOfSuffixesAre(w: seq<string>, k: nat, c: Config)
    requires k <= |w|
    ensures KeysOfSuffixes(w, k, c) == TrainedKeys(Suffixes(w, k), c)
  {
    if k == 0 {
      assert Suffixes(w, 0) == [];
    } else {
      KeysOfSuffixesAre(w, k - 1, c);
      SuffixKeys(w, k, c);
    }
  }

  /** The keys of one suffix more are the keys so far, then the new suffix's key. */
  lemma SuffixKeys(w: seq<string>, length: nat, c: Config)
    requires 1 <= length <= |w|
    ensures TrainedKeys(Suffixes(w, length), c)
         == TrainedKeys(Suffixes(w, length - 1), c) + TrainedKeys([w[|w| - length..]], c)
  {
    assert Suffixes(w, length) == Suffixes(w, length - 1) + [w[|w| - length..]];
    TrainedKeysAppend(Suffixes(w, length - 1), [w[|w| - length..]], c);
  }

  /** The loop of `_train` stops at the first out-of-vocabulary token: what it keeps is `TakeVocab`. */
  lemma TakeVocabAt(ngram: seq<string>, vocabulary: Corpus.Container, i: nat)
    requires i <= |ngram|
    requires forall j :: 0 <= j < i ==> vocabulary.Contains(ngram[j])
    requires i < |ngram| ==> !vocabulary.Contains(ngram[i])
    ensures TakeVocab(ngram, vocabulary) == ngram[..i]
  {
  }

  /** The deque of `probability` after the element at `i`: the last `n` tokens up to it. */
  function Window(sequence: seq<string>, i: nat, n: nat): (r: seq<string>)
    requires i < |sequence|
    ensures n >= 1 ==> r != []
  {
    LastN(sequence[..i + 1], n)
  }

  /** The windows of every prefix of `sequence`, in order. */
  function Windows(sequence: seq<string>, n: nat): (r: seq<seq<string>>)
    ensures |r| == |sequence|
    ensures forall i :: 0 <= i < |r| ==> r[i] == Window(sequence, i, n)
  {
    seq(|sequence|, i requires 0 <= i < |sequence| => Window(sequence, i, n))
  }

  /** `n_gram.append(element)` moves the deque from one window to the next. */
  lemma WindowNext(sequence: seq<string>, i: nat, n: nat)
    requires i < |sequence|
    ensures Push(if i == 0 then [] else Window(sequence, i - 1, n), sequence[i], n) == Window(sequence, i, n)
  {
    if i == 0 {
      assert sequence[..1] == [sequence[0]];
    } else {
      assert sequence[..i][..i] == sequence[..i];
      PushLastN(sequence[..i], sequence[i], n);
      assert sequence[..i + 1] == sequence[..i] + [sequence[i]];
    }
  }

  /** One row of `all_target_probabilities`: the n-gram (its last token is the target), its frequency and probability. */
  datatype TargetProbability = TargetProbability(ngram: seq<string>, frequency: nat, probability: real)

  /** A row whose frequency is the number of times its n-gram occurs in the stream `s`, and whose probability is that over the count of its history, which is positive. */
  ghost predicate StreamRow(s: seq<string>, row: TargetProbability, boundary: string)
  {
    && row.ngram != []
    && row.frequency == StreamCount(s, row.ngram, boundary)
    && StreamCount(s, row.ngram[..|row.ngram| - 1], boundary) > 0
    && row.probability == row.frequency as real / StreamCount(s, row.ngram[..|row.ngram| - 1], boundary) as real
  }

  /** `if not sizes: sizes = [self.n]`. */
  function SizesOr(sizes: seq<nat>, n: nat): (r: seq<nat>)
    ensures r != [] && (sizes != [] ==> r == sizes)
  {
    if sizes == [] then [n] else sizes
  }

  /** A completion `all_target_probabilities` reports: of a wanted size, ending in a target. */
  predicate IsTarget(key: string, wanted: seq<nat>, targets: Corpus.Container, sep: char)
  {
    var g := Split(key, sep);
    |g| in wanted && targets.Contains(g[|g| - 1])
  }

  /** The completions `all_target_probabilities` reports, split into tokens, in order. */
  function TargetNGrams(found: seq<(string, nat)>, wanted: seq<nat>, targets: Corpus.Container, sep: char)
    : seq<(seq<string>, nat)>
  {
    if found == [] then []
    else
      var rest := TargetNGrams(found[..|found| - 1], wanted, targets, sep);
      var (k, c) := found[|found| - 1];
      if IsTarget(k, wanted, targets, sep) then rest + [(Split(k, sep), c)] else rest
  }

  /** A reported n-gram: non-empty, of a wanted size, ending in a target, and the pieces of a completion it joins back to. */
  predicate Reported(g: (seq<string>, nat), found: seq<(string, nat)>, wanted: seq<nat>, targets: Corpus.Container, sep: char)
  {
    && g.0 != [] && |g.0| in wanted && targets.Contains(g.0[|g.0| - 1]) && (Join(g.0, sep), g.1) in found
    && Split(Join(g.0, sep), sep) == g.0
  }

  /** Everything `TargetNGrams` reports comes from a completion of a wanted size that ends in a target. */
  lemma {:induction false} TargetNGramsSound(found: seq<(string, nat)>, wanted: seq<nat>, targets: Corpus.Container, sep: char)
    ensures forall g :: g in TargetNGrams(found, wanted, targets, sep) ==> Reported(g, found, wanted, targets, sep)
  {
    if found != [] {
      var front := found[..|found| - 1];
      TargetNGramsSound(front, wanted, targets, sep);
      var (k, c) := found[|found| - 1];
      JoinSplit(k, sep);
      forall g | g in TargetNGrams(found, wanted, targets, sep) ensures Reported(g, found, wanted, targets, sep) {
        if g in TargetNGrams(front, wanted, targets, sep) {
          assert Reported(g, front, wanted, targets, sep);
          var j :| 0 <= j < |front| && front[j] == (Join(g.0, sep), g.1);
          assert found[j] == front[j];
        } else {
          assert g == (Split(k, sep), c);
        }
      }
    }
  }

  /** Every completion of a wanted size that ends in a target is reported. */
  lemma {:induction false} TargetNGramsComplete(found: seq<(string, nat)>, wanted: seq<nat>, targets: Corpus.Container, sep: char)
    ensures forall k, c :: (k, c) in found && IsTarget(k, wanted, targets, sep) ==> (Split(k, sep), c) in TargetNGrams(found, wanted, targets, sep)
  {
    if found != [] {
      var front := found[..|found| - 1];
      TargetNGramsComplete(front, wanted, targets, sep);
      forall k, c | (k, c) in found && IsTarget(k, wanted, targets, sep)
        ensures (Split(k, sep), c) in TargetNGrams(found, wanted, targets, sep)
      {
        if (k, c) != found[|found| - 1] {
          var j :| 0 <= j < |found| && found[j] == (k, c);
          assert front[j] == (k, c);
        }
      }
    }
  }

  /** The reports for one completion more: those before, then that completion's if it is reported. */
  lemma TargetNGramsNext(found: seq<(string, nat)>, i: nat, wanted: seq<nat>, targets: Corpus.Container, sep: char)
    requires i < |found|
    ensures TargetNGrams(found[..i + 1], wanted, targets, sep)
         == TargetNGrams(found[..i], wanted, targets, sep)
            + if IsTarget(found[i].0, wanted, targets, sep) then [(Split(found[i].0, sep), found[i].1)] else []
  {
    assert found[..i + 1][..i] == found[..i];
  }

  lemma {:induction false} TargetNGramsAppend(a: seq<(string, nat)>, b: seq<(string, nat)>, wanted: seq<nat>,
                                              targets: Corpus.Container, sep: char)
    ensures TargetNGrams(a + b, wanted, targets, sep) == TargetNGrams(a, wanted, targets, sep) + TargetNGrams(b, wanted, targets, sep)
  {
    if b == [] {
      assert a + b == a;
    } else {
      TargetNGramsAppend(a, b[..|b| - 1], wanted, targets, sep);
      assert (a + b)[..|a + b| - 1] == a + b[..|b| - 1];
    }
  }

  /**
   * The filter of `completions` when filtering: the entries with a required
   * word among the pieces of the key cut at `ch`, in order.
   */
  function Required(found: seq<(string, nat)>, required: Corpus.Container, ch: char): seq<(string, nat)>
  {
    if found == [] then []
    else if AnyIn(Split(found[0].0, ch), required) then [found[0]] + Required(found[1..], required, ch)
    else Required(found[1..], required, ch)
  }

  /** `Required` keeps exactly the entries with a required piece. */
  lemma {:induction false} RequiredMembers(found: seq<(string, nat)>, required: Corpus.Container, ch: char)
    ensures forall x :: x in Required(found, required, ch) <==> x in found && AnyIn(Split(x.0, ch), required)
  {
    if found != [] {
      RequiredMembers(found[1..], required, ch);
      assert forall x :: x in found <==> x == found[0] || x in found[1..];
    }
  }

  /** `Required` of entries with distinct keys has distinct keys. */
  lemma {:induction false} RequiredDistinct(found: seq<(string, nat)>, required: Corpus.Container, ch: char)
    requires DistinctKeys(found)
    ensures DistinctKeys(Required(found, required, ch))
  {
    if found != [] {
      var rest := Required(found[1..], required, ch);
      assert DistinctKeys(found[1..]);
      RequiredDistinct(found[1..], required, ch);
      RequiredMembers(found[1..], required, ch);
      if AnyIn(Split(found[0].0, ch), required) {
        forall i | 0 < i < |[found[0]] + rest| ensures ([found[0]] + rest)[i].0 != found[0].0 {
          var x := rest[i - 1];
          assert x in rest;
          var j :| 0 <= j < |found[1..]| && found[1..][j] == x;
          assert found[j + 1] == x;
        }
      }
    }
  }

  /** Whatever the separator, cutting at `'#'` loses a key `x_y` that only `x` makes required. */
  lemma HashSplitLoses(x: string, y: string, sep: char, c: nat)
    requires sep != '#' && sep !in x && sep !in y && '#' !in x && '#' !in y
    ensures Required([(x + [sep] + y, c)], Corpus.Only({x}), '#') == []
    ensures Required([(x + [sep] + y, c)], Corpus.Only({x}), sep) == [(x + [sep] + y, c)]
  {
    var k := x + [sep] + y;
    assert '#' !in k;
    SplitWord(k, '#');
    assert k != x by { assert |k| > |x|; }
    assert !AnyIn(Split(k, '#'), Corpus.Only({x}));
    SplitWordThen(x, y, sep);
    SplitWord(y, sep);
    assert Split(k, sep)[0] == x;
    assert x in Split(k, sep) && Corpus.Only({x}).Contains(x);
  }

  /** A non-empty trained key touches itself at least once. */
  lemma {:induction false} TouchesMember(keys: seq<string>, s: string, sep: char)
    requires s != [] && s in keys
    ensures Touches(keys, s, Some(sep)) >= 1
  {
    if keys[|keys| - 1] != s {
      assert s in keys[..|keys| - 1] by {
        var j :| 0 <= j < |keys| && keys[j] == s;
        assert j < |keys| - 1;
        assert keys[..|keys| - 1][j] == s;
      }
      TouchesMember(keys[..|keys| - 1], s, sep);
    }
  }

  /** 0 <= a / b <= 1 for 0 < b and a <= b. */
  lemma Ratio(a: nat, b: nat)
    requires 0 < b
    ensures 0.0 <= a as real / b as real
    ensures a <= b ==> a as real / b as real <= 1.0
  {
  }
}
