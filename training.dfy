/**
 * What training a language model (src/corpustools/language_model.py)
 * inserts into its tree, as a pure description: the window of the last `n`
 * tokens slides over the stream, full windows are trained as they appear,
 * the shorter suffixes of a window are flushed at a boundary token and at
 * the end of the stream, and each trained n-gram is cut at its first
 * out-of-vocabulary token and possibly discarded before it becomes a key.
 */
module Training {
  import opened Wrappers
  import opened Text
  import opened TstSpec
  import Corpus

  /** The settings of a model, after the constructor's defaults are applied. */
  datatype Config = Config(
    n: nat,
    boundary: string,
    splitchar: char,
    vocabulary: Corpus.Container,
    targets: Corpus.Container,
    mustContain: Option<Corpus.Container>)

  /** `if self.must_contain:`, a missing or empty container is false, the dummy container true. */
  predicate Filtering(c: Config)
  {
    c.mustContain.Some? && (c.mustContain.value.Everything? || c.mustContain.value.items != {})
  }

  // ---------------------------------------------------------------------------
  // The window

  /** The last `n` elements of `s` (all of them when there are fewer). */
  function LastN(s: seq<string>, n: nat): (r: seq<string>)
    ensures |r| == if |s| <= n then |s| else n
    ensures r == s[|s| - |r|..]
  {
    if |s| <= n then s else s[|s| - n..]
  }

  /** `deque.append` on a deque with `maxlen = n`. */
  function Push(w: seq<string>, e: string, n: nat): seq<string>
  {
    LastN(w + [e], n)
  }

  /** Appending to the last `n` elements keeps the last `n` of the longer sequence. */
  lemma PushLastN(s: seq<string>, e: string, n: nat)
    ensures Push(LastN(s, n), e, n) == LastN(s + [e], n)
  {
    var w := LastN(s, n);
    assert (s + [e])[|s + [e]| - |LastN(s + [e], n)|..] == (w + [e])[|w + [e]| - |LastN(s + [e], n)|..];
  }

  /** `list(n_gram)[:-1]`: all but the last element. */
  function DropLast(w: seq<string>): seq<string>
  {
    if w == [] then [] else w[..|w| - 1]
  }

  /** How many suffixes a flush trains: all lengths from 1, except the full window when it was already trained. */
  function FlushCount(w: seq<string>, n: nat): nat
  {
    if |w| == n then (if n == 0 then 0 else n - 1) else |w|
  }

  /** The last `k` suffixes of `w`, shortest first: `w[-1:]`, `w[-2:]`, and so on. */
  function Suffixes(w: seq<string>, k: nat): (r: seq<seq<string>>)
    requires k <= |w|
    ensures |r| == k
    ensures forall i :: 0 <= i < k ==> r[i] == w[|w| - (i + 1)..]
  {
    seq(k, i requires 0 <= i < k => w[|w| - (i + 1)..])
  }

  /** The suffixes a flush trains. */
  function Flush(w: seq<string>, n: nat): (r: seq<seq<string>>)
    ensures |r| == FlushCount(w, n)
    ensures forall i :: 0 <= i < |r| ==> r[i] == w[|w| - (i + 1)..]
  {
    Suffixes(w, FlushCount(w, n))
  }

  /**
   * The end of the stream drops the first token of a full window and then
   * trains every suffix of what remains: the same n-grams as a flush.
   */
  lemma FinalFlush(w: seq<string>, n: nat)
    requires |w| <= n
    ensures var rest := if |w| == n && w != [] then w[1..] else if |w| == n then [] else w;
      Suffixes(rest, |rest|) == Flush(w, n)
  {
  }

  /** A flush never retrains a full window: every flushed n-gram is non-empty and shorter than `n`. */
  lemma FlushShort(w: seq<string>, n: nat)
    requires |w| <= n
    ensures forall ev :: ev in Flush(w, n) ==> 0 < |ev| < n
  {
  }

  /** The window and the n-grams trained so far. */
  datatype Scan = Scan(window: seq<string>, events: seq<seq<string>>)

  /**
   * One token of `train`: a boundary flushes and clears the window; any
   * other token enters the window, and a full window is trained, without
   * its last token when that token is not a target.
   */
  function Step(st: Scan, e: string, c: Config): Scan
  {
    if e == c.boundary then Scan([], st.events + Flush(st.window, c.n))
    else
      var w := Push(st.window, e, c.n);
      Scan(w, st.events + FullWindow(w, e, c))
  }

  /** The n-grams one token trains: the full window, without its last token when that is not a target. */
  function FullWindow(w: seq<string>, e: string, c: Config): seq<seq<string>>
  {
    if |w| == c.n then [if c.targets.Contains(e) then w else DropLast(w)] else []
  }

  /** The state after the tokens of `s`. */
  function Run(s: seq<string>, c: Config): Scan
  {
    if s == [] then Scan([], []) else Step(Run(s[..|s| - 1], c), s[|s| - 1], c)
  }

  /** Every n-gram `train` passes on, in order: those of the loop, then the final flush. */
  function Events(s: seq<string>, c: Config): seq<seq<string>>
  {
    var st := Run(s, c);
    st.events + Flush(st.window, c.n)
  }

  /** The number of tokens that are not the boundary. */
  function NonBoundary(s: seq<string>, boundary: string): nat
  {
    if s == [] then 0 else NonBoundary(s[..|s| - 1], boundary) + (if s[|s| - 1] == boundary then 0 else 1)
  }

  /** `ev` occurs in `s` as a contiguous run of tokens: it starts some suffix of `s`. */
  predicate IsSlice(ev: seq<string>, s: seq<string>)
  {
    ev <= s || (s != [] && IsSlice(ev, s[1..]))
  }

  /** Every `s[i..j]` is a run of `s`. */
  lemma {:induction false} SliceAt(ev: seq<string>, s: seq<string>, i: nat, j: nat)
    requires i <= j <= |s| && ev == s[i..j]
    ensures IsSlice(ev, s)
    decreases i
  {
    if i > 0 {
      SliceAt(ev, s[1..], i - 1, j - 1);
    }
  }

  /** A run of `s` is a run of any extension of `s`. */
  lemma {:induction false} SliceGrow(ev: seq<string>, s: seq<string>, e: string)
    requires IsSlice(ev, s)
    ensures IsSlice(ev, s + [e])
    decreases |s|
  {
    if !(ev <= s) {
      SliceGrow(ev, s[1..], e);
      assert (s + [e])[1..] == s[1..] + [e];
    }
  }

  /** `ev` is a run of `s` without the boundary. */
  predicate Fits(ev: seq<string>, s: seq<string>, boundary: string)
  {
    boundary !in ev && IsSlice(ev, s)
  }

  /**
   * The window holds at most `n` tokens, and each token read that is not the
   * boundary has been, or will be at the next flush, trained once.
   */
  predicate Counted(st: Scan, s: seq<string>, c: Config)
  {
    |st.window| <= c.n && |st.events| + FlushCount(st.window, c.n) == NonBoundary(s, c.boundary)
  }

  /**
   * The window is the end of the stream read so far and holds no boundary,
   * and each n-gram trained is a run of the stream without a boundary.
   */
  ghost predicate Placed(st: Scan, s: seq<string>, c: Config)
  {
    && |st.window| <= |s|
    && st.window == s[|s| - |st.window|..]
    && c.boundary !in st.window
    && (forall ev :: ev in st.events ==> Fits(ev, s, c.boundary))
  }

  /** A longer stream keeps every run of a shorter one. */
  lemma SlicesGrow(events: seq<seq<string>>, s: seq<string>, e: string, boundary: string)
    requires forall ev :: ev in events ==> Fits(ev, s, boundary)
    ensures forall ev :: ev in events ==> Fits(ev, s + [e], boundary)
  {
    forall ev | ev in events ensures Fits(ev, s + [e], boundary) {
      SliceGrow(ev, s, e);
    }
  }

  /** Every prefix of a stream is counted. */
  lemma {:induction false} RunCounted(s: seq<string>, c: Config)
    ensures Counted(Run(s, c), s, c)
  {
    if s != [] {
      var init, e := s[..|s| - 1], s[|s| - 1];
      RunCounted(init, c);
      var st := Run(init, c);
      if e != c.boundary {
        PushCount(st.window, e, c.n);
      }
    }
  }

  /** Every prefix of a stream is placed. */
  lemma {:induction false} RunPlaced(s: seq<string>, c: Config)
    ensures Placed(Run(s, c), s, c)
  {
    if s != [] {
      var init, e := s[..|s| - 1], s[|s| - 1];
      assert s == init + [e];
      RunPlaced(init, c);
      var st := Run(init, c);
      if e == c.boundary {
        BoundaryPlaced(st, init, e, c);
      } else {
        TokenPlaced(st, init, e, c);
      }
    }
  }

  /** A boundary flushes the window into runs of the stream and clears it. */
  lemma BoundaryPlaced(st: Scan, init: seq<string>, e: string, c: Config)
    requires Placed(st, init, c) && e == c.boundary
    ensures Placed(Scan([], st.events + Flush(st.window, c.n)), init + [e], c)
  {
    var s := init + [e];
    SlicesGrow(st.events, init, e, c.boundary);
    FlushSlices(st.window, c.n, c.boundary, s, |init|);
    AllFit(st.events, Flush(st.window, c.n), s, c.boundary);
  }

  /** Any other token enters the window, and what a full window trains is a run of the stream. */
  lemma TokenPlaced(st: Scan, init: seq<string>, e: string, c: Config)
    requires Placed(st, init, c) && e != c.boundary
    ensures var w := Push(st.window, e, c.n);
      Placed(Scan(w, st.events + FullWindow(w, e, c)), init + [e], c)
  {
    var s := init + [e];
    var w := Push(st.window, e, c.n);
    PushSuffix(st.window, init, e, c.n);
    WindowFits(w, st.window, s, e, c.boundary);
    DropLastFits(w, s, c.boundary);
    SlicesGrow(st.events, init, e, c.boundary);
    AllFit(st.events, FullWindow(w, e, c), s, c.boundary);
  }

  /** The pushed window is a run of the stream without a boundary. */
  lemma WindowFits(w: seq<string>, window: seq<string>, s: seq<string>, e: string, boundary: string)
    requires |w| <= |s| && w == s[|s| - |w|..] && s != [] && s[|s| - 1] == e
    requires w == LastN(window + [e], |w|) && boundary !in window && e != boundary
    ensures Fits(w, s, boundary)
  {
    assert forall x :: x in w ==> x in window || x == e;
    SliceAt(w, s, |s| - |w|, |s|);
  }

  /** Two lists of runs without a boundary together are such a list. */
  lemma AllFit(a: seq<seq<string>>, b: seq<seq<string>>, s: seq<string>, boundary: string)
    requires forall ev :: ev in a ==> Fits(ev, s, boundary)
    requires forall ev :: ev in b ==> Fits(ev, s, boundary)
    ensures forall ev :: ev in a + b ==> Fits(ev, s, boundary)
  {
  }

  /** Dropping the last token of a run leaves a run. */
  lemma {:induction false} DropLastFits(w: seq<string>, s: seq<string>, boundary: string)
    requires Fits(w, s, boundary)
    ensures Fits(DropLast(w), s, boundary)
    decreases |s|
  {
    assert forall x :: x in DropLast(w) ==> x in w;
    if !(w <= s) {
      DropLastFits(w, s[1..], boundary);
    }
  }

  /** A push adds one to the n-grams still to be trained, counting the full window trained at once. */
  lemma PushCount(w: seq<string>, e: string, n: nat)
    requires |w| <= n
    ensures |Push(w, e, n)| <= n
    ensures (if |Push(w, e, n)| == n then 1 else 0) + FlushCount(Push(w, e, n), n) == FlushCount(w, n) + 1
  {
  }

  /** The pushed window is again the end of the stream. */
  lemma PushSuffix(w: seq<string>, s: seq<string>, e: string, n: nat)
    requires |w| <= |s| && w == s[|s| - |w|..]
    ensures |Push(w, e, n)| <= |s| + 1
    ensures Push(w, e, n) == (s + [e])[|s| + 1 - |Push(w, e, n)|..]
  {
    var v := w + [e];
    assert v == (s + [e])[|s| - |w|..];
  }

  /** Flushing a window that ends the stream read so far trains runs of the stream without a boundary. */
  lemma FlushSlices(w: seq<string>, n: nat, boundary: string, s: seq<string>, end: nat)
    requires end <= |s| && |w| <= end && w == s[end - |w|..end] && boundary !in w
    ensures forall ev :: ev in Flush(w, n) ==> Fits(ev, s, boundary)
  {
    var f := Flush(w, n);
    forall i | 0 <= i < |f| ensures Fits(f[i], s, boundary) {
      SuffixRun(w, s, end, i + 1);
    }
  }

  /** A suffix of a window that ends at `end` is the run of `s` before `end`. */
  lemma SuffixRun(w: seq<string>, s: seq<string>, end: nat, len: nat)
    requires end <= |s| && |w| <= end && w == s[end - |w|..end] && len <= |w|
    ensures IsSlice(w[|w| - len..], s)
    ensures forall x :: x in w[|w| - len..] ==> x in w
  {
    assert w[|w| - len..] == s[end - len..end];
    SliceAt(w[|w| - len..], s, end - len, end);
  }

  /** No trained n-gram holds the boundary or reaches across it: each is a boundary-free run of the stream. */
  lemma EventsWithinUnits(s: seq<string>, c: Config)
    ensures forall ev :: ev in Events(s, c) ==> c.boundary !in ev && IsSlice(ev, s)
  {
    RunPlaced(s, c);
    var st := Run(s, c);
    FlushSlices(st.window, c.n, c.boundary, s, |s|);
    forall ev | ev in Events(s, c) ensures c.boundary !in ev && IsSlice(ev, s) {
      assert Fits(ev, s, c.boundary);
    }
  }

  /** Each token that is not the boundary leads to exactly one trained n-gram. */
  lemma EventCount(s: seq<string>, c: Config)
    ensures |Events(s, c)| == NonBoundary(s, c.boundary)
  {
    RunCounted(s, c);
  }

  /**
   * The n-grams of a five-token stream `A B C D E` with `n = 3` and every
   * token a target: three full windows, then the last window's suffixes.
   */
  lemma TrainExample(A: string, B: string, C: string, D: string, E: string, c: Config)
    requires c.n == 3 && c.targets == Corpus.Everything && c.boundary !in [A, B, C, D, E]
    ensures Events([A, B, C, D, E], c) == [[A, B, C], [B, C, D], [C, D, E], [E], [D, E]]
  {
    var cde := [C, D, E];
    ExampleRun(A, B, C, D, E, c);
    assert Flush(cde, 3) == [[E], [D, E]] by {
      assert cde[2..] == [E] && cde[1..] == [D, E];
    }
  }

  /** The scan of the example stream, token by token. */
  lemma ExampleRun(A: string, B: string, C: string, D: string, E: string, c: Config)
    requires c.n == 3 && c.targets == Corpus.Everything && c.boundary !in [A, B, C, D, E]
    ensures Run([A, B, C, D, E], c) == Scan([C, D, E], [[A, B, C], [B, C, D], [C, D, E]])
  {
    var abc, bcd, cde := [A, B, C], [B, C, D], [C, D, E];
    ExampleFour(A, B, C, D, c);
    RunSnoc([A, B, C, D], E, c);
    assert [A, B, C, D] + [E] == [A, B, C, D, E];
    assert Push(bcd, E, 3) == cde by {
      assert (bcd + [E])[1..] == cde;
    }
  }

  lemma ExampleFour(A: string, B: string, C: string, D: string, c: Config)
    requires c.n == 3 && c.targets == Corpus.Everything && c.boundary !in [A, B, C, D]
    ensures Run([A, B, C, D], c) == Scan([B, C, D], [[A, B, C], [B, C, D]])
  {
    var abc, bcd := [A, B, C], [B, C, D];
    ExampleThree(A, B, C, c);
    RunSnoc(abc, D, c);
    assert abc + [D] == [A, B, C, D];
    assert Push(abc, D, 3) == bcd by {
      assert (abc + [D])[1..] == bcd;
    }
  }

  lemma ExampleThree(A: string, B: string, C: string, c: Config)
    requires c.n == 3 && c.targets == Corpus.Everything && c.boundary !in [A, B, C]
    ensures Run([A, B, C], c) == Scan([A, B, C], [[A, B, C]])
  {
    RunSnoc([], A, c);
    assert [] + [A] == [A];
    RunSnoc([A], B, c);
    assert [A] + [B] == [A, B];
    RunSnoc([A, B], C, c);
    assert [A, B] + [C] == [A, B, C];
  }

  /** Scanning one more token is one more step. */
  lemma RunSnoc(s: seq<string>, e: string, c: Config)
    ensures Run(s + [e], c) == Step(Run(s, c), e, c)
  {
    assert (s + [e])[..|s|] == s;
  }

  // ---------------------------------------------------------------------------
  // From n-grams to keys

  /** The tokens before the first one outside the vocabulary. */
  function TakeVocab(ngram: seq<string>, vocabulary: Corpus.Container): (r: seq<string>)
    ensures r <= ngram
    ensures forall w :: w in r ==> vocabulary.Contains(w)
    ensures |r| < |ngram| ==> !vocabulary.Contains(ngram[|r|])
  {
    if ngram == [] || !vocabulary.Contains(ngram[0]) then []
    else [ngram[0]] + TakeVocab(ngram[1..], vocabulary)
  }

  /** Some token of `words` is in the container. */
  predicate AnyIn(words: seq<string>, c: Corpus.Container)
  {
    exists w :: w in words && c.Contains(w)
  }

  /**
   * The key `_train` inserts for an n-gram: its in-vocabulary start joined
   * by the separator; none when filtering and no kept token is required.
   */
  function TrainKey(ngram: seq<string>, c: Config): (r: Option<string>)
    ensures r.None? <==> Filtering(c) && !AnyIn(TakeVocab(ngram, c.vocabulary), c.mustContain.value)
    ensures r.Some? ==> r.value == Join(TakeVocab(ngram, c.vocabulary), c.splitchar)
  {
    var kept := TakeVocab(ngram, c.vocabulary);
    if Filtering(c) && !AnyIn(kept, c.mustContain.value) then None
    else Some(Join(kept, c.splitchar))
  }

  /** The keys inserted for a list of n-grams, in order. */
  function TrainedKeys(events: seq<seq<string>>, c: Config): (r: seq<string>)
    ensures |r| <= |events|
    ensures !Filtering(c) ==> |r| == |events|
  {
    if events == [] then []
    else
      var rest := TrainedKeys(events[..|events| - 1], c);
      match TrainKey(events[|events| - 1], c)
      case None => rest
      case Some(k) => rest + [k]
  }

  lemma {:induction false} TrainedKeysAppend(a: seq<seq<string>>, b: seq<seq<string>>, c: Config)
    ensures TrainedKeys(a + b, c) == TrainedKeys(a, c) + TrainedKeys(b, c)
    decreases |b|
  {
    if b == [] {
      assert a + b == a;
    } else {
      var b' := b[..|b| - 1];
      assert (a + b)[..|a + b| - 1] == a + b';
      assert (a + b)[|a + b| - 1] == b[|b| - 1];
      TrainedKeysAppend(a, b', c);
    }
  }

  /** Without a `must_contain` filter every non-boundary token inserts exactly one key. */
  lemma KeyCount(s: seq<string>, c: Config)
    requires !Filtering(c)
    ensures |TrainedKeys(Events(s, c), c)| == NonBoundary(s, c.boundary)
  {
    EventCount(s, c);
  }

  // ---------------------------------------------------------------------------
  // Keys into the tree

  /** An n-gram given to `insert`: a string already joined, or its words. */
  datatype NGram = Joined(text: string) | Words(words: seq<string>)

  /** The string `insert` passes to the tree: the words joined by the separator. */
  function KeyOf(g: NGram, sep: char): string
  {
    match g
    case Joined(s) => s
    case Words(ws) => Join(ws, sep)
  }

  /** The tree after weighted inserts of `items`, oldest first. */
  function InsertPairs(t: Shape, items: seq<(NGram, nat)>, subsequences: bool, sep: char): Shape
  {
    if items == [] then t
    else
      var (g, f) := items[|items| - 1];
      Insert(InsertPairs(t, items[..|items| - 1], subsequences, sep), KeyOf(g, sep), f, subsequences, Some(sep))
  }

  /** The tree after one-argument inserts of `keys`, oldest first. */
  function InsertKeys(t: Shape, keys: seq<string>, sep: Option<char>): Shape
  {
    if keys == [] then t else Insert(InsertKeys(t, keys[..|keys| - 1], sep), keys[|keys| - 1], 1, true, sep)
  }

  lemma {:induction false} InsertKeysAppend(t: Shape, a: seq<string>, b: seq<string>, sep: Option<char>)
    ensures InsertKeys(t, a + b, sep) == InsertKeys(InsertKeys(t, a, sep), b, sep)
    decreases |b|
  {
    if b == [] {
      assert a + b == a;
    } else {
      var b' := b[..|b| - 1];
      assert (a + b)[..|a + b| - 1] == a + b';
      assert (a + b)[|a + b| - 1] == b[|b| - 1];
      InsertKeysAppend(t, a, b', sep);
    }
  }

  /**
   * One-argument inserts keep the tree ordered, and its table of positive
   * counts is the table-level effect of the same inserts.
   */
  lemma {:induction false} InsertKeysTable(t: Shape, keys: seq<string>, sep: Option<char>)
    requires Sorted(t)
    ensures Sorted(InsertKeys(t, keys, sep))
    ensures Positive(Strings(InsertKeys(t, keys, sep))) == AddAll(Positive(Strings(t)), keys, sep)
    decreases |keys|
  {
    if keys != [] {
      var init := keys[..|keys| - 1];
      InsertKeysTable(t, init, sep);
      InsertSorted(InsertKeys(t, init, sep), keys[|keys| - 1], 1, true, sep);
      InsertAdds(InsertKeys(t, init, sep), keys[|keys| - 1], 1, true, sep);
    }
  }

  /** The frequency a tree reports from its table and total: the total for the empty string. */
  function Freq(m: Table, total: nat, s: string): nat
  {
    if s == [] then total else Get(m, s)
  }

  /**
   * After one-argument inserts into an empty tree, the count of any
   * non-empty string is how many inserted keys equal it or have it as a
   * separator-bounded prefix, and a history is never rarer than the
   * n-gram extending it.
   */
  lemma TrainedFrequencies(keys: seq<string>, sep: char, s: string)
    ensures Sorted(InsertKeys(Empty, keys, Some(sep)))
    ensures Get(Positive(Strings(InsertKeys(Empty, keys, Some(sep)))), s) == Touches(keys, s, Some(sep))
    ensures Dominated(Positive(Strings(InsertKeys(Empty, keys, Some(sep)))), |keys|, Some(sep))
  {
    InsertKeysTable(Empty, keys, Some(sep));
    assert Positive(Strings(Empty)) == map[];
    AddAllCounts(map[], keys, Some(sep), s);
    EmptyDominated(Some(sep));
    AddAllDominated(map[], 0, keys, Some(sep));
  }

  /**
   * In a dominated table a non-empty n-gram that was seen has a history
   * seen at least as often, so `_probability` lies between 0 and 1.
   */
  lemma HistoryBound(m: Table, total: nat, ngram: seq<string>, sep: char)
    requires Dominated(m, total, Some(sep))
    requires ngram != [] && Freq(m, total, Join(ngram, sep)) > 0
    ensures Freq(m, total, Join(ngram[..|ngram| - 1], sep)) >= Freq(m, total, Join(ngram, sep))
  {
    var k := Join(ngram, sep);
    var p := Join(ngram[..|ngram| - 1], sep);
    JoinHistory(ngram, sep);
    if k != [] {
      assert k in m;
      if p != [] {
        assert IsBoundaryPrefix(p, k, Some(sep));
      }
    }
  }

  /** The join of all but the last token is empty or is the join of all of them cut before its last separator. */
  lemma JoinHistory(ngram: seq<string>, sep: char)
    requires ngram != []
    ensures var p := Join(ngram[..|ngram| - 1], sep); var k := Join(ngram, sep);
      p == [] || (|p| < |k| && k[..|p|] == p && k[|p|] == sep)
  {
    var init, last := ngram[..|ngram| - 1], ngram[|ngram| - 1];
    if |ngram| == 1 {
      assert init == [];
    } else {
      var p := Join(init, sep);
      assert Join(ngram, sep) == p + [sep] + last by {
        JoinSnoc(init, last, sep);
        assert init + [last] == ngram;
      }
      CutBefore(p, sep, last);
    }
  }

  lemma CutBefore(p: string, sep: char, rest: string)
    ensures (p + [sep] + rest)[..|p|] == p && (p + [sep] + rest)[|p|] == sep
  {
  }
}
