/**
 * What the counts of a trained language model mean
 * (src/corpustools/language_model.py, `train` and `frequency`): with every
 * token in the vocabulary and a target and no `must_contain` filter, the
 * count stored for an n-gram of at most `n` tokens is how often it occurs
 * in the stream, as `Counter(ngrams(tokens, k))` counts it.  An n-gram
 * without the boundary never occurs across one, so these are occurrences
 * within units.
 */
module NGramCounts {
  import opened Wrappers
  import opened Text
  import opened TstSpec
  import opened Training
  import Corpus

  // ---------------------------------------------------------------------------
  // Occurrences in the stream

  /** How many entries of `grams` are `g`. */
  function CountOf(grams: seq<seq<string>>, g: seq<string>): nat
  {
    if grams == [] then 0 else CountOf(grams[..|grams| - 1], g) + (if grams[|grams| - 1] == g then 1 else 0)
  }

  /** How often `g` occurs in `s`: the count of `g` among the n-grams of its length. */
  function Occ(s: seq<string>, g: seq<string>): nat
  {
    CountOf(Corpus.NGrams(s, |g|), g)
  }

  /** `s` ends with `g`. */
  predicate EndsWith(s: seq<string>, g: seq<string>)
  {
    |g| <= |s| && s[|s| - |g|..] == g
  }

  lemma {:induction false} CountOfAppend(a: seq<seq<string>>, b: seq<seq<string>>, g: seq<string>)
    ensures CountOf(a + b, g) == CountOf(a, g) + CountOf(b, g)
    decreases |b|
  {
    if b == [] {
      assert a + b == a;
    } else {
      CountOfAppend(a, b[..|b| - 1], g);
      assert (a + b)[..|a + b| - 1] == a + b[..|b| - 1];
    }
  }

  /** A list holding `g` counts it at least once. */
  lemma {:induction false} CountOfMember(grams: seq<seq<string>>, g: seq<string>)
    requires g in grams
    ensures CountOf(grams, g) >= 1
  {
    if grams[|grams| - 1] != g {
      CountOfMember(grams[..|grams| - 1], g);
    }
  }

  /** One token more adds the n-gram that ends with it. */
  lemma NGramsSnoc(s: seq<string>, e: string, k: nat)
    requires 1 <= k <= |s| + 1
    ensures Corpus.NGrams(s + [e], k) == Corpus.NGrams(s, k) + [(s + [e])[|s| + 1 - k..]]
  {
    var t := s + [e];
    var l, r := Corpus.NGrams(t, k), Corpus.NGrams(s, k) + [t[|s| + 1 - k..]];
    forall i | 0 <= i < |l| ensures l[i] == r[i] {
      if i < |s| + 1 - k {
        assert t[i..i + k] == s[i..i + k];
      }
    }
  }

  /** The first n-gram, then those of the rest. */
  lemma NGramsCons(v: seq<string>, k: nat)
    requires 1 <= k <= |v|
    ensures Corpus.NGrams(v, k) == [v[..k]] + Corpus.NGrams(v[1..], k)
  {
    var l, r := Corpus.NGrams(v, k), [v[..k]] + Corpus.NGrams(v[1..], k);
    forall i | 0 <= i < |l| ensures l[i] == r[i] {
      if i > 0 {
        assert i + k <= |v|;
        assert r[i] == Corpus.NGrams(v[1..], k)[i - 1] == v[1..][i - 1..i - 1 + k];
        assert v[1..][i - 1..i - 1 + k] == v[i..i + k];
      }
    }
  }

  /** A token more adds one occurrence exactly when the stream now ends with `g`. */
  lemma OccSnoc(s: seq<string>, e: string, g: seq<string>)
    requires |g| >= 1
    ensures Occ(s + [e], g) == Occ(s, g) + (if EndsWith(s + [e], g) then 1 else 0)
  {
    if |g| <= |s| + 1 {
      NGramsSnoc(s, e, |g|);
      var t := s + [e];
      CountOfAppend(Corpus.NGrams(s, |g|), [t[|s| + 1 - |g|..]], g);
      assert [t[|s| + 1 - |g|..]][..0] == [];
    }
  }

  /** The occurrences of `g` in `v`: one if `v` starts with it, then those in the rest. */
  lemma OccFront(v: seq<string>, g: seq<string>)
    requires |g| >= 1 && v != []
    ensures Occ(v, g) == (if g <= v then 1 else 0) + Occ(v[1..], g)
  {
    if |g| <= |v| {
      NGramsCons(v, |g|);
      CountOfAppend([v[..|g|]], Corpus.NGrams(v[1..], |g|), g);
      assert [v[..|g|]][..0] == [];
    }
  }

  // ---------------------------------------------------------------------------
  // Trained n-grams that start with `g`

  /** How many of `events` start with `g`: each adds one to the count of `g`'s key. */
  function PrefixCount(events: seq<seq<string>>, g: seq<string>): nat
  {
    if events == [] then 0 else PrefixCount(events[..|events| - 1], g) + (if g <= events[|events| - 1] then 1 else 0)
  }

  lemma {:induction false} PrefixCountAppend(a: seq<seq<string>>, b: seq<seq<string>>, g: seq<string>)
    ensures PrefixCount(a + b, g) == PrefixCount(a, g) + PrefixCount(b, g)
    decreases |b|
  {
    if b == [] {
      assert a + b == a;
    } else {
      PrefixCountAppend(a, b[..|b| - 1], g);
      assert (a + b)[..|a + b| - 1] == a + b[..|b| - 1];
    }
  }

  /** Training every suffix of `v` counts each occurrence of `g` inside `v` once. */
  lemma {:induction false} SuffixesOcc(v: seq<string>, g: seq<string>)
    requires |g| >= 1
    ensures PrefixCount(Suffixes(v, |v|), g) == Occ(v, g)
    decreases |v|
  {
    if v != [] {
      var shorter := Suffixes(v[1..], |v| - 1);
      assert Suffixes(v, |v|) == shorter + [v] by {
        forall i | 0 <= i < |v| - 1 ensures Suffixes(v, |v|)[i] == shorter[i] {
          assert v[1..][|v| - 1 - (i + 1)..] == v[|v| - (i + 1)..];
        }
      }
      assert (shorter + [v])[..|shorter|] == shorter;
      SuffixesOcc(v[1..], g);
      OccFront(v, g);
    }
  }

  /** A flush counts the occurrences inside the window, except the one a full window already counted. */
  lemma FlushOcc(w: seq<string>, n: nat, g: seq<string>)
    requires 1 <= n && |w| <= n && |g| >= 1
    ensures PrefixCount(Flush(w, n), g) == if |w| == n then Occ(w[1..], g) else Occ(w, g)
  {
    FinalFlush(w, n);
    if |w| == n {
      SuffixesOcc(w[1..], g);
    } else {
      SuffixesOcc(w, g);
    }
  }

  /** Unless it is full, the window reaches back to the start of the stream or to a boundary. */
  predicate Reaches(w: seq<string>, t: seq<string>, c: Config)
    requires |w| <= |t|
  {
    |w| < c.n ==> |w| == |t| || t[|t| - |w| - 1] == c.boundary
  }

  /** The window is the end of the stream read so far, holds no boundary and reaches back as far as it can. */
  predicate Maximal(w: seq<string>, t: seq<string>, c: Config)
  {
    |w| <= c.n && |w| <= |t| && w == t[|t| - |w|..] && c.boundary !in w && Reaches(w, t, c)
  }

  /** Every state of the scan has a maximal window. */
  lemma RunMaximal(t: seq<string>, c: Config)
    ensures Maximal(Run(t, c).window, t, c)
  {
    RunPlaced(t, c);
    RunCounted(t, c);
    RunReaches(t, c);
  }

  lemma {:induction false} RunReaches(t: seq<string>, c: Config)
    ensures |Run(t, c).window| <= |t| && Reaches(Run(t, c).window, t, c)
  {
    RunPlaced(t, c);
    if t != [] {
      var init, e := t[..|t| - 1], t[|t| - 1];
      RunReaches(init, c);
      RunPlaced(init, c);
      assert t == init + [e];
      ReachesStep(Run(init, c).window, init, e, c);
    }
  }

  /** One step of the scan keeps the window reaching back as far as it can. */
  lemma ReachesStep(w: seq<string>, init: seq<string>, e: string, c: Config)
    requires |w| <= |init| && Reaches(w, init, c)
    ensures var w' := if e == c.boundary then [] else Push(w, e, c.n);
      |w'| <= |init| + 1 && Reaches(w', init + [e], c)
  {
    var t := init + [e];
    if e != c.boundary && |w| + 1 < c.n {
      assert Push(w, e, c.n) == w + [e];
      if |w| < |init| {
        assert t[|t| - |w| - 2] == init[|init| - |w| - 1];
      }
    }
  }

  /** A boundary among the last `|g|` tokens of `t`: `t` cannot end with `g`, which holds none. */
  lemma BoundaryBlocks(t: seq<string>, p: nat, g: seq<string>, boundary: string)
    requires p < |t| && |t| - |g| <= p && t[p] == boundary && boundary !in g
    ensures !EndsWith(t, g)
  {
    if |g| <= |t| {
      var j := p - (|t| - |g|);
      assert g[j] in g;
      assert t[|t| - |g|..][j] == boundary;
    }
  }

  /** Two streams with the same last `|g|` tokens both end with `g` or both do not. */
  lemma EndsWithSuffix(u: seq<string>, t: seq<string>, g: seq<string>)
    requires |u| <= |t| && u == t[|t| - |u|..] && |g| <= |u|
    ensures EndsWith(u, g) == EndsWith(t, g)
  {
    assert u[|u| - |g|..] == t[|t| - |g|..];
  }

  /**
   * Whether the stream ends with `g` can be read off the new window: `g` is
   * no longer than `n`, and a shorter window starts the stream or follows a
   * boundary, which `g` does not hold.
   */
  lemma EndsWithWindow(w: seq<string>, t: seq<string>, e: string, g: seq<string>, c: Config)
    requires Maximal(w, t, c) && e != c.boundary
    requires 1 <= |g| <= c.n && c.boundary !in g
    ensures EndsWith(Push(w, e, c.n), g) == EndsWith(t + [e], g)
  {
    var w' := Push(w, e, c.n);
    PushSuffix(w, t, e, c.n);
    if |g| <= |w'| {
      EndsWithSuffix(w', t + [e], g);
    } else {
      assert w' == w + [e];
      if |w| < |t| {
        assert (t + [e])[|t| - |w| - 1] == c.boundary;
        BoundaryBlocks(t + [e], |t| - |w| - 1, g, c.boundary);
      }
    }
  }

  /**
   * After every prefix `t` of the stream, the n-grams trained so far,
   * together with those the final flush would train, start with `g` exactly
   * as often as `g` occurs in `t`.
   */
  lemma {:induction false} RunOccurrences(t: seq<string>, c: Config, g: seq<string>)
    requires c.targets == Corpus.Everything
    requires 1 <= |g| <= c.n && c.boundary !in g
    ensures PrefixCount(Events(t, c), g) == Occ(t, g)
  {
    if t == [] {
      assert Events(t, c) == [];
    } else {
      var init, e := t[..|t| - 1], t[|t| - 1];
      assert t == init + [e];
      RunOccurrences(init, c, g);
      RunMaximal(init, c);
      var st := Run(init, c);
      PrefixCountAppend(st.events, Flush(st.window, c.n), g);
      OccSnoc(init, e, g);
      if e == c.boundary {
        BoundaryOccurrences(st, init, e, c, g);
      } else {
        TokenOccurrences(st, init, e, c, g);
      }
    }
  }

  /** A boundary moves the flushed n-grams into the trained ones; the stream cannot end with `g`. */
  lemma BoundaryOccurrences(st: Scan, init: seq<string>, e: string, c: Config, g: seq<string>)
    requires st == Run(init, c) && e == c.boundary && 1 <= |g| <= c.n && c.boundary !in g
    ensures Events(init + [e], c) == st.events + Flush(st.window, c.n)
    ensures !EndsWith(init + [e], g)
  {
    assert (init + [e])[..|init|] == init;
    assert Flush([], c.n) == [];
    BoundaryBlocks(init + [e], |init|, g, e);
  }

  /** Any other token: the new window's full n-gram and flush count its occurrences, one more when the stream ends with `g`. */
  lemma TokenOccurrences(st: Scan, init: seq<string>, e: string, c: Config, g: seq<string>)
    requires st == Run(init, c) && Maximal(st.window, init, c) && e != c.boundary
    requires c.targets == Corpus.Everything && 1 <= |g| <= c.n && c.boundary !in g
    ensures PrefixCount(Events(init + [e], c), g)
         == PrefixCount(st.events, g) + PrefixCount(Flush(st.window, c.n), g) + (if EndsWith(init + [e], g) then 1 else 0)
  {
    var w' := Push(st.window, e, c.n);
    var full := FullWindow(w', e, c);
    assert (init + [e])[..|init|] == init;
    assert Events(init + [e], c) == st.events + full + Flush(w', c.n);
    PrefixCountAppend(st.events + full, Flush(w', c.n), g);
    PrefixCountAppend(st.events, full, g);
    WindowOccurrences(w', e, c, g);
    PushOccurrences(st.window, init, e, c, g);
  }

  /** A window's full n-gram, if any, and its flush count the occurrences of `g` inside it. */
  lemma WindowOccurrences(w: seq<string>, e: string, c: Config, g: seq<string>)
    requires c.targets == Corpus.Everything && 1 <= |g| <= c.n && |w| <= c.n
    ensures PrefixCount(FullWindow(w, e, c), g) + PrefixCount(Flush(w, c.n), g) == Occ(w, g)
  {
    FlushOcc(w, c.n, g);
    if |w| == c.n {
      assert FullWindow(w, e, c) == [w];
      assert [w][..0] == [];
      OccFront(w, g);
    }
  }

  /** The pushed window holds the occurrences the old flush would count, and one more when the stream now ends with `g`. */
  lemma PushOccurrences(w: seq<string>, t: seq<string>, e: string, c: Config, g: seq<string>)
    requires Maximal(w, t, c) && e != c.boundary && 1 <= |g| <= c.n && c.boundary !in g
    ensures |Push(w, e, c.n)| <= c.n
    ensures Occ(Push(w, e, c.n), g) == PrefixCount(Flush(w, c.n), g) + (if EndsWith(t + [e], g) then 1 else 0)
  {
    EndsWithWindow(w, t, e, g, c);
    PushGrows(w, e, c.n, g);
  }

  /** The occurrences in the pushed window: those a flush of the old one counts, and one more if it ends with `g`. */
  lemma PushGrows(w: seq<string>, e: string, n: nat, g: seq<string>)
    requires 1 <= |g| && 1 <= n && |w| <= n
    ensures |Push(w, e, n)| <= n
    ensures Occ(Push(w, e, n), g) == PrefixCount(Flush(w, n), g) + (if EndsWith(Push(w, e, n), g) then 1 else 0)
  {
    FlushOcc(w, n, g);
    if |w| == n {
      assert Push(w, e, n) == w[1..] + [e];
      OccSnoc(w[1..], e, g);
    } else {
      assert Push(w, e, n) == w + [e];
      OccSnoc(w, e, g);
    }
  }

  /** Every n-gram `train` passes on holds at most `n` tokens. */
  lemma EventsShort(s: seq<string>, c: Config)
    ensures forall ev :: ev in Events(s, c) ==> |ev| <= c.n
  {
    RunShort(s, c);
    RunCounted(s, c);
  }

  lemma {:induction false} RunShort(t: seq<string>, c: Config)
    ensures forall ev :: ev in Run(t, c).events ==> |ev| <= c.n
  {
    if t != [] {
      var init, e := t[..|t| - 1], t[|t| - 1];
      RunShort(init, c);
      RunCounted(init, c);
      StepShort(Run(init, c), e, c);
    }
  }

  /** One step of the scan trains n-grams of at most `n` tokens. */
  lemma StepShort(st: Scan, e: string, c: Config)
    requires |st.window| <= c.n && forall ev :: ev in st.events ==> |ev| <= c.n
    ensures forall ev :: ev in Step(st, e, c).events ==> |ev| <= c.n
  {
    if e == c.boundary {
      FlushShort(st.window, c.n);
    } else {
      var w := Push(st.window, e, c.n);
      assert forall ev :: ev in FullWindow(w, e, c) ==> |ev| <= |w|;
    }
  }

  // ---------------------------------------------------------------------------
  // From n-grams to keys

  /** The tokens of `s` other than the boundary are non-empty and hold no separator. */
  predicate Plain(s: seq<string>, boundary: string, sep: char)
  {
    forall x :: x in s && x != boundary ==> x != [] && sep !in x
  }

  /** Every token of `ev` is non-empty and holds no separator. */
  predicate PlainTokens(ev: seq<string>, sep: char)
  {
    forall x :: x in ev ==> x != [] && sep !in x
  }

  /** Every token of a run of `s` is a token of `s`. */
  lemma {:induction false} SliceMembers(ev: seq<string>, s: seq<string>)
    requires IsSlice(ev, s)
    ensures forall x :: x in ev ==> x in s
    decreases |s|
  {
    if !(ev <= s) {
      SliceMembers(ev, s[1..]);
    } else {
      forall x | x in ev ensures x in s {
        var i :| 0 <= i < |ev| && ev[i] == x;
        assert s[i] == x;
      }
    }
  }

  /** The n-grams trained from a stream whose tokens are plain have plain tokens. */
  lemma EventsPlain(s: seq<string>, c: Config)
    requires Plain(s, c.boundary, c.splitchar)
    ensures forall ev :: ev in Events(s, c) ==> PlainTokens(ev, c.splitchar)
  {
    EventsWithinUnits(s, c);
    forall ev | ev in Events(s, c) ensures PlainTokens(ev, c.splitchar) {
      SliceMembers(ev, s);
    }
  }

  /** A key touched by the key of a plain n-gram splits into a start of that n-gram. */
  lemma TouchedStart(ev: seq<string>, k: string, sep: char)
    requires PlainTokens(ev, sep)
    ensures Increment(Join(ev, sep), 1, true, Some(sep), k) > 0 ==> ev != [] && Split(k, sep) <= ev
  {
    var key := Join(ev, sep);
    if ev != [] {
      SplitJoin(ev, sep);
      if IsBoundaryPrefix(k, key, Some(sep)) {
        var rest := key[|k| + 1..];
        assert key == k + [sep] + rest;
        SplitConcat(k, rest, sep);
      }
    }
  }

  /** The join of plain tokens is empty only for no tokens. */
  lemma JoinPlain(g: seq<string>, sep: char)
    requires g != [] && PlainTokens(g, sep)
    ensures Join(g, sep) != []
  {
    assert g[0] in g;
    if |g| > 1 {
      assert Join(g, sep) == g[0] + [sep] + Join(g[1..], sep);
    }
  }

  /** For plain n-grams, the key of `ev` touches the key of a non-empty `g` exactly when `ev` starts with `g`. */
  lemma KeyTouches(ev: seq<string>, g: seq<string>, sep: char)
    requires PlainTokens(ev, sep) && PlainTokens(g, sep) && g != []
    ensures Increment(Join(ev, sep), 1, true, Some(sep), Join(g, sep)) == if g <= ev then 1 else 0
  {
    var key, k := Join(ev, sep), Join(g, sep);
    JoinPlain(g, sep);
    SplitJoin(g, sep);
    TouchedStart(ev, k, sep);
    if g <= ev && |g| < |ev| {
      var rest := ev[|g|..];
      assert ev == g + rest;
      JoinAppend(g, rest, sep);
      assert key[..|k|] == k && key[|k|] == sep;
    }
  }

  /** With the whole stream in the vocabulary and no filter, each n-gram trains the join of all its tokens. */
  lemma TrainedJoins(events: seq<seq<string>>, c: Config)
    requires c.vocabulary == Corpus.Everything && !Filtering(c)
    ensures |TrainedKeys(events, c)| == |events|
    ensures forall i :: 0 <= i < |events| ==> TrainedKeys(events, c)[i] == Join(events[i], c.splitchar)
  {
    if events != [] {
      var init, last := events[..|events| - 1], events[|events| - 1];
      TrainedJoins(init, c);
      var kept := TakeVocab(last, c.vocabulary);
      assert kept == last by {
        if |kept| < |last| {
          Corpus.EverythingContainsAll(c.vocabulary, last[|kept|]);
        }
      }
    }
  }

  /** The trained keys touch the key of a plain `g` once for each trained n-gram that starts with `g`. */
  lemma {:induction false} TouchesTrained(events: seq<seq<string>>, c: Config, g: seq<string>)
    requires c.vocabulary == Corpus.Everything && !Filtering(c)
    requires forall ev :: ev in events ==> PlainTokens(ev, c.splitchar)
    requires g != [] && PlainTokens(g, c.splitchar)
    ensures Touches(TrainedKeys(events, c), Join(g, c.splitchar), Some(c.splitchar)) == PrefixCount(events, g)
    decreases |events|
  {
    if events != [] {
      var init, last := events[..|events| - 1], events[|events| - 1];
      TouchesTrained(init, c, g);
      TrainedJoins(events, c);
      TrainedJoins(init, c);
      var keys := TrainedKeys(events, c);
      assert keys[..|keys| - 1] == TrainedKeys(init, c);
      KeyTouches(last, g, c.splitchar);
    }
  }

  /** A key the trained keys touch splits into the start of a trained n-gram. */
  lemma {:induction false} TouchedKeys(events: seq<seq<string>>, c: Config, k: string)
    requires c.vocabulary == Corpus.Everything && !Filtering(c)
    requires forall ev :: ev in events ==> PlainTokens(ev, c.splitchar)
    ensures Touches(TrainedKeys(events, c), k, Some(c.splitchar)) > 0 ==>
      exists ev :: ev in events && Split(k, c.splitchar) <= ev
    decreases |events|
  {
    if events != [] {
      var init, last := events[..|events| - 1], events[|events| - 1];
      TouchedKeys(init, c, k);
      TrainedJoins(events, c);
      TrainedJoins(init, c);
      var keys := TrainedKeys(events, c);
      assert keys[..|keys| - 1] == TrainedKeys(init, c);
      TouchedStart(last, k, c.splitchar);
      if Touches(TrainedKeys(init, c), k, Some(c.splitchar)) > 0 {
        var ev :| ev in init && Split(k, c.splitchar) <= ev;
        assert ev in events;
      }
    }
  }

  /**
   * With every token in the vocabulary and a target and no `must_contain`
   * filter, the keys trained from a stream of plain tokens touch the key of
   * an n-gram `g` of 1 to `n` plain tokens without the boundary once for
   * each occurrence of `g` in the stream.
   */
  lemma TrainedOccurrences(s: seq<string>, c: Config, g: seq<string>)
    requires c.vocabulary == Corpus.Everything && c.targets == Corpus.Everything && !Filtering(c)
    requires Plain(s, c.boundary, c.splitchar)
    requires 1 <= |g| <= c.n && c.boundary !in g && PlainTokens(g, c.splitchar)
    ensures Touches(TrainedKeys(Events(s, c), c), Join(g, c.splitchar), Some(c.splitchar)) == Occ(s, g)
  {
    EventsPlain(s, c);
    TouchesTrained(Events(s, c), c, g);
    RunOccurrences(s, c, g);
  }

  /** The n-grams trained from a stream of plain tokens: plain, without the boundary, at most `n` tokens. */
  lemma EventsShape(s: seq<string>, c: Config)
    requires Plain(s, c.boundary, c.splitchar)
    ensures forall ev :: ev in Events(s, c) ==> PlainTokens(ev, c.splitchar) && c.boundary !in ev && |ev| <= c.n
  {
    EventsPlain(s, c);
    EventsWithinUnits(s, c);
    EventsShort(s, c);
  }

  /**
   * Under the same settings every key the training touches is the key of an
   * n-gram of 1 to `n` plain tokens without the boundary.
   */
  lemma TouchedKeyShape(s: seq<string>, c: Config, k: string)
    requires c.vocabulary == Corpus.Everything && !Filtering(c)
    requires Plain(s, c.boundary, c.splitchar)
    requires Touches(TrainedKeys(Events(s, c), c), k, Some(c.splitchar)) > 0
    ensures var g := Split(k, c.splitchar);
      1 <= |g| <= c.n && c.boundary !in g && PlainTokens(g, c.splitchar) && Join(g, c.splitchar) == k
  {
    var events := Events(s, c);
    EventsShape(s, c);
    TouchedKeys(events, c, k);
    JoinSplit(k, c.splitchar);
    var ev :| ev in events && Split(k, c.splitchar) <= ev;
    StartShape(Split(k, c.splitchar), ev, c);
  }

  /** A start of a plain n-gram of at most `n` tokens without the boundary is one too. */
  lemma StartShape(g: seq<string>, ev: seq<string>, c: Config)
    requires g <= ev && PlainTokens(ev, c.splitchar) && c.boundary !in ev && |ev| <= c.n
    ensures |g| <= c.n && c.boundary !in g && PlainTokens(g, c.splitchar)
  {
    assert forall x :: x in g ==> x in ev;
  }

  /**
   * The count the tests compare with: `Counter` of the n-grams of the
   * stream, and for no tokens the number of tokens other than the boundary.
   */
  function StreamCount(s: seq<string>, g: seq<string>, boundary: string): nat
  {
    if g == [] then NonBoundary(s, boundary) else Occ(s, g)
  }
}
