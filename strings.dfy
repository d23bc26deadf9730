/**
 * Python's `sep.join(words)` and `s.split(sep)` for a one-symbol separator,
 * as the language model uses them to turn token lists into tree keys and
 * back (src/corpustools/language_model.py).
 */
module Text {
  /** `sep.join(words)`: the words with one separator between neighbours. */
  function Join(words: seq<string>, sep: char): string
  {
    if |words| == 0 then []
    else if |words| == 1 then words[0]
    else words[0] + [sep] + Join(words[1..], sep)
  }

  /** The number of times `c` occurs in `s`. */
  function Occurrences(s: string, c: char): nat
  {
    if s == [] then 0 else (if s[0] == c then 1 else 0) + Occurrences(s[1..], c)
  }

  /**
   * `s.split(sep)`: the maximal separator-free pieces of `s`, in order; an
   * empty string and neighbouring separators give empty pieces, and there is
   * always at least one piece.
   */
  function Split(s: string, sep: char): (r: seq<string>)
    ensures |r| >= 1
    ensures forall i :: 0 <= i < |r| ==> sep !in r[i]
  {
    if s == [] then [[]]
    else if s[0] == sep then [[]] + Split(s[1..], sep)
    else
      var rest := Split(s[1..], sep);
      [[s[0]] + rest[0]] + rest[1..]
  }

  /** A string splits into one piece more than it holds separators. */
  lemma {:induction false} SplitCount(s: string, sep: char)
    ensures |Split(s, sep)| == Occurrences(s, sep) + 1
  {
    if s != [] {
      SplitCount(s[1..], sep);
    }
  }

  /** Joining the pieces of a split gives the string back. */
  lemma {:induction false} JoinSplit(s: string, sep: char)
    ensures Join(Split(s, sep), sep) == s
  {
    if s == [] {
    } else if s[0] == sep {
      JoinSplit(s[1..], sep);
      assert s == [sep] + s[1..];
    } else {
      var rest := Split(s[1..], sep);
      JoinSplit(s[1..], sep);
      if |rest| == 1 {
        assert s == [s[0]] + rest[0];
      } else {
        assert Join(rest, sep) == rest[0] + [sep] + Join(rest[1..], sep);
        var r := Split(s, sep);
        assert r[1..] == rest[1..];
        assert s == [s[0]] + s[1..];
      }
    }
  }

  /** Splitting a join of separator-free words gives the words back. */
  lemma {:induction false} SplitJoin(words: seq<string>, sep: char)
    requires |words| >= 1
    requires forall i :: 0 <= i < |words| ==> sep !in words[i]
    ensures Split(Join(words, sep), sep) == words
    decreases |words|, |words[0]|
  {
    var w := words[0];
    if |words| == 1 {
      SplitWord(w, sep);
    } else {
      var tail := Join(words[1..], sep);
      SplitJoin(words[1..], sep);
      SplitWordThen(w, tail, sep);
      assert Join(words, sep) == w + [sep] + tail;
      assert words == [w] + words[1..];
    }
  }

  /** A separator-free word splits into itself. */
  lemma {:induction false} SplitWord(w: string, sep: char)
    requires sep !in w
    ensures Split(w, sep) == [w]
  {
    if w != [] {
      SplitWord(w[1..], sep);
      assert w == [w[0]] + w[1..];
    }
  }

  /** A separator-free word followed by the separator and more text splits into the word, then the rest's pieces. */
  lemma {:induction false} SplitWordThen(w: string, rest: string, sep: char)
    requires sep !in w
    ensures Split(w + [sep] + rest, sep) == [w] + Split(rest, sep)
  {
    if w == [] {
      assert w + [sep] + rest == [sep] + rest;
    } else {
      SplitWordThen(w[1..], rest, sep);
      assert (w + [sep] + rest)[1..] == w[1..] + [sep] + rest;
      assert w == [w[0]] + w[1..];
    }
  }

  /** Appending a word to a non-empty list appends the separator and the word to the join. */
  lemma {:induction false} JoinSnoc(words: seq<string>, w: string, sep: char)
    requires |words| >= 1
    ensures Join(words + [w], sep) == Join(words, sep) + [sep] + w
  {
    if |words| == 1 {
      assert words + [w] == [words[0], w];
    } else {
      JoinSnoc(words[1..], w, sep);
      assert (words + [w])[1..] == words[1..] + [w];
    }
  }

  /** Joining two non-empty lists one after the other puts one separator between their joins. */
  lemma {:induction false} JoinAppend(a: seq<string>, b: seq<string>, sep: char)
    requires |a| >= 1 && |b| >= 1
    ensures Join(a + b, sep) == Join(a, sep) + [sep] + Join(b, sep)
  {
    if |a| > 1 {
      JoinAppend(a[1..], b, sep);
      assert (a + b)[1..] == a[1..] + b;
    }
  }

  /** Splitting around one separator gives the pieces of the left part, then those of the right part. */
  lemma {:induction false} SplitConcat(a: string, b: string, sep: char)
    ensures Split(a + [sep] + b, sep) == Split(a, sep) + Split(b, sep)
  {
    if a == [] {
      assert a + [sep] + b == [sep] + b;
    } else {
      SplitConcat(a[1..], b, sep);
      SplitConcatFront(a[0], a[1..], b, sep, Split(a[1..], sep), Split(b, sep), Split(a[1..] + [sep] + b, sep));
      assert a == [a[0]] + a[1..];
      assert a + [sep] + b == [a[0]] + (a[1..] + [sep] + b);
    }
  }

  /** One symbol more in front of the left part keeps `SplitConcat` true. */
  lemma SplitConcatFront(x: char, a: string, b: string, sep: char, A: seq<string>, B: seq<string>, S: seq<string>)
    requires A == Split(a, sep) && B == Split(b, sep) && S == Split(a + [sep] + b, sep)
    requires S == A + B
    ensures Split([x] + (a + [sep] + b), sep) == Split([x] + a, sep) + B
  {
    PiecesCons(x, a + [sep] + b, S, sep);
    PiecesCons(x, a, A, sep);
    if x != sep {
      PiecesFront(x, A, B);
    }
  }

  lemma PiecesFront(x: char, A: seq<string>, B: seq<string>)
    requires |A| >= 1
    ensures [[x] + (A + B)[0]] + (A + B)[1..] == [[x] + A[0]] + A[1..] + B
  {
    assert (A + B)[0] == A[0] && (A + B)[1..] == A[1..] + B;
  }

  /** The pieces of a string with one more symbol in front, given the pieces `p` of the rest. */
  lemma PiecesCons(x: char, rest: string, p: seq<string>, sep: char)
    requires Split(rest, sep) == p
    ensures |p| >= 1
    ensures Split([x] + rest, sep) == if x == sep then [[]] + p else [[x] + p[0]] + p[1..]
  {
    assert ([x] + rest)[1..] == rest;
  }
}
