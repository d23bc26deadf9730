/**
 * The token and collection helpers of src/corpustools/corpustools.py:
 * reading tokens out of a tagged corpus, cutting a token stream into units,
 * n-grams, replacing tokens with disallowed symbols, and building target
 * vocabularies.  Generators are modelled by the finite sequence they yield.
 */
module Corpus {
  import opened Wrappers
  import opened Text
  import InsertionOrder

  // ---------------------------------------------------------------------------
  // Containers

  /** A set of strings, or the dummy container that claims to hold everything. */
  datatype Container = Everything | Only(items: set<string>)
  {
    predicate Contains(x: string)
    {
      Everything? || x in items
    }

    /** `add`: a set gains the element; the dummy container stays as it is. */
    function Add(x: string): (c: Container)
      ensures forall y :: c.Contains(y) <==> Contains(y) || y == x
      ensures Everything? ==> c == this
    {
      if Everything? then this else Only(items + {x})
    }
  }

  /** The dummy container answers every membership question with yes. */
  lemma EverythingContainsAll(c: Container, x: string)
    requires c.Everything?
    ensures c.Contains(x) && c.Add(x).Contains(x)
    ensures forall y :: c.Add(x).Contains(y)
  {
  }

  /** A token, or a list of fields of one corpus line. */
  datatype Item = Word(text: string) | Record(fields: seq<string>)

  // ---------------------------------------------------------------------------
  // split_collection

  /** Concatenation of a list of lists. */
  function Flatten<T>(d: seq<seq<T>>): seq<T>
  {
    if d == [] then [] else Flatten(d[..|d| - 1]) + d[|d| - 1]
  }

  /** The elements other than `x`, in order. */
  function Remove<T(==)>(s: seq<T>, x: T): (r: seq<T>)
    ensures x !in r
  {
    if s == [] then []
    else Remove(s[..|s| - 1], x) + (if s[|s| - 1] == x then [] else [s[|s| - 1]])
  }

  /**
   * The state of `split_collection` after the elements of `s`: the
   * sublists yielded so far and the current sublist.
   */
  function Scan<T(==)>(s: seq<T>, split: T): (seq<seq<T>>, seq<T>)
  {
    if s == [] then ([], [])
    else
      var (done, current) := Scan(s[..|s| - 1], split);
      var e := s[|s| - 1];
      if e == split then
        (if current != [] then done + [current] else done, [])
      else
        (done, current + [e])
  }

  /** Everything `split_collection` yields: the finished sublists and a last non-empty one. */
  function Segments<T(==)>(s: seq<T>, split: T): seq<seq<T>>
  {
    var (done, current) := Scan(s, split);
    if current != [] then done + [current] else done
  }

  /** While scanning, the finished sublists are non-empty, no sublist holds the separator, and together they are the input without separators. */
  lemma {:induction false} ScanInvariant<T>(s: seq<T>, split: T)
    ensures forall u :: u in Scan(s, split).0 ==> u != [] && split !in u
    ensures split !in Scan(s, split).1
    ensures Flatten(Scan(s, split).0) + Scan(s, split).1 == Remove(s, split)
  {
    if s != [] {
      var init := s[..|s| - 1];
      ScanInvariant(init, split);
      var (done, current) := Scan(init, split);
      var e := s[|s| - 1];
      if e == split {
        if current != [] {
          assert Flatten(done + [current]) == Flatten(done) + current by {
            assert (done + [current])[..|done|] == done;
          }
        }
      } else {
        assert Flatten(done) + (current + [e]) == (Flatten(done) + current) + [e];
      }
    }
  }

  /**
   * `split_collection` never yields an empty sublist, no sublist holds the
   * separator, and the sublists together are the input with every separator
   * removed.
   */
  lemma SegmentsSound<T>(s: seq<T>, split: T)
    ensures forall u :: u in Segments(s, split) ==> u != [] && split !in u
    ensures Flatten(Segments(s, split)) == Remove(s, split)
  {
    ScanInvariant(s, split);
    var (done, current) := Scan(s, split);
    if current != [] {
      assert (done + [current])[..|done|] == done;
    }
  }

  /** `split_collection`: the loop over the collection with its current sublist. */
  method SplitCollection<T(==)>(collection: seq<T>, split: T) returns (r: seq<seq<T>>)
    ensures r == Segments(collection, split)
    ensures forall u :: u in r ==> u != [] && split !in u
    ensures Flatten(r) == Remove(collection, split)
  {
    var current: seq<T> := [];
    r := [];
    for i := 0 to |collection|
      invariant (r, current) == Scan(collection[..i], split)
    {
      assert collection[..i + 1][..i] == collection[..i];
      var element := collection[i];
      if element == split {
        if current != [] {
          r := r + [current];
        }
        current := [];
        continue;
      }
      current := current + [element];
    }
    assert collection[..|collection|] == collection;
    if current != [] {
      r := r + [current];
    }
    SegmentsSound(collection, split);
  }

  // ---------------------------------------------------------------------------
  // ngrams

  /** The number of n-grams of a sequence of length `len`: `max(0, len - n + 1)`. */
  function NGramCount(len: nat, n: nat): nat
  {
    if len + 1 >= n then len + 1 - n else 0
  }

  /** `ngrams(sequence, n, as_string=False)`: every window of `n` neighbours, left to right. */
  function NGrams<T>(s: seq<T>, n: nat): (r: seq<seq<T>>)
    ensures |r| == NGramCount(|s|, n)
    ensures forall i :: 0 <= i < |r| ==> |r[i]| == n && r[i] == s[i..i + n]
  {
    seq(NGramCount(|s|, n), i requires 0 <= i < NGramCount(|s|, n) => s[i..i + n])
  }

  /** The first n-gram followed by the last element of each later one. */
  function Reassemble<T>(r: seq<seq<T>>): seq<T>
    requires r != [] && forall i :: 0 <= i < |r| ==> r[i] != []
  {
    r[0] + seq(|r| - 1, i requires 0 <= i < |r| - 1 => r[i + 1][|r[i + 1]| - 1])
  }

  /** Neighbouring n-grams overlap in `n - 1` elements, and the n-grams put back together give the sequence. */
  lemma NGramsReassemble<T>(s: seq<T>, n: nat)
    requires 1 <= n <= |s|
    ensures forall i :: 0 <= i < |NGrams(s, n)| - 1 ==> NGrams(s, n)[i][1..] == NGrams(s, n)[i + 1][..n - 1]
    ensures Reassemble(NGrams(s, n)) == s
  {
    var r := NGrams(s, n);
    forall i | 0 <= i < |r| - 1 ensures r[i][1..] == r[i + 1][..n - 1] {
      assert r[i][1..] == s[i + 1..i + n];
      assert r[i + 1][..n - 1] == s[i + 1..i + n];
    }
    var t := Reassemble(r);
    assert |t| == |s|;
    forall k | 0 <= k < |s| ensures t[k] == s[k] {
      if k >= n {
        assert t[k] == r[k - n + 1][n - 1];
      }
    }
  }

  /** `ngrams(words, n)`: each n-gram of words joined into one string. */
  function NGramStrings(words: seq<string>, n: nat, joinChar: char): (r: seq<string>)
    ensures |r| == NGramCount(|words|, n)
  {
    var grams := NGrams(words, n);
    seq(|grams|, i requires 0 <= i < |grams| => Join(grams[i], joinChar))
  }

  /** When no word holds the joining symbol, splitting a joined n-gram gives the n-gram back. */
  lemma NGramStringsSplit(words: seq<string>, n: nat, joinChar: char, i: nat)
    requires n >= 1 && i < NGramCount(|words|, n)
    requires forall w :: w in words ==> joinChar !in w
    ensures Split(NGramStrings(words, n, joinChar)[i], joinChar) == words[i..i + n]
  {
    var gram := words[i..i + n];
    assert forall j :: 0 <= j < |gram| ==> gram[j] in words;
    SplitJoin(gram, joinChar);
  }

  // ---------------------------------------------------------------------------
  // extract_fields and extract_units

  /** Which fields to return: one field as a token, or a list of fields. */
  datatype Selection = Field(index: nat) | Fields(indices: seq<nat>)

  /** The keyword arguments of `extract_fields`. */
  datatype Options = Options(
    delimiter: char,
    lower: bool,
    dropMeta: bool,
    keepMeta: set<string>,
    dropTags: set<string>,
    tagField: nat,
    numFields: nat,
    returnFields: Selection)

  /** `rstrip("\n")`: every trailing newline removed. */
  function StripNewlines(s: string): (r: string)
    ensures r <= s && (r == [] || r[|r| - 1] != '\n')
    ensures forall i :: |r| <= i < |s| ==> s[i] == '\n'
  {
    if s == [] || s[|s| - 1] != '\n' then s else StripNewlines(s[..|s| - 1])
  }

  /** `lower()` on ASCII letters. */
  function Lower(s: string): (r: string)
    ensures |r| == |s|
    ensures forall i :: 0 <= i < |s| ==> !('A' <= r[i] <= 'Z')
    ensures forall i :: 0 <= i < |s| ==> !('A' <= s[i] <= 'Z') ==> r[i] == s[i]
  {
    seq(|s|, i requires 0 <= i < |s| => if 'A' <= s[i] <= 'Z' then (s[i] as int + 32) as char else s[i])
  }

  /** A corpus line after newline stripping and, when asked, lowering. */
  function Clean(line: string, lower: bool): string
  {
    var l := StripNewlines(line);
    if lower then Lower(l) else l
  }

  /** The chosen fields of a line with enough fields; an index past the end is Python's IndexError. */
  function Select(fields: seq<string>, sel: Selection): (r: Result<Item>)
    ensures r.Err? <==> (sel.Field? && sel.index >= |fields|)
                        || (sel.Fields? && exists k :: 0 <= k < |sel.indices| && sel.indices[k] >= |fields|)
    ensures r.Ok? && sel.Field? ==> r.value == Word(fields[sel.index])
    ensures r.Ok? && sel.Fields? ==>
              (&& r.value.Record?
               && |r.value.fields| == |sel.indices|
               && forall k :: 0 <= k < |sel.indices| ==> r.value.fields[k] == fields[sel.indices[k]])
  {
    match sel
    case Field(i) => if i < |fields| then Ok(Word(fields[i])) else Err(IndexError)
    case Fields(idx) =>
      if forall k :: 0 <= k < |idx| ==> idx[k] < |fields| then
        Ok(Record(seq(|idx|, k requires 0 <= k < |idx| => fields[idx[k]])))
      else Err(IndexError)
  }

  /** A line that is a single field starting with `<`. */
  predicate IsMeta(line: string, delimiter: char)
  {
    line != [] && line[0] == '<' && delimiter !in line
  }

  /** What `extract_fields` does with one line: nothing (`None`), one item, or an error. */
  function LineItem(line_: string, o: Options): (r: Result<Option<Item>>)
    // empty lines are skipped
    ensures Clean(line_, o.lower) == [] ==> r == Ok(None)
    // kept meta lines are yielded as they are
    ensures Clean(line_, o.lower) != [] && Clean(line_, o.lower) in o.keepMeta ==> r == Ok(Some(Word(Clean(line_, o.lower))))
    // other meta lines only when meta lines are not dropped
    ensures Clean(line_, o.lower) !in o.keepMeta && IsMeta(Clean(line_, o.lower), o.delimiter) ==>
      r == if o.dropMeta then Ok(None) else Ok(Some(Word(Clean(line_, o.lower))))
    // every other line yielded has the expected number of fields and a tag that is not dropped
    ensures r.Ok? && r.value.Some? && Clean(line_, o.lower) !in o.keepMeta && !IsMeta(Clean(line_, o.lower), o.delimiter) ==>
      var fields := Split(Clean(line_, o.lower), o.delimiter);
      |fields| == o.numFields && (o.dropTags == {} || (o.tagField < |fields| && fields[o.tagField] !in o.dropTags))
    // a regular line of the expected width whose tag field is missing is Python's IndexError
    ensures var line := Clean(line_, o.lower); var fields := Split(line, o.delimiter);
      line != [] && line !in o.keepMeta && !IsMeta(line, o.delimiter)
      && |fields| == o.numFields && o.dropTags != {} && o.tagField >= |fields| ==>
        r == Err(IndexError)
    // a regular line that passes both filters yields the selected fields, or the error selecting them raises
    ensures var line := Clean(line_, o.lower); var fields := Split(line, o.delimiter);
      line != [] && line !in o.keepMeta && !IsMeta(line, o.delimiter)
      && |fields| == o.numFields && (o.dropTags == {} || (o.tagField < |fields| && fields[o.tagField] !in o.dropTags)) ==>
        (r.Ok? <==> Select(fields, o.returnFields).Ok?)
        && (r.Ok? ==> r.value == Some(Select(fields, o.returnFields).value))
  {
    var line := Clean(line_, o.lower);
    if line == [] then Ok(None)
    else if line in o.keepMeta then Ok(Some(Word(line)))
    else
      var fields := Split(line, o.delimiter);
      if |fields| == 1 && line[0] == '<' then
        SingleField(line, o.delimiter);
        if !o.dropMeta then Ok(Some(Word(line))) else Ok(None)
      else
        SingleField(line, o.delimiter);
        if |fields| != o.numFields then Ok(None)
        else if o.dropTags != {} && o.tagField >= |fields| then Err(IndexError)
        else if o.dropTags != {} && fields[o.tagField] in o.dropTags then Ok(None)
        else
          match Select(fields, o.returnFields)
          case Err(e) => Err(e)
          case Ok(item) => Ok(Some(item))
  }

  /** A line splits into one field exactly when it does not hold the delimiter. */
  lemma SingleField(line: string, delimiter: char)
    ensures |Split(line, delimiter)| == 1 <==> delimiter !in line
  {
    SplitCount(line, delimiter);
    OccurrencesZero(line, delimiter);
  }

  lemma {:induction false} OccurrencesZero(s: string, c: char)
    ensures Occurrences(s, c) == 0 <==> c !in s
  {
    if s != [] {
      OccurrencesZero(s[1..], c);
      assert s == [s[0]] + s[1..];
    }
  }

  /** Everything `extract_fields` yields from a corpus, or the first error it raises. */
  function Extracted(corpus: seq<string>, o: Options): Result<seq<Item>>
  {
    if corpus == [] then Ok([])
    else
      match Extracted(corpus[..|corpus| - 1], o)
      case Err(e) => Err(e)
      case Ok(items) =>
        match LineItem(corpus[|corpus| - 1], o)
        case Err(e) => Err(e)
        case Ok(None) => Ok(items)
        case Ok(Some(item)) => Ok(items + [item])
  }

  /** `extract_fields`: the loop over the corpus lines. */
  method ExtractFields(corpus: seq<string>, o: Options) returns (r: Result<seq<Item>>)
    ensures r == Extracted(corpus, o)
  {
    var items: seq<Item> := [];
    for idx := 0 to |corpus|
      invariant Extracted(corpus[..idx], o) == Ok(items)
    {
      assert corpus[..idx + 1][..idx] == corpus[..idx];
      var line := LineItem(corpus[idx], o);
      match line
      case Err(e) =>
        ExtractedStops(corpus, idx + 1, o);
        assert corpus[..idx + 1][idx] == corpus[idx];
        return Err(e);
      case Ok(None) =>
      case Ok(Some(item)) =>
        items := items + [item];
    }
    assert corpus[..|corpus|] == corpus;
    r := Ok(items);
  }

  /** Once a line raises, reading further lines does not change the outcome. */
  lemma {:induction false} ExtractedStops(corpus: seq<string>, k: nat, o: Options)
    requires 0 < k <= |corpus| && Extracted(corpus[..k], o).Err?
    ensures Extracted(corpus, o) == Extracted(corpus[..k], o)
    decreases |corpus| - k
  {
    if k < |corpus| {
      assert corpus[..k + 1][..k] == corpus[..k];
      ExtractedStops(corpus, k + 1, o);
    } else {
      assert corpus[..k] == corpus;
    }
  }

  /** Every extracted item comes from one line, in order, so there are at most as many items as lines. */
  lemma {:induction false} ExtractedFromLines(corpus: seq<string>, o: Options)
    requires Extracted(corpus, o).Ok?
    ensures |Extracted(corpus, o).value| <= |corpus|
    ensures forall x :: x in Extracted(corpus, o).value ==> exists i :: 0 <= i < |corpus| && LineItem(corpus[i], o) == Ok(Some(x))
  {
    if corpus != [] {
      var init := corpus[..|corpus| - 1];
      ExtractedFromLines(init, o);
      forall x | x in Extracted(init, o).value
        ensures exists i :: 0 <= i < |corpus| && LineItem(corpus[i], o) == Ok(Some(x))
      {
        var i :| 0 <= i < |init| && LineItem(init[i], o) == Ok(Some(x));
        assert corpus[i] == init[i];
      }
    }
  }

  /** The kept meta lines of `extract_units`: the given ones, or none, plus the boundary. */
  function UnitMeta(keepMeta: Option<set<string>>, boundary: string): (k: set<string>)
    ensures boundary in k
    ensures keepMeta.Some? ==> keepMeta.value <= k
  {
    match keepMeta
    case None => {boundary}
    case Some(m) => m + {boundary}
  }

  /**
   * `extract_units`: the extracted items cut at the boundary token, which
   * is always kept by the extraction.  `keepMeta` is `None` when the caller
   * names no kept meta lines.
   */
  method ExtractUnits(corpus: seq<string>, boundary: string, keepMeta: Option<set<string>>, o: Options)
    returns (r: Result<seq<seq<Item>>>)
    ensures var o' := o.(keepMeta := UnitMeta(keepMeta, boundary));
      && (r.Err? <==> Extracted(corpus, o').Err?)
      && (r.Ok? ==> r.value == Segments(Extracted(corpus, o').value, Word(boundary)))
    ensures r.Ok? ==> forall u :: u in r.value ==> u != [] && Word(boundary) !in u
  {
    var o' := o.(keepMeta := UnitMeta(keepMeta, boundary));
    var items := ExtractFields(corpus, o');
    if items.Err? {
      return Err(items.error);
    }
    var units := SplitCollection(items.value, Word(boundary));
    r := Ok(units);
  }

  /** With the boundary kept, a line that reads as the boundary ends a unit: it becomes the boundary token. */
  lemma BoundaryLineSplits(line: string, boundary: string, keepMeta: Option<set<string>>, o: Options)
    requires boundary != [] && Clean(line, o.lower) == boundary
    ensures LineItem(line, o.(keepMeta := UnitMeta(keepMeta, boundary))) == Ok(Some(Word(boundary)))
  {
  }

  // ---------------------------------------------------------------------------
  // replace_disallowed

  /** A string holding a symbol outside the allowed ones (the negated character class). */
  predicate Disallowed(s: string, symbols: string)
  {
    exists c :: c in s && c !in symbols
  }

  /** What `replace_disallowed` puts in place of one token or list of fields. */
  function ReplaceItem(item: Item, symbols: string, replacement: string): (r: Item)
    ensures item.Word? ==> r.Word? && (r.text == replacement || r.text == item.text)
    ensures item.Word? && Disallowed(item.text, symbols) ==> r.text == replacement
    ensures item.Word? && !Disallowed(item.text, symbols) ==> r == item
    ensures item.Record? ==> r.Record? && |r.fields| == |item.fields|
    ensures item.Record? ==> forall j :: 0 <= j < |item.fields| ==>
              r.fields[j] == if Disallowed(item.fields[j], symbols) then replacement else item.fields[j]
  {
    match item
    case Word(s) => if Disallowed(s, symbols) then Word(replacement) else item
    case Record(fs) =>
      Record(seq(|fs|, j requires 0 <= j < |fs| => if Disallowed(fs[j], symbols) then replacement else fs[j]))
  }

  /** Every string of an item uses allowed symbols only. */
  predicate Allowed(item: Item, symbols: string)
  {
    match item
    case Word(s) => !Disallowed(s, symbols)
    case Record(fs) => forall j :: 0 <= j < |fs| ==> !Disallowed(fs[j], symbols)
  }

  /**
   * `replace_disallowed`: the pattern is compiled first, and `[^]` with no
   * symbols is not a valid pattern; then the loop appends each token,
   * replaced when needed.
   */
  method ReplaceDisallowed(sequence: seq<Item>, symbols: string, replacement: string) returns (r: Result<seq<Item>>)
    ensures r.Err? <==> symbols == []
    ensures r.Err? ==> r.error == PatternError
    ensures r.Ok? ==> |r.value| == |sequence|
    ensures r.Ok? ==> forall i :: 0 <= i < |sequence| ==> r.value[i] == ReplaceItem(sequence[i], symbols, replacement)
  {
    if symbols == [] {
      return Err(PatternError);
    }
    var replaced := [];
    for i := 0 to |sequence|
      invariant |replaced| == i
      invariant forall k :: 0 <= k < i ==> replaced[k] == ReplaceItem(sequence[k], symbols, replacement)
    {
      var token := ReplaceItem(sequence[i], symbols, replacement);
      replaced := replaced + [token];
    }
    r := Ok(replaced);
  }

  /** With an allowed replacement, every replaced item is clean, and replacing again changes nothing. */
  lemma ReplaceClean(item: Item, symbols: string, replacement: string)
    requires !Disallowed(replacement, symbols)
    ensures Allowed(ReplaceItem(item, symbols, replacement), symbols)
    ensures ReplaceItem(ReplaceItem(item, symbols, replacement), symbols, replacement) == ReplaceItem(item, symbols, replacement)
  {
  }

  // ---------------------------------------------------------------------------
  // filter_tagged_vocabulary

  /** `filter_tagged_vocabulary`: the loop that collects the tagged words whose word part is in the vocabulary. */
  method FilterTaggedVocabulary(taggedVocabulary: seq<string>, vocabulary: Container, split: char)
    returns (targets: set<string>)
    ensures forall t :: t in targets <==> t in taggedVocabulary && vocabulary.Contains(Split(t, split)[0])
  {
    targets := {};
    for i := 0 to |taggedVocabulary|
      invariant forall t :: t in targets <==> t in taggedVocabulary[..i] && vocabulary.Contains(Split(t, split)[0])
    {
      assert taggedVocabulary[..i + 1] == taggedVocabulary[..i] + [taggedVocabulary[i]];
      var taggedWord := taggedVocabulary[i];
      var word := Split(taggedWord, split)[0];
      if vocabulary.Contains(word) {
        targets := targets + {taggedWord};
      }
    }
    assert taggedVocabulary[..|taggedVocabulary|] == taggedVocabulary;
  }

  // ---------------------------------------------------------------------------
  // add_most_frequent

  type Counts = InsertionOrder.Counts

  function Count(c: Counts, w: string): nat
  {
    InsertionOrder.Lookup(c, w)
  }

  /** Counts never increase along the list of words. */
  predicate Ranked(words: seq<string>, c: Counts)
  {
    forall i, j :: 0 <= i < j < |words| ==> Count(c, words[i]) >= Count(c, words[j])
  }

  /** A word counting at least as much as every word of a ranked list can go in front of it. */
  lemma RankedCons(x: string, rest: seq<string>, c: Counts)
    requires Ranked(rest, c)
    requires forall v :: v in rest ==> Count(c, x) >= Count(c, v)
    ensures Ranked([x] + rest, c)
  {
    var r := [x] + rest;
    forall i, j | 0 <= i < j < |r| ensures Count(c, r[i]) >= Count(c, r[j]) {
      if i == 0 {
        assert r[j] == rest[j - 1];
      } else {
        assert r[i] == rest[i - 1] && r[j] == rest[j - 1];
      }
    }
  }

  /** Places a word before the first word with a smaller count, so after every word with at least its count. */
  function InsertByCount(w: string, r: seq<string>, c: Counts): (r': seq<string>)
    requires Ranked(r, c)
    ensures Ranked(r', c) && |r'| == |r| + 1
    ensures forall v :: v in r' <==> v in r || v == w
  {
    if r == [] || Count(c, r[0]) < Count(c, w) then [w] + r
    else
      var rest := InsertByCount(w, r[1..], c);
      assert forall v :: v in r <==> v == r[0] || v in r[1..] by {
        assert r == [r[0]] + r[1..];
      }
      forall v | v in rest ensures Count(c, r[0]) >= Count(c, v) {
        if v != w {
          var k :| 0 <= k < |r[1..]| && r[1..][k] == v;
          assert r[k + 1] == v;
        }
      }
      RankedCons(r[0], rest, c);
      [r[0]] + rest
  }

  lemma {:induction false} InsertByCountDistinct(w: string, r: seq<string>, c: Counts)
    requires Ranked(r, c) && InsertionOrder.DistinctStrings(r) && w !in r
    ensures InsertionOrder.DistinctStrings(InsertByCount(w, r, c))
  {
    if !(r == [] || Count(c, r[0]) < Count(c, w)) {
      assert r == [r[0]] + r[1..];
      InsertByCountDistinct(w, r[1..], c);
      assert r[0] !in r[1..] && r[0] != w;
      assert r[0] !in InsertByCount(w, r[1..], c);
    }
  }

  /** Insertion sort of words by decreasing count in `c`, stable for equal counts. */
  function RankWords(words: seq<string>, c: Counts): (r: seq<string>)
    ensures Ranked(r, c) && |r| == |words|
    ensures forall v :: v in r <==> v in words
  {
    if words == [] then []
    else
      var init := words[..|words| - 1];
      assert words == init + [words[|words| - 1]];
      InsertByCount(words[|words| - 1], RankWords(init, c), c)
  }

  lemma {:induction false} RankWordsDistinct(words: seq<string>, c: Counts)
    requires InsertionOrder.DistinctStrings(words)
    ensures InsertionOrder.DistinctStrings(RankWords(words, c))
  {
    if words != [] {
      var init := words[..|words| - 1];
      assert words == init + [words[|words| - 1]];
      RankWordsDistinct(init, c);
      InsertByCountDistinct(words[|words| - 1], RankWords(init, c), c);
    }
  }

  /**
   * `Counter.most_common()`: the words by decreasing count, words of equal
   * count in insertion order.
   */
  function MostCommon(c: Counts): (r: seq<string>)
    ensures Ranked(r, c) && |r| == |c|
    ensures forall v :: v in r <==> v in InsertionOrder.Keys(c)
  {
    RankWords(InsertionOrder.Keys(c), c)
  }

  /** The words that are not yet targets, in order. */
  function Unlisted(ranked: seq<string>, base: set<string>): (r: seq<string>)
    ensures forall v :: v in r <==> v in ranked && v !in base
  {
    if ranked == [] then []
    else
      assert ranked == [ranked[0]] + ranked[1..];
      if ranked[0] in base then Unlisted(ranked[1..], base) else [ranked[0]] + Unlisted(ranked[1..], base)
  }

  /** Leaving words out keeps the ranking. */
  lemma {:induction false} UnlistedRanked(ranked: seq<string>, base: set<string>, c: Counts)
    requires Ranked(ranked, c)
    ensures Ranked(Unlisted(ranked, base), c)
  {
    if ranked != [] {
      assert ranked == [ranked[0]] + ranked[1..];
      var rest := Unlisted(ranked[1..], base);
      UnlistedRanked(ranked[1..], base, c);
      forall v | v in rest ensures Count(c, ranked[0]) >= Count(c, v) {
        var k :| 0 <= k < |ranked[1..]| && ranked[1..][k] == v;
        assert ranked[k + 1] == v;
      }
      if ranked[0] !in base {
        RankedCons(ranked[0], rest, c);
      }
    }
  }

  /** Leaving words out keeps the words different. */
  lemma {:induction false} UnlistedDistinct(ranked: seq<string>, base: set<string>)
    requires InsertionOrder.DistinctStrings(ranked)
    ensures InsertionOrder.DistinctStrings(Unlisted(ranked, base))
  {
    if ranked != [] {
      assert ranked == [ranked[0]] + ranked[1..];
      UnlistedDistinct(ranked[1..], base);
      assert ranked[0] !in Unlisted(ranked[1..], base);
    }
  }

  /** The targets `add_most_frequent` starts from: those in the vocabulary when filtering, otherwise a copy of all. */
  function BaseTargets(targets: set<string>, vocabulary: Counts, filterTargets: bool): (r: set<string>)
    ensures r <= targets
    ensures filterTargets ==> forall t :: t in r <==> t in targets && t in InsertionOrder.Keys(vocabulary)
  {
    if filterTargets then set t | t in targets && t in InsertionOrder.Keys(vocabulary) else targets
  }

  function Elements(s: seq<string>): set<string>
  {
    set w | w in s
  }

  /** A list has at most as many different words as entries, exactly as many when its words differ. */
  lemma {:induction false} ElementsSize(s: seq<string>)
    ensures |Elements(s)| <= |s|
    ensures InsertionOrder.DistinctStrings(s) ==> |Elements(s)| == |s|
  {
    if s != [] {
      var init := s[..|s| - 1];
      ElementsSize(init);
      assert Elements(s) == Elements(init) + {s[|s| - 1]};
      if InsertionOrder.DistinctStrings(s) {
        assert InsertionOrder.DistinctStrings(init);
        assert s[|s| - 1] !in init;
      }
    }
  }

  /** `set.update`: the loop that adds each listed word. */
  method Update(s: set<string>, words: seq<string>) returns (r: set<string>)
    ensures r == s + Elements(words)
  {
    r := s;
    for i := 0 to |words|
      invariant r == s + Elements(words[..i])
    {
      assert Elements(words[..i + 1]) == Elements(words[..i]) + {words[i]} by {
        assert words[..i + 1] == words[..i] + [words[i]];
      }
      r := r + {words[i]};
    }
    assert words[..|words|] == words;
  }

  /**
   * `add_most_frequent`: the targets padded with the most frequent other
   * words of the vocabulary up to the target size, or ValueError when the
   * targets alone are more than that.  The given set is not changed.
   */
  method AddMostFrequent(targets: set<string>, vocabulary: Counts, targetSize: int, filterTargets: bool)
    returns (r: Result<set<string>>)
    requires InsertionOrder.DistinctStrings(InsertionOrder.Keys(vocabulary))
    ensures r.Err? <==> |BaseTargets(targets, vocabulary, filterTargets)| > targetSize
    ensures r.Err? ==> r.error == ValueError
    ensures r.Ok? ==> BaseTargets(targets, vocabulary, filterTargets) <= r.value && |r.value| <= targetSize
    ensures r.Ok? ==> forall w :: w in r.value - BaseTargets(targets, vocabulary, filterTargets) ==> w in InsertionOrder.Keys(vocabulary)
    ensures r.Ok? && |r.value| < targetSize ==> forall w :: w in InsertionOrder.Keys(vocabulary) ==> w in r.value
    ensures r.Ok? ==> forall w, v ::
              (w in r.value - BaseTargets(targets, vocabulary, filterTargets) && v in InsertionOrder.Keys(vocabulary) && v !in r.value)
              ==> Count(vocabulary, w) >= Count(vocabulary, v)
  {
    var base := BaseTargets(targets, vocabulary, filterTargets);
    var number := targetSize - |base|;
    if number < 0 {
      return Err(ValueError);
    }
    var candidates := Unlisted(MostCommon(vocabulary), base);
    var chosen := candidates[..if number < |candidates| then number else |candidates|];
    var result := Update(base, chosen);
    ChosenFill(vocabulary, base, number, candidates, chosen);
    ChosenOutrank(vocabulary, base, candidates, chosen);
    r := Ok(result);
  }

  /** The chosen words are new vocabulary words; they fill the free places, or all vocabulary words are in. */
  lemma ChosenFill(vocabulary: Counts, base: set<string>, number: nat, candidates: seq<string>, chosen: seq<string>)
    requires InsertionOrder.DistinctStrings(InsertionOrder.Keys(vocabulary))
    requires candidates == Unlisted(MostCommon(vocabulary), base)
    requires chosen == candidates[..if number < |candidates| then number else |candidates|]
    ensures |base + Elements(chosen)| <= |base| + number
    ensures forall w :: w in Elements(chosen) ==> w in InsertionOrder.Keys(vocabulary) && w !in base
    ensures |base + Elements(chosen)| < |base| + number ==>
              forall w :: w in InsertionOrder.Keys(vocabulary) ==> w in base + Elements(chosen)
  {
    RankWordsDistinct(InsertionOrder.Keys(vocabulary), vocabulary);
    UnlistedDistinct(MostCommon(vocabulary), base);
    ElementsSize(chosen);
    assert base * Elements(chosen) == {};
    if |chosen| < number {
      assert chosen == candidates;
    }
  }

  /** A chosen word counts at least as much as any vocabulary word left out. */
  lemma ChosenOutrank(vocabulary: Counts, base: set<string>, candidates: seq<string>, chosen: seq<string>)
    requires candidates == Unlisted(MostCommon(vocabulary), base)
    requires chosen <= candidates
    ensures forall w, v :: w in Elements(chosen) && v in InsertionOrder.Keys(vocabulary) && v !in base + Elements(chosen) ==>
              Count(vocabulary, w) >= Count(vocabulary, v)
  {
    UnlistedRanked(MostCommon(vocabulary), base, vocabulary);
    forall w, v | w in Elements(chosen) && v in InsertionOrder.Keys(vocabulary) && v !in base + Elements(chosen)
      ensures Count(vocabulary, w) >= Count(vocabulary, v)
    {
      var i :| 0 <= i < |chosen| && chosen[i] == w;
      var j :| 0 <= j < |candidates| && candidates[j] == v;
      assert candidates[i] == w;
    }
  }
}
