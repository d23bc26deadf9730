/**
 * The balanced insertion order of src/corpustools/insertion_order.py: the
 * strings of a frequency table are sorted, their cumulative masses are
 * computed, and the indices are emitted median first, then recursively the
 * medians of the left and right remainders.
 *
 * Masses are kept as integer cumulative counts rather than cumulative
 * probabilities: dividing every entry by the positive total changes none of
 * the comparisons the median rule makes.  The midpoint `(first + last) / 2`
 * is kept exact by working with doubled values.
 */
module InsertionOrder {
  import opened Wrappers

  // ---------------------------------------------------------------------------
  // Median element

  predicate Increasing(a: seq<int>)
  {
    forall i, j :: 0 <= i < j < |a| ==> a[i] < a[j]
  }

  /**
   * numpy's `searchsorted(a, x)` (side "left"): the first position whose
   * value is at least `x`, or `|a|` when there is none.
   */
  function SearchSorted(a: seq<int>, x: int): (r: nat)
    ensures r <= |a|
    ensures forall i :: 0 <= i < r ==> a[i] < x
    ensures r < |a| ==> a[r] >= x
  {
    if a == [] then 0
    else if a[0] >= x then 0
    else 1 + SearchSorted(a[1..], x)
  }

  function Doubled(a: seq<int>): (r: seq<int>)
    ensures |r| == |a| && forall i :: 0 <= i < |a| ==> r[i] == 2 * a[i]
  {
    seq(|a|, i requires 0 <= i < |a| => 2 * a[i])
  }

  function Abs(x: int): nat
  {
    if x < 0 then -x else x
  }

  /** Twice the distance of `a[j]` from the midpoint of the first and last entries. */
  function Distance(a: seq<int>, j: nat): nat
    requires 0 < |a| && j < |a|
  {
    Abs(2 * a[j] - (a[0] + a[|a| - 1]))
  }

  /**
   * The entry closest to the midpoint between the first and last entries;
   * of two equally close entries the left one.  Found, as in the source,
   * from the insertion point of the midpoint and the position before it.
   */
  function MedianElement(a: seq<int>): (r: nat)
    requires |a| >= 2 && Increasing(a)
    ensures r < |a|
    ensures forall j :: 0 <= j < |a| ==> Distance(a, r) <= Distance(a, j)
    ensures forall j :: 0 <= j < r ==> Distance(a, j) > Distance(a, r)
    ensures |a| >= 3 ==> 1 <= r <= |a| - 2
  {
    var s := a[0] + a[|a| - 1];
    var m := SearchSorted(Doubled(a), s);
    assert 1 <= m <= |a| - 1 by {
      assert 2 * a[0] < s && 2 * a[|a| - 1] > s;
    }
    var r := if 2 * a[m] - s >= s - 2 * a[m - 1] then m - 1 else m;
    ClosestToMid(a, m, r);
    r
  }

  /** Of the entries on either side of the midpoint, the nearer one (the left on a tie) is nearest of all. */
  lemma ClosestToMid(a: seq<int>, m: nat, r: nat)
    requires |a| >= 2 && Increasing(a) && 1 <= m < |a|
    requires 2 * a[m - 1] < a[0] + a[|a| - 1] <= 2 * a[m]
    requires r == if Distance(a, m) >= Distance(a, m - 1) then m - 1 else m
    ensures forall j :: 0 <= j < |a| ==> Distance(a, r) <= Distance(a, j)
    ensures forall j :: 0 <= j < r ==> Distance(a, j) > Distance(a, r)
    ensures |a| >= 3 ==> 1 <= r <= |a| - 2
  {
    forall j | 0 <= j < |a| ensures Distance(a, r) <= Distance(a, j) {
      if j < m - 1 {
        assert a[j] < a[m - 1];
      } else if j > m {
        assert a[m] < a[j];
      }
    }
    if |a| >= 3 {
      assert a[0] < a[1] && a[|a| - 2] < a[|a| - 1];
    }
  }

  // ---------------------------------------------------------------------------
  // Recursive median order

  /** Adds `d` to every index. */
  function Shift(r: seq<nat>, d: nat): (r': seq<nat>)
    ensures |r'| == |r| && forall i :: 0 <= i < |r| ==> r'[i] == r[i] + d
  {
    seq(|r|, i requires 0 <= i < |r| => r[i] + d)
  }

  /** `r` lists every index below `n` exactly once. */
  predicate IsPermutation(r: seq<nat>, n: nat)
  {
    && |r| == n
    && (forall i :: 0 <= i < |r| ==> r[i] < n)
    && (forall i, j :: 0 <= i < j < |r| ==> r[i] != r[j])
    && (forall k :: 0 <= k < n ==> k in r)
  }

  /**
   * The median split order of an increasing array: fixed orders for one to
   * three entries, otherwise the median element, then the order of the part
   * left of it, then that of the part right of it, moved past the median.
   */
  function RecursiveMedian(a: seq<int>): (r: seq<nat>)
    requires |a| >= 1 && Increasing(a)
    ensures IsPermutation(r, |a|)
    ensures |a| >= 4 ==>
      && r[0] == MedianElement(a)
      && (forall i :: 1 <= i <= r[0] ==> r[i] < r[0])
      && (forall i :: r[0] < i < |r| ==> r[i] > r[0])
    decreases |a|, 1
  {
    if |a| <= 3 then
      SmallOrders();
      if |a| == 3 then [1, 0, 2] else if |a| == 2 then [0, 1] else [0]
    else
      SplitOrder(a, MedianElement(a))
  }

  /** The order `RecursiveMedian` gives when it splits at index `m`. */
  function SplitOrder(a: seq<int>, m: nat): (r: seq<nat>)
    requires m < |a| && Increasing(a)
    ensures IsPermutation(r, |a|)
    ensures r[0] == m
    ensures forall i :: 1 <= i <= m ==> r[i] < m
    ensures forall i :: m < i < |r| ==> r[i] > m
    decreases |a|, 0
  {
    IncreasingSlices(a, m);
    var left := if m == 0 then [] else RecursiveMedian(a[..m]);
    var right := if m == |a| - 1 then [] else RecursiveMedian(a[m + 1..]);
    MedianFirst(m, left, right, |a|);
    MedianOrder(m, left, right)
  }

  /** The fixed orders for one to three entries are permutations. */
  lemma SmallOrders()
    ensures IsPermutation([1, 0, 2], 3) && IsPermutation([0, 1], 2) && IsPermutation([0], 1)
  {
    assert [1, 0, 2][1] == 0 && [1, 0, 2][0] == 1 && [1, 0, 2][2] == 2;
    assert [0, 1][0] == 0 && [0, 1][1] == 1;
  }

  /** The median, then the order of the left part, then that of the right part moved past the median. */
  function MedianOrder(m: nat, left: seq<nat>, right: seq<nat>): seq<nat>
  {
    [m] + left + Shift(right, m + 1)
  }

  /** The median followed by the orders of the parts left and right of it lists every index once, left part first. */
  lemma MedianFirst(m: nat, left: seq<nat>, right: seq<nat>, n: nat)
    requires m < n
    requires IsPermutation(left, m) && IsPermutation(right, n - m - 1)
    ensures IsPermutation(MedianOrder(m, left, right), n)
    ensures forall i :: 1 <= i <= m ==> MedianOrder(m, left, right)[i] < m
    ensures forall i :: m < i < n ==> MedianOrder(m, left, right)[i] > m
  {
    ShiftPermutation(right, m + 1);
    Concat3(m, left, Shift(right, m + 1), n);
  }

  /** Shifting a permutation of the indices below `|r|` by `d` lists each of `d .. d + |r| - 1` once. */
  lemma ShiftPermutation(r: seq<nat>, d: nat)
    requires IsPermutation(r, |r|)
    ensures forall k :: d <= k < d + |r| ==> k in Shift(r, d)
  {
    var r' := Shift(r, d);
    forall k | d <= k < d + |r| ensures k in r' {
      assert k - d in r;
      var i :| 0 <= i < |r| && r[i] == k - d;
      assert r'[i] == k;
    }
  }

  lemma IncreasingSlices(a: seq<int>, m: nat)
    requires Increasing(a) && m < |a|
    ensures Increasing(a[..m]) && Increasing(a[m + 1..])
  {
  }

  /** The median, a permutation of the indices left of it and one of those right of it, shifted, make a permutation. */
  lemma Concat3(m: nat, left: seq<nat>, right: seq<nat>, n: nat)
    requires m < n
    requires IsPermutation(left, m)
    requires |right| == n - m - 1
    requires forall i :: 0 <= i < |right| ==> m < right[i] < n
    requires forall i, j :: 0 <= i < j < |right| ==> right[i] != right[j]
    requires forall k :: m < k < n ==> k in right
    ensures IsPermutation([m] + left + right, n)
    ensures forall i :: 1 <= i <= m ==> ([m] + left + right)[i] < m
    ensures forall i :: m < i < n ==> ([m] + left + right)[i] > m
  {
    var r := [m] + left + right;
    forall k | 0 <= k < n ensures k in r {
      if k < m {
        assert k in left;
      } else if k > m {
        assert k in right;
      }
    }
  }

  // ---------------------------------------------------------------------------
  // Frequencies to insertion order

  /** Sum of a sequence of counts. */
  function Sum(f: seq<nat>): nat
  {
    if f == [] then 0 else Sum(f[..|f| - 1]) + f[|f| - 1]
  }

  /** `numpy.cumsum`: each entry adds its count to the entry before it. */
  function Cumulative(f: seq<nat>): (c: seq<int>)
    ensures |c| == |f|
    ensures f != [] ==> c[0] == f[0]
    ensures forall i :: 0 < i < |f| ==> c[i] == c[i - 1] + f[i]
  {
    if f == [] then []
    else
      var init := f[..|f| - 1];
      var c := Cumulative(init);
      assert forall i :: 0 <= i < |init| ==> init[i] == f[i];
      c + [(if c == [] then 0 else c[|c| - 1]) + f[|f| - 1]]
  }

  /** With positive counts the cumulative masses strictly increase, and the last one is the whole mass. */
  lemma {:induction false} CumulativeIncreasing(f: seq<nat>)
    requires forall i :: 0 <= i < |f| ==> f[i] > 0
    ensures Increasing(Cumulative(f))
    ensures |f| > 0 ==> Cumulative(f)[|f| - 1] == Sum(f)
  {
    var c := Cumulative(f);
    forall i, j | 0 <= i < j < |c| ensures c[i] < c[j] {
      StepsIncrease(c, i, j);
    }
    if |f| > 0 {
      var init := f[..|f| - 1];
      CumulativeIncreasing(init);
      var ci := Cumulative(init);
    }
  }

  lemma {:induction false} StepsIncrease(c: seq<int>, i: nat, j: nat)
    requires forall k :: 0 <= k < |c| - 1 ==> c[k] < c[k + 1]
    requires i < j < |c|
    ensures c[i] < c[j]
    decreases j - i
  {
    if i + 1 < j {
      StepsIncrease(c, i + 1, j);
    }
  }

  /** Python's `<` on strings: lexicographic by code point, a proper prefix first. */
  predicate Below(a: string, b: string)
  {
    if a == [] then b != []
    else if b == [] then false
    else if a[0] != b[0] then a[0] < b[0]
    else Below(a[1..], b[1..])
  }

  lemma {:induction false} BelowTotal(a: string, b: string)
    ensures a == b || Below(a, b) || Below(b, a)
    ensures !(Below(a, b) && Below(b, a))
    ensures !Below(a, a)
  {
    if a != [] && b != [] && a[0] == b[0] {
      BelowTotal(a[1..], b[1..]);
      if a[1..] == b[1..] {
        assert a == [a[0]] + a[1..] && b == [b[0]] + b[1..];
      }
    } else if a != [] {
      BelowTotal(a[1..], a[1..]);
    }
  }

  lemma {:induction false} BelowTrans(a: string, b: string, c: string)
    requires Below(a, b) && Below(b, c)
    ensures Below(a, c)
  {
    if a != [] && a[0] == b[0] && b[0] == c[0] {
      BelowTrans(a[1..], b[1..], c[1..]);
    }
  }

  predicate SortedStrings(r: seq<string>)
  {
    forall i, j :: 0 <= i < j < |r| ==> Below(r[i], r[j])
  }

  /** Puts `x` into a sorted list before the first entry above it. */
  function InsertString(x: string, r: seq<string>): (r': seq<string>)
    requires SortedStrings(r) && x !in r
    ensures |r'| == |r| + 1
    ensures SortedStrings(r')
    ensures multiset(r') == multiset(r) + multiset{x}
  {
    if r == [] then [x]
    else
      BelowTotal(x, r[0]);
      if Below(x, r[0]) then
        BelowHead(x, r);
        [x] + r
      else
        var rest := InsertString(x, r[1..]);
        HeadBelowRest(x, r, rest);
        [r[0]] + rest
  }

  /** A string below the head of a sorted list is below all of it. */
  lemma BelowHead(x: string, r: seq<string>)
    requires SortedStrings(r) && r != [] && Below(x, r[0])
    ensures SortedStrings([x] + r)
  {
    forall j | 0 <= j < |r| ensures Below(x, r[j]) {
      if j > 0 {
        BelowTrans(x, r[0], r[j]);
      }
    }
  }

  /** The head of a sorted list stays below the rest once a string above it is put into the rest. */
  lemma HeadBelowRest(x: string, r: seq<string>, rest: seq<string>)
    requires SortedStrings(r) && r != [] && Below(r[0], x)
    requires SortedStrings(rest) && multiset(rest) == multiset(r[1..]) + multiset{x}
    ensures SortedStrings([r[0]] + rest)
    ensures multiset([r[0]] + rest) == multiset(r) + multiset{x}
  {
    assert r == [r[0]] + r[1..];
    forall j | 0 <= j < |rest| ensures Below(r[0], rest[j]) {
      assert rest[j] in multiset(rest);
      if rest[j] != x {
        assert rest[j] in r[1..];
      }
    }
  }

  predicate DistinctStrings(r: seq<string>)
  {
    forall i, j :: 0 <= i < j < |r| ==> r[i] != r[j]
  }

  /** Python's `sorted` on a list of different strings. */
  function SortStrings(s: seq<string>): (r: seq<string>)
    requires DistinctStrings(s)
    ensures |r| == |s|
    ensures SortedStrings(r)
    ensures multiset(r) == multiset(s)
  {
    if s == [] then []
    else
      var rest := SortStrings(s[..|s| - 1]);
      assert s == s[..|s| - 1] + [s[|s| - 1]];
      assert s[|s| - 1] !in s[..|s| - 1];
      assert s[|s| - 1] !in multiset(rest);
      InsertString(s[|s| - 1], rest)
  }

  /** A frequency table as the source's Counter: keys in insertion order, each once. */
  type Counts = seq<(string, nat)>

  function Keys(c: Counts): (r: seq<string>)
    ensures |r| == |c| && forall i :: 0 <= i < |c| ==> r[i] == c[i].0
  {
    seq(|c|, i requires 0 <= i < |c| => c[i].0)
  }

  /** The count of `k`, zero when `k` is not in the table. */
  function Lookup(c: Counts, k: string): nat
  {
    if c == [] then 0 else if c[0].0 == k then c[0].1 else Lookup(c[1..], k)
  }

  lemma {:induction false} LookupPositive(c: Counts, k: string)
    requires forall i :: 0 <= i < |c| ==> c[i].1 > 0
    requires k in Keys(c)
    ensures Lookup(c, k) > 0
  {
    if c[0].0 != k {
      assert Keys(c) == [c[0].0] + Keys(c[1..]);
      LookupPositive(c[1..], k);
    }
  }

  /**
   * The keys of the table in balanced insertion order: sorted, turned into
   * cumulative masses, and emitted in recursive median order.  An empty
   * table fails as the source does, when the median of an empty array is
   * indexed.
   */
  function MedianSplitVocabulary(c: Counts): (r: Result<seq<string>>)
    requires DistinctStrings(Keys(c))
    requires forall i :: 0 <= i < |c| ==> c[i].1 > 0
    ensures r.Err? <==> c == []
    ensures r.Err? ==> r.error == IndexError
    ensures r.Ok? ==> |r.value| == |c| && DistinctStrings(r.value)
    ensures r.Ok? ==> forall k :: k in r.value <==> k in Keys(c)
    // the keys sorted, then read in the recursive median order of their cumulative masses
    ensures r.Ok? ==>
      var s := SortStrings(Keys(c));
      r.value == Pick(s, RecursiveMedian(Cumulative(Masses(c, s))))
  {
    var strings := SortStrings(Keys(c));
    if |strings| == 0 then Err(IndexError)
    else
      var masses := Masses(c, strings);
      var order := RecursiveMedian(Cumulative(masses));
      var r := Pick(strings, order);
      PermutedDistinct(strings, order, r);
      SameMembers(strings, Keys(c));
      Ok(r)
  }

  /**
   * From four keys on, the vocabulary starts with the key at the median of the
   * cumulative masses of the sorted keys; every key sorted before it comes
   * next, and every key sorted after it comes last.
   */
  lemma MedianSplitOrder(c: Counts)
    requires DistinctStrings(Keys(c))
    requires forall i :: 0 <= i < |c| ==> c[i].1 > 0
    requires |c| >= 4
    ensures var s := SortStrings(Keys(c));
      var m := MedianElement(Cumulative(Masses(c, s)));
      var r := MedianSplitVocabulary(c);
      && r.Ok?
      && r.value[0] == s[m]
      && (forall i :: 1 <= i <= m ==> Below(r.value[i], s[m]))
      && (forall i :: m < i < |c| ==> Below(s[m], r.value[i]))
  {
    var s := SortStrings(Keys(c));
    var order := RecursiveMedian(Cumulative(Masses(c, s)));
    var m := order[0];
    var r := MedianSplitVocabulary(c).value;
    forall i | 1 <= i <= m ensures Below(r[i], s[m]) {
      assert r[i] == s[order[i]] && order[i] < m;
    }
    forall i | m < i < |c| ensures Below(s[m], r[i]) {
      assert r[i] == s[order[i]] && order[i] > m;
    }
  }

  /** `[strings[i] for i in order]`. */
  function Pick(strings: seq<string>, order: seq<nat>): (r: seq<string>)
    requires forall i :: 0 <= i < |order| ==> order[i] < |strings|
    ensures |r| == |order| && forall i :: 0 <= i < |order| ==> r[i] == strings[order[i]]
  {
    seq(|order|, i requires 0 <= i < |order| => strings[order[i]])
  }

  lemma SameMembers(s: seq<string>, t: seq<string>)
    requires multiset(s) == multiset(t)
    ensures forall k :: k in s <==> k in t
  {
    forall k ensures k in s <==> k in t {
      assert k in s <==> k in multiset(s);
      assert k in t <==> k in multiset(t);
    }
  }

  /** The counts of the sorted keys, each positive. */
  function Masses(c: Counts, strings: seq<string>): (f: seq<nat>)
    requires forall i :: 0 <= i < |c| ==> c[i].1 > 0
    requires multiset(strings) == multiset(Keys(c))
    ensures |f| == |strings|
    ensures forall i :: 0 <= i < |f| ==> f[i] == Lookup(c, strings[i]) && f[i] > 0
    ensures Increasing(Cumulative(f))
  {
    var f := seq(|strings|, i requires 0 <= i < |strings| => Lookup(c, strings[i]));
    forall i | 0 <= i < |strings| ensures f[i] > 0 {
      assert strings[i] in multiset(Keys(c));
      LookupPositive(c, strings[i]);
    }
    CumulativeIncreasing(f);
    f
  }

  /** Reading a sorted list of strings in a permuted order gives each of them exactly once. */
  lemma PermutedDistinct(strings: seq<string>, order: seq<nat>, r: seq<string>)
    requires SortedStrings(strings)
    requires IsPermutation(order, |strings|)
    requires |r| == |order| && forall i :: 0 <= i < |order| ==> r[i] == strings[order[i]]
    ensures DistinctStrings(r)
    ensures forall k :: k in r <==> k in strings
  {
    forall i, j | 0 <= i < j < |r| ensures r[i] != r[j] {
      var a, b := order[i], order[j];
      if a < b {
        BelowTotal(strings[a], strings[b]);
      } else {
        BelowTotal(strings[b], strings[a]);
      }
    }
    forall k | k in strings ensures k in r {
      var j :| 0 <= j < |strings| && strings[j] == k;
      assert j in order;
      var i :| 0 <= i < |order| && order[i] == j;
      assert r[i] == k;
    }
  }
}
