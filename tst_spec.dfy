/**
 * The counting algebra behind the ternary search tree of src/corpustools/tst.py.
 *
 * A `Table` maps strings to counts.  Inserting a key adds its weight to the
 * key itself and, when subsequence counting is on, to every non-empty proper
 * prefix of the key that is immediately followed by the separator (a
 * "boundary prefix": for "my#shiny#trigram" these are "my" and "my#shiny").
 * Nothing else changes.  The tree's nodes keep one such table per subtree
 * (`Compose` says how a node's table is built from its children's), and the
 * tree as a whole exposes the entries with a positive count (`Add`).
 */
module TstSpec {
  import opened Wrappers

  type Table = map<string, nat>

  /** The count of `k`, zero when `k` is not stored. */
  function Get(m: Table, k: string): nat
  {
    if k in m then m[k] else 0
  }

  /** `p` is a non-empty proper prefix of `key` that the separator follows. */
  predicate IsBoundaryPrefix(p: string, key: string, sep: Option<char>)
  {
    sep.Some? && 0 < |p| < |key| && key[..|p|] == p && key[|p|] == sep.value
  }

  /** What inserting `key` with `weight` adds to the count of `s`. */
  function Increment(key: string, weight: nat, subsequences: bool, sep: Option<char>, s: string): nat
  {
    if key != [] && s == key then weight
    else if subsequences && IsBoundaryPrefix(s, key, sep) then weight
    else 0
  }

  /** The non-empty prefixes of `key`: the strings whose nodes an insert of `key` walks through. */
  function Paths(key: string): set<string>
  {
    set i | 1 <= i <= |key| :: key[..i]
  }

  /** Node-level effect of an insert: every node on the path exists afterwards, counts grow by `Increment`. */
  function Bump(m: Table, key: string, weight: nat, subsequences: bool, sep: Option<char>): Table
  {
    map k | k in m.Keys + Paths(key) :: Get(m, k) + Increment(key, weight, subsequences, sep, k)
  }

  /** The entries with a positive count. */
  function Positive(m: Table): Table
  {
    map k | k in m && m[k] > 0 :: m[k]
  }

  predicate AllPositive(m: Table)
  {
    forall k :: k in m ==> m[k] > 0
  }

  /** Tree-level effect of an insert on the table of positive counts. */
  function Add(m: Table, key: string, weight: nat, subsequences: bool, sep: Option<char>): (r: Table)
    ensures AllPositive(r)
  {
    Positive(Bump(m, key, weight, subsequences, sep))
  }

  /** Effect of a series of one-argument inserts, oldest first. */
  function AddAll(m: Table, keys: seq<string>, sep: Option<char>): (r: Table)
    decreases |keys|
  {
    if keys == [] then m
    else Add(AddAll(m, keys[..|keys| - 1], sep), keys[|keys| - 1], 1, true, sep)
  }

  /** How many of `keys` count towards `s`: those equal to it or having it as a boundary prefix. */
  function Touches(keys: seq<string>, s: string, sep: Option<char>): nat
    decreases |keys|
  {
    if keys == [] then 0
    else Touches(keys[..|keys| - 1], s, sep) + Increment(keys[|keys| - 1], 1, true, sep, s)
  }

  /** Every count is bounded by the number of inserts, and no boundary prefix counts less than its string. */
  ghost predicate Dominated(m: Table, total: nat, sep: Option<char>)
  {
    forall k :: k in m ==>
      m[k] <= total && forall p :: IsBoundaryPrefix(p, k, sep) ==> Get(m, p) >= m[k]
  }

  // ---------------------------------------------------------------------------
  // Counting laws

  lemma PathsAt(key: string, s: string)
    ensures s in Paths(key) <==> 0 < |s| <= |key| && key[..|s|] == s
  {
    if 0 < |s| <= |key| && key[..|s|] == s {
      assert s == key[..|s|];
    }
  }

  /** Only strings on the insert path can change. */
  lemma IncrementOnPath(key: string, weight: nat, subsequences: bool, sep: Option<char>, s: string)
    ensures Increment(key, weight, subsequences, sep, s) > 0 ==> s in Paths(key)
  {
    if Increment(key, weight, subsequences, sep, s) > 0 {
      if s == key {
        assert key[..|key|] == key;
      }
      PathsAt(key, s);
    }
  }

  lemma GetBump(m: Table, key: string, weight: nat, subsequences: bool, sep: Option<char>, k: string)
    ensures Get(Bump(m, key, weight, subsequences, sep), k) == Get(m, k) + Increment(key, weight, subsequences, sep, k)
  {
    IncrementOnPath(key, weight, subsequences, sep, k);
  }

  lemma GetPositive(m: Table, k: string)
    ensures Get(Positive(m), k) == Get(m, k)
  {
  }

  /** Two tables with the same counts everywhere have the same positive part. */
  lemma PositiveExt(a: Table, b: Table)
    requires forall k :: Get(a, k) == Get(b, k)
    ensures Positive(a) == Positive(b)
  {
    forall k
      ensures k in Positive(a) <==> k in Positive(b)
      ensures k in Positive(a) ==> Positive(a)[k] == Positive(b)[k]
    {
      assert Get(a, k) == Get(b, k);
    }
  }

  /**
   * The counting law of an insert: the key gains its weight, every boundary
   * prefix gains it too when subsequences are counted, nothing else changes.
   */
  lemma {:induction false} CountingLaw(m: Table, key: string, weight: nat, subsequences: bool, sep: Option<char>, s: string)
    ensures Get(Add(m, key, weight, subsequences, sep), s) == Get(m, s) + Increment(key, weight, subsequences, sep, s)
  {
    GetPositive(Bump(m, key, weight, subsequences, sep), s);
    GetBump(m, key, weight, subsequences, sep, s);
  }

  /** Inserting the empty key changes no count. */
  lemma AddEmptyKey(m: Table, weight: nat, subsequences: bool, sep: Option<char>)
    requires AllPositive(m)
    ensures Add(m, [], weight, subsequences, sep) == m
  {
    forall k ensures Get(Add(m, [], weight, subsequences, sep), k) == Get(m, k) {
      CountingLaw(m, [], weight, subsequences, sep, k);
    }
    assert Positive(m) == m;
    PositiveExt(Bump(m, [], weight, subsequences, sep), m);
  }

  /** Positive counts after a node-level insert are the tree-level insert of the positive counts. */
  lemma PositiveBump(m: Table, key: string, weight: nat, subsequences: bool, sep: Option<char>)
    ensures Positive(Bump(m, key, weight, subsequences, sep)) == Add(Positive(m), key, weight, subsequences, sep)
  {
    forall k
      ensures Get(Bump(m, key, weight, subsequences, sep), k) == Get(Bump(Positive(m), key, weight, subsequences, sep), k)
    {
      GetBump(m, key, weight, subsequences, sep, k);
      GetBump(Positive(m), key, weight, subsequences, sep, k);
    }
    PositiveExt(Bump(m, key, weight, subsequences, sep), Bump(Positive(m), key, weight, subsequences, sep));
  }

  /** After a series of one-argument inserts, each count is the number of keys that touch it. */
  lemma {:induction false} AddAllCounts(m: Table, keys: seq<string>, sep: Option<char>, s: string)
    ensures Get(AddAll(m, keys, sep), s) == Get(m, s) + Touches(keys, s, sep)
    decreases |keys|
  {
    if keys != [] {
      AddAllCounts(m, keys[..|keys| - 1], sep, s);
      CountingLaw(AddAll(m, keys[..|keys| - 1], sep), keys[|keys| - 1], 1, true, sep, s);
    }
  }

  /** A string that is not on the path of any inserted key keeps its count. */
  lemma {:induction false} UntouchedKeepsCount(m: Table, keys: seq<string>, sep: Option<char>, s: string)
    requires forall i :: 0 <= i < |keys| ==> s !in Paths(keys[i])
    ensures Get(AddAll(m, keys, sep), s) == Get(m, s)
  {
    AddAllCounts(m, keys, sep, s);
    NoPathNoTouch(keys, sep, s);
  }

  lemma {:induction false} NoPathNoTouch(keys: seq<string>, sep: Option<char>, s: string)
    requires forall i :: 0 <= i < |keys| ==> s !in Paths(keys[i])
    ensures Touches(keys, s, sep) == 0
    decreases |keys|
  {
    if keys != [] {
      NoPathNoTouch(keys[..|keys| - 1], sep, s);
      IncrementOnPath(keys[|keys| - 1], 1, true, sep, s);
    }
  }

  // ---------------------------------------------------------------------------
  // Dominance: what subsequence counting guarantees

  lemma BoundaryPrefixTrans(p: string, k: string, key: string, sep: Option<char>)
    requires IsBoundaryPrefix(p, k, sep) && IsBoundaryPrefix(k, key, sep)
    ensures IsBoundaryPrefix(p, key, sep)
  {
    assert key[..|p|] == key[..|k|][..|p|];
    assert key[|p|] == key[..|k|][|p|];
  }

  /** A touched string's boundary prefixes are touched too. */
  lemma IncrementMonotone(key: string, sep: Option<char>, p: string, k: string)
    requires IsBoundaryPrefix(p, k, sep)
    ensures Increment(key, 1, true, sep, p) >= Increment(key, 1, true, sep, k)
  {
    if Increment(key, 1, true, sep, k) > 0 && k != key {
      BoundaryPrefixTrans(p, k, key, sep);
    }
  }

  lemma {:induction false} AddKeepsDominated(m: Table, total: nat, key: string, sep: Option<char>)
    requires Dominated(m, total, sep)
    ensures Dominated(Add(m, key, 1, true, sep), total + 1, sep)
  {
    var m' := Add(m, key, 1, true, sep);
    forall k | k in m'
      ensures m'[k] <= total + 1
      ensures forall p :: IsBoundaryPrefix(p, k, sep) ==> Get(m', p) >= m'[k]
    {
      CountingLaw(m, key, 1, true, sep, k);
      forall p | IsBoundaryPrefix(p, k, sep) ensures Get(m', p) >= m'[k] {
        CountingLaw(m, key, 1, true, sep, p);
        IncrementMonotone(key, sep, p, k);
      }
    }
  }

  lemma EmptyDominated(sep: Option<char>)
    ensures Dominated(map[], 0, sep)
  {
  }

  /** Any series of one-argument inserts into an empty table leaves it dominated by the number of inserts. */
  lemma {:induction false} AddAllDominated(m: Table, total: nat, keys: seq<string>, sep: Option<char>)
    requires Dominated(m, total, sep)
    ensures Dominated(AddAll(m, keys, sep), total + |keys|, sep)
    decreases |keys|
  {
    if keys != [] {
      AddAllDominated(m, total, keys[..|keys| - 1], sep);
      AddKeepsDominated(AddAll(m, keys[..|keys| - 1], sep), total + |keys| - 1, keys[|keys| - 1], sep);
    }
  }

  // ---------------------------------------------------------------------------
  // How a node's table is built from its children's

  /** The table of a subtree seen from one position higher up: every string gets `c` in front. */
  function Prefixed(c: char, m: Table): Table
  {
    map k | k in (set k' | k' in m :: [c] + k') && |k| > 0 && k[1..] in m :: m[k[1..]]
  }

  /** The table of a node holding `c` with `count`, given the tables of its lo, eq and hi subtrees. */
  function Compose(c: char, count: nat, lo: Table, eq: Table, hi: Table): Table
  {
    lo + hi + Prefixed(c, eq) + map[[c] := count]
  }

  /** The search-tree ordering: lo holds only strings starting below `c`, hi only above. */
  predicate Ordered(c: char, lo: Table, eq: Table, hi: Table)
  {
    && (forall k :: k in lo ==> |k| > 0 && k[0] < c)
    && (forall k :: k in hi ==> |k| > 0 && k[0] > c)
    && (forall k :: k in eq ==> |k| > 0)
  }

  lemma PrefixedAt(c: char, m: Table, k: string)
    ensures k in Prefixed(c, m) <==> |k| > 0 && k[0] == c && k[1..] in m
    ensures k in Prefixed(c, m) ==> Prefixed(c, m)[k] == m[k[1..]]
  {
    if |k| > 0 && k[0] == c && k[1..] in m {
      assert k == [c] + k[1..];
    }
    if k in Prefixed(c, m) {
      var k' :| k' in m && k == [c] + k';
      assert k[0] == c;
    }
  }

  /** Where a string lives in a composed table: the search rule of the tree. */
  lemma ComposeAt(c: char, count: nat, lo: Table, eq: Table, hi: Table, k: string)
    requires Ordered(c, lo, eq, hi)
    ensures k in Compose(c, count, lo, eq, hi) <==>
      |k| > 0 &&
      (k[0] < c ==> k in lo) && (k[0] > c ==> k in hi) && (k[0] == c && |k| > 1 ==> k[1..] in eq)
    ensures Get(Compose(c, count, lo, eq, hi), k) ==
      if |k| == 0 then 0
      else if k[0] < c then Get(lo, k)
      else if k[0] > c then Get(hi, k)
      else if |k| == 1 then count
      else Get(eq, k[1..])
  {
    PrefixedAt(c, eq, k);
    if |k| == 1 && k[0] == c {
      assert k == [c];
    }
  }

  /** A string below a node's own symbol extends through eq. */
  lemma ComposeEq(c: char, count: nat, lo: Table, eq: Table, hi: Table, t: string)
    requires Ordered(c, lo, eq, hi) && t != []
    ensures Get(Compose(c, count, lo, eq, hi), [c] + t) == Get(eq, t)
  {
    ComposeAt(c, count, lo, eq, hi, [c] + t);
    assert ([c] + t)[1..] == t;
  }

  /** Two node tables agree when all their counts and all their keys agree. */
  lemma TableExt(a: Table, b: Table)
    requires forall k :: k in a <==> k in b
    requires forall k :: Get(a, k) == Get(b, k)
    ensures a == b
  {
    forall k | k in a ensures a[k] == b[k] {
      assert Get(a, k) == Get(b, k);
    }
  }

  lemma IncrementShift(key: string, weight: nat, subsequences: bool, sep: Option<char>, s: string)
    requires |key| > 0 && |s| > 1 && s[0] == key[0]
    ensures Increment(key, weight, subsequences, sep, s) == Increment(key[1..], weight, subsequences, sep, s[1..])
  {
    if s == key {
      assert s[1..] == key[1..];
    }
    if 0 < |s| < |key| {
      assert key[..|s|][1..] == key[1..][..|s| - 1];
      if key[1..][..|s| - 1] == s[1..] {
        assert key[..|s|] == [key[0]] + key[1..][..|s| - 1];
        assert s == [s[0]] + s[1..];
      }
      assert key[|s|] == key[1..][|s| - 1];
    }
  }

  lemma IncrementOffPath(key: string, weight: nat, subsequences: bool, sep: Option<char>, s: string)
    requires |s| > 0 && |key| > 0 && s[0] != key[0]
    ensures Increment(key, weight, subsequences, sep, s) == 0
    ensures s !in Paths(key)
  {
    PathsAt(key, s);
  }

  lemma PathsShift(key: string, s: string)
    requires |key| > 0 && |s| > 1 && s[0] == key[0]
    ensures s in Paths(key) <==> s[1..] in Paths(key[1..])
  {
    PathsAt(key, s);
    PathsAt(key[1..], s[1..]);
    if 0 < |s| <= |key| {
      assert key[..|s|][1..] == key[1..][..|s| - 1];
      if key[1..][..|s| - 1] == s[1..] {
        assert key[..|s|] == [key[0]] + key[1..][..|s| - 1];
        assert s == [s[0]] + s[1..];
      }
    }
  }

  /** What inserting `key` adds to the string made of its first symbol alone. */
  lemma IncrementHead(key: string, weight: nat, subsequences: bool, sep: Option<char>)
    requires |key| > 0
    ensures Increment(key, weight, subsequences, sep, [key[0]])
         == if |key| == 1 || (subsequences && sep == Some(key[1])) then weight else 0
  {
    if |key| == 1 {
      assert key == [key[0]];
    } else {
      assert key[..1] == [key[0]];
    }
  }

  // ---------------------------------------------------------------------------
  // The shape of a subtree as a value

  /** A subtree: absent, or a node with its symbol, count and lo, eq and hi subtrees. */
  datatype Shape = Empty | Branch(ch: char, count: nat, lo: Shape, eq: Shape, hi: Shape)

  /** `c` lies strictly between the bounds that are present. */
  predicate Within(c: char, lower: Option<char>, upper: Option<char>)
  {
    (lower.Some? ==> lower.value < c) && (upper.Some? ==> c < upper.value)
  }

  /**
   * Search-tree order: each node's symbol lies within the bounds set by the
   * lo and hi links above it at the same position; eq starts a new position.
   */
  predicate Bounded(t: Shape, lower: Option<char>, upper: Option<char>)
  {
    match t
    case Empty => true
    case Branch(c, _, lo, eq, hi) =>
      && Within(c, lower, upper)
      && Bounded(lo, lower, Some(c)) && Bounded(eq, None, None) && Bounded(hi, Some(c), upper)
  }

  predicate Sorted(t: Shape)
  {
    Bounded(t, None, None)
  }

  lemma {:induction false} Loosen(t: Shape, lower: Option<char>, upper: Option<char>, lower': Option<char>, upper': Option<char>)
    requires Bounded(t, lower, upper)
    requires lower'.Some? ==> lower.Some? && lower'.value <= lower.value
    requires upper'.Some? ==> upper.Some? && upper.value <= upper'.value
    ensures Bounded(t, lower', upper')
  {
    match t
    case Empty =>
    case Branch(c, _, lo, eq, hi) =>
      Loosen(lo, lower, Some(c), lower', Some(c));
      Loosen(hi, Some(c), upper, Some(c), upper');
  }

  lemma SortedChildren(t: Shape)
    requires t.Branch? && Sorted(t)
    ensures Sorted(t.lo) && Sorted(t.eq) && Sorted(t.hi)
  {
    Loosen(t.lo, None, Some(t.ch), None, None);
    Loosen(t.hi, Some(t.ch), None, None, None);
  }

  /** The strings a subtree stores, spelled from its position on, with their node counts. */
  function Strings(t: Shape): Table
  {
    match t
    case Empty => map[]
    case Branch(c, n, lo, eq, hi) => Compose(c, n, Strings(lo), Strings(eq), Strings(hi))
  }

  /** Every stored string is non-empty and starts within the subtree's bounds. */
  lemma {:induction false} StringsBounded(t: Shape, lower: Option<char>, upper: Option<char>, k: string)
    requires Bounded(t, lower, upper)
    ensures k in Strings(t) ==> |k| > 0 && Within(k[0], lower, upper)
  {
    match t
    case Empty =>
    case Branch(c, n, lo, eq, hi) =>
      StringsBounded(lo, lower, Some(c), k);
      StringsBounded(hi, Some(c), upper, k);
      PrefixedAt(c, Strings(eq), k);
  }

  /** A sorted node's children tables are ordered around its symbol. */
  lemma SortedOrdered(t: Shape)
    requires t.Branch? && Sorted(t)
    ensures Ordered(t.ch, Strings(t.lo), Strings(t.eq), Strings(t.hi))
  {
    forall k | k in Strings(t.lo) ensures |k| > 0 && k[0] < t.ch {
      StringsBounded(t.lo, None, Some(t.ch), k);
    }
    forall k | k in Strings(t.hi) ensures |k| > 0 && k[0] > t.ch {
      StringsBounded(t.hi, Some(t.ch), None, k);
    }
    forall k | k in Strings(t.eq) ensures |k| > 0 {
      StringsBounded(t.eq, None, None, k);
    }
  }

  /** Where a string lives in a sorted node's table: the search rule of the tree. */
  lemma StringsAt(t: Shape, k: string)
    requires t.Branch? && Sorted(t)
    ensures k in Strings(t) <==>
      |k| > 0 &&
      (k[0] < t.ch ==> k in Strings(t.lo)) && (k[0] > t.ch ==> k in Strings(t.hi)) &&
      (k[0] == t.ch && |k| > 1 ==> k[1..] in Strings(t.eq))
    ensures Get(Strings(t), k) ==
      if |k| == 0 then 0
      else if k[0] < t.ch then Get(Strings(t.lo), k)
      else if k[0] > t.ch then Get(Strings(t.hi), k)
      else if |k| == 1 then t.count
      else Get(Strings(t.eq), k[1..])
  {
    SortedOrdered(t);
    ComposeAt(t.ch, t.count, Strings(t.lo), Strings(t.eq), Strings(t.hi), k);
  }

  /** A string that ends at a node's own symbol: its count, and its extensions in the eq subtree. */
  lemma HereShift(t: Shape, s: string)
    requires t.Branch? && Sorted(t) && |s| == 1 && s[0] == t.ch
    ensures s in Strings(t) && Get(Strings(t), s) == t.count
    ensures forall u :: u != [] ==> Get(Strings(t.eq), u) == Get(Strings(t), s + u)
  {
    StringsAt(t, s);
    forall u | u != [] ensures Get(Strings(t.eq), u) == Get(Strings(t), s + u) {
      StringsAt(t, s + u);
      assert (s + u)[1..] == u;
    }
  }

  /** A longer string through a node's own symbol lives in the eq subtree, one symbol shorter. */
  lemma EqShift(t: Shape, s: string)
    requires t.Branch? && Sorted(t) && |s| > 1 && s[0] == t.ch
    ensures s in Strings(t) <==> s[1..] in Strings(t.eq)
    ensures Get(Strings(t), s) == Get(Strings(t.eq), s[1..])
    ensures forall u :: Get(Strings(t), s + u) == Get(Strings(t.eq), s[1..] + u)
  {
    StringsAt(t, s);
    forall u ensures Get(Strings(t), s + u) == Get(Strings(t.eq), s[1..] + u) {
      EqShiftBy(t, s, u);
    }
  }

  /** One extension of a string through a node's own symbol, looked up in the eq subtree. */
  lemma EqShiftBy(t: Shape, s: string, u: string)
    requires t.Branch? && Sorted(t) && |s| > 1 && s[0] == t.ch
    ensures Get(Strings(t), s + u) == Get(Strings(t.eq), s[1..] + u)
  {
    StringsAt(t, s + u);
    assert (s + u)[0] == s[0];
    assert (s + u)[1..] == s[1..] + u;
  }

  /** A string starting off a node's symbol lives in the lo or hi subtree, unchanged. */
  lemma SideShift(t: Shape, s: string)
    requires t.Branch? && Sorted(t) && |s| > 0 && s[0] != t.ch
    ensures var side := if s[0] < t.ch then t.lo else t.hi;
      && (s in Strings(t) <==> s in Strings(side))
      && Get(Strings(t), s) == Get(Strings(side), s)
      && forall u :: Get(Strings(t), s + u) == Get(Strings(side), s + u)
  {
    StringsAt(t, s);
    forall u ensures Get(Strings(t), s + u) == Get(Strings(if s[0] < t.ch then t.lo else t.hi), s + u) {
      StringsAt(t, s + u);
      assert (s + u)[0] == s[0];
    }
  }

  // ---------------------------------------------------------------------------
  // Insertion on shapes

  /**
   * The insert algorithm of the tree on values: walk lo/hi until the node
   * holding the key's first symbol (creating it if absent), then continue
   * with the rest of the key below eq; the last node gains `weight`, and so
   * does every node the separator follows when `subsequences` is set.
   */
  function Insert(t: Shape, key: string, weight: nat, subsequences: bool, sep: Option<char>): (r: Shape)
    decreases |key|, t
  {
    if key == [] then t
    else
      var node := if t.Empty? then Branch(key[0], 0, Empty, Empty, Empty) else t;
      if key[0] == node.ch then
        if |key| == 1 then node.(count := node.count + weight)
        else
          var n := if subsequences && sep == Some(key[1]) then node.count + weight else node.count;
          node.(count := n, eq := Insert(node.eq, key[1..], weight, subsequences, sep))
      else if key[0] < node.ch then node.(lo := Insert(t.lo, key, weight, subsequences, sep))
      else node.(hi := Insert(t.hi, key, weight, subsequences, sep))
  }

  /** One step of `Insert` at a node, by the position of the key's first symbol. */
  lemma InsertStep(t: Shape, key: string, weight: nat, subsequences: bool, sep: Option<char>)
    requires t.Branch? && key != []
    ensures key[0] < t.ch ==> Insert(t, key, weight, subsequences, sep) == t.(lo := Insert(t.lo, key, weight, subsequences, sep))
    ensures key[0] > t.ch ==> Insert(t, key, weight, subsequences, sep) == t.(hi := Insert(t.hi, key, weight, subsequences, sep))
    ensures key[0] == t.ch ==> Insert(t, key, weight, subsequences, sep) == t.(
      count := if |key| == 1 || (subsequences && sep == Some(key[1])) then t.count + weight else t.count,
      eq := if |key| == 1 then t.eq else Insert(t.eq, key[1..], weight, subsequences, sep))
  {
  }

  /** Inserting into an absent subtree is inserting into a fresh node with count zero. */
  lemma InsertFresh(key: string, weight: nat, subsequences: bool, sep: Option<char>)
    requires key != []
    ensures Insert(Empty, key, weight, subsequences, sep)
         == Insert(Branch(key[0], 0, Empty, Empty, Empty), key, weight, subsequences, sep)
  {
  }

  lemma {:induction false} InsertBounded(t: Shape, key: string, weight: nat, subsequences: bool, sep: Option<char>,
                                        lower: Option<char>, upper: Option<char>)
    requires Bounded(t, lower, upper) && (key != [] ==> Within(key[0], lower, upper))
    ensures Bounded(Insert(t, key, weight, subsequences, sep), lower, upper)
    decreases |key|, t
  {
    if key != [] {
      var node := if t.Empty? then Branch(key[0], 0, Empty, Empty, Empty) else t;
      if key[0] == node.ch {
        if |key| > 1 {
          InsertBounded(node.eq, key[1..], weight, subsequences, sep, None, None);
        }
      } else if key[0] < node.ch {
        InsertBounded(t.lo, key, weight, subsequences, sep, lower, Some(t.ch));
      } else {
        InsertBounded(t.hi, key, weight, subsequences, sep, Some(t.ch), upper);
      }
    }
  }

  /** Inserting keeps the search-tree order. */
  lemma InsertSorted(t: Shape, key: string, weight: nat, subsequences: bool, sep: Option<char>)
    requires Sorted(t)
    ensures Sorted(Insert(t, key, weight, subsequences, sep))
  {
    InsertBounded(t, key, weight, subsequences, sep, None, None);
  }

  /** The node an insert starts from stores what the subtree stores, plus, when fresh, its own symbol with count zero. */
  lemma StartNode(t: Shape, key: string, k: string)
    requires Sorted(t) && key != []
    ensures var node := if t.Empty? then Branch(key[0], 0, Empty, Empty, Empty) else t;
      && Sorted(node)
      && (k in Strings(node) <==> k in Strings(t) || (t.Empty? && k == [key[0]]))
      && Get(Strings(node), k) == Get(Strings(t), k)
  {
    if t.Empty? {
      StringsAt(Branch(key[0], 0, Empty, Empty, Empty), k);
      if |k| == 1 && k[0] == key[0] {
        assert k == [key[0]];
      }
    }
  }

  /** The counting law of one insert, string by string. */
  lemma {:induction false} InsertCounts(t: Shape, key: string, weight: nat, subsequences: bool, sep: Option<char>, k: string)
    requires Sorted(t)
    ensures k in Strings(Insert(t, key, weight, subsequences, sep)) <==> k in Strings(t) || k in Paths(key)
    ensures Get(Strings(Insert(t, key, weight, subsequences, sep)), k)
         == Get(Strings(t), k) + Increment(key, weight, subsequences, sep, k)
    decreases |key|, t
  {
    if key == [] {
      assert Paths(key) == {};
      return;
    }
    var r := Insert(t, key, weight, subsequences, sep);
    var node := if t.Empty? then Branch(key[0], 0, Empty, Empty, Empty) else t;
    InsertSorted(t, key, weight, subsequences, sep);
    StartNode(t, key, k);
    SortedChildren(node);
    StringsAt(node, k);
    StringsAt(r, k);
    PathsAt(key, k);
    assert key[..1] == [key[0]];
    if |k| > 0 && k[0] != key[0] {
      IncrementOffPath(key, weight, subsequences, sep, k);
    }
    if key[0] == node.ch {
      if |k| == 1 && k[0] == key[0] {
        assert k == [key[0]];
        IncrementHead(key, weight, subsequences, sep);
      } else if |k| > 1 && k[0] == key[0] && |key| > 1 {
        InsertCounts(node.eq, key[1..], weight, subsequences, sep, k[1..]);
        IncrementShift(key, weight, subsequences, sep, k);
        PathsShift(key, k);
      } else if |k| > 1 && k[0] == key[0] {
        assert Increment(key, weight, subsequences, sep, k) == 0;
      }
    } else if key[0] < node.ch {
      if |k| > 0 && k[0] < node.ch {
        InsertCounts(t.lo, key, weight, subsequences, sep, k);
      }
    } else {
      if |k| > 0 && k[0] > node.ch {
        InsertCounts(t.hi, key, weight, subsequences, sep, k);
      }
    }
  }

  /** Inserting into a subtree bumps its table. */
  lemma InsertStrings(t: Shape, key: string, weight: nat, subsequences: bool, sep: Option<char>)
    requires Sorted(t)
    ensures Strings(Insert(t, key, weight, subsequences, sep)) == Bump(Strings(t), key, weight, subsequences, sep)
  {
    var a := Strings(Insert(t, key, weight, subsequences, sep));
    var b := Bump(Strings(t), key, weight, subsequences, sep);
    forall k
      ensures k in a <==> k in b
      ensures Get(a, k) == Get(b, k)
    {
      InsertCounts(t, key, weight, subsequences, sep, k);
      GetBump(Strings(t), key, weight, subsequences, sep, k);
    }
    TableExt(a, b);
  }
  /** The positive counts after an insert on shapes are the tree-level `Add` of the positive counts before. */
  lemma InsertAdds(t: Shape, key: string, weight: nat, subsequences: bool, sep: Option<char>)
    requires Sorted(t)
    ensures Positive(Strings(Insert(t, key, weight, subsequences, sep))) == Add(Positive(Strings(t)), key, weight, subsequences, sep)
  {
    InsertStrings(t, key, weight, subsequences, sep);
    PositiveBump(Strings(t), key, weight, subsequences, sep);
  }

}
