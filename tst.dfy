/**
 * The ternary search tree of src/corpustools/tst.py.
 *
 * Each `Node` holds one symbol, a count and three children: `lo` for strings
 * whose symbol at this position is smaller, `eq` for the continuation of
 * strings that have this symbol here, `hi` for greater symbols.  Every node
 * carries, as ghost state, its footprint `Repr` and the table `Contents` of
 * the strings that end at a node of its subtree (spelled from this position
 * on) with those nodes' counts; `Valid` ties the table to the children's
 * (`TstSpec.Compose`).  The tree exposes the positive entries as `Counts`,
 * and `total` is the number of insert calls.
 */
module Tst {
  import opened Wrappers
  import opened TstSpec

  /** Keys of an enumeration are pairwise different. */
  predicate DistinctKeys(r: seq<(string, nat)>)
  {
    forall i, j :: 0 <= i < j < |r| ==> r[i].0 != r[j].0
  }

  /** Puts `p` in front of every enumerated string. */
  function PrefixAll(p: string, r: seq<(string, nat)>): (r': seq<(string, nat)>)
    ensures |r'| == |r|
    ensures forall i :: 0 <= i < |r| ==> r'[i] == (p + r[i].0, r[i].1)
  {
    if r == [] then [] else [(p + r[0].0, r[0].1)] + PrefixAll(p, r[1..])
  }

  lemma PrefixAllAt(p: string, r: seq<(string, nat)>)
    ensures forall k, c :: (k, c) in PrefixAll(p, r) <==> |k| >= |p| && k[..|p|] == p && (k[|p|..], c) in r
    ensures DistinctKeys(r) ==> DistinctKeys(PrefixAll(p, r))
  {
    var r' := PrefixAll(p, r);
    forall k, c
      ensures (k, c) in r' <==> |k| >= |p| && k[..|p|] == p && (k[|p|..], c) in r
    {
      if (k, c) in r' {
        var i :| 0 <= i < |r'| && r'[i] == (k, c);
        assert k == p + r[i].0;
        assert k[|p|..] == r[i].0;
      }
      if |k| >= |p| && k[..|p|] == p && (k[|p|..], c) in r {
        var i :| 0 <= i < |r| && r[i] == (k[|p|..], c);
        assert r'[i] == (p + k[|p|..], c);
        assert p + k[|p|..] == k;
      }
    }
    if DistinctKeys(r) {
      forall i, j | 0 <= i < j < |r'| ensures r'[i].0 != r'[j].0 {
        assert r'[i].0[|p|..] == r[i].0;
        assert r'[j].0[|p|..] == r[j].0;
      }
    }
  }

  lemma DistinctConcat(a: seq<(string, nat)>, b: seq<(string, nat)>)
    requires DistinctKeys(a) && DistinctKeys(b)
    requires forall x, y :: x in a && y in b ==> x.0 != y.0
    ensures DistinctKeys(a + b)
  {
    forall i, j | 0 <= i < j < |a + b| ensures (a + b)[i].0 != (a + b)[j].0 {
      if i < |a| && j >= |a| {
        assert (a + b)[i] in a && (a + b)[j] in b;
      }
    }
  }

  /** The enumeration of an eq subtree, spelled from its parent's symbol `c` on. */
  function PrefixBelow(c: char, ghost e: Table, r: seq<(string, nat)>): (r': seq<(string, nat)>)
    requires DistinctKeys(r)
    requires forall k, v :: (k, v) in r <==> v > 0 && Get(e, k) == v
    ensures DistinctKeys(r')
    ensures forall k, v :: (k, v) in r' <==> |k| >= 1 && k[..1] == [c] && v > 0 && Get(e, k[1..]) == v
  {
    PrefixAllAt([c], r);
    PrefixAll([c], r)
  }

  /**
   * How a node's table is made of its own count and its children's tables,
   * and where the children's strings start.
   */
  lemma NodeSplits(t: Shape)
    requires t.Branch? && Sorted(t)
    ensures forall k {:trigger Get(Strings(t), k)} :: (Get(Strings(t), k) ==
      if |k| == 0 then 0
      else if k[0] < t.ch then Get(Strings(t.lo), k)
      else if k[0] > t.ch then Get(Strings(t.hi), k)
      else if |k| == 1 then t.count
      else Get(Strings(t.eq), k[1..]))
    ensures forall k :: Get(Strings(t.lo), k) > 0 ==> |k| > 0 && k[0] < t.ch
    ensures forall k :: Get(Strings(t.hi), k) > 0 ==> |k| > 0 && k[0] > t.ch
    ensures Get(Strings(t.eq), []) == 0
  {
    forall k {:trigger Get(Strings(t), k)} ensures Get(Strings(t), k) ==
      if |k| == 0 then 0
      else if k[0] < t.ch then Get(Strings(t.lo), k)
      else if k[0] > t.ch then Get(Strings(t.hi), k)
      else if |k| == 1 then t.count
      else Get(Strings(t.eq), k[1..])
    {
      StringsAt(t, k);
    }
    forall k ensures Get(Strings(t.lo), k) > 0 ==> |k| > 0 && k[0] < t.ch {
      StringsBounded(t.lo, None, Some(t.ch), k);
    }
    forall k ensures Get(Strings(t.hi), k) > 0 ==> |k| > 0 && k[0] > t.ch {
      StringsBounded(t.hi, Some(t.ch), None, k);
    }
    StringsBounded(t.eq, None, None, []);
  }

  /**
   * A node's enumeration is its own entry, then the eq subtree's behind its
   * symbol, then lo's, then hi's; if each part enumerates its table, so does
   * the whole.
   */
  lemma CombineMembers(c: char, n: nat, m: Table, lo: Table, eq: Table, hi: Table,
                       own: seq<(string, nat)>, below: seq<(string, nat)>,
                       left: seq<(string, nat)>, right: seq<(string, nat)>)
    requires forall k {:trigger Get(m, k)} :: (Get(m, k) ==
      if |k| == 0 then 0
      else if k[0] < c then Get(lo, k)
      else if k[0] > c then Get(hi, k)
      else if |k| == 1 then n
      else Get(eq, k[1..]))
    requires forall k :: Get(lo, k) > 0 ==> |k| > 0 && k[0] < c
    requires forall k :: Get(hi, k) > 0 ==> |k| > 0 && k[0] > c
    requires Get(eq, []) == 0
    requires own == if n > 0 then [([c], n)] else []
    requires forall k, v :: (k, v) in below <==> |k| >= 1 && k[..1] == [c] && v > 0 && Get(eq, k[1..]) == v
    requires forall k, v :: (k, v) in left <==> v > 0 && Get(lo, k) == v
    requires forall k, v :: (k, v) in right <==> v > 0 && Get(hi, k) == v
    ensures forall k, v :: (k, v) in own + below + left + right <==> v > 0 && Get(m, k) == v
  {
    forall k, v
      ensures (k, v) in own + below + left + right <==> v > 0 && Get(m, k) == v
    {
      if |k| >= 1 && k[0] == c {
        assert k[..1] == [c];
        if |k| == 1 {
          assert k == [c];
        }
      } else if |k| >= 1 {
        assert k[..1] != [c];
      }
    }
  }

  /** The four parts of a node's enumeration have no key in common. */
  lemma CombineDistinct(c: char, n: nat, m: Table, lo: Table, eq: Table, hi: Table,
                        own: seq<(string, nat)>, below: seq<(string, nat)>,
                        left: seq<(string, nat)>, right: seq<(string, nat)>)
    requires forall k {:trigger Get(m, k)} :: (Get(m, k) ==
      if |k| == 0 then 0
      else if k[0] < c then Get(lo, k)
      else if k[0] > c then Get(hi, k)
      else if |k| == 1 then n
      else Get(eq, k[1..]))
    requires forall k :: Get(lo, k) > 0 ==> |k| > 0 && k[0] < c
    requires forall k :: Get(hi, k) > 0 ==> |k| > 0 && k[0] > c
    requires Get(eq, []) == 0
    requires own == if n > 0 then [([c], n)] else []
    requires DistinctKeys(below) && DistinctKeys(left) && DistinctKeys(right)
    requires forall p :: p in below ==> |p.0| >= 1 && p.0[..1] == [c] && Get(eq, p.0[1..]) > 0
    requires forall p :: p in left ==> Get(lo, p.0) > 0
    requires forall p :: p in right ==> Get(hi, p.0) > 0
    ensures DistinctKeys(own + below + left + right)
  {
    forall y | y in below ensures y.0 != [c] {
      assert |y.0[1..]| == |y.0| - 1;
    }
    DistinctConcat(own, below);
    forall x, y | x in own + below && y in left ensures x.0 != y.0 {
      if x in below {
        assert x.0[0] == x.0[..1][0];
      }
    }
    DistinctConcat(own + below, left);
    forall x, y | x in own + below + left && y in right ensures x.0 != y.0 {
      if x in below {
        assert x.0[0] == x.0[..1][0];
      }
    }
    DistinctConcat(own + below + left, right);
  }

  /** The shape of a possibly absent subtree. */
  ghost function ModelOf(n: Node?): Shape
    reads n
  {
    if n == null then Empty else n.Model
  }

  /** The table of a possibly absent subtree. */
  ghost function ContentsOf(n: Node?): Table
    reads n
  {
    Strings(ModelOf(n))
  }

  /** The footprint of a possibly absent subtree. */
  ghost function ReprOf(n: Node?): set<object>
    reads n
  {
    if n == null then {} else n.Repr
  }

  class Node {
    var ch: char
    var count: nat
    var lo: Node?
    var eq: Node?
    var hi: Node?

    ghost var Repr: set<object>
    ghost var Model: Shape

    ghost predicate Valid()
      reads this, Repr
      decreases Repr
    {
      && this in Repr
      && (lo != null ==> lo in Repr && lo.Repr <= Repr && this !in lo.Repr && lo.Valid())
      && (eq != null ==> eq in Repr && eq.Repr <= Repr && this !in eq.Repr && eq.Valid())
      && (hi != null ==> hi in Repr && hi.Repr <= Repr && this !in hi.Repr && hi.Valid())
      && (lo != null && eq != null ==> lo.Repr !! eq.Repr)
      && (lo != null && hi != null ==> lo.Repr !! hi.Repr)
      && (eq != null && hi != null ==> eq.Repr !! hi.Repr)
      && Model == Branch(ch, count, ModelOf(lo), ModelOf(eq), ModelOf(hi))
    }

    /** The strings stored in this subtree, spelled from this node on, with their counts. */
    ghost function Contents(): Table
      reads this
    {
      Strings(Model)
    }

    /** A leaf holding `c` with count zero. */
    constructor (c: char)
      ensures Valid() && fresh(Repr)
      ensures ch == c && count == 0 && lo == null && eq == null && hi == null
      ensures Model == Branch(c, 0, Empty, Empty, Empty)
    {
      ch, count := c, 0;
      lo, eq, hi := null, null, null;
      Repr := {this};
      Model := Branch(c, 0, Empty, Empty, Empty);
    }

    /**
     * The node at which `s` ends, starting the search at this node; the node
     * itself for the empty string, null when `s` was never inserted.
     */
    function Search(s: string): (r: Node?)
      reads this, Repr
      requires Valid() && Sorted(Model)
      decreases Repr
      ensures s == [] ==> r == this
      ensures r != null ==> r in Repr && r.Repr <= Repr && r.Valid() && Sorted(r.Model)
      ensures s != [] ==> (r != null <==> s in Contents())
      ensures s != [] && r != null ==> r.count == Get(Contents(), s)
      ensures s != [] && r != null ==> forall t :: t != [] ==> Get(ContentsOf(r.eq), t) == Get(Contents(), s + t)
      ensures s != [] && r == null ==> forall t :: Get(Contents(), s + t) == 0
    {
      if s == [] then this
      else
      SortedChildren(Model);
      if s[0] == ch then
        if |s| == 1 then
          SearchHere(s);
          this
        else if eq == null then
          SearchMissing(s);
          null
        else
          var r := eq.Search(s[1..]);
          SearchEq(s, r);
          r
      else if s[0] < ch then
        if lo == null then
          SearchMissing(s);
          null
        else
          var r := lo.Search(s);
          SearchSide(s, r);
          r
      else
        if hi == null then
          SearchMissing(s);
          null
        else
          var r := hi.Search(s);
          SearchSide(s, r);
          r
    }

    lemma SearchHere(s: string)
      requires Valid() && Sorted(Model) && |s| == 1 && s[0] == ch
      ensures s in Contents() && count == Get(Contents(), s)
      ensures forall t :: t != [] ==> Get(ContentsOf(eq), t) == Get(Contents(), s + t)
    {
      HereShift(Model, s);
    }

    lemma SearchMissing(s: string)
      requires Valid() && Sorted(Model) && |s| > 0
      requires s[0] == ch ==> |s| > 1 && eq == null
      requires s[0] < ch ==> lo == null
      requires s[0] > ch ==> hi == null
      ensures s !in Contents()
      ensures forall t :: Get(Contents(), s + t) == 0
    {
      if s[0] == ch {
        EqShift(Model, s);
      } else {
        SideShift(Model, s);
      }
    }

    lemma SearchEq(s: string, r: Node?)
      requires Valid() && Sorted(Model) && |s| > 1 && s[0] == ch && eq != null
      requires r != null <==> s[1..] in eq.Contents()
      requires r != null ==> r.count == Get(eq.Contents(), s[1..])
      requires r != null ==> forall t :: t != [] ==> Get(ContentsOf(r.eq), t) == Get(eq.Contents(), s[1..] + t)
      requires r == null ==> forall t :: Get(eq.Contents(), s[1..] + t) == 0
      ensures r != null <==> s in Contents()
      ensures r != null ==> r.count == Get(Contents(), s)
      ensures r != null ==> forall t :: t != [] ==> Get(ContentsOf(r.eq), t) == Get(Contents(), s + t)
      ensures r == null ==> forall t :: Get(Contents(), s + t) == 0
    {
      EqShift(Model, s);
    }

    lemma SearchSide(s: string, r: Node?)
      requires Valid() && Sorted(Model) && |s| > 0 && s[0] != ch
      requires s[0] < ch ==> lo != null
      requires s[0] > ch ==> hi != null
      requires var side := if s[0] < ch then lo else hi;
        && (r != null <==> s in side.Contents())
        && (r != null ==> r.count == Get(side.Contents(), s))
        && (r != null ==> forall t :: t != [] ==> Get(ContentsOf(r.eq), t) == Get(side.Contents(), s + t))
        && (r == null ==> forall t :: Get(side.Contents(), s + t) == 0)
      ensures r != null <==> s in Contents()
      ensures r != null ==> r.count == Get(Contents(), s)
      ensures r != null ==> forall t :: t != [] ==> Get(ContentsOf(r.eq), t) == Get(Contents(), s + t)
      ensures r == null ==> forall t :: Get(Contents(), s + t) == 0
    {
      SideShift(Model, s);
    }

    /** The last step of an insert: `s` is this node's symbol alone. */
    method InsertEnd(s: string, weight: nat, subsequences: bool, sep: Option<char>)
      requires Valid() && |s| == 1 && s[0] == ch
      modifies this
      ensures Valid() && Repr == old(Repr)
      ensures Model == TstSpec.Insert(old(Model), s, weight, subsequences, sep)
    {
      InsertStep(Model, s, weight, subsequences, sep);
      count, Model := count + weight, Model.(count := count + weight);
    }

    /** The eq step of an insert: `s` starts with this node's symbol and goes on. */
    method InsertEq(s: string, weight: nat, subsequences: bool, sep: Option<char>)
      requires Valid() && |s| > 1 && s[0] == ch
      modifies Repr
      decreases |s|, 0
      ensures Valid() && fresh(Repr - old(Repr))
      ensures Model == TstSpec.Insert(old(Model), s, weight, subsequences, sep)
    {
      InsertStep(Model, s, weight, subsequences, sep);
      var n := if subsequences && sep == Some(s[1]) then count + weight else count;
      var e := TernarySearchTree.InsertAt(s[1..], eq, weight, subsequences, sep);
      SetEq(e, n);
    }

    /** Hangs `e` in as the eq child and sets the count, keeping the invariant. */
    method SetEq(e: Node, n: nat)
      requires this in Repr && e.Valid() && this !in e.Repr
      requires lo != null ==> lo in Repr && lo.Repr <= Repr && this !in lo.Repr && lo.Valid() && lo.Repr !! e.Repr
      requires hi != null ==> hi in Repr && hi.Repr <= Repr && this !in hi.Repr && hi.Valid() && hi.Repr !! e.Repr
      requires lo != null && hi != null ==> lo.Repr !! hi.Repr
      requires Model.Branch? && Model.ch == ch && Model.lo == ModelOf(lo) && Model.hi == ModelOf(hi)
      modifies this
      ensures Valid()
      ensures Repr == old(Repr) + e.Repr
      ensures Model == old(Model).(count := n, eq := e.Model)
    {
      count, eq, Repr, Model := n, e, Repr + e.Repr, Model.(count := n, eq := e.Model);
    }

    /** The lo step of an insert: `s` starts below this node's symbol. */
    method InsertLo(s: string, weight: nat, subsequences: bool, sep: Option<char>)
      requires Valid() && s != [] && s[0] < ch
      modifies Repr
      decreases |s|, 1, Repr, 0
      ensures Valid() && fresh(Repr - old(Repr))
      ensures Model == TstSpec.Insert(old(Model), s, weight, subsequences, sep)
    {
      InsertStep(Model, s, weight, subsequences, sep);
      var l := TernarySearchTree.InsertAt(s, lo, weight, subsequences, sep);
      SetLo(l);
    }

    /** Hangs `c` in as the lo child, keeping the invariant. */
    method SetLo(c: Node)
      requires this in Repr && c.Valid() && this !in c.Repr
      requires eq != null ==> eq in Repr && eq.Repr <= Repr && this !in eq.Repr && eq.Valid() && eq.Repr !! c.Repr
      requires hi != null ==> hi in Repr && hi.Repr <= Repr && this !in hi.Repr && hi.Valid() && hi.Repr !! c.Repr
      requires eq != null && hi != null ==> eq.Repr !! hi.Repr
      requires Model.Branch? && Model.ch == ch && Model.count == count && Model.eq == ModelOf(eq) && Model.hi == ModelOf(hi)
      modifies this
      ensures Valid()
      ensures Repr == old(Repr) + c.Repr
      ensures Model == old(Model).(lo := c.Model)
    {
      lo, Repr, Model := c, Repr + c.Repr, Model.(lo := c.Model);
    }

    /** The hi step of an insert: `s` starts above this node's symbol. */
    method InsertHi(s: string, weight: nat, subsequences: bool, sep: Option<char>)
      requires Valid() && s != [] && s[0] > ch
      modifies Repr
      decreases |s|, 1, Repr, 0
      ensures Valid() && fresh(Repr - old(Repr))
      ensures Model == TstSpec.Insert(old(Model), s, weight, subsequences, sep)
    {
      InsertStep(Model, s, weight, subsequences, sep);
      var h := TernarySearchTree.InsertAt(s, hi, weight, subsequences, sep);
      SetHi(h);
    }

    /** Hangs `c` in as the hi child, keeping the invariant. */
    method SetHi(c: Node)
      requires this in Repr && c.Valid() && this !in c.Repr
      requires lo != null ==> lo in Repr && lo.Repr <= Repr && this !in lo.Repr && lo.Valid() && lo.Repr !! c.Repr
      requires eq != null ==> eq in Repr && eq.Repr <= Repr && this !in eq.Repr && eq.Valid() && eq.Repr !! c.Repr
      requires lo != null && eq != null ==> lo.Repr !! eq.Repr
      requires Model.Branch? && Model.ch == ch && Model.count == count && Model.lo == ModelOf(lo) && Model.eq == ModelOf(eq)
      modifies this
      ensures Valid()
      ensures Repr == old(Repr) + c.Repr
      ensures Model == old(Model).(hi := c.Model)
    {
      hi, Repr, Model := c, Repr + c.Repr, Model.(hi := c.Model);
    }

    /** Every string stored below this node together with its count, each exactly once. */
    function Completions(): (r: seq<(string, nat)>)
      reads this, Repr
      requires Valid() && Sorted(Model)
      decreases Repr
      ensures forall k, c :: (k, c) in r <==> c > 0 && Get(Contents(), k) == c
      ensures DistinctKeys(r)
    {
      SortedChildren(Model);
      var own := if count > 0 then [([ch], count)] else [];
      var below := if eq == null then [] else PrefixBelow(ch, eq.Contents(), eq.Completions());
      var left := if lo == null then [] else lo.Completions();
      var right := if hi == null then [] else hi.Completions();
      CompletionsCombine(own, below, left, right);
      own + below + left + right
    }

    lemma CompletionsCombine(own: seq<(string, nat)>, below: seq<(string, nat)>,
                             left: seq<(string, nat)>, right: seq<(string, nat)>)
      requires Valid() && Sorted(Model)
      requires own == if count > 0 then [([ch], count)] else []
      requires DistinctKeys(below) && DistinctKeys(left) && DistinctKeys(right)
      requires forall k, v :: (k, v) in below <==> |k| >= 1 && k[..1] == [ch] && v > 0 && Get(ContentsOf(eq), k[1..]) == v
      requires forall k, v :: (k, v) in left <==> v > 0 && Get(ContentsOf(lo), k) == v
      requires forall k, v :: (k, v) in right <==> v > 0 && Get(ContentsOf(hi), k) == v
      ensures forall k, c :: (k, c) in own + below + left + right <==> c > 0 && Get(Contents(), k) == c
      ensures DistinctKeys(own + below + left + right)
    {
      NodeSplits(Model);
      CombineMembers(ch, count, Strings(Model), Strings(Model.lo), Strings(Model.eq), Strings(Model.hi), own, below, left, right);
      CombineDistinct(ch, count, Strings(Model), Strings(Model.lo), Strings(Model.eq), Strings(Model.hi), own, below, left, right);
    }
  }

  class TernarySearchTree {
    var root: Node?
    const splitchar: Option<char>
    var total: nat

    ghost var Model: Shape
    ghost var Repr: set<object>

    ghost predicate Valid()
      reads this, Repr
    {
      && this in Repr
      && (root != null ==> root in Repr && root.Repr <= Repr && this !in root.Repr && root.Valid())
      && Model == ModelOf(root)
      && Sorted(Model)
    }

    /** The stored strings with a positive count: what the tree answers for. */
    ghost function Counts(): Table
      reads this
    {
      Positive(Strings(Model))
    }

    /** An empty tree; `splitchar` marks subsequence boundaries (none when absent). */
    constructor (splitchar: Option<char>)
      ensures Valid() && fresh(Repr)
      ensures this.splitchar == splitchar && Model == Empty && total == 0
    {
      root := null;
      this.splitchar := splitchar;
      total := 0;
      Model := Empty;
      Repr := {this};
    }

    /**
     * Inserts `s` below `node`, adding `weight` to the node where `s` ends
     * and, when `subsequences` is set, to every node the separator follows.
     * Returns the subtree's root: `node` itself, or a new node when `node`
     * is absent.
     */
    static method InsertAt(s: string, node: Node?, weight: nat, subsequences: bool, sep: Option<char>)
      returns (r: Node?)
      requires node != null ==> node.Valid()
      modifies ReprOf(node)
      decreases |s|, 1, ReprOf(node), 1
      ensures s == [] ==> r == node
      ensures node != null ==> r == node
      ensures s != [] ==> r != null
      ensures r != null ==> r.Valid() && fresh(r.Repr - old(ReprOf(node)))
      ensures ModelOf(r) == TstSpec.Insert(old(ModelOf(node)), s, weight, subsequences, sep)
    {
      if s == [] {
        return node;
      }
      r := node;
      if r == null {
        r := new Node(s[0]);
      }
      if s[0] == r.ch && |s| == 1 {
        r.InsertEnd(s, weight, subsequences, sep);
      } else if s[0] == r.ch {
        r.InsertEq(s, weight, subsequences, sep);
      } else if s[0] < r.ch {
        r.InsertLo(s, weight, subsequences, sep);
      } else {
        r.InsertHi(s, weight, subsequences, sep);
      }
      if node == null {
        InsertFresh(s, weight, subsequences, sep);
      }
    }

    /** Inserts `key` once, counting its subsequences; the empty key only raises the total. */
    method Insert(key: string)
      requires Valid()
      modifies Repr
      ensures Valid() && fresh(Repr - old(Repr))
      ensures Model == TstSpec.Insert(old(Model), key, 1, true, splitchar)
      ensures total == old(total) + 1
    {
      var r := InsertAt(key, root, 1, true, splitchar);
      InsertSorted(Model, key, 1, true, splitchar);
      root, total, Repr, Model := r, total + 1, Repr + ReprOf(r), ModelOf(r);
    }

    /**
     * Inserts `key` with `weight`; subsequence boundaries gain the weight too
     * only when `subsequences` is set.  Raises the total by one per call.
     */
    method InsertWeighted(key: string, weight: nat, subsequences: bool)
      requires Valid()
      modifies Repr
      ensures Valid() && fresh(Repr - old(Repr))
      ensures Model == TstSpec.Insert(old(Model), key, weight, subsequences, splitchar)
      ensures total == old(total) + 1
    {
      var r := InsertAt(key, root, weight, subsequences, splitchar);
      InsertSorted(Model, key, weight, subsequences, splitchar);
      root, total, Repr, Model := r, total + 1, Repr + ReprOf(r), ModelOf(r);
    }

    /** The count of `s`; the number of inserts for the empty string. */
    function Frequency(s: string): (r: nat)
      reads this, Repr
      requires Valid()
      ensures r == if s == [] then total else Get(Counts(), s)
    {
      if s == [] then total
      else if root == null then 0
      else
        var node := root.Search(s);
        GetPositive(root.Contents(), s);
        if node == null then 0 else node.count
    }

    /**
     * Membership as the source spells it: the count of the node where `s`
     * ends (zero standing for False).  For the empty string that is the
     * root node's own count, not the total.
     */
    function Contains(s: string): (r: nat)
      reads this, Repr
      requires Valid()
      ensures s != [] ==> r == Get(Counts(), s)
      ensures s == [] ==> r == if root == null then 0 else Get(Counts(), [root.ch])
    {
      if root == null then 0
      else
        var node := root.Search(s);
        GetPositive(root.Contents(), s);
        GetPositive(root.Contents(), [root.ch]);
        root.SearchHere([root.ch]);
        if node == null then 0 else node.count
    }

    /**
     * Every stored string that strictly extends `prefix`, with its count,
     * each exactly once; with `full` the strings are given whole, otherwise
     * without the prefix.
     */
    function Completions(prefix: string, full: bool): (r: seq<(string, nat)>)
      reads this, Repr
      requires Valid()
      ensures DistinctKeys(r)
      ensures forall k, c :: (k, c) in r <==>
        if full then |k| > |prefix| && k[..|prefix|] == prefix && c > 0 && Get(Counts(), k) == c
        else k != [] && c > 0 && Get(Counts(), prefix + k) == c
    {
      var node := if root == null then null else root.Search(prefix);
      if node == null then
        CompletionsNone(prefix);
        []
      else
        SortedChildren(node.Model);
        var start := if prefix == [] then node else node.eq;
        var found := if start == null then [] else start.Completions();
        CompletionsFound(prefix, node, start, found);
        if full then
          PrefixAllAt(prefix, found);
          CompletionsFull(prefix, found);
          PrefixAll(prefix, found)
        else found
    }

    lemma CompletionsNone(prefix: string)
      requires Valid()
      requires root == null || root.Search(prefix) == null
      ensures forall k :: |k| > |prefix| && k[..|prefix|] == prefix ==> Get(Counts(), k) == 0
      ensures forall k :: Get(Counts(), prefix + k) == 0
    {
      var m := Strings(Model);
      assert forall k :: Get(m, prefix + k) == 0;
      forall k ensures Get(Positive(m), prefix + k) == 0 {
        GetPositive(m, prefix + k);
      }
      forall k | |k| > |prefix| && k[..|prefix|] == prefix ensures Get(Positive(m), k) == 0 {
        assert k == prefix + k[|prefix|..];
      }
    }

    lemma CompletionsFound(prefix: string, node: Node, start: Node?, found: seq<(string, nat)>)
      requires Valid() && root != null && node == root.Search(prefix)
      requires start == if prefix == [] then node else node.eq
      requires start == null ==> found == []
      requires start != null ==> start.Valid() && Sorted(start.Model) && DistinctKeys(found)
      requires start != null ==> forall k, c :: (k, c) in found <==> c > 0 && Get(start.Contents(), k) == c
      ensures DistinctKeys(found)
      ensures forall k, c :: (k, c) in found <==> k != [] && c > 0 && Get(Counts(), prefix + k) == c
    {
      forall k, c ensures (k, c) in found <==> k != [] && c > 0 && Get(Counts(), prefix + k) == c {
        GetPositive(root.Contents(), prefix + k);
        if prefix == [] {
          assert prefix + k == k;
        }
        if start != null && k == [] {
          StringsAt(start.Model, k);
        }
      }
    }

    lemma CompletionsFull(prefix: string, found: seq<(string, nat)>)
      requires forall k, c :: (k, c) in found <==> k != [] && c > 0 && Get(Counts(), prefix + k) == c
      ensures forall k, c :: (|k| >= |prefix| && k[..|prefix|] == prefix && (k[|prefix|..], c) in found) <==>
        (|k| > |prefix| && k[..|prefix|] == prefix && c > 0 && Get(Counts(), k) == c)
    {
      forall k, c | |k| >= |prefix| && k[..|prefix|] == prefix
        ensures (k[|prefix|..], c) in found <==> (|k| > |prefix| && c > 0 && Get(Counts(), k) == c)
      {
        assert prefix + k[|prefix|..] == k;
      }
    }
  }
}
