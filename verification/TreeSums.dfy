/** The sums that a tree's counts obey (src/FPNode.h, src/FPNode.cpp). */
module TreeSums {
  import opened Orders
  import opened Bags
  import opened FPTrees
  import opened Projection
  import opened FPGrowth

  // ---- a node and its children -------------------------------------------------------------

  /** The counts of some of a node's children. */
  ghost function ChildCounts(kids: map<Item, FPNode>, keys: set<Item>): nat
    requires keys <= kids.Keys
    reads kids.Values`count
  {
    if keys == {} then 0
    else var i :| i in keys; kids[i].count + ChildCounts(kids, keys - {i})
  }

  /** Transactions that go on below p with one of the items. */
  ghost function GoesOn(p: Path, keys: set<Item>): Path -> nat {
    (t: Path) => if p <= t && |p| < |t| && t[|p|] in keys then 1 else 0
  }

  lemma GoesOnWith(p: Path, keys: set<Item>, i: Item, t: Path)
    requires i in keys
    ensures GoesOn(p, keys)(t) == PrefixIndicator(Snoc(p, i))(t) + GoesOn(p, keys - {i})(t)
  {
    if Snoc(p, i) <= t {
      assert t[|p|] == Snoc(p, i)[|p|] == i;
      assert p == Snoc(p, i)[..|p|] == t[..|p|];
    }
    if p <= t && |p| < |t| && t[|p|] == i {
      assert t[..|p| + 1] == Snoc(p, i);
    }
  }

  lemma {:induction false} ChildCountsAre(b: Bag, p: Path, kids: map<Item, FPNode>, keys: set<Item>)
    requires keys <= kids.Keys && forall i :: i in keys ==> kids[i].count == Cnt(b, Snoc(p, i))
    ensures ChildCounts(kids, keys) == Sum(b, GoesOn(p, keys))
    decreases |keys|
  {
    hide Sum;
    if keys == {} {
      SumPositive(b, GoesOn(p, {}));
    } else {
      var i :| i in keys && ChildCounts(kids, keys) == kids[i].count + ChildCounts(kids, keys - {i});
      ChildCountsAre(b, p, kids, keys - {i});
      forall t | t in b ensures GoesOn(p, keys)(t) == PrefixIndicator(Snoc(p, i))(t) + GoesOn(p, keys - {i})(t) {
        GoesOnWith(p, keys, i, t);
      }
      SumPlus(b, PrefixIndicator(Snoc(p, i)), GoesOn(p, keys - {i}), GoesOn(p, keys));
    }
  }

  ghost function Ends(p: Path): Path -> nat {
    (t: Path) => if t == p then 1 else 0
  }

  lemma EndingCopies(b: Bag, p: Path)
    ensures Sum(b, Ends(p)) == b[p]
  {
    var rest := b - Copies(p, b[p]);
    SplitCopies(b, p, b[p]);
    SumCopies(rest, Ends(p), p, b[p]);
    SumPositive(rest, Ends(p));
  }

  /** A node counts the transactions that end in it and what its children count: never less than they do. */
  lemma CountIsSum(tree: FPTree, p: Path)
    requires tree.Valid() && p in tree.nodes && p != []
    ensures var node := tree.nodes[p];
      node.count == tree.bag[p] + ChildCounts(node.children, node.children.Keys)
  {
    hide Sum, FPTree.HeadersOk, FPTree.LeavesOk, FreqOk, ParentsOk;
    var m, b, kids := tree.nodes, tree.bag, tree.nodes[p].children;
    forall i | i in kids.Keys ensures kids[i].count == Cnt(b, Snoc(p, i)) {
      assert kids[i] == m[Snoc(p, i)] && Snoc(p, i) in m;
    }
    ChildCountsAre(b, p, kids, kids.Keys);
    forall t | t in b ensures PrefixIndicator(p)(t) == Ends(p)(t) + GoesOn(p, kids.Keys)(t) {
      if p <= t && t != p {
        var q := Snoc(p, t[|p|]);
        assert q == t[..|p| + 1];
        CntPositive(b, q);
        assert q in m;
      }
    }
    SumPlus(b, Ends(p), GoesOn(p, kids.Keys), PrefixIndicator(p));
    EndingCopies(b, p);
  }

  // ---- an item and its header list ---------------------------------------------------------

  /** The counts along a header list. */
  ghost function CountsAlong(c: seq<FPNode>): nat
    reads set k | 0 <= k < |c| :: c[k]
  {
    if c == [] then 0 else CountsAlong(c[1..]) + c[0].count
  }

  /** How many of the paths a transaction passes. */
  ghost function Passes(ps: seq<Path>): Path -> nat {
    (t: Path) => PassesOf(ps, t)
  }

  ghost function PassesOf(ps: seq<Path>, t: Path): nat {
    if ps == [] then 0 else PassesOf(ps[1..], t) + if ps[0] <= t then 1 else 0
  }

  lemma {:induction false} CountsAlongAre(b: Bag, c: seq<FPNode>)
    requires forall k :: 0 <= k < |c| ==> c[k].count == Cnt(b, c[k].path)
    ensures CountsAlong(c) == Sum(b, Passes(PathsOf(c)))
  {
    hide Sum;
    var ps := PathsOf(c);
    if c == [] {
      SumPositive(b, Passes(ps));
    } else {
      CountsAlongAre(b, c[1..]);
      assert PathsOf(c[1..]) == ps[1..];
      SumPlus(b, Passes(ps[1..]), PrefixIndicator(ps[0]), Passes(ps));
    }
  }

  lemma {:induction false} OneItemLonger(ps: seq<Path>, q: Path, j: Item)
    requires forall i, k :: 0 <= i < k < |ps| ==> ps[i] != ps[k]
    ensures PassesOf(ps, q + [j]) == PassesOf(ps, q) + if q + [j] in ps then 1 else 0
  {
    if ps != [] {
      OneItemLonger(ps[1..], q, j);
      PrefixOfLonger(ps[0], q, j);
      NotShorter(q, j);
      assert ps == [ps[0]] + ps[1..];
    }
  }

  lemma NotShorter(q: Path, j: Item)
    ensures !(q + [j] <= q)
  {
  }

  /** A transaction passes as many nodes of x as it has occurrences of x. */
  lemma {:induction false} PassesAreOccurrences(ps: seq<Path>, x: Item, t: Path, n: nat)
    requires PathsTo(ps, x) && n <= |t|
    requires forall k :: 0 <= k < n && t[k] == x ==> t[..k + 1] in ps
    ensures PassesOf(ps, t[..n]) == multiset(t[..n])[x]
  {
    if n == 0 {
      PassesNothing(ps, t[..0]);
    } else {
      var q, j := t[..n - 1], t[n - 1];
      assert t[..n] == q + [j];
      PassesAreOccurrences(ps, x, t, n - 1);
      OneItemLonger(ps, q, j);
      if q + [j] in ps {
        var k :| 0 <= k < |ps| && ps[k] == q + [j];
        assert j == x;
      }
    }
  }

  lemma {:induction false} PassesNothing(ps: seq<Path>, t: Path)
    requires t == [] && forall k :: 0 <= k < |ps| ==> ps[k] != []
    ensures PassesOf(ps, t) == 0
  {
    if ps != [] {
      PassesNothing(ps[1..], t);
    }
  }

  /** The table's entry for an item is the sum of the counts along the item's header list. */
  lemma TableIsSum(tree: FPTree, x: Item)
    requires tree.Valid()
    ensures x !in tree.headerTable ==> Get(tree.freq, x) == 0
    ensures x in tree.headerTable ==>
      Listed(tree) && (var h := tree.headerTable[x];
        Holds(tree.nodes, h) && h.path != [] && Get(tree.freq, x) == CountsAlong(ChainFrom(tree, h)))
  {
    hide Sum, FPTree.HeadersOk, FPTree.LeavesOk, ChildrenOk, ParentsOk, PathsOk, DomainOk, CountsOk, BirthsBelow, FreqOk;
    var b := tree.bag;
    HeaderHas(tree, x);
    assert Get(tree.freq, x) == ItemFreq(b, x) by { TableEntry(tree.freq, b, x); }
    if x in tree.headerTable {
      HeaderList(tree, x);
      var c := ChainFrom(tree, tree.headerTable[x]);
      ChainSpec(tree, tree.headerTable[x]);
      CountsOf(tree, c);
      CountsAlongAre(b, c);
      forall t | t in b ensures Passes(PathsOf(c))(t) == Occurrences(x)(t) {
        PassesInTree(tree, x, t);
      }
      SumCongruence(b, Passes(PathsOf(c)), Occurrences(x));
    }
  }

  lemma TableEntry(freq: map<Item, nat>, b: Bag, x: Item)
    requires FreqOk(freq, b)
    ensures Get(freq, x) == ItemFreq(b, x)
  {
  }

  lemma PassesInTree(tree: FPTree, x: Item, t: Path)
    requires tree.Valid() && t in tree.bag && x in tree.headerTable
    ensures Listed(tree) && var h := tree.headerTable[x]; Holds(tree.nodes, h) && h.path != []
    ensures Passes(PathsOf(ChainFrom(tree, tree.headerTable[x])))(t) == Occurrences(x)(t)
  {
    hide Sum, FPTree.HeadersOk, FPTree.LeavesOk, ChildrenOk, ParentsOk, PathsOk, CountsOk, BirthsBelow, FreqOk;
    HeaderList(tree, x);
    var ps := PathsOf(ChainFrom(tree, tree.headerTable[x]));
    forall k | 0 <= k < |t| && t[k] == x ensures t[..k + 1] in ps {
      var p := t[..k + 1];
      CntPositive(tree.bag, p);
      OnHeaderList(tree, x, p);
    }
    PassesAreOccurrences(ps, x, t, |t|);
    assert t[..|t|] == t;
  }
}
