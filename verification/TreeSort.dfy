/** Walking a tree's leaves and sorting it in place (src/FPNode.cpp, TreePathIterator and Sort). */
module TreeSort {
  import opened Orders
  import opened Bags
  import opened Lists
  import opened FPTrees

  class TreePathIterator {
    const tree: FPTree
    const itr: ListIterator<FPNode>

    constructor (t: FPTree)
      requires t.Valid()
      modifies t.leaves`iterators
      ensures tree == t && tree.Valid() && fresh(itr)
      ensures tree.leaves.iterators == old(t.leaves.iterators) + {itr}
      ensures tree.leaves.Nodes == old(t.leaves.Nodes) && tree.leaves.Pending(itr) == tree.leaves.Nodes
    {
      hide *;
      tree := t;
      var i := t.BeginLeaves();
      itr := i;
    }

    /** The leaves still to come, the path of the first of them, and its count. */
    method GetNext() returns (more: bool, path: Path, count: nat)
      requires tree.Valid() && itr in tree.leaves.iterators
      modifies itr
      ensures tree.Valid()
      ensures more == (old(tree.leaves.Pending(itr)) != [])
      ensures more ==>
        && tree.leaves.Pending(itr) == old(tree.leaves.Pending(itr))[1..]
        && path == old(tree.leaves.Pending(itr))[0].val.path && path != [] && path in tree.nodes
        && count == Cnt(tree.bag, path) == tree.bag[path] > 0
      ensures !more ==> tree.leaves.Pending(itr) == []
    {
      if itr.node == null {
        return false, [], 0;
      }
      hide FPTree.Struct, DomainOk, CountsOk, FreqOk;
      ghost var ahead := tree.leaves.Pending(itr);
      var leaf := tree.leaves.Next(itr);
      LeafEntry(tree, ahead[0]);
      path := PathBack(tree, leaf);
      return true, path, leaf.count;
    }
  }

  /** What the leaf list's entries are. */
  lemma LeafEntry(tree: FPTree, t: ListNode<FPNode>)
    requires tree.Valid() && t in tree.leaves.Nodes
    ensures var leaf := t.val;
      && Holds(tree.nodes, leaf) && leaf.path != []
      && leaf.count == Cnt(tree.bag, leaf.path) == tree.bag[leaf.path] > 0
  {
    hide FPTree.HeadersOk, PathsOk, FreqOk, List.Valid;
    var leaf := t.val;
    assert Holds(tree.nodes, leaf) && leaf.path != [] && leaf.leafToken == t;
    assert tree.nodes[leaf.path].leafToken != null;
    LeafHasNoChildren(tree.nodes, leaf.path);
    LeafCount(tree.nodes, tree.bag, leaf.path);
  }

  /** Constructs the path back to the root. */
  method PathBack(tree: FPTree, leaf: FPNode) returns (path: Path)
    requires tree.Valid() && Holds(tree.nodes, leaf)
    ensures path == leaf.path
  {
    hide ChildrenOk, BirthsBelow, FPTree.HeadersOk, FPTree.LeavesOk, DomainOk, CountsOk, FreqOk, List.Valid;
    PathOf(tree.nodes, leaf.path);
    assert tree.nodes[leaf.path].depth == |leaf.path|;
    var depth: int := leaf.depth;
    var items := new Item[depth];
    var n: FPNode := leaf;
    var pos := depth - 1;
    while !n.IsRoot()
      invariant -1 <= pos < depth && Holds(tree.nodes, n) && |n.path| == pos + 1
      invariant n.path == leaf.path[..pos + 1] && items[pos + 1..] == leaf.path[pos + 1..]
      invariant n.IsRoot() <==> n.path == []
      decreases pos
    {
      assert tree.nodes[n.path].parent != null && tree.nodes[n.path].item == Last(n.path);
      items[pos] := n.item;
      assert items[pos..] == [items[pos]] + items[pos + 1..];
      pos := pos - 1;
      n := n.parent;
      PathOf(tree.nodes, n.path);
    }
    path := items[..];
    assert items[0..] == items[..];
  }

  /** A node without a longer path below it. */
  ghost predicate IsLeafPath(m: NodeMap, p: Path) {
    forall q {:trigger q in m} :: q in m && p <= q ==> q == p
  }

  lemma {:induction false} StepTowards(m: NodeMap, p: Path, q: Path)
    requires ParentsOk(m) && q in m && p <= q && p != q
    ensures p + [q[|p|]] in m
    decreases |q|
  {
    if |q| == |p| + 1 {
      assert q == p + [q[|p|]];
    } else {
      assert m[q].parent != null;
      assert Init(q)[..|p|] == q[..|p|] == p;
      StepTowards(m, p, Init(q));
    }
  }

  /** All transactions through a leaf end there. */
  lemma LeafCount(m: NodeMap, b: Bag, p: Path)
    requires DomainOk(m, b) && IsLeafPath(m, p) && p in m && p != []
    ensures Cnt(b, p) == b[p] > 0
  {
    CntSplit(b, p);
    if Cnt(b, p) > b[p] {
      var t :| t in b && p <= t && t != p;
      CntPositive(b, t);
    }
  }

  lemma LeafHasNoChildren(m: NodeMap, p: Path)
    requires ParentsOk(m) && ChildrenOk(m) && p in m && m[p].children == map[]
    ensures IsLeafPath(m, p)
  {
    forall q {:trigger q in m} | q in m && p <= q ensures q == p {
      if q != p { StepTowards(m, p, q); }
      var i, kids := if |p| < |q| then q[|p|] else 1, m[p].children;
      assert q != p ==> Snoc(p, i) in m;
      assert q != p ==> i in kids;
    }
  }

  /** A fixed comparator, or the one that reads the tree's own frequency table while it is being sorted. */
  datatype Comparator = LiveTable | By(less: Order)

  function OrderNow(tree: FPTree, cmp: Comparator): Order
    reads tree`freq
  {
    match cmp
    case LiveTable => TableOrder(tree.freq)
    case By(less) => less
  }

  /** Every leaf that the iterator is past lies on a sorted path. */
  ghost predicate SortedBehind(nodes: seq<ListNode<FPNode>>, pending: seq<ListNode<FPNode>>, less: Order) {
    forall t :: t in nodes && t !in pending ==> Sorted(t.val.path, less)
  }

  /** FPNode::Sort(ItemComparator*). */
  method SortBy(tree: FPTree, cmp: Comparator)
    requires tree.Valid() && (cmp.By? ==> StrictTotal(cmp.less))
    modifies tree, tree.leaves, tree.leaves.Nodes, tree.leaves.iterators, tree.nodes.Values
    ensures tree.Valid() && tree.bag == SortAll(old(tree.bag), old(OrderNow(tree, cmp)))
    ensures tree.freq == old(tree.freq) && tree.freqAtLastSort == old(tree.freqAtLastSort)
    ensures tree.KeepsHeap()
  {
    hide FPTree.Valid, List.Valid, StrictTotal, OrderNow, SortAll, SortedBehind;
    ghost var less := OrderNow(tree, cmp);
    OrderNowIsStrictTotal(tree, cmp);
    var itr := StartSort(tree, less);
    SortLeaves(tree, itr, cmp, less);
    FinishSort(tree, itr.itr, less);
  }

  method StartSort(tree: FPTree, ghost less: Order) returns (itr: TreePathIterator)
    requires tree.Valid()
    modifies tree.leaves`iterators
    ensures tree.Valid() && tree.leaves.Valid() && itr.tree == tree && fresh(itr.itr)
    ensures tree.leaves.iterators == old(tree.leaves.iterators) + {itr.itr}
    ensures SortedBehind(tree.leaves.Nodes, tree.leaves.Pending(itr.itr), less)
  {
    hide Sorted, FPTree.Struct, DomainOk, CountsOk, FreqOk, SortedBehind;
    itr := new TreePathIterator(tree);
    NothingBehind(tree.leaves.Nodes, less);
  }

  method SortLeaves(tree: FPTree, itr: TreePathIterator, cmp: Comparator, ghost less: Order)
    requires tree.Valid() && tree.leaves.Valid() && itr.tree == tree && itr.itr in tree.leaves.iterators
    requires OrderNow(tree, cmp) == less && StrictTotal(less)
    requires SortedBehind(tree.leaves.Nodes, tree.leaves.Pending(itr.itr), less)
    modifies tree, tree.leaves, tree.leaves.Nodes, tree.leaves.iterators, tree.nodes.Values
    ensures tree.Valid() && tree.leaves.Valid() && tree.leaves.iterators == old(tree.leaves.iterators)
    ensures tree.freq == old(tree.freq) && tree.freqAtLastSort == old(tree.freqAtLastSort)
    ensures SortAll(tree.bag, less) == SortAll(old(tree.bag), less)
    ensures tree.leaves.Pending(itr.itr) == []
    ensures SortedBehind(tree.leaves.Nodes, tree.leaves.Pending(itr.itr), less)
    ensures tree.KeepsNodes() && tree.KeepsLeaves()
  {
    hide Sorted, StrictTotal, SortAll, SortPath, FPTree.Struct, DomainOk, CountsOk, FreqOk, SortedBehind, UnsortedIn;
    var more := true;
    while more
      invariant tree.Valid() && OrderNow(tree, cmp) == less
      invariant tree.freq == old(tree.freq) && tree.freqAtLastSort == old(tree.freqAtLastSort)
      invariant tree.leaves.iterators == old(tree.leaves.iterators)
      invariant SortAll(tree.bag, less) == SortAll(old(tree.bag), less)
      invariant SortedBehind(tree.leaves.Nodes, tree.leaves.Pending(itr.itr), less)
      invariant !more ==> tree.leaves.Pending(itr.itr) == []
      invariant tree.KeepsNodes() && tree.KeepsLeaves()
      decreases UnsortedIn(tree.bag, less), |tree.leaves.Pending(itr.itr)|, more
    {
      more := SortRound(tree, itr, cmp, less);
    }
  }

  lemma OrderNowIsStrictTotal(tree: FPTree, cmp: Comparator)
    requires cmp.By? ==> StrictTotal(cmp.less)
    ensures StrictTotal(OrderNow(tree, cmp))
  {
    TableOrderIsStrictTotal(tree.freq);
  }

  method FinishSort(tree: FPTree, it: ListIterator<FPNode>, ghost less: Order)
    requires tree.Valid() && StrictTotal(less)
    requires it in tree.leaves.iterators && tree.leaves.Valid()
    requires tree.leaves.Pending(it) == [] && SortedBehind(tree.leaves.Nodes, tree.leaves.Pending(it), less)
    modifies tree.leaves`iterators
    ensures tree.Valid() && tree.leaves.iterators == old(tree.leaves.iterators) - {it}
    ensures SortAll(tree.bag, less) == tree.bag
  {
    AllSorted(tree, less);
    tree.EndLeaves(it);
  }

  /** One round of Sort's loop. */
  method SortRound(tree: FPTree, itr: TreePathIterator, cmp: Comparator, ghost less: Order) returns (more: bool)
    requires tree.Valid() && itr.tree == tree && itr.itr in tree.leaves.iterators
    requires OrderNow(tree, cmp) == less && StrictTotal(less)
    requires SortedBehind(tree.leaves.Nodes, tree.leaves.Pending(itr.itr), less)
    modifies tree, tree.leaves, tree.leaves.Nodes, tree.leaves.iterators, tree.nodes.Values
    ensures tree.Valid() && tree.leaves.iterators == old(tree.leaves.iterators)
    ensures tree.freq == old(tree.freq) && tree.freqAtLastSort == old(tree.freqAtLastSort)
    ensures SortAll(tree.bag, less) == SortAll(old(tree.bag), less)
    ensures SortedBehind(tree.leaves.Nodes, tree.leaves.Pending(itr.itr), less)
    ensures !more ==> tree.leaves.Pending(itr.itr) == [] && tree.bag == old(tree.bag) && old(tree.leaves.Pending(itr.itr)) == []
    ensures more ==>
      || UnsortedIn(tree.bag, less) < UnsortedIn(old(tree.bag), less)
      || (tree.bag == old(tree.bag) && |tree.leaves.Pending(itr.itr)| < |old(tree.leaves.Pending(itr.itr))|)
    ensures tree.KeepsNodes() && tree.KeepsLeaves()
  {
    hide Sorted, StrictTotal, SortAll, SortPath, FPTree.Struct, DomainOk, CountsOk, FreqOk, SortedBehind, UnsortedIn;
    ghost var nodes, ahead := tree.leaves.Nodes, tree.leaves.Pending(itr.itr);
    var path, count;
    more, path, count := itr.GetNext();
    if !more {
      return;
    }
    var spath := SortPath(path, OrderNow(tree, cmp));
    if spath != path {
      ReplacePath(tree, itr.itr, path, spath, count, less, nodes, ahead);
    } else {
      PassSorted(nodes, ahead, path, less);
    }
  }

  method ReplacePath(tree: FPTree, ghost it: ListIterator<FPNode>, path: Path, spath: Path, count: nat, ghost less: Order,
                     ghost nodes: seq<ListNode<FPNode>>, ghost ahead: seq<ListNode<FPNode>>)
    requires tree.Valid() && it in tree.leaves.iterators && StrictTotal(less)
    requires count == Cnt(tree.bag, path) == tree.bag[path] > 0
    requires spath == SortPath(path, less) && spath != path
    requires ahead != [] && tree.leaves.Nodes == nodes && tree.leaves.Pending(it) == ahead[1..]
    requires ahead[0].val.path == path && SortedBehind(nodes, ahead, less)
    modifies tree, tree.leaves, tree.leaves.Nodes, tree.leaves.iterators, tree.nodes.Values
    ensures tree.Valid() && tree.leaves.iterators == old(tree.leaves.iterators)
    ensures tree.freq == old(tree.freq) && tree.freqAtLastSort == old(tree.freqAtLastSort)
    ensures SortAll(tree.bag, less) == SortAll(old(tree.bag), less)
    ensures UnsortedIn(tree.bag, less) < UnsortedIn(old(tree.bag), less)
    ensures SortedBehind(tree.leaves.Nodes, tree.leaves.Pending(it), less)
    ensures tree.KeepsNodes() && tree.KeepsLeaves()
  {
    hide Sorted, StrictTotal, SortAll, SortPath, FPTree.Struct, DomainOk, CountsOk, FreqOk, SortedBehind, UnsortedIn, OnlyPasses, Moved;
    SortPathSpec(path, less);
    ReplaceUnsorted(tree.bag, path, less, count);
    PathGone(tree.bag, path, spath, count);
    tree.Replace(path, spath, count);
    NotListed(tree, path);
    StillSorted(nodes, ahead, tree.leaves.Nodes, tree.leaves.Pending(it), path, spath, less);
  }

  lemma PathGone(b: Bag, p: Path, q: Path, count: nat)
    requires count == Cnt(b, p) == b[p] && |p| == |q| && p != q
    ensures Cnt(Moved(b, p, q, count), p) == 0
  {
    SplitCopies(b, p, count);
    CntCopies(b - Copies(p, count), p, count, p);
    CntCopies(b - Copies(p, count), q, count, p);
  }

  lemma NotListed(tree: FPTree, p: Path)
    requires tree.Valid() && Cnt(tree.bag, p) == 0 && p != []
    ensures forall t :: t in tree.leaves.Nodes ==> t.val.path != p
  {
  }

  lemma StillSorted(nodes: seq<ListNode<FPNode>>, ahead: seq<ListNode<FPNode>>,
                    nodes1: seq<ListNode<FPNode>>, ahead1: seq<ListNode<FPNode>>, p: Path, q: Path, less: Order)
    requires ahead != [] && SortedBehind(nodes, ahead, less) && ahead[0].val.path == p
    requires OnlyPasses(nodes, ahead[1..], nodes1, ahead1, q) && Sorted(q, less)
    requires forall t :: t in nodes1 ==> t.val.path != p
    ensures SortedBehind(nodes1, ahead1, less)
  {
    forall t | t in nodes1 && t !in ahead1 ensures Sorted(t.val.path, less) {
      if t.val.path <= q {
        var r := t.val.path;
        assert r == q[..|r|];
      } else {
        assert t in nodes && t !in ahead[1..] && t != ahead[0];
        assert ahead == [ahead[0]] + ahead[1..];
      }
    }
  }

  lemma PassSorted(nodes: seq<ListNode<FPNode>>, ahead: seq<ListNode<FPNode>>, p: Path, less: Order)
    requires StrictTotal(less) && SortPath(p, less) == p
    requires ahead != [] && SortedBehind(nodes, ahead, less) && ahead[0].val.path == p
    ensures SortedBehind(nodes, ahead[1..], less)
  {
    SortPathSpec(p, less);
    assert ahead == [ahead[0]] + ahead[1..];
  }

  /** With every leaf behind the iterator, every transaction of the tree is sorted. */
  lemma AllSorted(tree: FPTree, less: Order)
    requires tree.Valid() && StrictTotal(less) && SortedBehind(tree.leaves.Nodes, [], less)
    ensures SortAll(tree.bag, less) == tree.bag
  {
    forall t | t in tree.bag ensures SortPath(t, less) == t {
      if t != [] {
        CntPositive(tree.bag, t);
        var q := LeafBeyond(tree.nodes, t);
        assert q != [] && tree.nodes[q].leafToken in tree.leaves.Nodes;
        assert Sorted(tree.nodes[q].leafToken.val.path, less);
        assert t == q[..|t|];
      }
      SortFixpoint(t, less);
    }
    MapIdentity(tree.bag, Sorter(less));
  }

  /** Every node lies on the path of some childless node. */
  lemma {:induction false} LeafBeyond(m: NodeMap, p: Path) returns (q: Path)
    requires p in m && PathsOk(m) && ChildrenOk(m)
    ensures q in m && p <= q && m[q].children == map[]
    decreases |set r | r in m && p <= r|
  {
    if m[p].children == map[] {
      q := p;
    } else {
      var i :| i in m[p].children;
      var r := Snoc(p, i);
      Fewer(m, p, r);
      q := LeafBeyond(m, r);
      assert p == r[..|p|] == q[..|p|];
    }
  }

  lemma Fewer(m: NodeMap, p: Path, q: Path)
    requires p in m && p <= q && p != q
    ensures |set r | r in m && q <= r| < |set r | r in m && p <= r|
  {
    var a, b := set r | r in m && q <= r, set r | r in m && p <= r;
    forall r | r in a ensures r in b {
      assert p == q[..|p|] == r[..|p|];
    }
    assert p in b - a;
    assert a <= b;
    assert |b| == |a| + |b - a|;
  }

  lemma NothingBehind(nodes: seq<ListNode<FPNode>>, less: Order)
    ensures SortedBehind(nodes, nodes, less)
  {
  }

  /** FPNode::Sort(): remember the frequency table, then sort by it while it is live. */
  method Sort(tree: FPTree)
    requires tree.Valid()
    modifies tree, tree.leaves, tree.leaves.Nodes, tree.leaves.iterators, tree.nodes.Values
    ensures tree.Valid() && tree.bag == SortAll(old(tree.bag), TableOrder(old(tree.freq)))
    ensures tree.freq == old(tree.freq) == tree.freqAtLastSort
    ensures tree.KeepsHeap()
  {
    RememberTable(tree);
    SortBy(tree, LiveTable);
  }

  method RememberTable(tree: FPTree)
    requires tree.Valid()
    modifies tree`freqAtLastSort
    ensures tree.Valid() && tree.freqAtLastSort == tree.freq
  {
    hide FPTree.Struct, DomainOk, CountsOk, FreqOk;
    tree.freqAtLastSort := tree.freq;
  }

  /** The order transactions are inserted in: by the table at the last sort, or by appearance before any. */
  function InsertionOrder(freqAtLastSort: map<Item, nat>): Order {
    if freqAtLastSort != map[] then TableOrder(freqAtLastSort) else AppearanceOrder()
  }

  lemma InsertionOrderIsStrictTotal(freqAtLastSort: map<Item, nat>)
    ensures StrictTotal(InsertionOrder(freqAtLastSort))
  {
    TableOrderIsStrictTotal(freqAtLastSort);
    AppearanceOrderIsStrictTotal();
  }

  /** FPNode::SortTransaction. */
  method SortTransaction(tree: FPTree, txn: Path) returns (sorted: Path)
    ensures sorted == SortPath(txn, InsertionOrder(tree.freqAtLastSort))
    ensures Sorted(sorted, InsertionOrder(tree.freqAtLastSort)) && multiset(sorted) == multiset(txn)
  {
    hide StrictTotal, Sorted, SortPath;
    InsertionOrderIsStrictTotal(tree.freqAtLastSort);
    SortPathSpec(txn, InsertionOrder(tree.freqAtLastSort));
    if tree.freqAtLastSort != map[] {
      sorted := SortPath(txn, TableOrder(tree.freqAtLastSort));
    } else {
      sorted := SortPath(txn, AppearanceOrder());
    }
  }

  /** The bag fixes the whole tree: two trees of the same transactions have the same nodes and counts. */
  lemma TreeDetermined(t: FPTree, u: FPTree)
    requires t.Valid() && u.Valid() && t.bag == u.bag
    ensures forall p :: p in t.nodes <==> p in u.nodes
    ensures forall p :: p in t.nodes && p != [] ==> t.nodes[p].count == u.nodes[p].count
    ensures forall i: Item :: Get(t.freq, i) == Get(u.freq, i)
  {
    forall p ensures p in t.nodes <==> p in u.nodes {
      if p != [] {
        assert p in t.nodes <==> Cnt(t.bag, p) > 0;
        assert p in u.nodes <==> Cnt(u.bag, p) > 0;
      }
    }
    forall i: Item ensures Get(t.freq, i) == Get(u.freq, i) {
      assert Get(t.freq, i) == ItemFreq(t.bag, i);
      assert Get(u.freq, i) == ItemFreq(u.bag, i);
    }
  }

  /** What IsSorted checks of a tree whose transactions are sorted by its frequency table. */
  lemma SortedTreePassesIsSorted(tree: FPTree, p: Path, a: Item, b: Item)
    requires tree.Valid() && SortAll(tree.bag, TableOrder(tree.freq)) == tree.bag
    requires Snoc(Snoc(p, a), b) in tree.nodes
    ensures Get(tree.freq, b) <= Get(tree.freq, a)
    ensures Get(tree.freq, b) == Get(tree.freq, a) ==> a <= b
  {
    hide FPTree.Struct, CountsOk, Sum, SortPath, MapBag;
    var q := Snoc(Snoc(p, a), b);
    CntPositive(tree.bag, q);
    var t :| t in tree.bag && q <= t;
    assert t[|p|] == q[|p|] == a && t[|p| + 1] == q[|p| + 1] == b;
    InTableOrder(tree.bag, tree.freq, t, |p|);
    OnPathOccurs(tree.bag, t, a);
    OnPathOccurs(tree.bag, t, b);
    assert Get(tree.freq, a) == ItemFreq(tree.bag, a) && Get(tree.freq, b) == ItemFreq(tree.bag, b);
  }

  lemma InTableOrder(b: Bag, freq: map<Item, nat>, t: Path, k: nat)
    requires SortAll(b, TableOrder(freq)) == b && t in b && k + 1 < |t|
    ensures !TableLess(freq, t[k + 1], t[k])
  {
    hide MapBag, SortPath, StrictTotal;
    var less := TableOrder(freq);
    TableOrderIsStrictTotal(freq);
    MapMembers(b, Sorter(less), t);
    var u :| u in b && Sorter(less)(u) == t;
    SortPathSpec(u, less);
    assert !less(t[k + 1], t[k]);
  }

  lemma OnPathOccurs(b: Bag, t: Path, i: Item)
    requires t in b && i in t
    ensures ItemFreq(b, i) > 0
  {
    SumPick(b, Occurrences(i), t);
    assert i in multiset(t);
  }
}
