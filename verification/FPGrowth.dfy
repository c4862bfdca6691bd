/** Mining the tree by recursive projection (src/FPTree.cpp). */
module FPGrowth {
  import opened Orders
  import opened Bags
  import opened FPTrees
  import opened TreeSort
  import opened Projection
  import opened Patterns

  // ---- header lists as sequences ---------------------------------------------------------

  ghost predicate Listed(tree: FPTree)
    reads tree`nodes, tree`headerTable, tree.nodes.Values`next, tree.nodes.Values`prev
  {
    PathsOk(tree.nodes) && tree.HeadersOk(tree.nodes)
  }

  /** The header list from node n on. */
  ghost function ChainFrom(tree: FPTree, n: FPNode): seq<FPNode>
    requires Listed(tree) && Holds(tree.nodes, n) && n.path != []
    reads tree`nodes, tree`headerTable, tree.nodes.Values`next, tree.nodes.Values`prev
    decreases n.birth
  {
    assert tree.nodes[n.path] == n;
    if n.next == null then [n]
    else
      var m: FPNode := n.next;
      assert tree.nodes[m.path] == m;
      [n] + ChainFrom(tree, m)
  }

  lemma {:induction false} ChainSpec(tree: FPTree, n: FPNode)
    requires Listed(tree) && Holds(tree.nodes, n) && n.path != []
    ensures var c := ChainFrom(tree, n);
      && c != [] && c[0] == n
      && (forall k :: 0 <= k < |c| ==> Holds(tree.nodes, c[k]) && c[k].path != [] && c[k].item == n.item && c[k].birth <= n.birth)
      && (forall k {:trigger c[k].next} :: 0 <= k < |c| ==> c[k].next == if k == |c| - 1 then null else c[k + 1])
      && (forall j, k :: 0 <= j < k < |c| ==> c[j].birth > c[k].birth)
    decreases n.birth
  {
    assert tree.nodes[n.path] == n;
    if n.next != null {
      var m: FPNode := n.next;
      assert tree.nodes[m.path] == m;
      ChainSpec(tree, m);
    }
  }

  lemma {:induction false} NextInChain(tree: FPTree, h: FPNode, n: FPNode)
    requires Listed(tree) && Holds(tree.nodes, h) && h.path != []
    requires n in ChainFrom(tree, h) && n.next != null
    ensures n.next in ChainFrom(tree, h)
  {
    ChainSpec(tree, h);
    var c := ChainFrom(tree, h);
    var k :| 0 <= k < |c| && c[k] == n;
    assert c[k].next == c[k + 1];
  }

  /** Every node of an item is on that item's header list. */
  lemma {:induction false} ChainComplete(tree: FPTree, n: FPNode)
    requires Listed(tree) && BirthsBelow(tree.nodes, tree.clock)
    requires Holds(tree.nodes, n) && n.path != []
    ensures Last(n.path) in tree.headerTable
    ensures var h := tree.headerTable[Last(n.path)]; Holds(tree.nodes, h) && h.path != [] && n in ChainFrom(tree, h)
    decreases tree.clock - n.birth
  {
    var m, i := tree.nodes, Last(n.path);
    assert m[n.path] == n && n.birth < tree.clock && n.item == i;
    if n.prev == null {
      assert tree.headerTable[i] == n;
      ChainSpec(tree, n);
    } else {
      var q: FPNode := n.prev;
      assert m[q.path] == q && q.next == n && q.birth > n.birth && q.item == n.item;
      ChainComplete(tree, q);
      NextInChain(tree, tree.headerTable[i], q);
    }
  }

  ghost function PathsOf(c: seq<FPNode>): seq<Path> {
    seq(|c|, k requires 0 <= k < |c| => c[k].path)
  }

  lemma HeaderList(tree: FPTree, x: Item)
    requires Listed(tree) && x in tree.headerTable
    ensures var h := tree.headerTable[x]; Holds(tree.nodes, h) && h.path != [] && h.item == x
    ensures PathsTo(PathsOf(ChainFrom(tree, tree.headerTable[x])), x)
  {
    var h := tree.headerTable[x];
    assert tree.nodes[h.path] == h && h.item == x;
    ChainSpec(tree, h);
    var c := ChainFrom(tree, h);
    var ps := PathsOf(c);
    forall k | 0 <= k < |ps| ensures ps[k] != [] && ps[k][|ps[k]| - 1] == x {
      assert tree.nodes[c[k].path] == c[k];
    }
    forall j, k | 0 <= j < k < |ps| ensures ps[j] != ps[k] {
      assert tree.nodes[c[j].path] == c[j] && tree.nodes[c[k].path] == c[k];
    }
  }

  lemma OnHeaderList(tree: FPTree, x: Item, p: Path)
    requires Listed(tree) && BirthsBelow(tree.nodes, tree.clock) && p in tree.nodes && p != [] && Last(p) == x
    ensures x in tree.headerTable
    ensures var h := tree.headerTable[x]; Holds(tree.nodes, h) && h.path != []
    ensures p in PathsOf(ChainFrom(tree, tree.headerTable[x]))
  {
    assert tree.nodes[p].path == p;
    ChainComplete(tree, tree.nodes[p]);
    var c := ChainFrom(tree, tree.headerTable[x]);
    var k :| 0 <= k < |c| && c[k] == tree.nodes[p];
    assert PathsOf(c)[k] == p;
  }

  /** The header list of x collects the conditional pattern base of x. */
  lemma HeaderListCovers(tree: FPTree, x: Item)
    requires tree.Valid() && x in tree.headerTable && AllDistinct(tree.bag)
    ensures Listed(tree) && var h := tree.headerTable[x]; Holds(tree.nodes, h) && h.path != []
    ensures var ps := PathsOf(ChainFrom(tree, tree.headerTable[x]));
      PathsTo(ps, x) && Fold(ps, tree.bag) == Project(tree.bag, x)
  {
    hide ChildrenOk, ParentsOk, PathsOk, FPTree.HeadersOk, FPTree.LeavesOk, CountsOk, FreqOk, BirthsBelow, NoDuplicates;
    HeaderList(tree, x);
    var ps := PathsOf(ChainFrom(tree, tree.headerTable[x]));
    forall t | t in tree.bag && x in t ensures Before(t, x) + [x] in ps {
      var p := Before(t, x) + [x];
      PrefixEndingIn(p, t, x);
      CntPositive(tree.bag, p);
      OnHeaderList(tree, x, p);
    }
    FoldIsProject(ps, tree.bag, x);
  }

  // ---- the conditional tree --------------------------------------------------------------

  /** First pass, one node: its path's items each occur `count` times more. */
  method CountAbove(n: FPNode, ghost m: NodeMap, count: nat, freq: map<Item, nat>, ghost b: Bag) returns (out: map<Item, nat>)
    requires PathsOk(m) && ParentsOk(m) && Holds(m, n) && n.path != []
    requires FreqOk(freq, b)
    ensures FreqOk(out, b + Copies(InitOf(n.path), count))
  {
    hide FreqOk;
    ghost var q := InitOf(n.path);
    out := freq;
    var p := ParentOf(n, m);
    assert q[|q|..] == [];
    NoneOwed(freq, b, count);
    while !p.IsRoot()
      invariant Holds(m, p) && |p.path| <= |q| && p.path == q[..|p.path|]
      invariant FreqOk(out, b + Copies(q[|p.path|..], count))
      decreases |p.path|
    {
      assert m[p.path] == p;
      ghost var j := |p.path| - 1;
      assert q[j..] == [q[j]] + q[j + 1..] && q[j] == p.item;
      CountOne(out, b, q[j..], count);
      out := out[p.item := Get(out, p.item) + count];
      p := ParentOf(p, m);
    }
    assert m[p.path] == p;
    assert q[0..] == q;
  }

  /** The parent of a data node, with what the tree's shape says about it. */
  method ParentOf(n: FPNode, ghost m: NodeMap) returns (p: FPNode)
    requires PathsOk(m) && ParentsOk(m) && Holds(m, n) && n.path != []
    ensures Holds(m, p) && p.path == InitOf(n.path) && (p.IsRoot() <==> p.path == [])
  {
    assert m[n.path].parent != null;
    assert n.parent == m[Init(n.path)];
    p := n.parent;
    assert m[Init(n.path)].path == Init(n.path);
  }

  lemma NoneOwed(freq: map<Item, nat>, b: Bag, count: nat)
    requires FreqOk(freq, b)
    ensures FreqOk(freq, b + Copies([], count))
  {
    forall i: Item ensures ItemFreq(b + Copies([], count), i) == ItemFreq(b, i) {
      FreqCopies(b, [], count, i);
    }
  }

  lemma CountOne(freq: map<Item, nat>, b: Bag, owed: Path, count: nat)
    requires owed != [] && FreqOk(freq, b + Copies(owed[1..], count))
    ensures FreqOk(freq[owed[0] := Get(freq, owed[0]) + count], b + Copies(owed, count))
  {
    forall i: Item ensures ItemFreq(b + Copies(owed, count), i) ==
      ItemFreq(b + Copies(owed[1..], count), i) + if i == owed[0] then count else 0
    {
      OwedFreq(b, owed, count, i);
    }
  }

  /** Second pass, one node: the items of its path that reach minCount. */
  method KeepAbove(n: FPNode, ghost m: NodeMap, freq: map<Item, nat>, minCount: nat) returns (path: Path)
    requires PathsOk(m) && ParentsOk(m) && Holds(m, n) && n.path != []
    ensures path == Keep(InitOf(n.path), freq, minCount)
  {
    ghost var q := InitOf(n.path);
    path := [];
    var p := ParentOf(n, m);
    assert q[|q|..] == [];
    while !p.IsRoot()
      invariant Holds(m, p) && |p.path| <= |q| && p.path == q[..|p.path|]
      invariant path == Keep(q[|p.path|..], freq, minCount)
      decreases |p.path|
    {
      assert m[p.path] == p;
      ghost var j := |p.path| - 1;
      assert q[j..] == [q[j]] + q[j + 1..] && q[j] == p.item;
      if Get(freq, p.item) >= minCount {
        path := [p.item] + path;
      }
      p := ParentOf(p, m);
    }
    assert m[p.path] == p;
    assert q[0..] == q;
  }

  /** The rest of a header list from its k-th node on. */
  ghost predicate Walking(tree: FPTree, c: seq<FPNode>, k: nat, n: FPNode?)
    reads tree`nodes, c
  {
    && k <= |c| && n == (if k == |c| then null else c[k])
    && (forall j :: 0 <= j < |c| ==> Holds(tree.nodes, c[j]) && c[j].path != [])
    && (forall j {:trigger c[j].next} :: 0 <= j < |c| ==> c[j].next == if j == |c| - 1 then null else c[j + 1])
  }

  lemma StartWalking(tree: FPTree, x: Item)
    requires Listed(tree) && x in tree.headerTable
    ensures var h := tree.headerTable[x];
      Holds(tree.nodes, h) && h.path != [] && Walking(tree, ChainFrom(tree, h), 0, h)
  {
    HeaderList(tree, x);
    ChainSpec(tree, tree.headerTable[x]);
  }

  lemma FoldNext(ps: seq<Path>, k: nat, b: Bag)
    requires k < |ps| && forall j :: 0 <= j < |ps| ==> ps[j] != []
    ensures Fold(ps[..k + 1], b) == Fold(ps[..k], b) + Copies(InitOf(ps[k]), Cnt(b, ps[k]))
  {
    assert ps[..k + 1][..k] == ps[..k];
  }

  lemma CountOf(tree: FPTree, n: FPNode)
    requires tree.Valid() && Holds(tree.nodes, n) && n.path != []
    ensures n.count == Cnt(tree.bag, n.path) > 0
  {
    assert tree.nodes[n.path].count == n.count;
  }

  lemma ShapeOf(tree: FPTree)
    requires tree.Valid()
    ensures Listed(tree) && ParentsOk(tree.nodes) && BirthsBelow(tree.nodes, tree.clock)
  {
  }

  /** First pass over the header list of x: the frequencies in its conditional pattern base. */
  method CountPass(tree: FPTree, x: Item) returns (freq: map<Item, nat>)
    requires tree.Valid() && x in tree.headerTable && AllDistinct(tree.bag)
    ensures FreqOk(freq, Project(tree.bag, x))
  {
    hide FPTree.Valid, PathsOk, ParentsOk, FPTree.HeadersOk, FreqOk, Fold, PathsTo, Walking, Project, AllDistinct;
    HeaderListCovers(tree, x);
    StartWalking(tree, x);
    ShapeOf(tree);
    var n: FPNode? := tree.headerTable[x];
    ghost var c, k := ChainFrom(tree, tree.headerTable[x]), 0;
    ghost var ps := PathsOf(c);
    freq := map[];
    WalkPaths(tree, c, n);
    NothingCounted(tree.bag, ps);
    while n != null
      invariant k <= |c| && Walking(tree, c, k, n)
      invariant FreqOk(freq, Fold(ps[..k], tree.bag))
      decreases |c| - k
    {
      WalkStep(tree, c, k, n);
      CountOf(tree, n);
      FoldNext(ps, k, tree.bag);
      freq := CountAbove(n, tree.nodes, n.count, freq, Fold(ps[..k], tree.bag));
      n, k := n.next, k + 1;
    }
    WalkEnds(tree, c, k);
    assert ps[..k] == ps;
  }

  lemma WalkPaths(tree: FPTree, c: seq<FPNode>, n: FPNode?)
    requires Walking(tree, c, 0, n)
    ensures forall j :: 0 <= j < |c| ==> PathsOf(c)[j] != []
  {
  }

  lemma WalkStep(tree: FPTree, c: seq<FPNode>, k: nat, n: FPNode)
    requires Walking(tree, c, k, n)
    ensures k < |c| && Holds(tree.nodes, n) && n.path != [] && PathsOf(c)[k] == n.path && Walking(tree, c, k + 1, n.next)
  {
  }

  lemma WalkEnds(tree: FPTree, c: seq<FPNode>, k: nat)
    requires Walking(tree, c, k, null)
    ensures k == |c|
  {
  }

  lemma NothingCounted(b: Bag, ps: seq<Path>)
    requires forall j :: 0 <= j < |ps| ==> ps[j] != []
    ensures Fold(ps[..0], b) == multiset{} && FreqOk(map[], multiset{})
  {
  }

  /** Second pass: the new tree is the conditional bag of x. */
  method FillPass(tree: FPTree, x: Item, freq: map<Item, nat>, minCount: nat, sort: Sorting) returns (sub: FPTree)
    requires tree.Valid() && x in tree.headerTable && AllDistinct(tree.bag)
    ensures sub.Valid() && sub.bag == MapBag(Project(tree.bag, x), Conditioner(freq, minCount, sort))
  {
    hide FPTree.Valid, PathsOk, ParentsOk, FPTree.HeadersOk, FreqOk, Fold, PathsTo, MapBag, Keep;
    HeaderListCovers(tree, x);
    StartWalking(tree, x);
    ShapeOf(tree);
    var n: FPNode? := tree.headerTable[x];
    ghost var c := ChainFrom(tree, tree.headerTable[x]);
    CountsOf(tree, c);
    sub := FillFrom(n, c, tree.nodes, tree.bag, freq, minCount, sort);
  }

  method FillFrom(first: FPNode?, ghost c: seq<FPNode>, ghost m: NodeMap, ghost b: Bag,
                  freq: map<Item, nat>, minCount: nat, sort: Sorting) returns (sub: FPTree)
    requires PathsOk(m) && ParentsOk(m)
    requires first == if c == [] then null else c[0]
    requires forall k :: 0 <= k < |c| ==> Holds(m, c[k]) && c[k].path != []
    requires forall k {:trigger c[k].next} :: 0 <= k < |c| ==> c[k].next == if k == |c| - 1 then null else c[k + 1]
    requires forall k {:trigger c[k].count} :: 0 <= k < |c| ==> c[k].count == Cnt(b, c[k].path) > 0
    ensures sub.Valid() && sub.bag == MapBag(Fold(PathsOf(c), b), Conditioner(freq, minCount, sort))
  {
    hide FPTree.Valid, PathsOk, ParentsOk, Fold, MapBag, Keep, Conditioner, Cnt, Copies;
    var n := first;
    ghost var ps, k := PathsOf(c), 0;
    NothingCounted(b, ps);
    sub := new FPTree();
    MapNothing(sub.bag, Fold(ps[..0], b), Conditioner(freq, minCount, sort));
    while n != null
      invariant k <= |c| && n == (if k == |c| then null else c[k])
      invariant sub.Valid() && sub.bag == MapBag(Fold(ps[..k], b), Conditioner(freq, minCount, sort))
      invariant fresh(sub) && fresh(sub.leaves) && sub.leaves.iterators == {}
      invariant forall p {:trigger sub.nodes[p]} :: p in sub.nodes ==> fresh(sub.nodes[p])
      invariant forall j {:trigger sub.leaves.Nodes[j]} :: 0 <= j < |sub.leaves.Nodes| ==> fresh(sub.leaves.Nodes[j])
      decreases |c| - k
    {
      FoldNext(ps, k, b);
      FillOne(n, m, sub, n.count, freq, minCount, sort, Fold(ps[..k], b));
      n, k := n.next, k + 1;
    }
    assert ps[..k] == ps;
  }

  method FillOne(n: FPNode, ghost m: NodeMap, sub: FPTree, count: nat, freq: map<Item, nat>, minCount: nat, sort: Sorting, ghost b: Bag)
    requires PathsOk(m) && ParentsOk(m) && Holds(m, n) && n.path != [] && count > 0
    requires sub.Valid() && sub.bag == MapBag(b, Conditioner(freq, minCount, sort))
    modifies sub, sub.leaves, sub.leaves.Nodes, sub.leaves.iterators, sub.nodes.Values
    ensures sub.Valid() && sub.bag == MapBag(b + Copies(InitOf(n.path), count), Conditioner(freq, minCount, sort))
    ensures sub.KeepsHeap()
  {
    hide FPTree.Valid, PathsOk, ParentsOk, MapBag, Keep;
    MapCopies(b, Conditioner(freq, minCount, sort), InitOf(n.path), count);
    var path := KeepAbove(n, m, freq, minCount);
    path := sort(path, freq);
    sub.Insert(path, count);
  }

  lemma CountsOf(tree: FPTree, c: seq<FPNode>)
    requires tree.Valid() && forall k :: 0 <= k < |c| ==> Holds(tree.nodes, c[k]) && c[k].path != []
    ensures forall k {:trigger c[k].count} :: 0 <= k < |c| ==> c[k].count == Cnt(tree.bag, c[k].path) > 0
  {
    forall k | 0 <= k < |c| ensures c[k].count == Cnt(tree.bag, c[k].path) > 0 {
      CountOf(tree, c[k]);
    }
  }

  lemma MapNothing(b: Bag, c: Bag, f: Path -> Path)
    requires b == multiset{} && c == multiset{}
    ensures b == MapBag(c, f)
  {
  }

  /** The projection of the tree onto item x, with the frequencies it was made with. */
  method ConstructConditionalTree(tree: FPTree, x: Item, minCount: nat, sort: Sorting) returns (sub: FPTree, ghost freq: map<Item, nat>)
    requires tree.Valid() && x in tree.headerTable && AllDistinct(tree.bag)
    ensures FreqOk(freq, Project(tree.bag, x))
    ensures sub.Valid() && sub.bag == MapBag(Project(tree.bag, x), Conditioner(freq, minCount, sort))
  {
    var counted := CountPass(tree, x);
    sub := FillPass(tree, x, counted, minCount, sort);
    freq := counted;
  }

  // ---- single paths ----------------------------------------------------------------------

  /** The tree is one chain of two or more nodes. */
  ghost predicate SinglePath(m: NodeMap, c: Path) {
    |c| >= 2 && forall p {:trigger p in m} :: p in m <==> p <= c
  }

  /** Every node of the tree lies on the way to p or below it. */
  ghost predicate Along(m: NodeMap, p: Path) {
    forall q {:trigger q in m} :: q in m ==> q <= p || p <= q
  }

  /** FPNode::HasSinglePath. */
  method HasSinglePath(n: FPNode, ghost m: NodeMap) returns (single: bool, ghost c: Path)
    requires PathsOk(m) && ParentsOk(m) && ChildrenOk(m) && Holds(m, n) && Along(m, n.path)
    ensures single ==> SinglePath(m, c)
    ensures !single ==> forall d :: !SinglePath(m, d)
    decreases |set r | r in m && n.path <= r|
  {
    hide PathsOk, ParentsOk, ChildrenOk, Along, SinglePath;
    var top := TopLeaf(n, m);
    if top {
      LoneTop(n, m);
      return false, [];
    }
    if n.children == map[] {
      BottomOfChain(n, m);
      return true, n.path;
    } else if |n.children| == 1 {
      var i :| i in n.children;
      var child := n.children[i];
      DownTheChain(n, i, m);
      Fewer(m, n.path, child.path);
      single, c := HasSinglePath(child, m);
    } else {
      Fork(n, m);
      return false, [];
    }
  }

  /** The first test of HasSinglePath: a childless root, or a childless only child of the root. */
  method TopLeaf(n: FPNode, ghost m: NodeMap) returns (top: bool)
    requires PathsOk(m) && ParentsOk(m) && Holds(m, n)
    ensures top <==> n.children == map[] && (n.path == [] || (|n.path| == 1 && [] in m && |m[[]].children| == 1))
  {
    assert m[n.path].parent == n.parent;
    if n.path != [] {
      assert m[n.path].parent != null;
      assert n.parent == m[Init(n.path)] && m[Init(n.path)].path == Init(n.path);
    }
    top := (n.parent == null || (n.parent.IsRoot() && |n.parent.children| == 1)) && |n.children| == 0;
  }

  lemma PrefixInTree(m: NodeMap, p: Path, k: nat)
    requires ParentsOk(m) && p in m && k <= |p|
    ensures p[..k] in m
    decreases |p|
  {
    if k == |p| {
      assert p[..k] == p;
    } else {
      assert m[p].parent != null;
      PrefixInTree(m, Init(p), k);
      assert Init(p)[..k] == p[..k];
    }
  }

  lemma LoneTop(n: FPNode, m: NodeMap)
    requires PathsOk(m) && ParentsOk(m) && ChildrenOk(m) && Holds(m, n) && Along(m, n.path)
    requires n.children == map[] && |n.path| <= 1
    ensures forall d :: !SinglePath(m, d)
  {
    var c := n.path;
    LeafHasNoChildren(m, c);
    forall d ensures !SinglePath(m, d) {
      assert SinglePath(m, d) ==> d in m && (d <= c || c <= d);
    }
  }

  lemma BottomOfChain(n: FPNode, m: NodeMap)
    requires PathsOk(m) && ParentsOk(m) && ChildrenOk(m) && Holds(m, n) && Along(m, n.path)
    requires n.children == map[] && !(n.path == [] || (|n.path| == 1 && [] in m && |m[[]].children| == 1))
    ensures SinglePath(m, n.path)
  {
    var c := n.path;
    LeafHasNoChildren(m, c);
    forall p | p <= c ensures p in m {
      PrefixInTree(m, c, |p|);
      assert p == c[..|p|];
    }
    if |c| == 1 {
      PrefixInTree(m, c, 0);
      assert c[..0] == [] && Snoc([], c[0]) == c;
      assert m[[]].path == [];
      var kids := m[[]].children;
      forall i ensures i in kids <==> i == c[0] {
        assert i in kids <==> Snoc([], i) in m;
        if Snoc([], i) in m {
          assert Snoc([], i) <= c || c <= Snoc([], i);
        }
      }
      OneKey(kids, c[0]);
    }
  }

  lemma OneKey<V>(kids: map<Item, V>, i: Item)
    requires forall j :: j in kids <==> j == i
    ensures |kids| == 1
  {
    assert kids.Keys == {i};
    assert |kids| == |kids.Keys|;
  }

  lemma TheOnlyKey<V>(kids: map<Item, V>, i: Item, j: Item)
    requires |kids| == 1 && i in kids && j in kids
    ensures i == j
  {
    assert {i, j} <= kids.Keys;
    assert |kids.Keys - {i, j}| == |kids.Keys| - |{i, j}|;
    assert |kids| == |kids.Keys|;
  }

  lemma DownTheChain(n: FPNode, i: Item, m: NodeMap)
    requires PathsOk(m) && ParentsOk(m) && ChildrenOk(m) && Holds(m, n) && Along(m, n.path)
    requires |n.children| == 1 && i in n.children
    ensures var child := n.children[i];
      Holds(m, child) && child.path == Snoc(n.path, i) && Along(m, child.path)
  {
    assert m[n.path] == n && Snoc(n.path, i) in m;
    var child := n.children[i];
    assert m[Snoc(n.path, i)] == child;
    forall q | q in m ensures q <= child.path || child.path <= q {
      if q <= n.path {
        assert q == n.path[..|q|] == child.path[..|q|];
      } else if q != n.path {
        StepTowards(m, n.path, q);
        var j := q[|n.path|];
        assert Snoc(n.path, j) in m;
        TheOnlyKey(n.children, i, j);
        assert child.path == q[..|n.path| + 1];
      }
    }
  }

  lemma Fork(n: FPNode, m: NodeMap)
    requires ChildrenOk(m) && Holds(m, n) && n.children != map[] && |n.children| != 1
    ensures forall d :: !SinglePath(m, d)
  {
    var i :| i in n.children;
    if forall j :: j in n.children ==> j == i {
      OneKey(n.children, i);
    }
    var j :| j in n.children && j != i;
    var p := n.path;
    assert m[p] == n && Snoc(p, i) in m && Snoc(p, j) in m;
    forall d ensures !SinglePath(m, d) {
      assert SinglePath(m, d) ==> Snoc(p, i) <= d && Snoc(p, j) <= d;
      assert Snoc(p, i) <= d ==> d[|p|] == i;
      assert Snoc(p, j) <= d ==> d[|p|] == j;
    }
  }

  // ---- mining ----------------------------------------------------------------------------

  /** The stream patterns are written to. */
  class PatternOutput {
    var written: seq<Path>

    constructor ()
      ensures written == []
    {
      written := [];
    }

    method Write(pattern: Path)
      modifies this
      ensures written == old(written) + [pattern]
    {
      written := written + [pattern];
    }
  }

  /** The shared vector that holds the pattern so far. */
  class Pattern {
    var items: Path

    constructor ()
      ensures items == []
    {
      items := [];
    }

    method PushBack(i: Item)
      modifies this
      ensures items == old(items) + [i]
    {
      items := items + [i];
    }

    method PopBack()
      requires items != []
      modifies this
      ensures items == old(items)[..|old(items)| - 1]
    {
      items := items[..|items| - 1];
    }
  }

  /** All sub-paths of the chain from n on, each with the pattern in front. */
  method AddPatternsInPath(n: FPNode, out: PatternOutput, pattern: Pattern, ghost m: NodeMap, ghost c: Path) returns (ghost rs: seq<Path>)
    requires PathsOk(m) && ChildrenOk(m) && Holds(m, n) && n.path != []
    requires SinglePath(m, c) && NoDuplicates(c) && n.path <= c
    modifies out, pattern
    ensures pattern.items == old(pattern.items)
    ensures out.written == old(out.written) + Prepend(old(pattern.items), rs)
    ensures Enumerates(rs, SubsetFamily(c[|n.path| - 1..]))
    decreases |c| - |n.path|
  {
    hide ChildrenOk, SinglePath, NoDuplicates, Enumerates, SubsetFamily, Prepend;
    ghost var d, p := |n.path| - 1, pattern.items;
    ItemOf(n, m, c);
    WriteWith(n.item, out, pattern);
    if n.children == map[] {
      EndOfChain(n, m, c);
      LastSubPath(c[d..]);
      PrependOne(p, n.item);
      return [[n.item]];
    }
    var i :| i in n.children;
    var child := n.children[i];
    NextOnChain(n, i, m, c);
    ghost var without := AddPatternsInPath(child, out, pattern, m, c);
    pattern.PushBack(n.item);
    ghost var longer := AddPatternsInPath(child, out, pattern, m, c);
    pattern.PopBack();
    rs := [[n.item]] + without + Prepend([n.item], longer);
    WrittenSubPaths(p, n.item, without, longer);
    SuffixDistinct(c, d);
    SubPathPatterns(c[d..], without, longer);
  }

  /** The pattern with one more item is written; the shared vector is as before. */
  method WriteWith(item: Item, out: PatternOutput, pattern: Pattern)
    modifies out, pattern
    ensures pattern.items == old(pattern.items) && out.written == old(out.written) + [old(pattern.items) + [item]]
  {
    pattern.PushBack(item);
    out.Write(pattern.items);
    pattern.PopBack();
  }

  lemma ItemOf(n: FPNode, m: NodeMap, c: Path)
    requires PathsOk(m) && Holds(m, n) && n.path != [] && n.path <= c
    ensures n.item > 0
    ensures c[|n.path| - 1..] == [n.item as Item] + c[|n.path|..]
  {
    assert m[n.path].item == Last(n.path);
  }

  lemma SuffixDistinct(c: Path, k: nat)
    requires NoDuplicates(c) && k <= |c|
    ensures NoDuplicates(c[k..])
  {
  }

  lemma PrependOne(p: Path, x: Item)
    ensures Prepend(p, [[x]]) == [p + [x]]
  {
  }

  lemma WrittenSubPaths(p: Path, x: Item, without: seq<Path>, longer: seq<Path>)
    ensures [p + [x]] + Prepend(p, without) + Prepend(p + [x], longer) == Prepend(p, [[x]] + without + Prepend([x], longer))
  {
    PrependOne(p, x);
    PrependTwice(p, x, longer);
    PrependConcat(p, [[x]] + without, Prepend([x], longer));
    PrependConcat(p, [[x]], without);
  }

  lemma EndOfChain(n: FPNode, m: NodeMap, c: Path)
    requires ChildrenOk(m) && Holds(m, n) && SinglePath(m, c) && n.path <= c && n.children == map[]
    ensures n.path == c
  {
    var p, kids := n.path, n.children;
    assert m[p] == n;
    var i := if p != c then c[|p|] else 1;
    assert p != c ==> Snoc(p, i) <= c && Snoc(p, i) in m;
    assert p != c ==> i in kids;
  }

  lemma NextOnChain(n: FPNode, i: Item, m: NodeMap, c: Path)
    requires PathsOk(m) && ChildrenOk(m) && Holds(m, n) && SinglePath(m, c) && i in n.children
    ensures var child := n.children[i]; Holds(m, child) && child.path == Snoc(n.path, i) <= c
  {
    assert m[n.path] == n && Snoc(n.path, i) in m;
  }

  lemma LastSubPath(c: Path)
    requires |c| == 1
    ensures Enumerates([[c[0]]], SubsetFamily(c))
  {
    forall s ensures SubsetFamily(c)(s) <==> s == {c[0]} {
      assert Items(c) == {c[0]};
      if s != {} && s <= {c[0]} {
        var y :| y in s;
        assert s == {c[0]};
      }
    }
    EnumeratesOne(c[0], SubsetFamily(c));
  }

  /** The data set's count of an item, as far as it decides which of the tree's items are mined. */
  ghost predicate IndexAgrees(b: Bag, countOf: Item -> nat, minCount: nat) {
    forall i: Item :: ItemFreq(b, i) > 0 ==> (countOf(i) >= minCount <==> ItemFreq(b, i) >= minCount)
  }

  /** The bag of a tree that is one chain. */
  ghost predicate ChainBag(b: Bag, c: Path) {
    |c| >= 2 && forall p {:trigger Cnt(b, p)} :: p != [] ==> (Cnt(b, p) > 0 <==> p <= c)
  }

  /** What FPGrowth writes: all sub-paths of a chain, otherwise the frequent itemsets. */
  ghost predicate Mined(rs: seq<Path>, b: Bag, minCount: nat) {
    && (forall c :: ChainBag(b, c) ==> Enumerates(rs, SubsetFamily(c)))
    && ((forall c :: !ChainBag(b, c)) ==> Enumerates(rs, FrequentFamily(b, minCount)))
  }

  method FPGrowth(tree: FPTree, out: PatternOutput, pattern: Pattern, countOf: Item -> nat, minCount: nat,
                  sort: Sorting) returns (ghost rs: seq<Path>)
    requires tree.Valid() && Agree(tree.bag) && Dependable(sort)
    requires minCount > 0 && IndexAgrees(tree.bag, countOf, minCount)
    modifies out, pattern
    ensures pattern.items == old(pattern.items)
    ensures out.written == old(out.written) + Prepend(old(pattern.items), rs)
    ensures Mined(rs, tree.bag, minCount)
    decreases |tree.headerTable|, 2
  {
    hide FPTree.Valid, PathsOk, ParentsOk, ChildrenOk, SinglePath, Mined, Prepend, Agree, Dependable, NoDuplicates;
    WholeTree(tree);
    var single;
    ghost var c;
    single, c := HasSinglePath(tree.root, tree.nodes);
    if single {
      TopOfChain(tree, c);
      if tree.root.children != map[] {
        var i :| i in tree.root.children;
        NextOnChain(tree.root, i, tree.nodes, c);
        rs := AddPatternsInPath(tree.root.children[i], out, pattern, tree.nodes, c);
      }
      ChainIsMined(tree, c, rs, minCount);
    } else {
      rs := MineItems(tree, out, pattern, countOf, minCount, sort);
      ItemsAreMined(tree, rs, minCount);
    }
  }

  lemma WholeTree(tree: FPTree)
    requires tree.Valid()
    ensures PathsOk(tree.nodes) && ParentsOk(tree.nodes) && ChildrenOk(tree.nodes)
    ensures Holds(tree.nodes, tree.root) && tree.root.path == [] && Along(tree.nodes, [])
  {
  }

  lemma TopOfChain(tree: FPTree, c: Path)
    requires tree.Valid() && SinglePath(tree.nodes, c) && Agree(tree.bag)
    ensures NoDuplicates(c) && tree.root.children != map[]
    ensures ChainBag(tree.bag, c)
  {
    assert c in tree.nodes;
    CntPositive(tree.bag, c);
    var t :| t in tree.bag && c <= t;
    assert Snoc([], c[0]) == c[..1] && c[..1] <= c;
    assert Snoc([], c[0]) in tree.nodes;
    assert c[0] in tree.nodes[[]].children;
  }

  lemma ChainIsUnique(b: Bag, c: Path, d: Path)
    requires ChainBag(b, c) && ChainBag(b, d)
    ensures c == d
  {
    assert Cnt(b, c) > 0 && Cnt(b, d) > 0;
  }

  lemma ChainIsMined(tree: FPTree, c: Path, rs: seq<Path>, minCount: nat)
    requires ChainBag(tree.bag, c) && Enumerates(rs, SubsetFamily(c))
    ensures Mined(rs, tree.bag, minCount)
  {
    forall d | ChainBag(tree.bag, d) ensures d == c {
      ChainIsUnique(tree.bag, c, d);
    }
  }

  lemma ItemsAreMined(tree: FPTree, rs: seq<Path>, minCount: nat)
    requires tree.Valid() && forall c :: !SinglePath(tree.nodes, c)
    requires Enumerates(rs, FrequentFamily(tree.bag, minCount))
    ensures Mined(rs, tree.bag, minCount)
  {
    forall c ensures !ChainBag(tree.bag, c) {
      if ChainBag(tree.bag, c) { ChainIsSingle(tree, c); }
    }
  }

  lemma ChainIsSingle(tree: FPTree, c: Path)
    requires tree.Valid() && ChainBag(tree.bag, c)
    ensures SinglePath(tree.nodes, c)
  {
    forall p ensures p in tree.nodes <==> p <= c {
      assert p != [] ==> (p in tree.nodes <==> Cnt(tree.bag, p) > 0);
    }
  }

  /** The loop over the header table. */
  method MineItems(tree: FPTree, out: PatternOutput, pattern: Pattern, countOf: Item -> nat, minCount: nat,
                   sort: Sorting) returns (ghost rs: seq<Path>)
    requires tree.Valid() && Agree(tree.bag) && Dependable(sort)
    requires minCount > 0 && IndexAgrees(tree.bag, countOf, minCount)
    modifies out, pattern
    ensures pattern.items == old(pattern.items)
    ensures out.written == old(out.written) + Prepend(old(pattern.items), rs)
    ensures Enumerates(rs, FrequentFamily(tree.bag, minCount))
    decreases |tree.headerTable|, 1
  {
    hide FPTree.Valid, Prepend, Agree, Dependable, Enumerates, IndexAgrees;
    var rest := tree.headerTable.Keys;
    ghost var done: set<Item>, b, keys := {}, tree.bag, rest;
    rs := [];
    NoneDone(b, minCount);
    NothingWritten(pattern.items, out.written);
    while rest != {}
      invariant rest <= keys && done == keys - rest
      invariant pattern.items == old(pattern.items)
      invariant out.written == old(out.written) + Prepend(old(pattern.items), rs)
      invariant Enumerates(rs, DoneFamily(b, minCount, done))
      decreases |rest|
    {
      var item := NextKey(rest);
      ghost var more := MineItem(tree, item, out, pattern, countOf, minCount, sort);
      DoneWith(rs, more, b, minCount, done, item);
      WrittenMore(old(out.written), pattern.items, rs, more);
      rs, rest, done := rs + more, rest - {item}, done + {item};
    }
    HeaderHasAll(tree);
    DoneWithAll(rs, b, minCount, done);
  }

  lemma WrittenMore(written: seq<Path>, p: Path, rs: seq<Path>, more: seq<Path>)
    ensures written + Prepend(p, rs) + Prepend(p, more) == written + Prepend(p, rs + more)
  {
    PrependConcat(p, rs, more);
  }

  /** The item map's iterator goes by increasing item id. */
  method NextKey(rest: set<Item>) returns (item: Item)
    requires rest != {}
    ensures item in rest && forall j :: j in rest ==> item <= j
  {
    ghost var least := SmallestItem(rest);
    item :| item in rest && forall j :: j in rest ==> item <= j;
  }

  lemma NoneDone(b: Bag, minCount: nat)
    ensures Enumerates([], DoneFamily(b, minCount, {}))
  {
    EnumeratesNothing(DoneFamily(b, minCount, {}));
  }

  lemma NothingWritten(p: Path, written: seq<Path>)
    ensures written == written + Prepend(p, [])
  {
  }

  lemma {:induction false} SmallestItem(s: set<Item>) returns (least: Item)
    requires s != {}
    ensures least in s && forall j :: j in s ==> least <= j
    decreases |s|
  {
    var i :| i in s;
    least := i;
    if s != {i} {
      var k := SmallestItem(s - {i});
      least := if i <= k then i else k;
      forall j | j in s ensures least <= j {
        if j != i { assert j in s - {i}; }
      }
    }
  }

  /** The header table has exactly the items of the tree's transactions. */
  lemma HeaderHasAll(tree: FPTree)
    requires tree.Valid()
    ensures forall i: Item :: ItemFreq(tree.bag, i) > 0 <==> i in tree.headerTable
  {
    forall i: Item ensures ItemFreq(tree.bag, i) > 0 <==> i in tree.headerTable {
      HeaderHas(tree, i);
    }
  }

  lemma HeaderHas(tree: FPTree, i: Item)
    requires tree.Valid()
    ensures ItemFreq(tree.bag, i) > 0 <==> i in tree.headerTable
  {
    hide Sum, Occurrences, FPTree.Valid;
    if ItemFreq(tree.bag, i) > 0 {
      var p := OccursOnNode(tree, i);
      ShapeOf(tree);
      OnHeaderList(tree, i, p);
    }
    if i in tree.headerTable {
      HeaderOccurs(tree, i);
    }
  }

  lemma OccursOnNode(tree: FPTree, i: Item) returns (p: Path)
    requires tree.Valid() && ItemFreq(tree.bag, i) > 0
    ensures p in tree.nodes && p != [] && Last(p) == i
  {
    hide Sum, FPTree.Struct, CountsOk, FreqOk;
    SumPositive(tree.bag, Occurrences(i));
    var t: Path :| t in tree.bag && Occurrences(i)(t) > 0;
    assert i in multiset(t);
    var k :| 0 <= k < |t| && t[k] == i;
    p := t[..k + 1];
    CntPositive(tree.bag, p);
  }

  lemma HeaderOccurs(tree: FPTree, i: Item)
    requires tree.Valid() && i in tree.headerTable
    ensures ItemFreq(tree.bag, i) > 0
  {
    hide Sum, Occurrences, ChildrenOk, ParentsOk, FPTree.LeavesOk, CountsOk, FreqOk, BirthsBelow;
    var h := tree.headerTable[i];
    assert tree.nodes[h.path] == h;
    CntPositive(tree.bag, h.path);
    var t :| t in tree.bag && h.path <= t;
    assert t[|h.path| - 1] == i;
    OnPathOccurs(tree.bag, t, i);
  }

  /** One round of that loop. */
  method MineItem(tree: FPTree, item: Item, out: PatternOutput, pattern: Pattern, countOf: Item -> nat, minCount: nat,
                  sort: Sorting) returns (ghost rs: seq<Path>)
    requires tree.Valid() && Agree(tree.bag) && Dependable(sort)
    requires minCount > 0 && IndexAgrees(tree.bag, countOf, minCount) && item in tree.headerTable
    modifies out, pattern
    ensures pattern.items == old(pattern.items)
    ensures out.written == old(out.written) + Prepend(old(pattern.items), rs)
    ensures Enumerates(rs, DeepestFamily(tree.bag, minCount, item))
    decreases |tree.headerTable|, 0
  {
    hide FPTree.Valid, Prepend, Agree, Dependable, Enumerates, FreqOk, Conditioner, Mined;
    ghost var p, b := pattern.items, tree.bag;
    HeaderHasAll(tree);
    if countOf(item) < minCount {
      InfrequentItem(b, minCount, item);
      NothingWritten(p, out.written);
      return [];
    }
    assert AllDistinct(b) by { AgreeIsDistinct(b); }
    var sub;
    ghost var freq;
    sub, freq := ConstructConditionalTree(tree, item, minCount, sort);
    SubtreeIsSmaller(tree, sub, item, freq, countOf, minCount, sort);
    ghost var more := MineSubtree(sub, item, out, pattern, countOf, minCount, sort);
    rs := [[item]] + Prepend([item], more);
    DependableRearranges(sort);
    ConditionalPatterns(b, minCount, item, freq, sort, more);
  }

  /** The pattern with the new item, and what recursion on the item's conditional tree adds to it. */
  method MineSubtree(sub: FPTree, item: Item, out: PatternOutput, pattern: Pattern, countOf: Item -> nat, minCount: nat,
                     sort: Sorting) returns (ghost more: seq<Path>)
    requires sub.Valid() && Agree(sub.bag) && Dependable(sort)
    requires minCount > 0 && IndexAgrees(sub.bag, countOf, minCount) && AllFrequent(sub.bag, minCount)
    modifies out, pattern
    ensures pattern.items == old(pattern.items)
    ensures out.written == old(out.written) + Prepend(old(pattern.items), [[item]] + Prepend([item], more))
    ensures Enumerates(more, FrequentFamily(sub.bag, minCount))
    decreases |sub.headerTable|, 3
  {
    hide FPTree.Valid, Prepend, Agree, Dependable, Enumerates, Mined, IndexAgrees, AllFrequent;
    ghost var p, b := pattern.items, sub.bag;
    var empty := sub.root.IsLeaf();
    more := [];
    if empty {
      EmptyTreeIsMined(sub, minCount);
    }
    pattern.PushBack(item);
    out.Write(pattern.items);
    if !empty {
      more := FPGrowth(sub, out, pattern, countOf, minCount, sort);
    } else {
      NothingWritten(pattern.items, out.written);
    }
    pattern.PopBack();
    MinedTogether(b, minCount, more);
    WrittenItem(old(out.written), p, item, more);
  }

  lemma WrittenItem(written: seq<Path>, p: Path, x: Item, more: seq<Path>)
    ensures written + [p + [x]] + Prepend(p + [x], more) == written + Prepend(p, [[x]] + Prepend([x], more))
  {
    PrependOne(p, x);
    PrependTwice(p, x, more);
    PrependConcat(p, [[x]], Prepend([x], more));
  }

  ghost predicate AllFrequent(b: Bag, minCount: nat) {
    forall i: Item :: ItemFreq(b, i) > 0 ==> ItemFreq(b, i) >= minCount
  }

  /** The conditional tree meets FPGrowth's precondition again, without item x. */
  lemma SubtreeIsSmaller(tree: FPTree, sub: FPTree, x: Item, freq: map<Item, nat>, countOf: Item -> nat, minCount: nat,
                         sort: Sorting)
    requires tree.Valid() && sub.Valid() && Agree(tree.bag) && Dependable(sort)
    requires minCount > 0 && IndexAgrees(tree.bag, countOf, minCount) && x in tree.headerTable
    requires FreqOk(freq, Project(tree.bag, x))
    requires sub.bag == MapBag(Project(tree.bag, x), Conditioner(freq, minCount, sort))
    ensures Agree(sub.bag)
    ensures IndexAgrees(sub.bag, countOf, minCount) && AllFrequent(sub.bag, minCount)
    ensures |sub.headerTable| < |tree.headerTable|
  {
    hide FPTree.Valid, Agree, Dependable, Conditioner, FreqOk, Project;
    assert Rearranges(sort) by { DependableRearranges(sort); }
    ConditionalAgrees(tree.bag, x, freq, minCount, sort);
    HeaderHasAll(tree);
    HeaderHasAll(sub);
    forall i: Item
      ensures ItemFreq(sub.bag, i) > 0 ==> ItemFreq(sub.bag, i) >= minCount && countOf(i) >= minCount && ItemFreq(tree.bag, i) > 0
      ensures ItemFreq(sub.bag, x) == 0
    {
      ConditionalItemsAreFrequent(tree.bag, x, i, freq, minCount, sort);
      ConditionalItemsAreFrequent(tree.bag, x, x, freq, minCount, sort);
      ProjectFreqBound(tree.bag, x, i);
      ProjectDropsItem(tree.bag, x);
    }
    assert ItemFreq(sub.bag, x) == 0;
    FewerKeys(sub.headerTable, tree.headerTable, x);
  }

  lemma FewerKeys(sub: map<Item, FPNode>, header: map<Item, FPNode>, x: Item)
    requires x in header && x !in sub && forall i :: i in sub ==> i in header
    ensures |sub| < |header|
  {
    assert sub.Keys <= header.Keys - {x};
    CardinalityMonotone(sub.Keys, header.Keys - {x});
    assert |sub.Keys| == |sub| && |header.Keys| == |header|;
  }

  lemma {:induction false} CardinalityMonotone(s: set<Item>, t: set<Item>)
    requires s <= t
    ensures |s| <= |t|
  {
    assert t == s + (t - s);
  }

  lemma EmptyTreeIsMined(tree: FPTree, minCount: nat)
    requires tree.Valid() && tree.root.children == map[] && minCount > 0
    ensures Mined([], tree.bag, minCount)
  {
    var nodes := tree.nodes;
    assert nodes[[]] == tree.root;
    LeafHasNoChildren(nodes, []);
    forall t | t in tree.bag ensures t == [] {
      CntPositive(tree.bag, t);
      assert t != [] ==> t in nodes;
    }
    forall c ensures !ChainBag(tree.bag, c) {
      if ChainBag(tree.bag, c) {
        CntPositive(tree.bag, c);
      }
    }
    forall s ensures !Frequent(tree.bag, minCount, s) {
      if Frequent(tree.bag, minCount, s) { FrequentMeansItems(tree.bag, minCount, s); }
    }
    EnumeratesNothing(FrequentFamily(tree.bag, minCount));
  }

  lemma FrequentMeansItems(b: Bag, minCount: nat, s: set<Item>)
    requires Frequent(b, minCount, s) && minCount > 0
    ensures exists t :: t in b && t != []
  {
    var t := Supporter(b, s);
    var i :| i in s;
    assert i in t;
  }

  // ---- exactness -------------------------------------------------------------------------

  /** In a chain of frequent items every sub-path is frequent. */
  lemma ChainOfFrequent(b: Bag, c: Path, minCount: nat, s: set<Item>)
    requires ChainBag(b, c) && Agree(b) && minCount > 0
    requires forall i :: i in c ==> ItemFreq(b, i) >= minCount
    ensures SubsetFamily(c)(s) <==> Frequent(b, minCount, s)
  {
    hide StandsAbove, Alike;
    ChainIsDistinct(b, c);
    forall t | t in b ensures t <= c {
      if t != [] { CntPositive(b, t); }
    }
    if s != {} && s <= Items(c) {
      var x := DeepestIn(c, s);
      forall t | t in b ensures Contains(s)(t) == Contains({x})(t) {
        HasDeepest(c, t, s, x);
      }
      SumCongruence(b, Contains(s), Contains({x}));
      FreqIsSupport(b, x);
    }
    if Frequent(b, minCount, s) {
      var t := Supporter(b, s);
      assert t == c[..|t|];
    }
  }

  lemma ChainIsDistinct(b: Bag, c: Path)
    requires ChainBag(b, c) && AllDistinct(b)
    ensures NoDuplicates(c)
  {
    CntPositive(b, c);
    var t :| t in b && c <= t;
    assert c == t[..|c|];
  }

  lemma HasDeepest(c: Path, t: Path, s: set<Item>, x: Item)
    requires NoDuplicates(c) && t <= c
    requires x in s && s <= Items(c) && forall i :: i in s && i != x ==> StandsAbove(c, i, x)
    ensures Contains(s)(t) == Contains({x})(t)
  {
    assert t == c[..|t|];
    if x in t {
      forall i | i in s ensures i in t {
        if i != x {
          AboveInPrefix(c, |t|, i, x);
          AboveInside(t, i, x);
        }
      }
    } else {
      assert x in s && x in {x};
    }
  }

  lemma AgreeIsDistinct(b: Bag)
    requires Agree(b)
    ensures AllDistinct(b)
  {
  }

  lemma DependableRearranges(sort: Sorting)
    requires Dependable(sort)
    ensures Rearranges(sort)
  {
  }

  /** FPGrowth writes exactly the frequent itemsets when the tree's items are all frequent. */
  lemma MinedTogether(b: Bag, minCount: nat, rs: seq<Path>)
    requires Agree(b) && minCount > 0
    requires Mined(rs, b, minCount) && AllFrequent(b, minCount)
    ensures Enumerates(rs, FrequentFamily(b, minCount))
  {
    if c :| ChainBag(b, c) {
      ChainItemsOccur(b, c);
      forall s ensures SubsetFamily(c)(s) <==> FrequentFamily(b, minCount)(s) {
        ChainOfFrequent(b, c, minCount, s);
      }
      EnumeratesSame(rs, SubsetFamily(c), FrequentFamily(b, minCount));
    }
  }

  lemma ChainItemsOccur(b: Bag, c: Path)
    requires ChainBag(b, c)
    ensures forall i :: i in c ==> ItemFreq(b, i) > 0
  {
    CntPositive(b, c);
    var t :| t in b && c <= t;
    forall i | i in c ensures ItemFreq(b, i) > 0 {
      var k :| 0 <= k < |c| && c[k] == i;
      assert t[k] == i;
      OnPathOccurs(b, t, i);
    }
  }

  /**
   * FPGrowth is exact on a tree if and only if the tree is no chain of two or more nodes, or all
   * items of that chain are frequent: the single-path shortcut makes no minCount test.
   */
  lemma ExactIff(b: Bag, minCount: nat, rs: seq<Path>)
    requires Agree(b) && minCount > 0 && Mined(rs, b, minCount)
    ensures Enumerates(rs, FrequentFamily(b, minCount)) <==>
      forall c :: ChainBag(b, c) ==> forall i :: i in c ==> ItemFreq(b, i) >= minCount
  {
    if forall c :: ChainBag(b, c) ==> forall i :: i in c ==> ItemFreq(b, i) >= minCount {
      if c :| ChainBag(b, c) {
        forall s ensures SubsetFamily(c)(s) <==> FrequentFamily(b, minCount)(s) {
          ChainOfFrequent(b, c, minCount, s);
        }
        EnumeratesSame(rs, SubsetFamily(c), FrequentFamily(b, minCount));
      }
    }
    if Enumerates(rs, FrequentFamily(b, minCount)) {
      forall c, i | ChainBag(b, c) && i in c ensures ItemFreq(b, i) >= minCount {
        assert i in Items(c) && {i} <= Items(c);
        assert SubsetFamily(c)({i});
        assert Writes(rs, {i});
        var k :| 0 <= k < |rs| && Items(rs[k]) == {i};
        assert FrequentFamily(b, minCount)(Items(rs[k]));
        FreqIsSupport(b, i);
      }
    }
  }

  /** The shortcut at fault: two transactions, one item below minCount, and its itemsets are written all the same. */
  lemma ShortcutFails(b: Bag, rs: seq<Path>)
    requires b == multiset{[1, 2], [1]} && Mined(rs, b, 2)
    ensures !Enumerates(rs, FrequentFamily(b, 2))
  {
    hide Mined, Enumerates, Cnt, Sum, Ascending, Agree, Occurrences;
    var s: Path, t: Path := [1, 2], [1];
    forall p: Path | p != [] ensures Cnt(b, p) > 0 <==> p <= s {
      CntPositive(b, p);
      assert s in b && t <= s;
    }
    assert ChainBag(b, s);
    TwoOccurs(b, s, t);
    assert 2 in s;
    PairIsAscending(b);
    ExactIff(b, 2, rs);
  }

  lemma TwoOccurs(b: Bag, s: Path, t: Path)
    requires s == [1, 2] && t == [1] && b == multiset{s, t}
    ensures ItemFreq(b, 2) == 1
  {
    hide Sum;
    SumTwo(s, t, Occurrences(2));
    assert 2 !in multiset(t) && multiset(s)[2] == 1;
  }

  lemma PairIsAscending(b: Bag)
    requires b == multiset{[1, 2], [1]}
    ensures Agree(b)
  {
    AppearanceOrderIsStrictTotal();
    assert Consistent(b, AppearanceOrder());
    ConsistentAgrees(b, AppearanceOrder());
  }

  /** MineFPTree: one run into a fresh output. */
  method MineFPTree(tree: FPTree, countOf: Item -> nat, minCount: nat, sort: Sorting) returns (out: PatternOutput)
    requires tree.Valid() && Agree(tree.bag) && Dependable(sort)
    requires minCount > 0 && forall i: Item :: ItemFreq(tree.bag, i) > 0 ==> countOf(i) == ItemFreq(tree.bag, i)
    ensures fresh(out) && Mined(out.written, tree.bag, minCount)
    ensures Enumerates(out.written, FrequentFamily(tree.bag, minCount)) <==>
      forall c :: ChainBag(tree.bag, c) ==> forall i :: i in c ==> ItemFreq(tree.bag, i) >= minCount
  {
    hide FPTree.Valid, Agree, Dependable, Mined, Enumerates, ChainBag;
    ghost var b := tree.bag;
    out := new PatternOutput();
    var pattern := new Pattern();
    ghost var rs := FPGrowth(tree, out, pattern, countOf, minCount, sort);
    PrependEmpty(rs);
    ExactIff(b, minCount, rs);
  }

  lemma {:induction false} PrependEmpty(rs: seq<Path>)
    ensures [] + Prepend([], rs) == rs
  {
    assert [] + Prepend([], rs) == Prepend([], rs);
    forall k | 0 <= k < |rs| ensures [] + rs[k] == rs[k] {}
  }
}
