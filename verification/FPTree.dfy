/** The mutable prefix tree with its side structures (src/FPNode.h, src/FPNode.cpp). */
module FPTrees {
  import opened Orders
  import opened Bags
  import opened Lists

  function Snoc(p: Path, i: Item): Path {
    p + [i]
  }

  function Init(p: Path): Path
    requires p != []
  {
    p[..|p| - 1]
  }

  function Last(p: Path): Item
    requires p != []
  {
    p[|p| - 1]
  }

  class FPNode {
    /** 0 in the root. */
    const item: int
    var count: nat
    var children: map<Item, FPNode>

    /** Neighbours in the header table's list of this item's nodes. */
    var next: FPNode?
    var prev: FPNode?

    const parent: FPNode?
    const depth: nat

    /** Token in the tree's leaf list; null while the node is not a leaf. */
    var leafToken: ListNode?<FPNode>

    /** Items from the root down to this node, and its birth number: newer nodes have larger ones. */
    ghost const path: Path
    ghost const birth: nat

    constructor Root()
      ensures item == 0 && count == 0 && children == map[] && next == null && prev == null
      ensures parent == null && depth == 0 && leafToken == null && path == [] && birth == 0
    {
      item, count, children, next, prev := 0, 0, map[], null, null;
      parent, depth, leafToken, path := null, 0, null, [];
      birth := 0;
    }

    constructor Data(i: Item, p: FPNode, ghost clock: nat)
      ensures item == i && count == 0 && children == map[] && next == null && prev == null
      ensures parent == p && depth == p.depth + 1 && leafToken == null
      ensures path == Snoc(p.path, i) && birth == clock
    {
      item, count, children, next, prev := i, 0, map[], null, null;
      parent, depth, leafToken, path := p, p.depth + 1, null, Snoc(p.path, i);
      birth := clock;
    }

    predicate IsRoot() {
      item == 0
    }

    predicate IsLeaf()
      reads `children
    {
      children == map[]
    }
  }

  lemma SnocParts(p: Path, i: Item)
    ensures Init(Snoc(p, i)) == p && Last(Snoc(p, i)) == i && Snoc(p, i) != []
  {
  }

  lemma PathStep(base: Path, items: Path, k: nat)
    requires k < |items|
    ensures Snoc(base + items[..k], items[k]) == base + items[..k + 1]
    ensures base + items[..k + 1] <= base + items
  {
    assert items[..k + 1] == items[..k] + [items[k]];
    assert base + items == base + items[..k + 1] + items[k + 1..];
  }

  lemma InitLast(p: Path)
    requires p != []
    ensures Snoc(Init(p), Last(p)) == p
  {
  }

  type NodeMap = map<Path, FPNode>

  ghost predicate Holds(m: NodeMap, n: FPNode) {
    n.path in m && m[n.path] == n
  }

  /** Every node hangs under its own path. */
  ghost predicate PathsOk(m: NodeMap) {
    forall p {:trigger m[p]} :: p in m ==>
      && m[p].path == p && m[p].depth == |p|
      && m[p].item == (if p == [] then 0 else Last(p))
  }

  ghost predicate ParentsOk(m: NodeMap) {
    forall p {:trigger m[p].parent} :: p in m ==>
      if p == [] then m[p].parent == null
      else Init(p) in m && m[p].parent == m[Init(p)]
  }

  ghost predicate BirthsBelow(m: NodeMap, clock: nat) {
    forall p {:trigger m[p]} :: p in m ==> m[p].birth < clock
  }

  /** Nodes were only added. */
  ghost predicate GrownFrom(m: NodeMap, before: NodeMap) {
    forall p {:trigger p in m} {:trigger p in before} :: p in before ==> p in m && m[p] == before[p]
  }

  lemma GrownSelf(m: NodeMap)
    ensures GrownFrom(m, m)
  {
  }

  lemma GrownMore(before: NodeMap, m: NodeMap, after: NodeMap, node: FPNode)
    requires GrownFrom(m, before) && (after == m || (node.path !in m && after == m[node.path := node]))
    ensures GrownFrom(after, before)
  {
  }

  lemma GrowBirths(m: NodeMap, node: FPNode)
    requires BirthsBelow(m, node.birth)
    ensures BirthsBelow(m[node.path := node], node.birth + 1)
  {
  }

  ghost predicate ChildrenOk(m: NodeMap)
    reads m.Values`children
  {
    && (forall p, i {:trigger i in m[p].children} {:trigger Snoc(p, i) in m} :: p in m ==>
          (i in m[p].children <==> Snoc(p, i) in m))
    && (forall p, i {:trigger m[p].children[i]} :: p in m && i in m[p].children ==>
          m[p].children[i] == m[Snoc(p, i)])
  }

  lemma GrowPaths(m: NodeMap, parent: FPNode, i: Item, node: FPNode)
    requires PathsOk(m) && ParentsOk(m) && Holds(m, parent)
    requires node.path == Snoc(parent.path, i) && node.path !in m && node.parent == parent
    requires node.item == i && node.depth == parent.depth + 1
    ensures PathsOk(m[node.path := node]) && ParentsOk(m[node.path := node])
  {
    var grown := m[node.path := node];
    SnocParts(parent.path, i);
    assert m[parent.path] == parent;
    forall p | p in grown && p != []
      ensures Init(p) in grown && grown[p].parent == grown[Init(p)]
    {
      if p != node.path {
        assert m[p].parent != null && Init(p) in m;
      }
    }
  }

  lemma ChildHasParent(m: NodeMap, p: Path, i: Item)
    requires ParentsOk(m)
    ensures Snoc(p, i) in m ==> p in m && m[Snoc(p, i)].parent == m[p]
  {
    SnocParts(p, i);
    if Snoc(p, i) in m {
      var q := Snoc(p, i);
      assert m[q].parent != null;
      assert Init(q) in m && m[q].parent == m[Init(q)];
    }
  }

  lemma GrowChildren(m: NodeMap, kids: map<Path, map<Item, FPNode>>, parent: FPNode, i: Item, node: FPNode)
    requires PathsOk(m) && ParentsOk(m) && Holds(m, parent)
    requires node.path == Snoc(parent.path, i) && node.path !in m && node.children == map[]
    requires kids.Keys == m.Keys && ChildrenAre(m, kids)
    requires forall p :: p in m ==>
      m[p].children == if p == parent.path then kids[p][i := node] else kids[p]
    ensures ChildrenOk(m[node.path := node])
  {
    var grown := m[node.path := node];
    SnocParts(parent.path, i);
    forall p, j | p in grown
      ensures j in grown[p].children <==> Snoc(p, j) in grown
      ensures j in grown[p].children ==> grown[p].children[j] == grown[Snoc(p, j)]
    {
      SnocParts(p, j);
      if p == node.path {
        ChildHasParent(m, p, j);
      } else {
        assert j in kids[p] <==> Snoc(p, j) in m;
      }
    }
  }

  /**
   * Between two states of the leaf list, an iterator's pending part lost no leaf that is still
   * listed, and the leaves added behind its back lie on the path p.
   */
  ghost predicate OnlyPasses(nodes0: seq<ListNode<FPNode>>, pending0: seq<ListNode<FPNode>>,
                             nodes1: seq<ListNode<FPNode>>, pending1: seq<ListNode<FPNode>>, p: Path) {
    forall t :: t in nodes1 && t !in pending1 ==> (t in nodes0 && t !in pending0) || t.val.path <= p
  }

  /** The nodes are exactly the non-empty prefixes of the bag's transactions. */
  ghost predicate DomainOk(m: NodeMap, b: Bag) {
    forall p {:trigger p in m} {:trigger Cnt(b, p)} :: p != [] ==> (p in m <==> Cnt(b, p) > 0)
  }

  /** A node counts the transactions that pass through it. */
  ghost predicate CountsOk(m: NodeMap, b: Bag)
    reads m.Values`count
  {
    forall p {:trigger m[p].count} {:trigger Cnt(b, p)} :: p in m && p != [] ==> m[p].count == Cnt(b, p)
  }

  lemma PathOf(m: NodeMap, p: Path)
    requires PathsOk(m) && p in m
    ensures m[p].path == p && m[p].item == if p == [] then 0 else Last(p)
  {
  }

  lemma UncountedChild(m: NodeMap, node: FPNode, b: Bag)
    requires CountsOk(m, b) && DomainOk(m, b) && node.path !in m && node.count == 0
    ensures CountsOk(m[node.path := node], b)
  {
  }

  lemma OwedFreq(b: Bag, owed: Path, c: nat, j: Item)
    requires owed != []
    ensures ItemFreq(b + Copies(owed, c), j) == ItemFreq(b + Copies(owed[1..], c), j) + if j == owed[0] then c else 0
  {
    FreqCopies(b, owed, c, j);
    FreqCopies(b, owed[1..], c, j);
    FirstOccurrence(owed, j, c);
  }

  /** ChildrenOk of the child maps as they were recorded in kids. */
  ghost predicate ChildrenAre(m: NodeMap, kids: map<Path, map<Item, FPNode>>) {
    && kids.Keys == m.Keys
    && (forall p, i {:trigger i in kids[p]} {:trigger Snoc(p, i) in m} :: p in m ==>
          (i in kids[p] <==> Snoc(p, i) in m))
    && (forall p, i {:trigger kids[p][i]} :: p in m && i in kids[p] ==> kids[p][i] == m[Snoc(p, i)])
  }

  lemma PassesNone(nodes: seq<ListNode<FPNode>>, pending: seq<ListNode<FPNode>>, p: Path)
    ensures OnlyPasses(nodes, pending, nodes, pending, p)
  {
  }

  lemma PassesBoth(nodes0: seq<ListNode<FPNode>>, pending0: seq<ListNode<FPNode>>, p: Path,
                   nodes1: seq<ListNode<FPNode>>, pending1: seq<ListNode<FPNode>>, q: Path,
                   nodes2: seq<ListNode<FPNode>>, pending2: seq<ListNode<FPNode>>, r: Path)
    requires OnlyPasses(nodes0, pending0, nodes1, pending1, p)
    requires OnlyPasses(nodes1, pending1, nodes2, pending2, q)
    requires p <= r && q <= r
    ensures OnlyPasses(nodes0, pending0, nodes2, pending2, r)
  {
  }

  /** The node's child map is what the tree m holds below it. */
  ghost predicate ChildrenUnder(node: FPNode, m: NodeMap)
    reads node`children
  {
    && (forall i {:trigger i in node.children} {:trigger Snoc(node.path, i) in m} :: i in node.children <==> Snoc(node.path, i) in m)
    && (forall i {:trigger node.children[i]} :: i in node.children ==> node.children[i] == m[Snoc(node.path, i)])
  }

  /** Below p the tree m is the unbranched path `rest`, with the same count c all along. */
  ghost predicate ChainBelow(p: Path, rest: Path, c: nat, m: NodeMap)
    reads m.Values`count
  {
    && (forall q {:trigger q in m} :: p <= q && p != q ==> (q in m <==> q <= p + rest))
    && (forall q {:trigger m[q].count} :: q in m && p <= q && p != q ==> m[q].count == c)
  }

  ghost function Pruned(m: NodeMap, p: Path): NodeMap {
    map q | q in m && !(p <= q) :: m[q]
  }

  lemma NothingOwed(freq: map<Item, nat>, b: Bag, c: nat)
    requires FreqOk(freq, b + Copies([], c))
    ensures FreqOk(freq, b)
  {
    forall i: Item ensures ItemFreq(b + Copies([], c), i) == ItemFreq(b, i) {
      FreqCopies(b, [], c, i);
    }
  }

  lemma NotHeld(node: FPNode, m: NodeMap)
    requires PathsOk(m[node.path := node]) && node.path !in m
    ensures PathsOk(m) && node !in m.Values
  {
    forall p | p in m ensures m[p].path == p {
      assert m[node.path := node][p] == m[p];
    }
    forall p | p in m
      ensures m[p].depth == |p| && m[p].item == (if p == [] then 0 else Last(p))
    {
      assert m[node.path := node][p] == m[p];
    }
  }

  lemma ShrinkChildren(m: NodeMap, kids: map<Path, map<Item, FPNode>>, parent: FPNode, i: Item)
    requires PathsOk(m) && ParentsOk(m) && Holds(m, parent)
    requires kids.Keys == m.Keys && ChildrenAre(m, kids)
    requires forall p :: p in m ==>
      m[p].children == if p == parent.path then kids[p] - {i} else kids[p]
    ensures ChildrenOk(m - {Snoc(parent.path, i)})
  {
    var q := Snoc(parent.path, i);
    SnocParts(parent.path, i);
    forall p, j | p in m - {q}
      ensures j in m[p].children <==> Snoc(p, j) in m - {q}
      ensures j in m[p].children ==> m[p].children[j] == (m - {q})[Snoc(p, j)]
    {
      SnocParts(p, j);
      assert j in kids[p] <==> Snoc(p, j) in m;
    }
  }

  ghost function Subtree(m: NodeMap, p: Path): set<FPNode> {
    set q | q in m && p <= q :: m[q]
  }

  lemma SubtreeMembers(m: NodeMap, p: Path)
    requires PathsOk(m)
    ensures forall q :: q in m ==> (m[q] in Subtree(m, p) <==> p <= q)
  {
    forall q | q in m && m[q] in Subtree(m, p) ensures p <= q {
      var r :| r in m && p <= r && m[r] == m[q];
      assert m[r].path == r && m[q].path == q;
    }
  }

  /** The nodes while c transactions `full` are being removed from a tree that will stand for b. */
  ghost predicate PartDomain(m: NodeMap, b: Bag, full: Path) {
    forall p {:trigger p in m} {:trigger Cnt(b, p)} :: p != [] ==> (p in m <==> Cnt(b, p) > 0 || p <= full)
  }

  /** Their counts, once the first k nodes of that path were decremented. */
  ghost predicate PartCounts(m: NodeMap, b: Bag, full: Path, k: nat, c: nat)
    reads m.Values`count
  {
    forall p {:trigger m[p].count} :: p in m && p != [] ==>
      m[p].count == Cnt(b, p) + if |p| > k && p <= full then c else 0
  }

  lemma InChildren(m: NodeMap, node: FPNode, i: Item)
    requires ChildrenOk(m) && Holds(m, node) && Snoc(node.path, i) in m
    ensures i in node.children
  {
    assert m[node.path] == node;
  }

  lemma PrunedApart(m: NodeMap, q: Path)
    requires PathsOk(m)
    ensures Pruned(m, q).Values !! Subtree(m, q)
  {
    SubtreeMembers(m, q);
  }

  lemma StartRemoving(m: NodeMap, freq: map<Item, nat>, bag: Bag, base: Path, items: Path, c: nat)
    requires DomainOk(m, bag) && CountsOk(m, bag) && FreqOk(freq, bag)
    requires base in m && c > 0 && bag[base + items] >= c
    ensures var b := Moved(bag, base + items, base, c);
      && PartDomain(m, b, base + items) && PartCounts(m, b, base + items, |base|, c)
      && FreqOk(freq, b + Copies(items, c))
      && (forall p :: p <= base && p != [] ==> Cnt(b, p) > 0)
  {
    var full := base + items;
    var b := Moved(bag, full, base, c);
    assert b[base] > 0;
    forall p ensures Cnt(bag, p) == Cnt(b, p) + if |p| > |base| && p <= full then c else 0 {
      ShortenedCnt(bag, base, items, c, p);
    }
    forall p | p <= base && p != [] ensures Cnt(b, p) > 0 {
      CntPositive(b, p);
    }
    forall p | p <= full && |p| <= |base| ensures p <= base {
      PrefixOfBase(p, base, items);
    }
    forall j: Item ensures ItemFreq(bag, j) == ItemFreq(b + Copies(items, c), j) {
      ShortenedFreq(bag, base, items, c, j);
    }
  }

  lemma OnPath(m: NodeMap, b: Bag, full: Path, q: Path)
    requires PartDomain(m, b, full) && q <= full && q != []
    ensures q in m && q == full[..|q|]
  {
  }

  lemma LongerPrefixes(p: Path, i: Item, b: Bag)
    requires forall q {:trigger Cnt(b, q)} :: q <= p && q != [] ==> Cnt(b, q) > 0
    requires Cnt(b, Snoc(p, i)) > 0
    ensures forall q {:trigger Cnt(b, q)} :: q <= Snoc(p, i) && q != [] ==> Cnt(b, q) > 0
  {
    forall q {:trigger Cnt(b, q)} | q <= Snoc(p, i) && q != [] ensures Cnt(b, q) > 0 {
      PrefixOfLonger(q, p, i);
    }
  }

  /** When a decremented node's count is 0, the rest of the path is all that is left below it. */
  lemma StopHere(m: NodeMap, b: Bag, full: Path, q: Path, c: nat)
    requires PartDomain(m, b, full) && PartCounts(m, b, full, |q|, c)
    requires q <= full && q != [] && Cnt(b, q) == 0
    requires forall p :: p <= Init(q) && p != [] ==> Cnt(b, p) > 0
    ensures DomainOk(Pruned(m, q), b) && CountsOk(Pruned(m, q), b) && ChainBelow(q, full[|q|..], c, m)
  {
    assert q + full[|q|..] == full;
    forall p | p != [] ensures p in Pruned(m, q) <==> Cnt(b, p) > 0 {
      if p <= full {
        if |p| < |q| { PrefixesNest(p, Init(q), full); } else { PrefixesNest(q, p, full); }
      }
      if q <= p { CntMonotone(b, q, p); }
    }
    forall p | p in m && p != [] && !(q <= p) ensures m[p].count == Cnt(b, p) {
      if |p| > |q| && p <= full { PrefixesNest(q, p, full); }
    }
    forall p | q <= p && p != q ensures Cnt(b, p) == 0 {
      CntMonotone(b, q, p);
    }
  }

  lemma ChainWithout(q: Path, rest: Path, c: nat, m: NodeMap)
    requires ChainBelow(q, rest, c, m)
    ensures ChainBelow(q, rest, c, m - {q})
  {
  }

  lemma ChildrenOf(m: NodeMap, node: FPNode)
    requires ChildrenOk(m) && Holds(m, node)
    ensures ChildrenUnder(node, m - {node.path})
  {
    forall i ensures Snoc(node.path, i) in m <==> Snoc(node.path, i) in m - {node.path} {
      SnocParts(node.path, i);
    }
    assert m[node.path] == node;
  }

  lemma PrefixOfInit(q: Path, p: Path)
    requires p != [] && q <= Init(p)
    ensures q <= p
  {
    assert q == Init(p)[..|q|] == p[..|q|];
  }

  lemma PrunedShape(m: NodeMap, q: Path, clock: nat)
    requires PathsOk(m) && ParentsOk(m) && BirthsBelow(m, clock) && q != []
    ensures PathsOk(Pruned(m, q)) && ParentsOk(Pruned(m, q)) && BirthsBelow(Pruned(m, q), clock)
  {
    var rest := Pruned(m, q);
    forall p | p in rest && p != [] ensures Init(p) in rest && rest[p].parent == rest[Init(p)] {
      assert m[p].parent == rest[p].parent;
      if q <= Init(p) { PrefixOfInit(q, p); }
    }
    forall p | p in rest ensures rest[p] == m[p] {}
  }

  /** A child tree may be taken out once its parent is gone. */
  lemma DropOrphan(m: NodeMap, q: Path)
    requires ChildrenOk(m) && q != [] && Init(q) !in m
    ensures ChildrenOk(m - {q})
  {
    forall p, i | p in m - {q} ensures Snoc(p, i) in m <==> Snoc(p, i) in m - {q} {
      SnocParts(p, i);
    }
  }

  lemma OnlyChild(node: FPNode, i: Item, rest: Path, c: nat, m: NodeMap)
    requires PathsOk(m[node.path := node]) && node.path !in m
    requires ChildrenOk(m) && ChildrenUnder(node, m) && ChainBelow(node.path, rest, c, m)
    requires i in node.children
    ensures rest != [] && rest[0] == i
    ensures var child := node.children[i]; var q := Snoc(node.path, i);
      && child.path == q && q in m && m[q] == child && Init(q) == node.path && Last(q) == i && child.count == c
      && ChildrenUnder(child, m - {q}) && ChainBelow(q, rest[1..], c, m - {q})
      && Pruned(m - {q}, q) == Pruned(m, node.path)
      && node.path <= q && (forall r :: r in m ==> (node.path <= r <==> q <= r))
  {
    var q := Snoc(node.path, i);
    var full := node.path + rest;
    SnocParts(node.path, i);
    assert q in m && node.path <= q && q <= full;
    assert full[|node.path|] == q[|node.path|] == i;
    assert m[node.path := node][q] == m[q];
    var child := m[q];
    assert child.path == q;
    assert q + rest[1..] == full;
    forall r | r in m && r != q && node.path <= r ensures q <= r {
      assert r <= full;
      PrefixesNest(q, r, full);
    }
    forall j ensures Snoc(q, j) in m <==> Snoc(q, j) in m - {q} {
      SnocParts(q, j);
    }
    forall r | r in m && q <= r ensures node.path <= r {
      assert node.path == q[..|node.path|] == r[..|node.path|];
    }
  }

  /** Of two prefixes of one path, the shorter is a prefix of the longer. */
  lemma PrefixesNest(p: Path, q: Path, full: Path)
    requires p <= full && q <= full && |p| <= |q|
    ensures p <= q
  {
    assert p == full[..|p|] && q == full[..|q|];
  }

  lemma FirstBelow(p: Path, rest: Path, c: nat, m: NodeMap)
    requires ChainBelow(p, rest, c, m) && rest != []
    ensures Snoc(p, rest[0]) in m
  {
    assert Snoc(p, rest[0]) == (p + rest)[..|p| + 1];
  }

  lemma NoChild(node: FPNode, rest: Path, c: nat, m: NodeMap)
    requires node.path !in m && ChildrenUnder(node, m) && ChainBelow(node.path, rest, c, m)
    requires node.children == map[]
    ensures rest == [] && Pruned(m, node.path) == m
  {
    var p := node.path;
    if rest != [] { FirstBelow(p, rest, c, m); }
    assert p + rest == p;
    forall q | q in m ensures !(p <= q) {
      assert p <= q && q != p ==> q <= p + rest && |q| > |p|;
    }
  }

  class FPTree {
    const root: FPNode
    const leaves: List<FPNode>
    var headerTable: map<Item, FPNode>
    var freq: map<Item, nat>
    var freqAtLastSort: map<Item, nat>

    /** The nodes by path, the number of births, and the transactions the tree stands for. */
    ghost var nodes: NodeMap
    ghost var clock: nat
    ghost var bag: Bag

    /** Header lists: each is doubly linked, newest node first, and together they hold all of m's data nodes. */
    ghost predicate HeadersOk(m: NodeMap)
      reads `headerTable, m.Values`next, m.Values`prev
    {
      && (forall i {:trigger headerTable[i]} :: i in headerTable ==>
            Holds(m, headerTable[i]) && headerTable[i].item == i && headerTable[i].prev == null)
      && (forall p {:trigger m[p].prev} :: p in m && p != [] ==>
            if m[p].prev == null then Last(p) in headerTable && headerTable[Last(p)] == m[p]
            else Holds(m, m[p].prev) && m[p].prev.path != [] && m[p].prev.next == m[p])
      && (forall p {:trigger m[p].next} :: p in m && p != [] && m[p].next != null ==>
            && Holds(m, m[p].next) && m[p].next.item == m[p].item && m[p].next.birth < m[p].birth
            && m[p].next.prev == m[p])
    }

    ghost predicate LeavesOk(m: NodeMap)
      reads leaves`Nodes, m.Values`children, m.Values`leafToken
    {
      && (forall t {:trigger t in leaves.Nodes} :: t in leaves.Nodes ==>
            Holds(m, t.val) && t.val.path != [] && t.val.leafToken == t)
      && (forall p {:trigger m[p].leafToken} :: p in m && p != [] ==>
            if m[p].children == map[] then m[p].leafToken in leaves.Nodes && m[p].leafToken.val == m[p]
            else m[p].leafToken == null)
    }

    /** Everything but the counts. */
    ghost predicate Struct()
      reads `nodes, `clock, `headerTable, leaves`Nodes
      reads nodes.Values`children, nodes.Values`leafToken, nodes.Values`next, nodes.Values`prev
    {
      && [] in nodes && nodes[[]] == root
      && PathsOk(nodes) && ParentsOk(nodes) && ChildrenOk(nodes) && BirthsBelow(nodes, clock)
      && HeadersOk(nodes) && LeavesOk(nodes)
    }

    ghost predicate Valid()
      reads this, leaves, leaves.Nodes, leaves.iterators, nodes.Values
    {
      && leaves.Valid() && Struct()
      && DomainOk(nodes, bag) && CountsOk(nodes, bag) && FreqOk(freq, bag)
    }

    constructor ()
      ensures Valid() && bag == multiset{} && freqAtLastSort == map[] && freq == map[] && leaves.iterators == {}
      ensures fresh(root) && fresh(leaves) && nodes == map[[] := root] && leaves.Nodes == []
    {
      var r := new FPNode.Root();
      root := r;
      leaves := new List<FPNode>();
      headerTable, freq, freqAtLastSort := map[], map[], map[];
      nodes, clock, bag := map[[] := r], 1, multiset{};
    }

    // What every operation does to the heap: it hands in no nodes and list entries but its own and new ones.

    twostate predicate KeepsNodes()
      reads `nodes
    {
      forall p {:trigger nodes[p]} :: p in nodes ==> fresh(nodes[p]) || (p in old(nodes) && nodes[p] == old(nodes)[p])
    }

    twostate predicate KeepsLeaves()
      reads leaves`Nodes
    {
      forall k {:trigger leaves.Nodes[k]} :: 0 <= k < |leaves.Nodes| ==> leaves.Nodes[k] in old(leaves.Nodes) || fresh(leaves.Nodes[k])
    }

    twostate predicate KeepsHeap()
      reads `nodes, leaves`Nodes, leaves`iterators
    {
      leaves.iterators == old(leaves.iterators) && KeepsNodes() && KeepsLeaves()
    }

    /** A new node goes to the front of its item's list. */
    method LinkInHeader(node: FPNode, ghost m: NodeMap)
      requires PathsOk(m) && BirthsBelow(m, node.birth) && HeadersOk(m)
      requires node.path !in m && node !in m.Values
      requires node.path != [] && node.item == Last(node.path)
      requires node.next == null && node.prev == null
      modifies `headerTable, node`next, m.Values`prev
      ensures HeadersOk(m[node.path := node])
    {
      if node.item in headerTable {
        var list := headerTable[node.item];
        node.next := list;
        list.prev := node;
      }
      headerTable := headerTable[node.item := node];
      ghost var grown := m[node.path := node];
      forall p | p in grown && p != []
        ensures if grown[p].prev == null then Last(p) in headerTable && headerTable[Last(p)] == grown[p]
                else Holds(grown, grown[p].prev) && grown[p].prev.path != [] && grown[p].prev.next == grown[p]
      {
        if p != node.path {
          assert grown[p] == m[p];
          assert m[p].prev != null ==> Holds(grown, m[p].prev);
        }
      }
      forall p | p in grown && p != [] && grown[p].next != null
        ensures Holds(grown, grown[p].next) && grown[p].next.item == grown[p].item && grown[p].next.birth < grown[p].birth
        ensures grown[p].next.prev == grown[p]
      {
        if p != node.path { assert grown[p] == m[p]; }
      }
      forall i | i in headerTable
        ensures Holds(grown, headerTable[i]) && headerTable[i].item == i && headerTable[i].prev == null
      {
        if i != node.item { assert Holds(m, headerTable[i]); }
      }
    }

    /** From here on the node is one of the tree's nodes. */
    method AddToHeaderTable(node: FPNode)
      requires PathsOk(nodes) && BirthsBelow(nodes, clock) && HeadersOk(nodes)
      requires node.path !in nodes && node !in nodes.Values
      requires node.path != [] && node.item == Last(node.path) && node.birth == clock
      requires node.next == null && node.prev == null
      modifies `headerTable, `nodes, `clock, node`next, nodes.Values`prev
      ensures nodes == old(nodes)[node.path := node] && clock == old(clock) + 1
      ensures HeadersOk(nodes)
    {
      hide PathsOk, BirthsBelow, HeadersOk;
      LinkInHeader(node, nodes);
      nodes := nodes[node.path := node];
      clock := clock + 1;
    }

    /** The first part of a node's destructor: it leaves its header list. */
    method RemoveFromHeaderTable(node: FPNode, ghost m: NodeMap)
      requires PathsOk(m) && HeadersOk(m) && Holds(m, node) && node.path != []
      modifies `headerTable, m.Values`prev, m.Values`next
      ensures HeadersOk(m - {node.path})
    {
      hide PathsOk, HeadersOk;
      if node.prev == null {
        RemoveFirst(node, m);
      } else {
        RemoveInner(node, m);
      }
    }

    method RemoveFirst(node: FPNode, ghost m: NodeMap)
      requires PathsOk(m) && HeadersOk(m) && Holds(m, node) && node.path != [] && node.prev == null
      modifies `headerTable, m.Values`prev
      ensures HeadersOk(m - {node.path})
    {
      if node.next != null {
        headerTable := headerTable[node.item := node.next];
        node.next.prev := null;
      } else {
        headerTable := headerTable - {node.item};
      }
    }

    method RemoveInner(node: FPNode, ghost m: NodeMap)
      requires PathsOk(m) && HeadersOk(m) && Holds(m, node) && node.path != [] && node.prev != null
      modifies m.Values`prev, m.Values`next
      ensures HeadersOk(m - {node.path})
    {
      if node.next != null {
        node.next.prev := node.prev;
      }
      node.prev.next := node.next;
    }

    /** A data node's constructor: all nodes start out as leaves, at the front of the leaf list. */
    method NewNode(i: Item, parent: FPNode, ghost m: NodeMap) returns (node: FPNode)
      requires leaves.Valid() && LeavesOk(m) && Snoc(parent.path, i) !in m
      modifies leaves, leaves.Nodes
      ensures fresh(node) && fresh(node.leafToken) && node.path == Snoc(parent.path, i) && node.birth == clock
      ensures node.item == i && node.count == 0 && node.children == map[] && node.next == null && node.prev == null
      ensures node.parent == parent && node.depth == parent.depth + 1
      ensures leaves.Valid() && LeavesOk(m[node.path := node])
      ensures leaves.iterators == old(leaves.iterators)
      ensures leaves.Nodes == [node.leafToken] + old(leaves.Nodes)
      ensures forall it :: it in leaves.iterators ==>
        OnlyPasses(old(leaves.Nodes), old(leaves.Pending(it)), leaves.Nodes, leaves.Pending(it), node.path)
    {
      node := new FPNode.Data(i, parent, clock);
      var token := leaves.Prepend(node);
      node.leafToken := token;
    }

    method DropLeaf(node: FPNode)
      requires leaves.Valid() && node.leafToken != null && node.leafToken in leaves.Nodes
      modifies leaves, leaves.Nodes, leaves.iterators, node`leafToken
      ensures leaves.Valid() && node.leafToken == null && leaves.iterators == old(leaves.iterators)
      ensures forall t :: t in leaves.Nodes <==> t in old(leaves.Nodes) && t != old(node.leafToken)
      ensures forall it :: it in leaves.iterators ==>
        OnlyPasses(old(leaves.Nodes), old(leaves.Pending(it)), leaves.Nodes, leaves.Pending(it), [])
    {
      ghost var token: ListNode<FPNode> := node.leafToken;
      forall it, t | it in leaves.iterators
        ensures t in Without(leaves.Pending(it), token) <==> t in leaves.Pending(it) && t != token
      {
        WithoutMembers(leaves.Pending(it), token, t);
      }
      leaves.Erase(node.leafToken);
      forall t ensures t in leaves.Nodes <==> t in old(leaves.Nodes) && t != token {
        WithoutMembers(old(leaves.Nodes), token, t);
      }
      node.leafToken := null;
    }

    /** The parent takes the new child, and leaves the leaf list if it was a leaf. */
    method Adopt(parent: FPNode, i: Item, node: FPNode, ghost m: NodeMap)
      requires PathsOk(m) && ParentsOk(m) && ChildrenOk(m) && Holds(m, parent)
      requires node.path == Snoc(parent.path, i) && node.path !in m && node.children == map[] && node !in m.Values
      requires leaves.Valid() && LeavesOk(m[node.path := node])
      modifies leaves, leaves.Nodes, leaves.iterators, parent`children, parent`leafToken
      ensures leaves.Valid() && LeavesOk(m[node.path := node]) && ChildrenOk(m[node.path := node])
      ensures leaves.iterators == old(leaves.iterators)
      ensures forall k {:trigger leaves.Nodes[k]} :: 0 <= k < |leaves.Nodes| ==> leaves.Nodes[k] in old(leaves.Nodes)
      ensures forall it :: it in leaves.iterators ==>
        OnlyPasses(old(leaves.Nodes), old(leaves.Pending(it)), leaves.Nodes, leaves.Pending(it), [])
    {
      hide ParentsOk, ChildrenOk, List.Valid;
      ghost var grown := m[node.path := node];
      assert grown[parent.path] == parent;
      if !parent.IsRoot() && parent.IsLeaf() {
        DropLeaf(parent);
      }
      SetChild(parent, i, node, m);
    }

    method SetChild(parent: FPNode, i: Item, node: FPNode, ghost m: NodeMap)
      requires PathsOk(m) && ParentsOk(m) && ChildrenOk(m) && Holds(m, parent)
      requires node.path == Snoc(parent.path, i) && node.path !in m && node.children == map[] && node !in m.Values
      modifies parent`children
      ensures parent.children == old(parent.children)[i := node]
      ensures parent.children != map[] && ChildrenOk(m[node.path := node])
    {
      ghost var kids := map p | p in m :: m[p].children;
      assert ChildrenAre(m, kids);
      parent.children := parent.children[i := node];
      assert i in parent.children;
      GrowChildren(m, kids, parent, i, node);
    }

    method GetChild(node: FPNode, i: Item) returns (child: FPNode?)
      requires leaves.Valid() && Struct() && Holds(nodes, node)
      ensures child == if Snoc(node.path, i) in nodes then nodes[Snoc(node.path, i)] else null
    {
      if i in node.children {
        return node.children[i];
      } else {
        return null;
      }
    }

    method GetOrCreateChild(parent: FPNode, i: Item) returns (node: FPNode)
      requires leaves.Valid() && Struct() && Holds(nodes, parent) && DomainOk(nodes, bag) && CountsOk(nodes, bag)
      modifies `nodes, `clock, `headerTable, nodes.Values`children, nodes.Values`prev, nodes.Values`leafToken
      modifies leaves, leaves.Nodes, leaves.iterators
      ensures Struct() && leaves.Valid() && PathsOk(nodes)
      ensures Holds(nodes, node) && node.path == Snoc(parent.path, i) && node.item == i
      ensures CountsOk(nodes, bag)
      ensures Snoc(parent.path, i) in old(nodes) ==> nodes == old(nodes)
      ensures Snoc(parent.path, i) !in old(nodes) ==>
        nodes == old(nodes)[node.path := node] && fresh(node) && node.count == 0
      ensures KeepsLeaves()
      ensures leaves.iterators == old(leaves.iterators)
      ensures forall it :: it in leaves.iterators ==>
        OnlyPasses(old(leaves.Nodes), old(leaves.Pending(it)), leaves.Nodes, leaves.Pending(it), Snoc(parent.path, i))
    {
      hide PathsOk, ParentsOk, ChildrenOk, HeadersOk, LeavesOk, BirthsBelow, OnlyPasses, CountsOk, DomainOk, List.Valid;
      SnocParts(parent.path, i);
      var child := GetChild(parent, i);
      if child == null {
        node := CreateChild(parent, i);
        PathOf(nodes, Snoc(parent.path, i));
        UncountedChild(old(nodes), node, bag);
      } else {
        node := child;
        PathOf(nodes, Snoc(parent.path, i));
        PassesNoneAll(node.path);
      }
    }

    method CreateChild(parent: FPNode, i: Item) returns (node: FPNode)
      requires leaves.Valid() && Struct() && Holds(nodes, parent) && Snoc(parent.path, i) !in nodes
      modifies `nodes, `clock, `headerTable, nodes.Values`children, nodes.Values`prev, nodes.Values`leafToken
      modifies leaves, leaves.Nodes, leaves.iterators
      ensures leaves.Valid() && Struct()
      ensures nodes == old(nodes)[Snoc(parent.path, i) := node] && fresh(node) && node.count == 0
      ensures KeepsLeaves()
      ensures leaves.iterators == old(leaves.iterators)
      ensures forall it :: it in leaves.iterators ==>
        OnlyPasses(old(leaves.Nodes), old(leaves.Pending(it)), leaves.Nodes, leaves.Pending(it), Snoc(parent.path, i))
    {
      hide PathsOk, ParentsOk, ChildrenOk, HeadersOk, LeavesOk, BirthsBelow, OnlyPasses, List.Valid;
      node := NewLeafUnder(parent, i, nodes);
      ghost var grown := nodes[node.path := node];
      GrowPaths(nodes, parent, i, node);
      GrowBirths(nodes, node);
      assert grown[[]] == root;
      AddToHeaderTable(node);
    }

    method NewLeafUnder(parent: FPNode, i: Item, ghost m: NodeMap) returns (node: FPNode)
      requires PathsOk(m) && ParentsOk(m) && ChildrenOk(m) && Holds(m, parent) && Snoc(parent.path, i) !in m
      requires leaves.Valid() && LeavesOk(m)
      modifies leaves, leaves.Nodes, leaves.iterators, parent`children, parent`leafToken
      ensures fresh(node) && node.path == Snoc(parent.path, i) && node.birth == clock
      ensures node.item == i && node.count == 0 && node.next == null && node.prev == null
      ensures node.parent == parent && node.depth == parent.depth + 1
      ensures leaves.Valid() && LeavesOk(m[node.path := node]) && ChildrenOk(m[node.path := node])
      ensures KeepsLeaves()
      ensures leaves.iterators == old(leaves.iterators)
      ensures forall it :: it in leaves.iterators ==>
        OnlyPasses(old(leaves.Nodes), old(leaves.Pending(it)), leaves.Nodes, leaves.Pending(it), Snoc(parent.path, i))
    {
      hide PathsOk, ParentsOk, ChildrenOk, LeavesOk, OnlyPasses, List.Valid;
      node := NewNode(i, parent, m);
      label Made:
      Adopt(parent, i, node, m);
      forall it | it in leaves.iterators
        ensures OnlyPasses(old(leaves.Nodes), old(leaves.Pending(it)), leaves.Nodes, leaves.Pending(it), node.path)
      {
        PassesBoth(old(leaves.Nodes), old(leaves.Pending(it)), node.path,
                   old@Made(leaves.Nodes), old@Made(leaves.Pending(it)), [],
                   leaves.Nodes, leaves.Pending(it), node.path);
      }
    }

    method AddCount(node: FPNode, c: nat, ghost p: Path, ghost i: Item, ghost m: NodeMap)
      requires PathsOk(nodes) && Holds(nodes, node) && node.path == Snoc(p, i) && node.item == i
      requires FreqOk(freq, bag) && CountsOk(nodes, bag)
      requires DomainOk(m, bag) && nodes.Keys == m.Keys + {Snoc(p, i)}
      requires c > 0 && bag[p] >= c
      modifies `freq, `bag, node`count
      ensures bag == Moved(old(bag), p, Snoc(p, i), c)
      ensures freq.Keys == old(freq.Keys) + {i}
      ensures DomainOk(nodes, bag) && CountsOk(nodes, bag) && FreqOk(freq, bag)
    {
      hide DomainOk, Cnt, ItemFreq, Moved, Copies;
      node.count := node.count + c;
      freq := freq[node.item := Get(freq, node.item) + c];
      ghost var before := bag;
      bag := Moved(bag, p, Snoc(p, i), c);
      ExtendedDomain(m, nodes, before, p, i, c);
      forall q | q in nodes && q != [] ensures nodes[q].count == Cnt(bag, q) {
        ExtendedCnt(before, p, i, c, q);
      }
      forall j: Item ensures Get(freq, j) == ItemFreq(bag, j) {
        ExtendedFreq(before, p, i, c, j);
      }
    }

    lemma ExtendedDomain(m: NodeMap, grown: NodeMap, b: Bag, p: Path, i: Item, c: nat)
      requires DomainOk(m, b) && c > 0 && b[p] >= c
      requires grown.Keys == m.Keys + {Snoc(p, i)}
      ensures DomainOk(grown, Moved(b, p, Snoc(p, i), c))
    {
      forall q | q != [] ensures q in grown <==> Cnt(Moved(b, p, Snoc(p, i), c), q) > 0 {
        ExtendedCnt(b, p, i, c, q);
      }
    }

    method ExtendStep(parent: FPNode, i: Item, c: nat) returns (node: FPNode)
      requires Valid() && Holds(nodes, parent) && c > 0 && bag[parent.path] >= c
      modifies `nodes, `clock, `headerTable, `freq, `bag, leaves, leaves.Nodes, leaves.iterators
      modifies nodes.Values`count, nodes.Values`children, nodes.Values`prev, nodes.Values`leafToken
      ensures Valid()
      ensures bag == Moved(old(bag), parent.path, Snoc(parent.path, i), c)
      ensures freq.Keys == old(freq.Keys) + {i}
      ensures Holds(nodes, node) && node.path == Snoc(parent.path, i)
      ensures nodes == old(nodes) || (fresh(node) && node.path !in old(nodes) && nodes == old(nodes)[node.path := node])
      ensures KeepsLeaves()
      ensures leaves.iterators == old(leaves.iterators)
      ensures forall it :: it in leaves.iterators ==>
        OnlyPasses(old(leaves.Nodes), old(leaves.Pending(it)), leaves.Nodes, leaves.Pending(it), Snoc(parent.path, i))
    {
      hide Struct, DomainOk, CountsOk, FreqOk, OnlyPasses, List.Valid;
      node := GetOrCreateChild(parent, i);
      AddCount(node, c, parent.path, i, old(nodes));
    }

    /** FPNode::Insert: c transactions that end at `start` go on with the given items. */
    method InsertBelow(start: FPNode, items: Path, c: nat)
      requires Valid() && Holds(nodes, start) && c > 0 && bag[start.path] >= c
      modifies `nodes, `clock, `headerTable, `freq, `bag, leaves, leaves.Nodes, leaves.iterators
      modifies nodes.Values`count, nodes.Values`children, nodes.Values`prev, nodes.Values`leafToken
      ensures Valid()
      ensures bag == Moved(old(bag), start.path, start.path + items, c)
      ensures freq.Keys == old(freq.Keys) + Items(items)
      ensures GrownFrom(nodes, old(nodes)) && forall p :: p in nodes && p !in old(nodes) ==> fresh(nodes[p])
      ensures KeepsLeaves()
      ensures leaves.iterators == old(leaves.iterators)
      ensures forall it :: it in leaves.iterators ==>
        OnlyPasses(old(leaves.Nodes), old(leaves.Pending(it)), leaves.Nodes, leaves.Pending(it), start.path + items)
    {
      hide Struct, DomainOk, CountsOk, FreqOk, OnlyPasses, Moved, Items, List.Valid, GrownFrom;
      var parent := start;
      GrownSelf(nodes);
      ItemsNone(items);
      MovedNowhere(bag, start.path, c);
      assert start.path + items[..0] == start.path;
      PassesNoneAll(start.path + items);
      for k := 0 to |items|
        invariant Valid() && Holds(nodes, parent) && parent.path == start.path + items[..k]
        invariant bag == Moved(old(bag), start.path, parent.path, c) && bag[parent.path] >= c
        invariant freq.Keys == old(freq.Keys) + Items(items[..k])
        invariant GrownFrom(nodes, old(nodes))
        invariant KeepsNodes() && KeepsLeaves()
        invariant leaves.iterators == old(leaves.iterators)
        invariant forall it :: it in leaves.iterators ==>
          OnlyPasses(old(leaves.Nodes), old(leaves.Pending(it)), leaves.Nodes, leaves.Pending(it), start.path + items)
      {
        label Before:
        var node := ExtendStep(parent, items[k], c);
        GrownMore(old(nodes), old@Before(nodes), nodes, node);
        ItemsStep(items, k);
        PathStep(start.path, items, k);
        MovedTwice(old(bag), start.path, parent.path, node.path, c);
        forall it | it in leaves.iterators
          ensures OnlyPasses(old(leaves.Nodes), old(leaves.Pending(it)), leaves.Nodes, leaves.Pending(it), start.path + items)
        {
          PassesBoth(old(leaves.Nodes), old(leaves.Pending(it)), start.path + items,
                     old@Before(leaves.Nodes), old@Before(leaves.Pending(it)), node.path,
                     leaves.Nodes, leaves.Pending(it), start.path + items);
        }
        parent := node;
      }
      assert items[..|items|] == items;
    }

    lemma PassesNoneAll(p: Path)
      requires leaves.Valid()
      ensures forall it {:trigger leaves.Pending(it)} :: it in leaves.iterators ==>
        OnlyPasses(leaves.Nodes, leaves.Pending(it), leaves.Nodes, leaves.Pending(it), p)
    {
      forall it | it in leaves.iterators
        ensures OnlyPasses(leaves.Nodes, leaves.Pending(it), leaves.Nodes, leaves.Pending(it), p)
      {
        PassesNone(leaves.Nodes, leaves.Pending(it), p);
      }
    }

    method Decrement(node: FPNode, c: nat, ghost b: Bag, ghost owed: Path)
      requires node.count >= c > 0 && owed != [] && node.item == owed[0]
      requires FreqOk(freq, b + Copies(owed, c))
      modifies `freq, node`count
      ensures node.count == old(node.count) - c
      ensures freq.Keys == old(freq.Keys)
      ensures FreqOk(freq, b + Copies(owed[1..], c))
    {
      forall j: Item ensures ItemFreq(b + Copies(owed, c), j) ==
        ItemFreq(b + Copies(owed[1..], c), j) + if j == owed[0] then c else 0
      {
        OwedFreq(b, owed, c, j);
      }
      node.count := node.count - c;
      assert Get(freq, owed[0]) >= c;
      freq := freq[node.item := freq[node.item] - c];
    }

    /** The leaf-list part of a node's destructor. */
    method ForgetLeaf(node: FPNode, ghost m: NodeMap)
      requires leaves.Valid() && PathsOk(m) && LeavesOk(m) && Holds(m, node) && node.path != []
      modifies leaves, leaves.Nodes, leaves.iterators, node`leafToken
      ensures leaves.Valid() && LeavesOk(m - {node.path})
      ensures forall k {:trigger leaves.Nodes[k]} :: 0 <= k < |leaves.Nodes| ==> leaves.Nodes[k] in old(leaves.Nodes)
      ensures leaves.iterators == old(leaves.iterators)
      ensures forall it :: it in leaves.iterators ==>
        OnlyPasses(old(leaves.Nodes), old(leaves.Pending(it)), leaves.Nodes, leaves.Pending(it), [])
    {
      if node.IsLeaf() {
        DropLeaf(node);
      } else {
        PassesNoneAll([]);
      }
    }

    /** The node's own part of its destructor. */
    method Detach(node: FPNode, ghost rest: Path, ghost c: nat, ghost owed: Path, ghost b: Bag)
      requires node.path != [] && node.path !in nodes && PathsOk(nodes[node.path := node])
      requires HeadersOk(nodes[node.path := node])
      requires leaves.Valid() && LeavesOk(nodes[node.path := node])
      requires c > 0 && if node.count == 0 then owed == rest else node.count == c && owed == [Last(node.path)] + rest
      requires FreqOk(freq, b + Copies(owed, c))
      modifies `headerTable, `freq, leaves, leaves.Nodes, leaves.iterators
      modifies node`count, node`leafToken, nodes.Values`prev, nodes.Values`next, node`prev, node`next
      ensures HeadersOk(nodes) && leaves.Valid() && LeavesOk(nodes)
      ensures FreqOk(freq, b + Copies(rest, c))
      ensures freq.Keys == old(freq.Keys)
      ensures forall k {:trigger leaves.Nodes[k]} :: 0 <= k < |leaves.Nodes| ==> leaves.Nodes[k] in old(leaves.Nodes)
      ensures leaves.iterators == old(leaves.iterators)
      ensures forall it :: it in leaves.iterators ==>
        OnlyPasses(old(leaves.Nodes), old(leaves.Pending(it)), leaves.Nodes, leaves.Pending(it), [])
    {
      hide HeadersOk, LeavesOk, FreqOk, OnlyPasses, List.Valid;
      ghost var m := nodes[node.path := node];
      assert m[node.path].item == Last(node.path);
      RemoveFromHeaderTable(node, m);
      ForgetLeaf(node, m);
      assert m - {node.path} == nodes;
      if node.count > 0 {
        assert owed[1..] == rest;
        Decrement(node, node.count, b, owed);
      }
    }

    /**
     * A node's destructor: it leaves its header list and the leaf list, gives its count back to the
     * frequency table, and deletes its child trees. Remove calls it on a node whose subtree is the
     * unbranched rest of the removed path.
     */
    method Destroy(node: FPNode, ghost rest: Path, ghost c: nat, ghost owed: Path, ghost b: Bag, ghost gone: set<FPNode>)
      requires node.path != [] && node.path !in nodes && PathsOk(nodes[node.path := node])
      requires ChildrenOk(nodes) && HeadersOk(nodes[node.path := node])
      requires leaves.Valid() && LeavesOk(nodes[node.path := node])
      requires ChildrenUnder(node, nodes) && ChainBelow(node.path, rest, c, nodes) && c > 0
      requires if node.count == 0 then owed == rest else node.count == c && owed == [Last(node.path)] + rest
      requires FreqOk(freq, b + Copies(owed, c))
      requires node in gone && forall q :: q in nodes ==> (nodes[q] in gone <==> node.path <= q)
      modifies `nodes, `headerTable, `freq, leaves, leaves.Nodes, leaves.iterators
      modifies gone, nodes.Values`prev, nodes.Values`next
      ensures nodes == Pruned(old(nodes), node.path)
      ensures ChildrenOk(nodes) && HeadersOk(nodes) && leaves.Valid() && LeavesOk(nodes)
      ensures FreqOk(freq, b)
      ensures freq.Keys == old(freq.Keys)
      ensures forall k {:trigger leaves.Nodes[k]} :: 0 <= k < |leaves.Nodes| ==> leaves.Nodes[k] in old(leaves.Nodes)
      ensures leaves.iterators == old(leaves.iterators)
      ensures forall it :: it in leaves.iterators ==>
        OnlyPasses(old(leaves.Nodes), old(leaves.Pending(it)), leaves.Nodes, leaves.Pending(it), [])
      decreases |rest|, 2
    {
      hide PathsOk, ChildrenOk, HeadersOk, LeavesOk, FreqOk, OnlyPasses, ChildrenUnder, ChainBelow, List.Valid;
      NotHeld(node, nodes);
      Detach(node, rest, c, owed, b);
      label Detached:
      DestroyChildren(node, rest, c, b, gone);
      forall it | it in leaves.iterators
        ensures OnlyPasses(old(leaves.Nodes), old(leaves.Pending(it)), leaves.Nodes, leaves.Pending(it), [])
      {
        PassesBoth(old(leaves.Nodes), old(leaves.Pending(it)), [],
                   old@Detached(leaves.Nodes), old@Detached(leaves.Pending(it)), [],
                   leaves.Nodes, leaves.Pending(it), []);
      }
    }

    /** The destructor's loop over the child trees. */
    method DestroyChildren(node: FPNode, ghost rest: Path, ghost c: nat, ghost b: Bag, ghost gone: set<FPNode>)
      requires node.path != [] && node.path !in nodes && PathsOk(nodes[node.path := node])
      requires ChildrenOk(nodes) && HeadersOk(nodes)
      requires leaves.Valid() && LeavesOk(nodes)
      requires ChildrenUnder(node, nodes) && ChainBelow(node.path, rest, c, nodes) && c > 0
      requires FreqOk(freq, b + Copies(rest, c))
      requires node in gone && forall q :: q in nodes ==> (nodes[q] in gone <==> node.path <= q)
      modifies `nodes, `headerTable, `freq, leaves, leaves.Nodes, leaves.iterators
      modifies gone, nodes.Values`prev, nodes.Values`next
      ensures nodes == Pruned(old(nodes), node.path)
      ensures ChildrenOk(nodes) && HeadersOk(nodes) && leaves.Valid() && LeavesOk(nodes)
      ensures FreqOk(freq, b)
      ensures freq.Keys == old(freq.Keys)
      ensures forall k {:trigger leaves.Nodes[k]} :: 0 <= k < |leaves.Nodes| ==> leaves.Nodes[k] in old(leaves.Nodes)
      ensures leaves.iterators == old(leaves.iterators)
      ensures forall it :: it in leaves.iterators ==>
        OnlyPasses(old(leaves.Nodes), old(leaves.Pending(it)), leaves.Nodes, leaves.Pending(it), [])
      decreases |rest|, 1
    {
      hide PathsOk, ChildrenOk, HeadersOk, LeavesOk, FreqOk, OnlyPasses, ChildrenUnder, ChainBelow, List.Valid;
      if node.children == map[] {
        NoChild(node, rest, c, nodes);
        NothingOwed(freq, b, c);
        PassesNoneAll([]);
      } else {
        var i :| i in node.children;
        DestroyChild(node, i, rest, c, b, gone);
      }
      node.children := map[];
    }

    method DestroyChild(node: FPNode, i: Item, ghost rest: Path, ghost c: nat, ghost b: Bag, ghost gone: set<FPNode>)
      requires node.path != [] && node.path !in nodes && PathsOk(nodes[node.path := node])
      requires ChildrenOk(nodes) && HeadersOk(nodes) && i in node.children
      requires leaves.Valid() && LeavesOk(nodes)
      requires ChildrenUnder(node, nodes) && ChainBelow(node.path, rest, c, nodes) && c > 0
      requires FreqOk(freq, b + Copies(rest, c))
      requires node in gone && forall q :: q in nodes ==> (nodes[q] in gone <==> node.path <= q)
      modifies `nodes, `headerTable, `freq, leaves, leaves.Nodes, leaves.iterators
      modifies gone, nodes.Values`prev, nodes.Values`next
      ensures nodes == Pruned(old(nodes), node.path)
      ensures ChildrenOk(nodes) && HeadersOk(nodes) && leaves.Valid() && LeavesOk(nodes)
      ensures FreqOk(freq, b)
      ensures freq.Keys == old(freq.Keys)
      ensures forall k {:trigger leaves.Nodes[k]} :: 0 <= k < |leaves.Nodes| ==> leaves.Nodes[k] in old(leaves.Nodes)
      ensures leaves.iterators == old(leaves.iterators)
      ensures forall it :: it in leaves.iterators ==>
        OnlyPasses(old(leaves.Nodes), old(leaves.Pending(it)), leaves.Nodes, leaves.Pending(it), [])
      decreases |rest|, 0
    {
      hide PathsOk, ChildrenOk, HeadersOk, LeavesOk, FreqOk, OnlyPasses, ChildrenUnder, ChainBelow, List.Valid;
      var child := node.children[i];
      OnlyChild(node, i, rest, c, nodes);
      DropOrphan(nodes, child.path);
      NotHeld(node, nodes);
      ghost var m := nodes;
      nodes := nodes - {child.path};
      assert nodes[child.path := child] == m;
      Destroy(child, rest[1..], c, rest, b, gone);
    }

    /** The parent gives up child i; a parent left without children rejoins the leaf list, at its end. */
    method Orphan(parent: FPNode, i: Item, ghost m: NodeMap)
      requires PathsOk(m) && ParentsOk(m) && ChildrenOk(m) && Holds(m, parent) && i in parent.children
      requires leaves.Valid() && LeavesOk(m)
      modifies leaves, leaves.Nodes, leaves.iterators, parent`children, parent`leafToken
      ensures ChildrenOk(m - {Snoc(parent.path, i)}) && leaves.Valid() && LeavesOk(m)
      ensures KeepsLeaves()
      ensures leaves.iterators == old(leaves.iterators)
      ensures forall it :: it in leaves.iterators ==>
        OnlyPasses(old(leaves.Nodes), old(leaves.Pending(it)), leaves.Nodes, leaves.Pending(it), [])
    {
      hide ParentsOk, ChildrenOk, List.Valid, OnlyPasses;
      DropChild(parent, i, m);
      if parent.children == map[] && !parent.IsRoot() {
        Rejoin(parent, m);
      } else {
        PassesNoneAll([]);
      }
    }

    /** The leaf list is right but for the node, which has just become a leaf. */
    ghost predicate LeavesBut(m: NodeMap, node: FPNode)
      reads leaves`Nodes, m.Values`children, m.Values`leafToken
    {
      && (forall t {:trigger t in leaves.Nodes} :: t in leaves.Nodes ==>
            Holds(m, t.val) && t.val.path != [] && t.val.leafToken == t && t.val != node)
      && (forall p {:trigger m[p].leafToken} :: p in m && p != [] && m[p] != node ==>
            if m[p].children == map[] then m[p].leafToken in leaves.Nodes && m[p].leafToken.val == m[p]
            else m[p].leafToken == null)
    }

    method Rejoin(node: FPNode, ghost m: NodeMap)
      requires leaves.Valid() && Holds(m, node) && node.path != [] && node.children == map[] && LeavesBut(m, node)
      modifies leaves, leaves.Nodes, leaves.iterators, node`leafToken
      ensures leaves.Valid() && LeavesOk(m)
      ensures KeepsLeaves()
      ensures leaves.iterators == old(leaves.iterators)
      ensures forall it :: it in leaves.iterators ==>
        OnlyPasses(old(leaves.Nodes), old(leaves.Pending(it)), leaves.Nodes, leaves.Pending(it), [])
    {
      hide List.Valid;
      var token := leaves.Append(node);
      node.leafToken := token;
    }

    method DropChild(parent: FPNode, i: Item, ghost m: NodeMap)
      requires PathsOk(m) && ParentsOk(m) && ChildrenOk(m) && Holds(m, parent) && i in parent.children
      modifies parent`children
      ensures parent.children == old(parent.children) - {i}
      ensures ChildrenOk(m - {Snoc(parent.path, i)})
    {
      ghost var kids := map p | p in m :: m[p].children;
      assert ChildrenAre(m, kids);
      parent.children := parent.children - {i};
      ShrinkChildren(m, kids, parent, i);
    }

    /** The end of the line: a node whose count fell to 0 goes, and the rest of its path with it. */
    method Cut(parent: FPNode, i: Item, node: FPNode, ghost rest: Path, ghost c: nat, ghost b: Bag)
      requires leaves.Valid() && Struct() && Holds(nodes, parent) && Holds(nodes, node)
      requires node.path == Snoc(parent.path, i) && i in parent.children
      requires node.count == 0 && c > 0 && ChainBelow(node.path, rest, c, nodes)
      requires FreqOk(freq, b + Copies(rest, c))
      modifies `nodes, `headerTable, `freq, leaves, leaves.Nodes, leaves.iterators
      modifies parent`children, parent`leafToken, Subtree(nodes, node.path), nodes.Values`prev, nodes.Values`next
      ensures leaves.Valid() && Struct() && nodes == Pruned(old(nodes), node.path)
      ensures FreqOk(freq, b)
      ensures freq.Keys == old(freq.Keys)
      ensures KeepsLeaves()
      ensures leaves.iterators == old(leaves.iterators)
      ensures forall it :: it in leaves.iterators ==>
        OnlyPasses(old(leaves.Nodes), old(leaves.Pending(it)), leaves.Nodes, leaves.Pending(it), [])
    {
      hide PathsOk, ParentsOk, BirthsBelow, ChildrenOk, HeadersOk, LeavesOk, FreqOk, OnlyPasses, ChainBelow, List.Valid;
      SnocParts(parent.path, i);
      ChildrenOf(nodes, node);
      SubtreeMembers(nodes, node.path);
      Orphan(parent, i, nodes);
      label Orphaned:
      Uproot(node, rest, c, b, Subtree(nodes, node.path));
      forall it | it in leaves.iterators
        ensures OnlyPasses(old(leaves.Nodes), old(leaves.Pending(it)), leaves.Nodes, leaves.Pending(it), [])
      {
        PassesBoth(old(leaves.Nodes), old(leaves.Pending(it)), [],
                   old@Orphaned(leaves.Nodes), old@Orphaned(leaves.Pending(it)), [],
                   leaves.Nodes, leaves.Pending(it), []);
      }
      PrunedShape(old(nodes), node.path, clock);
    }

    method Uproot(node: FPNode, ghost rest: Path, ghost c: nat, ghost b: Bag, ghost gone: set<FPNode>)
      requires PathsOk(nodes) && Holds(nodes, node) && node.path != [] && HeadersOk(nodes)
      requires leaves.Valid() && LeavesOk(nodes)
      requires ChildrenOk(nodes - {node.path}) && ChildrenUnder(node, nodes - {node.path})
      requires node.count == 0 && c > 0 && ChainBelow(node.path, rest, c, nodes)
      requires FreqOk(freq, b + Copies(rest, c))
      requires forall q :: q in nodes ==> (nodes[q] in gone <==> node.path <= q)
      modifies `nodes, `headerTable, `freq, leaves, leaves.Nodes, leaves.iterators
      modifies gone, nodes.Values`prev, nodes.Values`next
      ensures nodes == Pruned(old(nodes), node.path)
      ensures ChildrenOk(nodes) && HeadersOk(nodes) && leaves.Valid() && LeavesOk(nodes)
      ensures FreqOk(freq, b)
      ensures freq.Keys == old(freq.Keys)
      ensures forall k {:trigger leaves.Nodes[k]} :: 0 <= k < |leaves.Nodes| ==>
        leaves.Nodes[k] in old(leaves.Nodes)
      ensures leaves.iterators == old(leaves.iterators)
      ensures forall it :: it in leaves.iterators ==>
        OnlyPasses(old(leaves.Nodes), old(leaves.Pending(it)), leaves.Nodes, leaves.Pending(it), [])
    {
      hide PathsOk, ChildrenOk, HeadersOk, LeavesOk, FreqOk, OnlyPasses, ChainBelow, ChildrenUnder, List.Valid;
      ghost var all, q := nodes, node.path;
      ChainWithout(q, rest, c, all);
      nodes := nodes - {q};
      assert nodes[q := node] == all;
      assert Pruned(nodes, q) == Pruned(all, q);
      Destroy(node, rest, c, rest, b, gone);
    }

    method DecrementOn(node: FPNode, c: nat, ghost full: Path, ghost b: Bag, ghost k: nat)
      requires PathsOk(nodes) && Holds(nodes, node) && c > 0
      requires k < |full| && node.path == full[..k + 1]
      requires PartCounts(nodes, b, full, k, c) && FreqOk(freq, b + Copies(full[k..], c))
      modifies `freq, node`count
      ensures node.count == Cnt(b, node.path) && PartCounts(nodes, b, full, k + 1, c)
      ensures FreqOk(freq, b + Copies(full[k + 1..], c))
      ensures freq.Keys == old(freq.Keys)
    {
      hide FreqOk;
      assert nodes[node.path].count == node.count && nodes[node.path].item == full[k];
      assert full[k..][1..] == full[k + 1..];
      Decrement(node, c, b, full[k..]);
      forall p | p in nodes && p != []
        ensures nodes[p].count == Cnt(b, p) + if |p| > k + 1 && p <= full then c else 0
      {
        if |p| == k + 1 && p <= full {
          assert p == full[..k + 1];
        }
      }
    }

    /** On the way from a tree of b and c transactions `full` to one of b; the nodes down to parent are done. */
    ghost predicate Removing(parent: FPNode, c: nat, full: Path, b: Bag)
      reads `nodes, `freq, nodes.Values`count
    {
      && Holds(nodes, parent) && parent.path <= full && PartDomain(nodes, b, full)
      && PartCounts(nodes, b, full, |parent.path|, c)
      && FreqOk(freq, b + Copies(full[|parent.path|..], c))
      && (forall p {:trigger Cnt(b, p)} :: p <= parent.path && p != [] ==> Cnt(b, p) > 0)
    }

    lemma BeginRemoving(start: FPNode, items: Path, c: nat)
      requires Valid() && Holds(nodes, start) && c > 0 && bag[start.path + items] >= c
      ensures var full := start.path + items;
        Removing(start, c, full, Moved(bag, full, start.path, c))
    {
      assert (start.path + items)[|start.path|..] == items;
      StartRemoving(nodes, freq, bag, start.path, items, c);
    }

    lemma EndRemoving(parent: FPNode, c: nat, b: Bag)
      requires Removing(parent, c, parent.path, b)
      ensures DomainOk(nodes, b) && CountsOk(nodes, b) && FreqOk(freq, b)
    {
      assert parent.path[|parent.path|..] == [];
      NothingOwed(freq, b, c);
    }

    /** One round of Remove's loop, on the way from a tree of b and c transactions `full` to one of b. */
    method RemoveStep(parent: FPNode, i: Item, c: nat, ghost full: Path, ghost b: Bag)
      returns (node: FPNode, stop: bool)
      requires leaves.Valid() && Struct() && c > 0
      requires Removing(parent, c, full, b) && Snoc(parent.path, i) <= full
      modifies `nodes, `headerTable, `freq, leaves, leaves.Nodes, leaves.iterators, nodes.Values
      ensures leaves.Valid() && Struct() && node.path == Snoc(parent.path, i)
      ensures freq.Keys == old(freq.Keys)
      ensures stop ==>
        nodes == Pruned(old(nodes), node.path) && DomainOk(nodes, b) && CountsOk(nodes, b) && FreqOk(freq, b)
      ensures !stop ==> nodes == old(nodes) && Removing(node, c, full, b)
      ensures KeepsLeaves()
      ensures leaves.iterators == old(leaves.iterators)
      ensures forall it :: it in leaves.iterators ==>
        OnlyPasses(old(leaves.Nodes), old(leaves.Pending(it)), leaves.Nodes, leaves.Pending(it), [])
    {
      hide PathsOk, ParentsOk, BirthsBelow, ChildrenOk, HeadersOk, LeavesOk, FreqOk, OnlyPasses, Removing, ChainBelow, CountsOk, DomainOk, List.Valid;
      node := DecrementChild(parent, i, c, full, b);
      stop := node.count == 0;
      if stop {
        PrunedApart(nodes, node.path);
        InChildren(nodes, parent, i);
        Cut(parent, i, node, full[|node.path|..], c, b);
      } else {
        PassesNoneAll([]);
      }
    }

    method DecrementChild(parent: FPNode, i: Item, c: nat, ghost full: Path, ghost b: Bag) returns (node: FPNode)
      requires leaves.Valid() && Struct() && c > 0
      requires Removing(parent, c, full, b) && Snoc(parent.path, i) <= full
      modifies `freq, nodes.Values`count
      ensures Holds(nodes, node) && node.path == Snoc(parent.path, i) && Holds(nodes, parent)
      ensures freq.Keys == old(freq.Keys)
      ensures node.count > 0 ==> Removing(node, c, full, b)
      ensures node.count == 0 ==>
        && DomainOk(Pruned(nodes, node.path), b) && CountsOk(Pruned(nodes, node.path), b)
        && ChainBelow(node.path, full[|node.path|..], c, nodes) && FreqOk(freq, b + Copies(full[|node.path|..], c))
    {
      hide ParentsOk, BirthsBelow, ChildrenOk, HeadersOk, LeavesOk, FreqOk, PartDomain, PartCounts, ChainBelow, CountsOk, DomainOk, List.Valid;
      var child := GetChild(parent, i);
      ghost var q := Snoc(parent.path, i);
      OnPath(nodes, b, full, q);
      node := child;
      DecrementOn(node, c, full, b, |parent.path|);
      if node.count == 0 {
        SnocParts(parent.path, i);
        StopHere(nodes, b, full, q, c);
      } else {
        LongerPrefixes(parent.path, i, b);
      }
    }

    /** FPNode::Remove: c transactions that go on from `start` with the given items end there instead. */
    method RemoveBelow(start: FPNode, items: Path, c: nat)
      requires Valid() && Holds(nodes, start) && c > 0 && bag[start.path + items] >= c
      modifies `nodes, `headerTable, `freq, `bag, leaves, leaves.Nodes, leaves.iterators, nodes.Values
      ensures Valid() && Holds(nodes, start)
      ensures bag == Moved(old(bag), start.path + items, start.path, c)
      ensures freq.Keys == old(freq.Keys)
      ensures GrownFrom(old(nodes), nodes)
      ensures KeepsLeaves()
      ensures leaves.iterators == old(leaves.iterators)
      ensures forall it :: it in leaves.iterators ==>
        OnlyPasses(old(leaves.Nodes), old(leaves.Pending(it)), leaves.Nodes, leaves.Pending(it), [])
    {
      hide Struct, DomainOk, CountsOk, FreqOk, OnlyPasses, Removing, Moved, List.Valid;
      ghost var full := start.path + items;
      ghost var b := Moved(bag, full, start.path, c);
      BeginRemoving(start, items, c);
      PassesNoneAll([]);
      var parent, k, stop := start, 0, false;
      assert start.path + items[..0] == start.path;
      while k < |items| && !stop
        invariant 0 <= k <= |items|
        invariant leaves.Valid() && Struct() && Holds(nodes, start) && freq.Keys == old(freq.Keys)
        invariant stop ==> DomainOk(nodes, b) && CountsOk(nodes, b) && FreqOk(freq, b)
        invariant !stop ==> parent.path == start.path + items[..k] && Removing(parent, c, full, b)
        invariant GrownFrom(old(nodes), nodes)
        invariant KeepsLeaves()
        invariant leaves.iterators == old(leaves.iterators)
        invariant forall it :: it in leaves.iterators ==>
          OnlyPasses(old(leaves.Nodes), old(leaves.Pending(it)), leaves.Nodes, leaves.Pending(it), [])
        decreases |items| - k, !stop
      {
        label Before:
        PathStep(start.path, items, k);
        var node;
        node, stop := RemoveStep(parent, items[k], c, full, b);
        forall it | it in leaves.iterators
          ensures OnlyPasses(old(leaves.Nodes), old(leaves.Pending(it)), leaves.Nodes, leaves.Pending(it), [])
        {
          PassesBoth(old(leaves.Nodes), old(leaves.Pending(it)), [],
                     old@Before(leaves.Nodes), old@Before(leaves.Pending(it)), [],
                     leaves.Nodes, leaves.Pending(it), []);
        }
        parent, k := node, k + 1;
      }
      if !stop {
        assert items[..|items|] == items;
        EndRemoving(parent, c, b);
      }
      bag := b;
    }

    lemma AddEmpty(c: nat)
      requires DomainOk(nodes, bag) && CountsOk(nodes, bag) && FreqOk(freq, bag)
      ensures DomainOk(nodes, bag + Copies([], c)) && CountsOk(nodes, bag + Copies([], c))
      ensures FreqOk(freq, bag + Copies([], c))
    {
      forall p | p != [] ensures Cnt(bag + Copies([], c), p) == Cnt(bag, p) {
        EmptyTransactions(bag, c, p, 1);
      }
      forall j: Item ensures ItemFreq(bag + Copies([], c), j) == ItemFreq(bag, j) {
        EmptyTransactions(bag, c, [], j);
      }
    }

    lemma DropEmpty(b: Bag, c: nat)
      requires DomainOk(nodes, b + Copies([], c)) && CountsOk(nodes, b + Copies([], c))
      requires FreqOk(freq, b + Copies([], c))
      ensures DomainOk(nodes, b) && CountsOk(nodes, b) && FreqOk(freq, b)
    {
      forall p | p != [] ensures Cnt(b + Copies([], c), p) == Cnt(b, p) {
        EmptyTransactions(b, c, p, 1);
      }
      forall j: Item ensures ItemFreq(b + Copies([], c), j) == ItemFreq(b, j) {
        EmptyTransactions(b, c, [], j);
      }
    }

    lemma RootHeld()
      requires Struct()
      ensures Holds(nodes, root) && root.path == []
    {
    }

    /** FPTree::Insert. */
    method Insert(txn: Path, c: nat)
      requires Valid() && c > 0
      modifies this, leaves, leaves.Nodes, leaves.iterators, nodes.Values
      ensures Valid() && bag == old(bag) + Copies(txn, c)
      ensures freqAtLastSort == old(freqAtLastSort) && KeepsHeap()
    {
      hide Struct, DomainOk, CountsOk, FreqOk, OnlyPasses, Moved, List.Valid;
      AddEmpty(c);
      InsertArrives(bag, txn, c);
      bag := bag + Copies([], c);
      RootHeld();
      assert [] + txn == txn;
      InsertBelow(root, txn, c);
    }

    lemma InsertArrives(b: Bag, txn: Path, c: nat)
      ensures Moved(b + Copies([], c), [], txn, c) == b + Copies(txn, c)
      ensures (b + Copies([], c))[[]] >= c
    {
    }

    lemma OneCopyMoved(b: Bag, txn: Path)
      ensures Moved(b, txn, [], 1) == b - multiset{txn} + Copies([], 1)
    {
    }

    /** FPTree::Remove: the transaction must be one of the tree's. */
    method Remove(txn: Path)
      requires Valid() && txn in bag
      modifies this, leaves, leaves.Nodes, leaves.iterators, nodes.Values
      ensures Valid() && bag == old(bag) - multiset{txn}
      ensures freqAtLastSort == old(freqAtLastSort) && KeepsHeap()
    {
      hide Struct, DomainOk, CountsOk, FreqOk, OnlyPasses, List.Valid, Moved, Copies;
      RootHeld();
      assert [] + txn == txn;
      OneCopyMoved(bag, txn);
      RemoveBelow(root, txn, 1);
      DropEmpty(old(bag) - multiset{txn}, 1);
      bag := old(bag) - multiset{txn};
    }

    /** Where two paths of the same length part, and the node there. */
    method Diverge(from: Path, to: Path) returns (node: FPNode, index: nat)
      requires leaves.Valid() && Struct() && |from| == |to|
      requires forall k :: 0 < k <= |from| ==> from[..k] in nodes
      ensures Holds(nodes, node) && index <= |from|
      ensures node.path == from[..index] == to[..index]
    {
      node, index := root, 0;
      RootHeld();
      while index < |from| && from[index] == to[index]
        invariant index <= |from| && Holds(nodes, node)
        invariant node.path == from[..index] == to[..index]
      {
        assert from[..index + 1] == Snoc(from[..index], from[index]);
        assert to[..index + 1] == Snoc(to[..index], to[index]);
        PathOf(nodes, from[..index + 1]);
        var child := GetChild(node, from[index]);
        node, index := child, index + 1;
      }
    }

    /** FPNode::Replace, on c transactions `from`; `to` is a rearrangement of their items. */
    method Replace(from: Path, to: Path, c: nat)
      requires Valid() && c > 0 && bag[from] >= c && multiset(from) == multiset(to)
      modifies this, leaves, leaves.Nodes, leaves.iterators, nodes.Values
      ensures Valid() && bag == Moved(old(bag), from, to, c)
      ensures freq == old(freq) && freqAtLastSort == old(freqAtLastSort) && KeepsHeap()
      ensures forall it :: it in leaves.iterators ==>
        OnlyPasses(old(leaves.Nodes), old(leaves.Pending(it)), leaves.Nodes, leaves.Pending(it), to)
    {
      hide Struct, DomainOk, CountsOk, FreqOk, OnlyPasses, Moved, Items, List.Valid;
      SamePermutation(from, to);
      OnTree(from);
      var node, index := Diverge(from, to);
      assert node.path + from[index..] == from && node.path + to[index..] == to;
      ReplaceBelow(node, from[index..], to[index..], c);
      ItemsFrom(to, index);
      SameFrequencies(old(freq), old(bag), from, to, c);
    }

    method ReplaceBelow(node: FPNode, from: Path, to: Path, c: nat)
      requires Valid() && Holds(nodes, node) && c > 0 && bag[node.path + from] >= c
      modifies this, leaves, leaves.Nodes, leaves.iterators, nodes.Values
      ensures Valid() && bag == Moved(old(bag), node.path + from, node.path + to, c)
      ensures freq.Keys == old(freq.Keys) + Items(to)
      ensures freqAtLastSort == old(freqAtLastSort) && KeepsHeap()
      ensures forall it :: it in leaves.iterators ==>
        OnlyPasses(old(leaves.Nodes), old(leaves.Pending(it)), leaves.Nodes, leaves.Pending(it), node.path + to)
    {
      hide Struct, DomainOk, CountsOk, FreqOk, OnlyPasses, Moved, Items, List.Valid;
      RemoveBelow(node, from, c);
      label Removed:
      MovedArrives(old(bag), node.path + from, node.path, c);
      MovedTwice(old(bag), node.path + from, node.path, node.path + to, c);
      InsertBelow(node, to, c);
      forall it | it in leaves.iterators
        ensures OnlyPasses(old(leaves.Nodes), old(leaves.Pending(it)), leaves.Nodes, leaves.Pending(it), node.path + to)
      {
        PassesBoth(old(leaves.Nodes), old(leaves.Pending(it)), [],
                   old@Removed(leaves.Nodes), old@Removed(leaves.Pending(it)), node.path + to,
                   leaves.Nodes, leaves.Pending(it), node.path + to);
      }
    }

    lemma OnTree(p: Path)
      requires DomainOk(nodes, bag) && p in bag
      ensures forall k :: 0 < k <= |p| ==> p[..k] in nodes
    {
      forall k | 0 < k <= |p| ensures p[..k] in nodes {
        CntPositive(bag, p[..k]);
        assert p[..k] <= p;
      }
    }

    /** Replace is frequency-neutral. */
    lemma SameFrequencies(before: map<Item, nat>, b: Bag, from: Path, to: Path, c: nat)
      requires b[from] >= c > 0 && multiset(from) == multiset(to)
      requires FreqOk(before, b) && FreqOk(freq, Moved(b, from, to, c))
      requires before.Keys <= freq.Keys <= before.Keys + Items(to)
      ensures freq == before
    {
      forall i: Item | i in freq ensures i in before && freq[i] == before[i] {
        MovedFreq(b, from, to, c, i);
        assert Get(freq, i) == Get(before, i);
        if i in to {
          OccursInBag(b, from, to, i);
        }
      }
    }

    lemma OccursInBag(b: Bag, from: Path, to: Path, i: Item)
      requires b[from] > 0 && multiset(from) == multiset(to) && i in to
      ensures ItemFreq(b, i) > 0
    {
      assert i in multiset(to);
      SumPick(b, Occurrences(i), from);
    }

    method BeginLeaves() returns (it: ListIterator<FPNode>)
      requires Valid()
      modifies leaves`iterators
      ensures Valid() && fresh(it) && leaves.iterators == old(leaves.iterators) + {it}
      ensures leaves.Pending(it) == leaves.Nodes
    {
      hide Struct, DomainOk, CountsOk, FreqOk, List.Valid, List.Pending;
      it := leaves.Begin();
    }

    method EndLeaves(it: ListIterator<FPNode>)
      requires Valid() && it in leaves.iterators
      modifies leaves`iterators
      ensures Valid() && leaves.iterators == old(leaves.iterators) - {it}
    {
      hide Struct, DomainOk, CountsOk, FreqOk, List.Valid, List.Pending;
      leaves.Release(it);
    }
  }
}
