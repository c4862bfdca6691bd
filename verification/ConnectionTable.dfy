/** Which items follow which in the tree (src/ConnectionTable.*). */
module ConnectionTables {
  import opened Orders
  import opened FPTrees

  /** The children of an item, each with the items that follow it there. */
  type ChildList = map<Item, set<Item>>

  // ---- what the table says of a tree -------------------------------------------------------

  /** A node of item a on one of the paths has a child of item b. */
  ghost predicate EdgeFrom(m: NodeMap, paths: set<Path>, a: Item, b: Item) {
    exists p :: p in paths && EndsIn(p, a) && Snoc(p, b) in m
  }

  ghost predicate EndsIn(p: Path, a: Item) {
    p != [] && Last(p) == a
  }

  /** Such a child has in turn a child of item x. */
  ghost predicate NextFrom(m: NodeMap, paths: set<Path>, a: Item, b: Item, x: Item) {
    exists p :: p in paths && EndsIn(p, a) && Snoc(p, b) in m && Snoc(Snoc(p, b), x) in m
  }

  ghost predicate OccursIn(paths: set<Path>, a: Item) {
    exists p :: p in paths && EndsIn(p, a)
  }

  ghost predicate TableOk(cl: map<Item, ChildList>, m: NodeMap, paths: set<Path>) {
    && (forall a: Item :: a in cl <==> OccursIn(paths, a))
    && (forall a, b: Item :: a in cl ==> (b in cl[a] <==> EdgeFrom(m, paths, a, b)))
    && (forall a, b, x: Item :: a in cl && b in cl[a] ==> (x in cl[a][b] <==> NextFrom(m, paths, a, b, x)))
  }

  ghost predicate RootOk(rootChildren: ChildList, m: NodeMap) {
    && (forall b: Item :: b in rootChildren <==> [b] in m)
    && (forall b, x: Item :: b in rootChildren ==> (x in rootChildren[b] <==> [b, x] in m))
  }

  // ---- breadth-first search over the tree --------------------------------------------------

  /** The queue holds exactly the nodes whose parent is done but not they themselves. */
  ghost predicate Searching(m: NodeMap, done: set<Path>, q: seq<FPNode>) {
    && (forall k :: 0 <= k < |q| ==> Holds(m, q[k]) && q[k].path !in done)
    && (forall j, k :: 0 <= j < k < |q| ==> q[j].path != q[k].path)
    && (forall p :: p in done ==> p in m)
    && (forall p {:trigger Waiting(p, done, q)} :: p in m ==> (Waiting(p, done, q) <==> p == [] || Init(p) in done))
  }

  /** Done or queued. */
  ghost predicate Waiting(p: Path, done: set<Path>, q: seq<FPNode>) {
    p in done || exists k :: 0 <= k < |q| && q[k].path == p
  }

  lemma {:induction false} AllDone(m: NodeMap, done: set<Path>, p: Path)
    requires Searching(m, done, []) && ParentsOk(m) && p in m
    ensures p in done
  {
    assert Waiting(p, done, []) <==> p == [] || Init(p) in done;
    if p != [] {
      assert m[p].parent != null;
      AllDone(m, done, Init(p));
    }
  }

  lemma SearchStep(m: NodeMap, done: set<Path>, q: seq<FPNode>, kids: seq<FPNode>)
    requires Searching(m, done, q) && q != [] && ChildrenOk(m) && PathsOk(m) && ParentsOk(m)
    requires forall k :: 0 <= k < |kids| ==> Holds(m, kids[k]) && kids[k].path != [] && Init(kids[k].path) == q[0].path
    requires forall j, k :: 0 <= j < k < |kids| ==> kids[j].path != kids[k].path
    requires forall i :: i in q[0].children ==> q[0].children[i] in kids
    ensures Searching(m, done + {q[0].path}, q[1..] + kids)
  {
    var p0, after, r := q[0].path, done + {q[0].path}, q[1..] + kids;
    forall k | 0 <= k < |kids| ensures !Waiting(kids[k].path, done, q) {
      assert Waiting(kids[k].path, done, q) <==> Init(kids[k].path) in done;
    }
    forall k | 0 <= k < |r| ensures Holds(m, r[k]) && r[k].path !in after {
      if k >= |q| - 1 {
        assert r[k] == kids[k - (|q| - 1)];
        assert |Init(r[k].path)| < |r[k].path|;
      } else {
        assert r[k] == q[k + 1];
      }
    }
    forall j, k | 0 <= j < k < |r| ensures r[j].path != r[k].path {
      if j < |q| - 1 { assert r[j] == q[j + 1]; } else { assert r[j] == kids[j - (|q| - 1)]; }
      if k < |q| - 1 { assert r[k] == q[k + 1]; } else { assert r[k] == kids[k - (|q| - 1)]; }
    }
    forall p | p in m ensures Waiting(p, after, r) <==> p == [] || Init(p) in after {
      assert Waiting(p, done, q) <==> p == [] || Init(p) in done;
      if k :| 0 <= k < |q| && q[k].path == p {
        if k > 0 { assert r[k - 1].path == p; }
      }
      if p != [] && Init(p) == p0 {
        ChildQueued(m, q[0], p, kids);
        var k :| 0 <= k < |kids| && kids[k].path == p;
        assert r[|q| - 1 + k].path == p;
      }
      if k :| 0 <= k < |r| && r[k].path == p {
        if k < |q| - 1 { assert q[k + 1].path == p; } else { assert kids[k - (|q| - 1)].path == p; }
      }
    }
  }

  lemma ChildQueued(m: NodeMap, node: FPNode, p: Path, kids: seq<FPNode>)
    requires ChildrenOk(m) && PathsOk(m) && Holds(m, node) && p in m && p != [] && Init(p) == node.path
    requires forall i :: i in node.children ==> node.children[i] in kids
    ensures exists k :: 0 <= k < |kids| && kids[k].path == p
  {
    InitLast(p);
    assert m[node.path] == node && Snoc(node.path, Last(p)) in m;
    var child := node.children[Last(p)];
    assert m[Snoc(node.path, Last(p))] == child;
    var k :| 0 <= k < |kids| && kids[k] == child;
  }

  // ---- adding one node to the table ----------------------------------------------------------

  /** What a list knows of child b. */
  ghost function Known(children: ChildList, b: Item): set<Item> {
    if b in children then children[b] else {}
  }

  /** What the node's child b adds. */
  ghost function Added(node: FPNode, b: Item): set<Item>
    reads node`children, node.children.Values`children
  {
    if b in node.children then node.children[b].children.Keys else {}
  }

  ghost predicate GrownBy(before: ChildList, after: ChildList, node: FPNode)
    reads node`children, node.children.Values`children
  {
    && after.Keys == before.Keys + node.children.Keys
    && forall b :: b in after ==> after[b] == Known(before, b) + Added(node, b)
  }

  /** The loop of addToChildren; addNewNode runs the same one from an empty list. */
  method AddToChildren(children: ChildList, node: FPNode) returns (grown: ChildList)
    ensures GrownBy(children, grown, node)
  {
    grown := children;
    var rest := node.children.Keys;
    while rest != {}
      invariant rest <= node.children.Keys
      invariant grown.Keys == children.Keys + (node.children.Keys - rest)
      invariant forall b :: b in grown ==> grown[b] == Known(children, b) + (if b in rest then {} else Added(node, b))
    {
      var b :| b in rest;
      var nextItems := if b in grown then grown[b] else {};
      nextItems := nextItems + node.children[b].children.Keys;
      grown := grown[b := nextItems];
      rest := rest - {b};
    }
  }

  /** A new or longer list for the node's item covers the node's path too. */
  lemma NodeCovered(cl: map<Item, ChildList>, m: NodeMap, done: set<Path>, node: FPNode, a: Item, list: ChildList)
    requires TableOk(cl, m, done) && PathsOk(m) && ChildrenOk(m) && Holds(m, node) && EndsIn(node.path, a)
    requires GrownBy(if a in cl then cl[a] else map[], list, node)
    ensures TableOk(cl[a := list], m, done + {node.path})
  {
    var after, p := cl[a := list], node.path;
    var more := done + {p};
    ChildrenSpec(m, node);
    forall i: Item ensures i in after <==> OccursIn(more, i) {
      OneMorePath(m, done, p, i, i, i);
      assert i in cl <==> OccursIn(done, i);
    }
    forall i, b: Item | i in after ensures b in after[i] <==> EdgeFrom(m, more, i, b) {
      OneMorePath(m, done, p, i, b, b);
      if i in cl { assert b in cl[i] <==> EdgeFrom(m, done, i, b); } else { NoEdges(m, done, i, b, b); }
    }
    forall i, b, x: Item | i in after && b in after[i] ensures x in after[i][b] <==> NextFrom(m, more, i, b, x) {
      OneMorePath(m, done, p, i, b, x);
      if i in cl {
        assert b in cl[i] <==> EdgeFrom(m, done, i, b);
        if b in cl[i] {
          assert x in cl[i][b] <==> NextFrom(m, done, i, b, x);
        } else {
          assert !NextFrom(m, done, i, b, x) by { NextIsEdge(m, done, i, b, x); }
        }
      } else {
        NoEdges(m, done, i, b, x);
      }
    }
  }

  lemma ChildrenSpec(m: NodeMap, node: FPNode)
    requires PathsOk(m) && ChildrenOk(m) && Holds(m, node)
    ensures forall b: Item :: b in node.children <==> Snoc(node.path, b) in m
    ensures forall b, x: Item :: x in Added(node, b) <==> Snoc(node.path, b) in m && Snoc(Snoc(node.path, b), x) in m
  {
    assert m[node.path] == node;
    forall b: Item ensures b in node.children <==> Snoc(node.path, b) in m {}
    forall b, x: Item ensures x in Added(node, b) <==> Snoc(node.path, b) in m && Snoc(Snoc(node.path, b), x) in m {
      var q := Snoc(node.path, b);
      if b in node.children {
        assert m[q] == node.children[b];
        assert x in m[q].children <==> Snoc(q, x) in m;
      }
    }
  }

  lemma OneMorePath(m: NodeMap, done: set<Path>, p: Path, a: Item, b: Item, x: Item)
    ensures OccursIn(done + {p}, a) <==> OccursIn(done, a) || EndsIn(p, a)
    ensures EdgeFrom(m, done + {p}, a, b) <==> EdgeFrom(m, done, a, b) || (EndsIn(p, a) && Snoc(p, b) in m)
    ensures NextFrom(m, done + {p}, a, b, x) <==>
      NextFrom(m, done, a, b, x) || (EndsIn(p, a) && Snoc(p, b) in m && Snoc(Snoc(p, b), x) in m)
  {
    hide EndsIn;
    if OccursIn(done, a) { var r :| r in done && EndsIn(r, a); assert r in done + {p}; }
    if EdgeFrom(m, done, a, b) { var r :| r in done && EndsIn(r, a) && Snoc(r, b) in m; assert r in done + {p}; }
    if NextFrom(m, done, a, b, x) {
      var r :| r in done && EndsIn(r, a) && Snoc(r, b) in m && Snoc(Snoc(r, b), x) in m;
      assert r in done + {p};
    }
  }

  lemma NoEdges(m: NodeMap, done: set<Path>, a: Item, b: Item, x: Item)
    requires !OccursIn(done, a)
    ensures !EdgeFrom(m, done, a, b) && !NextFrom(m, done, a, b, x)
  {
  }

  lemma NextIsEdge(m: NodeMap, done: set<Path>, a: Item, b: Item, x: Item)
    ensures NextFrom(m, done, a, b, x) ==> EdgeFrom(m, done, a, b)
  {
  }

  /** The root is no item: it changes nothing in the table. */
  lemma RootCovered(cl: map<Item, ChildList>, m: NodeMap, done: set<Path>)
    requires TableOk(cl, m, done)
    ensures TableOk(cl, m, done + {[]})
  {
    forall a: Item ensures a in cl <==> OccursIn(done + {[]}, a) {
      OneMorePath(m, done, [], a, a, a);
    }
    forall a, b: Item | a in cl ensures b in cl[a] <==> EdgeFrom(m, done + {[]}, a, b) {
      OneMorePath(m, done, [], a, b, b);
    }
    forall a, b, x: Item | a in cl && b in cl[a] ensures x in cl[a][b] <==> NextFrom(m, done + {[]}, a, b, x) {
      OneMorePath(m, done, [], a, b, x);
    }
  }

  lemma RootChildren(m: NodeMap, node: FPNode, rootChildren: ChildList)
    requires PathsOk(m) && ChildrenOk(m) && Holds(m, node) && node.path == [] && GrownBy(map[], rootChildren, node)
    ensures RootOk(rootChildren, m)
  {
    ChildrenSpec(m, node);
    forall b: Item ensures b in rootChildren <==> [b] in m {
      assert Snoc([], b) == [b];
    }
    forall b, x: Item | b in rootChildren ensures x in rootChildren[b] <==> [b, x] in m {
      assert Snoc([], b) == [b] && Snoc([b], x) == [b, x];
    }
  }

  lemma SameList(cl: map<Item, ChildList>, node: FPNode, a: Item)
    requires a in cl && node.children == map[]
    ensures GrownBy(cl[a], cl[a], node) && cl[a := cl[a]] == cl
  {
  }

  class ConnectionTable {
    var cl: map<Item, ChildList>
    var rootChildren: ChildList

    constructor ()
      ensures cl == map[] && rootChildren == map[]
    {
      cl, rootChildren := map[], map[];
    }

    method AddNewNode(node: FPNode) returns (ghost list: ChildList)
      requires node.item >= 0
      modifies this
      ensures GrownBy(map[], list, node)
      ensures node.item == 0 ==> cl == old(cl) && rootChildren == list
      ensures node.item > 0 ==> rootChildren == old(rootChildren) && cl == old(cl)[node.item := list]
    {
      var children := AddToChildren(map[], node);
      if node.item == 0 {
        rootChildren := children;
      } else {
        cl := cl[node.item := children];
      }
      list := children;
    }

    /** One round of createTable's loop. */
    method AddNode(node: FPNode, ghost m: NodeMap, ghost done: set<Path>)
      requires PathsOk(m) && ChildrenOk(m) && Holds(m, node) && TableOk(cl, m, done) && ([] in done ==> RootOk(rootChildren, m))
      modifies this
      ensures TableOk(cl, m, done + {node.path})
      ensures [] in done + {node.path} ==> RootOk(rootChildren, m)
    {
      hide TableOk, RootOk, GrownBy, PathsOk, ChildrenOk;
      ItemOfNode(m, node);
      if node.item == 0 || node.item !in cl {
        ghost var list := AddNewNode(node);
        if node.item == 0 {
          RootChildren(m, node, rootChildren);
          RootCovered(cl, m, done);
        } else {
          NodeCovered(old(cl), m, done, node, node.item, list);
        }
      } else if |node.children| > 0 {
        var childList := AddToChildren(cl[node.item], node);
        NodeCovered(cl, m, done, node, node.item, childList);
        cl := cl[node.item := childList];
      } else {
        assert node.children == map[];
        SameList(cl, node, node.item);
        NodeCovered(cl, m, done, node, node.item, cl[node.item]);
      }
    }

    method CreateTable(tree: FPTree)
      requires tree.Valid() && cl == map[]
      modifies this
      ensures forall a, b: Item :: a in cl && b in cl[a] <==> EdgeFrom(tree.nodes, tree.nodes.Keys, a, b)
      ensures TableOk(cl, tree.nodes, tree.nodes.Keys) && RootOk(rootChildren, tree.nodes)
    {
      hide PathsOk, ParentsOk, ChildrenOk, TableOk, RootOk, Searching, EdgeFrom;
      ghost var m, done := tree.nodes, {};
      StartSearch(tree);
      EmptyTable(m);
      var q: seq<FPNode> := [tree.root];
      while q != []
        invariant Searching(m, done, q) && TableOk(cl, m, done) && ([] in done ==> RootOk(rootChildren, m))
        decreases m.Keys - done
      {
        var node := q[0];
        FrontOfQueue(m, done, q);
        AddNode(node, m, done);
        var kids := AddChildrenToQueue(node, m);
        SearchStep(m, done, q, kids);
        q := q[1..] + kids;
        done := done + {node.path};
      }
      SearchEnds(m, done);
      TableEdges(cl, m);
    }
  }

  lemma ItemOfNode(m: NodeMap, node: FPNode)
    requires PathsOk(m) && Holds(m, node)
    ensures node.item >= 0 && (node.item == 0 <==> node.path == [])
    ensures node.item > 0 ==> EndsIn(node.path, node.item)
  {
    assert m[node.path] == node;
  }

  lemma StartSearch(tree: FPTree)
    requires tree.Valid()
    ensures PathsOk(tree.nodes) && ParentsOk(tree.nodes) && ChildrenOk(tree.nodes) && Searching(tree.nodes, {}, [tree.root])
  {
    assert tree.nodes[[]] == tree.root;
    forall p | p in tree.nodes ensures Waiting(p, {}, [tree.root]) <==> p == [] {
      assert [tree.root][0].path == [];
    }
  }

  lemma EmptyTable(m: NodeMap)
    ensures TableOk(map[], m, {})
  {
  }

  lemma FrontOfQueue(m: NodeMap, done: set<Path>, q: seq<FPNode>)
    requires Searching(m, done, q) && q != []
    ensures Holds(m, q[0]) && q[0].path !in done
  {
  }

  lemma SearchEnds(m: NodeMap, done: set<Path>)
    requires Searching(m, done, []) && ParentsOk(m) && [] in m
    ensures done == m.Keys
  {
    forall p | p in m ensures p in done {
      AllDone(m, done, p);
    }
  }

  lemma TableEdges(cl: map<Item, ChildList>, m: NodeMap)
    requires TableOk(cl, m, m.Keys)
    ensures forall a, b: Item :: a in cl && b in cl[a] <==> EdgeFrom(m, m.Keys, a, b)
  {
    forall a, b: Item ensures a in cl && b in cl[a] <==> EdgeFrom(m, m.Keys, a, b) {
      if a !in cl { NoEdges(m, m.Keys, a, b, b); }
    }
  }

  method AddChildrenToQueue(node: FPNode, ghost m: NodeMap) returns (kids: seq<FPNode>)
    requires PathsOk(m) && ChildrenOk(m) && Holds(m, node)
    ensures forall k :: 0 <= k < |kids| ==> Holds(m, kids[k]) && kids[k].path != [] && Init(kids[k].path) == node.path
    ensures forall j, k :: 0 <= j < k < |kids| ==> kids[j].path != kids[k].path
    ensures forall i :: i in node.children ==> node.children[i] in kids
  {
    kids := [];
    assert m[node.path] == node;
    var rest := node.children.Keys;
    while rest != {}
      invariant rest <= node.children.Keys
      invariant forall k :: 0 <= k < |kids| ==>
        Holds(m, kids[k]) && kids[k].path != [] && Init(kids[k].path) == node.path && Last(kids[k].path) in node.children.Keys - rest
      invariant forall j, k :: 0 <= j < k < |kids| ==> kids[j].path != kids[k].path
      invariant forall i :: i in node.children && i !in rest ==> node.children[i] in kids
    {
      var i :| i in rest;
      SnocParts(node.path, i);
      assert m[Snoc(node.path, i)] == node.children[i];
      kids := kids + [node.children[i]];
      rest := rest - {i};
    }
  }

  // ---- indirect connections --------------------------------------------------------------

  ghost predicate Step(cl: map<Item, ChildList>, a: Item, b: Item) {
    a in cl && b in cl[a]
  }

  /** A path through the table, all of whose items after the first have frequency f. */
  ghost predicate EqualPath(cl: map<Item, ChildList>, freq: map<Item, nat>, f: nat, path: seq<Item>) {
    && path != []
    && (forall k :: 0 <= k < |path| - 1 ==> Step(cl, path[k], path[k + 1]))
    && (forall k :: 0 < k < |path| ==> path[k] in freq && freq[path[k]] == f)
  }

  ghost predicate Reached(cl: map<Item, ChildList>, freq: map<Item, nat>, f: nat, a: Item, x: Item) {
    exists path :: EqualPath(cl, freq, f, path) && path[0] == a && path[|path| - 1] == x
  }

  /** There is a path from a to b whose intermediate items all have b's frequency. */
  ghost predicate Connected(cl: map<Item, ChildList>, freq: map<Item, nat>, a: Item, b: Item)
    requires b in freq
  {
    exists x :: Reached(cl, freq, freq[b], a, x) && Step(cl, x, b)
  }

  lemma ReachedStart(cl: map<Item, ChildList>, freq: map<Item, nat>, f: nat, a: Item)
    ensures Reached(cl, freq, f, a, a)
  {
    assert EqualPath(cl, freq, f, [a]);
  }

  lemma ReachedMore(cl: map<Item, ChildList>, freq: map<Item, nat>, f: nat, a: Item, x: Item, c: Item)
    requires Reached(cl, freq, f, a, x) && Step(cl, x, c) && c in freq && freq[c] == f
    ensures Reached(cl, freq, f, a, c)
  {
    var path :| EqualPath(cl, freq, f, path) && path[0] == a && path[|path| - 1] == x;
    assert EqualPath(cl, freq, f, path + [c]);
  }

  /** What is closed under steps to items of frequency f and holds a, holds everything reached. */
  lemma {:induction false} ClosedHolds(cl: map<Item, ChildList>, freq: map<Item, nat>, f: nat, path: seq<Item>, v: set<Item>)
    requires EqualPath(cl, freq, f, path) && path[0] in v
    requires forall x, c {:trigger Step(cl, x, c)} :: x in v && Step(cl, x, c) && c in freq && freq[c] == f ==> c in v
    ensures path[|path| - 1] in v
    decreases |path|
  {
    if |path| > 1 {
      assert Step(cl, path[0], path[1]);
      assert EqualPath(cl, freq, f, path[1..]) by {
        forall k | 0 <= k < |path| - 2 ensures Step(cl, path[1..][k], path[1..][k + 1]) {
          assert Step(cl, path[k + 1], path[k + 2]);
        }
      }
      ClosedHolds(cl, freq, f, path[1..], v);
    }
  }

  /** Everything the search can come across. */
  ghost function Universe(cl: map<Item, ChildList>, a: Item): set<Item> {
    {a} + (set x, c | x in cl && c in cl[x] :: c)
  }

  /** Position of the first item not visited yet. */
  ghost function FirstNew(q: seq<Item>, visited: set<Item>): nat {
    if q == [] then 0 else if q[0] !in visited then 0 else 1 + FirstNew(q[1..], visited)
  }

  lemma {:induction false} FirstNewSpec(q: seq<Item>, visited: set<Item>)
    ensures FirstNew(q, visited) <= |q|
    ensures FirstNew(q, visited) < |q| <==> exists k :: 0 <= k < |q| && q[k] !in visited
  {
    if q != [] {
      FirstNewSpec(q[1..], visited);
      assert q == [q[0]] + q[1..];
      if exists k :: 0 <= k < |q| && q[k] !in visited {
        var k :| 0 <= k < |q| && q[k] !in visited;
        if k > 0 { assert q[1..][k - 1] == q[k]; }
      }
      if k :| 0 <= k < |q[1..]| && q[1..][k] !in visited { assert q[k + 1] !in visited; }
    }
  }

  lemma {:induction false} FirstNewAppend(q: seq<Item>, more: seq<Item>, visited: set<Item>)
    ensures FirstNew(q, visited) < |q| || more == [] ==> FirstNew(q + more, visited) == FirstNew(q, visited)
  {
    if q != [] {
      assert (q + more)[1..] == q[1..] + more;
      FirstNewAppend(q[1..], more, visited);
      FirstNewSpec(q[1..], visited);
    } else if more == [] {
      assert q + more == q;
    }
  }

  /** The search so far: x's children are dealt with once x is visited, except for the item at hand. */
  ghost predicate Explored(cl: map<Item, ChildList>, freq: map<Item, nat>, a: Item, b: Item,
                           visited: set<Item>, todo: seq<Item>)
    requires b in freq
  {
    && visited <= Universe(cl, a) && (forall k :: 0 <= k < |todo| ==> todo[k] in Universe(cl, a))
    && (forall k :: 0 <= k < |todo| ==> Reached(cl, freq, freq[b], a, todo[k]))
    && (a in visited || a in todo)
    && (forall x, c {:trigger Step(cl, x, c)} :: x in visited && Step(cl, x, c) ==> c != b)
    && (forall x, c {:trigger Step(cl, x, c)} :: x in visited && Step(cl, x, c) && c in freq && freq[c] == freq[b] ==>
          c in visited || c in todo)
  }

  lemma NotConnected(cl: map<Item, ChildList>, freq: map<Item, nat>, a: Item, b: Item, visited: set<Item>)
    requires b in freq && Explored(cl, freq, a, b, visited, [])
    ensures !Connected(cl, freq, a, b)
  {
    forall x ensures !(Reached(cl, freq, freq[b], a, x) && Step(cl, x, b)) {
      if path :| EqualPath(cl, freq, freq[b], path) && path[0] == a && path[|path| - 1] == x {
        ClosedHolds(cl, freq, freq[b], path, visited);
      }
    }
  }

  /** Visiting an item: its children of b's frequency not visited before are queued. */
  method Visit(cl: map<Item, ChildList>, freq: map<Item, nat>, item: Item, b: Item, visited: set<Item>)
    returns (found: bool, pushed: seq<Item>)
    requires b in freq && forall x, c :: x in cl && c in cl[x] ==> c in freq
    ensures found <==> Step(cl, item, b)
    ensures !found ==> forall c :: c in pushed <==> Step(cl, item, c) && c in freq && freq[c] == freq[b] && c !in visited
  {
    pushed := [];
    if item !in cl {
      return false, [];
    }
    var rest := cl[item].Keys;
    while rest != {}
      invariant rest <= cl[item].Keys && (b in cl[item] ==> b in rest)
      invariant forall c :: c in pushed <==> c in cl[item] && c !in rest && freq[c] == freq[b] && c !in visited
    {
      var child :| child in rest;
      if child == b {
        return true, [];
      }
      if freq[child] == freq[b] && child !in visited {
        pushed := pushed + [child];
      }
      rest := rest - {child};
    }
    return false, pushed;
  }

  lemma ExploredMore(cl: map<Item, ChildList>, freq: map<Item, nat>, a: Item, b: Item, visited: set<Item>,
                     item: Item, q: seq<Item>, pushed: seq<Item>)
    requires b in freq && Explored(cl, freq, a, b, visited, [item] + q) && !Step(cl, item, b)
    requires forall c :: c in pushed <==> Step(cl, item, c) && c in freq && freq[c] == freq[b] && c !in visited + {item}
    ensures Explored(cl, freq, a, b, visited + {item}, q + pushed)
  {
    var todo, after := [item] + q, q + pushed;
    assert todo[0] == item;
    forall k | 0 <= k < |after|
      ensures after[k] in Universe(cl, a) && Reached(cl, freq, freq[b], a, after[k])
    {
      if k < |q| {
        assert after[k] == todo[k + 1];
      } else {
        var c := pushed[k - |q|];
        assert c in pushed;
        ReachedMore(cl, freq, freq[b], a, item, c);
      }
    }
    forall c | c in todo ensures c in visited + {item} || c in after {
      if c != item { assert c in q; }
    }
  }

  lemma ItemAtHand(cl: map<Item, ChildList>, freq: map<Item, nat>, a: Item, b: Item, visited: set<Item>,
                   item: Item, q: seq<Item>, pushed: seq<Item>)
    requires b in freq && Explored(cl, freq, a, b, visited, [item] + q)
    requires forall c :: c in pushed <==> Step(cl, item, c) && c in freq && freq[c] == freq[b] && c !in visited + {item}
    ensures item in Universe(cl, a)
    ensures item in visited ==> visited + {item} == visited
    ensures item in visited && pushed != [] ==> exists k :: 0 <= k < |q| && q[k] !in visited
  {
    assert ([item] + q)[0] == item;
    if item in visited && pushed != [] {
      var c := pushed[0];
      assert c in pushed;
      assert c in [item] + q && c in q;
      var k :| 0 <= k < |q| && q[k] == c;
    }
  }

  /** Visiting makes progress, even when the item was visited before. */
  lemma Progress(cl: map<Item, ChildList>, freq: map<Item, nat>, a: Item, b: Item, visited: set<Item>,
                 item: Item, q: seq<Item>, pushed: seq<Item>)
    requires b in freq && Explored(cl, freq, a, b, visited, [item] + q) && !Step(cl, item, b)
    requires forall c :: c in pushed <==> Step(cl, item, c) && c in freq && freq[c] == freq[b] && c !in visited + {item}
    ensures item !in visited ==> |Universe(cl, a) - (visited + {item})| < |Universe(cl, a) - visited|
    ensures item in visited ==> visited + {item} == visited && FirstNew(q + pushed, visited) < FirstNew([item] + q, visited)
  {
    hide Explored, Universe, Step, FirstNew;
    ItemAtHand(cl, freq, a, b, visited, item, q, pushed);
    if item !in visited {
      FewerLeft(Universe(cl, a), visited, item);
    } else {
      FirstNewSooner(item, q, pushed, visited);
    }
  }

  lemma FewerLeft(u: set<Item>, visited: set<Item>, item: Item)
    requires item in u && item !in visited
    ensures |u - (visited + {item})| < |u - visited|
  {
    assert u - (visited + {item}) == (u - visited) - {item};
  }

  lemma FirstNewSooner(item: Item, q: seq<Item>, pushed: seq<Item>, visited: set<Item>)
    requires item in visited
    requires pushed != [] ==> exists k :: 0 <= k < |q| && q[k] !in visited
    ensures FirstNew(q + pushed, visited) < FirstNew([item] + q, visited)
  {
    assert ([item] + q)[0] == item && ([item] + q)[1..] == q;
    FirstNewSpec(q, visited);
    FirstNewAppend(q, pushed, visited);
  }

  method IsConnected(cl: map<Item, ChildList>, a: Item, b: Item, freq: map<Item, nat>) returns (connected: bool)
    requires b in freq && forall x, c :: x in cl && c in cl[x] ==> c in freq
    ensures connected <==> Connected(cl, freq, a, b)
  {
    hide Explored, Connected, Universe, FirstNew, Reached, Step;
    var q: seq<Item> := [];
    var visited: set<Item> := {};
    var item := a;
    StartExploring(cl, freq, a, b);
    assert [a] + q == [a];
    while true
      invariant Explored(cl, freq, a, b, visited, [item] + q)
      decreases |Universe(cl, a) - visited|, FirstNew([item] + q, visited)
    {
      var found, pushed := Visit(cl, freq, item, b, visited + {item});
      if found {
        FoundConnection(cl, freq, a, b, visited, item, q);
        return true;
      }
      ExploredMore(cl, freq, a, b, visited, item, q, pushed);
      Progress(cl, freq, a, b, visited, item, q, pushed);
      visited := visited + {item};
      q := q + pushed;
      if q == [] {
        break;
      }
      assert q == [q[0]] + q[1..];
      item, q := q[0], q[1..];
    }
    NotConnected(cl, freq, a, b, visited);
    return false;
  }

  lemma StartExploring(cl: map<Item, ChildList>, freq: map<Item, nat>, a: Item, b: Item)
    requires b in freq
    ensures Explored(cl, freq, a, b, {}, [a])
  {
    ReachedStart(cl, freq, freq[b], a);
  }

  lemma FoundConnection(cl: map<Item, ChildList>, freq: map<Item, nat>, a: Item, b: Item, visited: set<Item>, item: Item, q: seq<Item>)
    requires b in freq && Explored(cl, freq, a, b, visited, [item] + q) && Step(cl, item, b)
    ensures Connected(cl, freq, a, b)
  {
    assert ([item] + q)[0] == item;
  }

  /** Either way round, if the two items are equally frequent. */
  method ConnectionExist(cl: map<Item, ChildList>, a: Item, b: Item, freq: map<Item, nat>) returns (connected: bool)
    requires forall x, c :: x in cl && c in cl[x] ==> c in freq
    ensures connected <==>
      a in freq && b in freq && (Connected(cl, freq, a, b) || (freq[a] == freq[b] && Connected(cl, freq, b, a)))
  {
    connected := false;
    if a !in freq || b !in freq {
      return;
    }
    connected := IsConnected(cl, a, b, freq);
    if !connected && freq[a] == freq[b] {
      connected := IsConnected(cl, b, a, freq);
    }
  }
}
