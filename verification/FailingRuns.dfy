/** Runs of the program on which mining is not exact (src/FPTree.cpp, FPGrowth and FreqCmp). */
module FailingRuns {
  import opened Orders
  import opened Bags
  import opened FPTrees
  import opened TreeSort
  import opened Projection
  import opened Patterns
  import opened FPGrowth
  import opened TieBreaks
  import opened Streaming

  lemma SortedPair(s: Path, t: Path, less: Order)
    requires StrictTotal(less) && Sorted(s, less) && Sorted(t, less)
    ensures SortAll(multiset{s, t}, less) == multiset{s, t}
  {
    hide StrictTotal, Sorted;
    SortFixpoint(s, less);
    SortFixpoint(t, less);
    var b, f := multiset{s, t}, Sorter(less);
    forall u | u in b ensures f(u) == u {
      assert u == s || u == t;
    }
    MapIdentity(b, f);
  }

  /** A CP-tree that has loaded two transactions. */
  method LoadTwo(s: Path, t: Path, interval: nat) returns (functor: CpTreeFunctor)
    ensures fresh(functor) && functor.Valid() && functor.loaded == multiset{s, t}
    ensures functor.tree.freqAtLastSort == map[] || functor.tree.freqAtLastSort == functor.tree.freq
    ensures interval > 2 ==> functor.tree.freqAtLastSort == map[]
  {
    hide FPTree.Valid, Holding;
    var tree := new FPTree();
    functor := new CpTreeFunctor(tree, interval);
    functor.OnLoad(s);
    functor.OnLoad(t);
    assert functor.loaded == multiset{s, t};
  }

  // ---- the single-path shortcut --------------------------------------------------------------

  /** The two transactions stay in this order, whether or not the tree was sorted in between. */
  lemma ChainKeepsOrder(b: Bag, freq: map<Item, nat>, last: map<Item, nat>)
    requires b == multiset{[1, 2], [1]} && (last == map[] || (last == freq && FreqOk(freq, b)))
    ensures SortAll(b, InsertionOrder(last)) == b
  {
    hide Sum, SortAll;
    var s: Path, t: Path, less := [1, 2], [1], InsertionOrder(last);
    InsertionOrderIsStrictTotal(last);
    if last == freq && FreqOk(freq, b) {
      SumTwo(s, t, Occurrences(1));
      SumTwo(s, t, Occurrences(2));
      assert multiset(s)[1] == multiset(s)[2] == multiset(t)[1] == 1 && multiset(t)[2] == 0;
      assert Get(freq, 1) == ItemFreq(b, 1) && Get(freq, 2) == ItemFreq(b, 2);
    }
    SortedPair(s, t, less);
  }

  /** A CP-tree, however often it is sorted, that loads {1, 2} and {1} and is mined with minCount 2. */
  method ShortcutRun(interval: nat, countOf: Item -> nat, sort: Sorting) returns (functor: CpTreeFunctor, out: PatternOutput)
    requires Dependable(sort) && countOf(1) == 2 && countOf(2) == 1
    ensures functor.Valid() && functor.loaded == multiset{[1, 2], [1]}
    ensures !Enumerates(out.written, FrequentFamily(functor.loaded, 2))
  {
    hide FPTree.Valid, Dependable, Mined, Enumerates, Agree, SortAll, ChainBag, FreqOk;
    functor := LoadTwo([1, 2], [1], interval);
    var tree := functor.tree;
    ghost var b := functor.loaded;
    TableOfLoaded(tree, b);
    ChainKeepsOrder(b, tree.freq, tree.freqAtLastSort);
    assert tree.bag == b;
    PairIsAscending(b);
    CountsOfPair(b, countOf);
    out := MineFPTree(tree, countOf, 2, sort);
    ShortcutFails(b, out.written);
  }

  lemma TableOfLoaded(tree: FPTree, loaded: Bag)
    requires tree.Valid() && Holding(tree, loaded)
    ensures FreqOk(tree.freq, loaded)
  {
    hide FPTree.Struct, DomainOk, CountsOk, Sum, SortAll, InsertionOrder;
    var less := InsertionOrder(tree.freqAtLastSort);
    InsertionOrderIsStrictTotal(tree.freqAtLastSort);
    forall i: Item ensures Get(tree.freq, i) == ItemFreq(loaded, i) {
      FreqOfSorted(loaded, less, i);
      assert Get(tree.freq, i) == ItemFreq(tree.bag, i);
    }
  }

  lemma CountsOfPair(b: Bag, countOf: Item -> nat)
    requires b == multiset{[1, 2], [1]} && countOf(1) == 2 && countOf(2) == 1
    ensures forall i: Item :: ItemFreq(b, i) > 0 ==> countOf(i) == ItemFreq(b, i)
  {
    hide Sum;
    var s: Path, t: Path := [1, 2], [1];
    forall i: Item | ItemFreq(b, i) > 0 ensures countOf(i) == ItemFreq(b, i) {
      SumTwo(s, t, Occurrences(i));
      assert multiset(s)[i] == (if i == 1 || i == 2 then 1 else 0) && multiset(t)[i] == if i == 1 then 1 else 0;
    }
  }

  // ---- a sort that is not stable -------------------------------------------------------------

  lemma PairKeepsOrder(b: Bag)
    requires b == multiset{[1, 2, 9], [1, 2, 3, 9]}
    ensures SortAll(b, AppearanceOrder()) == b
  {
    AppearanceOrderIsStrictTotal();
    SortedPair([1, 2, 9], [1, 2, 3, 9], AppearanceOrder());
  }

  /** A CP-tree that loads {1, 2, 9} and {1, 2, 3, 9}, and the conditional tree of 9 that an unstable sort makes of it. */
  method UnstableRun(interval: nat) returns (functor: CpTreeFunctor, sub: FPTree)
    requires interval > 2
    ensures functor.Valid() && functor.loaded == multiset{[1, 2, 9], [1, 2, 3, 9]}
    ensures Agree(functor.tree.bag) && SortsByFreq(UnstableSort())
    ensures sub.Valid() && FoundUnder(sub.bag, 1, 1, {1, 2}) && FoundUnder(sub.bag, 1, 2, {1, 2})
  {
    hide FPTree.Valid, Agree, SortAll, FreqOk, FoundUnder, SortsByFreq, Project, MapBag, AllDistinct;
    functor := LoadTwo([1, 2, 9], [1, 2, 3, 9], interval);
    var tree := functor.tree;
    ghost var b := functor.loaded;
    PairKeepsOrder(b);
    assert tree.bag == b;
    InIdOrder(b);
    AgreeIsDistinct(b);
    NineIsThere(tree, b);
    ghost var freq;
    sub, freq := ConstructConditionalTree(tree, 9, 1, UnstableSort());
    UnstableSortFindsTwice(b, freq, sub.bag);
    UnstableSortSorts();
  }

  lemma NineIsThere(tree: FPTree, b: Bag)
    requires tree.Valid() && tree.bag == b == multiset{[1, 2, 9], [1, 2, 3, 9]}
    ensures 9 in tree.headerTable
  {
    hide FPTree.Valid, Sum;
    var s: Path, t: Path := [1, 2, 9], [1, 2, 3, 9];
    SumTwo(s, t, Occurrences(9));
    assert multiset(s)[9] == 1;
    HeaderHas(tree, 9);
  }
}
