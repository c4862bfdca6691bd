/** Trees kept over a stream (src/CPTreeFunctor.h, src/SpoTreeFunctor.h). */
module Streaming {
  import opened Orders
  import opened Bags
  import opened FPTrees
  import opened TreeSort
  import opened Projection
  import opened Patterns
  import opened FPGrowth
  import opened SpoRanking

  /** The tree holds exactly the loaded transactions, each in the order fixed at the last sort. */
  ghost predicate Holding(tree: FPTree, loaded: Bag)
    reads tree`bag, tree`freqAtLastSort
  {
    tree.bag == SortAll(loaded, InsertionOrder(tree.freqAtLastSort))
  }

  // ---- what the functors' steps do to the bag ----------------------------------------------

  lemma LoadOne(loaded: Bag, txn: Path, less: Order)
    ensures SortAll(loaded, less) + Copies(SortPath(txn, less), 1) == SortAll(loaded + multiset{txn}, less)
  {
    MapAdd(loaded, Sorter(less), txn);
    assert Copies(SortPath(txn, less), 1) == multiset{SortPath(txn, less)};
  }

  /** A loaded transaction's path is in the tree whatever happened to the order since. */
  lemma UnloadOne(loaded: Bag, txn: Path, less: Order)
    requires txn in loaded
    ensures SortPath(txn, less) in SortAll(loaded, less)
    ensures SortAll(loaded, less) - multiset{SortPath(txn, less)} == SortAll(loaded - multiset{txn}, less)
  {
    MapPick(loaded, Sorter(less), txn);
    MapMembers(loaded, Sorter(less), SortPath(txn, less));
    assert Sorter(less)(txn) == SortPath(txn, less);
  }

  lemma EmptyTableOrder(t: Path)
    ensures SortPath(t, TableOrder(map[])) == SortPath(t, AppearanceOrder())
  {
    var a, b := TableOrder(map[]), AppearanceOrder();
    TableOrderIsStrictTotal(map[]);
    AppearanceOrderIsStrictTotal();
    SortPathSpec(t, a);
    SortPathSpec(t, b);
    SortUnique(SortPath(t, a), SortPath(t, b), b);
  }

  /** After a sort by the live table, later transactions are inserted in that table's order. */
  lemma SortAgain(loaded: Bag, before: map<Item, nat>, freq: map<Item, nat>)
    ensures SortAll(SortAll(loaded, InsertionOrder(before)), TableOrder(freq)) == SortAll(loaded, InsertionOrder(freq))
  {
    InsertionOrderIsStrictTotal(before);
    TableOrderIsStrictTotal(freq);
    forall t | t in loaded
      ensures Sorter(TableOrder(freq))(Sorter(InsertionOrder(before))(t)) == Sorter(InsertionOrder(freq))(t)
    {
      ResortPath(t, InsertionOrder(before), TableOrder(freq));
      EmptyTableOrder(t);
    }
    MapCompose(loaded, Sorter(InsertionOrder(before)), Sorter(TableOrder(freq)), Sorter(InsertionOrder(freq)));
  }

  // ---- the steps -----------------------------------------------------------------------

  method LoadInto(tree: FPTree, txn: Path, ghost loaded: Bag) returns (t: Path)
    requires tree.Valid() && Holding(tree, loaded)
    modifies tree, tree.leaves, tree.leaves.Nodes, tree.leaves.iterators, tree.nodes.Values
    ensures tree.Valid() && Holding(tree, loaded + multiset{txn})
    ensures multiset(t) == multiset(txn) && tree.freqAtLastSort == old(tree.freqAtLastSort)
    ensures t == SortPath(txn, InsertionOrder(tree.freqAtLastSort))
    ensures tree.KeepsHeap()
  {
    hide FPTree.Valid, SortAll, SortPath, InsertionOrder, Copies, StrictTotal, Sorted;
    t := SortTransaction(tree, txn);
    LoadOne(loaded, txn, InsertionOrder(tree.freqAtLastSort));
    tree.Insert(t, 1);
  }

  method UnloadFrom(tree: FPTree, txn: Path, ghost loaded: Bag)
    requires tree.Valid() && Holding(tree, loaded) && txn in loaded
    modifies tree, tree.leaves, tree.leaves.Nodes, tree.leaves.iterators, tree.nodes.Values
    ensures tree.Valid() && Holding(tree, loaded - multiset{txn})
    ensures tree.KeepsHeap()
  {
    hide FPTree.Valid, SortAll, SortPath, InsertionOrder;
    var t := SortTransaction(tree, txn);
    UnloadOne(loaded, txn, InsertionOrder(tree.freqAtLastSort));
    tree.Remove(t);
  }

  method Resort(tree: FPTree, ghost loaded: Bag)
    requires tree.Valid() && Holding(tree, loaded)
    modifies tree, tree.leaves, tree.leaves.Nodes, tree.leaves.iterators, tree.nodes.Values
    ensures tree.Valid() && Holding(tree, loaded) && tree.freqAtLastSort == tree.freq == old(tree.freq)
    ensures tree.KeepsHeap()
  {
    hide FPTree.Valid, SortAll, SortPath, InsertionOrder;
    SortAgain(loaded, tree.freqAtLastSort, tree.freq);
    Sort(tree);
  }

  // ---- the CP-tree: re-sorted every `interval` loads -----------------------------------------

  class CpTreeFunctor {
    const tree: FPTree
    const interval: nat
    var count: nat
    /** The transactions loaded and not yet unloaded, as delivered. */
    ghost var loaded: Bag

    ghost predicate Valid()
      reads this, tree, tree.leaves, tree.leaves.Nodes, tree.leaves.iterators, tree.nodes.Values
    {
      tree.Valid() && Holding(tree, loaded) && (interval > 0 ==> count < interval)
    }

    constructor (t: FPTree, every: nat)
      requires t.Valid() && t.bag == multiset{}
      ensures Valid() && tree == t && interval == every && count == 0 && loaded == multiset{}
    {
      tree, interval, count, loaded := t, every, 0, multiset{};
    }

    method OnLoad(txn: Path)
      requires Valid()
      modifies this, tree, tree.leaves, tree.leaves.Nodes, tree.leaves.iterators, tree.nodes.Values
      ensures Valid() && loaded == old(loaded) + multiset{txn}
      ensures old(count) + 1 == interval ==> count == 0 && tree.freqAtLastSort == tree.freq
      ensures old(count) + 1 != interval ==> count == old(count) + 1 && tree.freqAtLastSort == old(tree.freqAtLastSort)
      ensures tree.KeepsHeap()
    {
      hide FPTree.Valid, Holding;
      var t := LoadInto(tree, txn, loaded);
      loaded := loaded + multiset{txn};
      count := count + 1;
      ResortWhenDue();
    }

    method ResortWhenDue()
      requires tree.Valid() && Holding(tree, loaded) && count > 0 && (interval > 0 ==> count <= interval)
      modifies `count, tree, tree.leaves, tree.leaves.Nodes, tree.leaves.iterators, tree.nodes.Values
      ensures Valid()
      ensures old(count) == interval ==> count == 0 && tree.freqAtLastSort == tree.freq
      ensures old(count) != interval ==> count == old(count) && tree.freqAtLastSort == old(tree.freqAtLastSort)
      ensures tree.KeepsHeap()
    {
      hide FPTree.Valid, Holding;
      if count == interval {
        Resort(tree, loaded);
        count := 0;
      }
    }

    method OnUnload(txn: Path)
      requires Valid() && txn in loaded
      modifies this, tree, tree.leaves, tree.leaves.Nodes, tree.leaves.iterators, tree.nodes.Values
      ensures Valid() && loaded == old(loaded) - multiset{txn} && count == old(count)
      ensures tree.KeepsHeap()
    {
      hide FPTree.Valid, Holding;
      UnloadFrom(tree, txn, loaded);
      loaded := loaded - multiset{txn};
    }
  }

  // ---- the Spo-tree: re-sorted when the item ranks have moved too far ------------------------

  class SpoTreeFunctor {
    const tree: FPTree
    const ranks: SpoRanks
    const threshold: real
    ghost var loaded: Bag

    ghost predicate Valid()
      reads this, ranks, tree, tree.leaves, tree.leaves.Nodes, tree.leaves.iterators, tree.nodes.Values
    {
      tree.Valid() && Holding(tree, loaded) && ranks.Valid()
    }

    constructor (t: FPTree, limit: real)
      requires t.Valid() && t.bag == multiset{}
      ensures Valid() && tree == t && threshold == limit && loaded == multiset{} && fresh(ranks) && ranks.ranking == []
    {
      tree, threshold, loaded := t, limit, multiset{};
      ranks := new SpoRanks();
    }

    /** The tree is re-sorted when the entropy after the load is over the threshold. */
    method OnLoad(txn: Path)
      requires Valid()
      modifies this, ranks, tree, tree.leaves, tree.leaves.Nodes, tree.leaves.iterators, tree.nodes.Values
      ensures Valid() && loaded == old(loaded) + multiset{txn}
      ensures ranks.lookup.Keys == old(ranks.lookup.Keys) + Items(txn)
      ensures threshold >= 0.0 ==> ranks.GetRankEntropy() == None || ranks.GetRankEntropy().value <= threshold
      ensures tree.freqAtLastSort == old(tree.freqAtLastSort) || (tree.freqAtLastSort == tree.freq && ranks.diffSum == 0)
      ensures tree.KeepsHeap()
    {
      hide FPTree.Valid, Holding, SpoRanks.Valid, Items;
      var t := LoadInto(tree, txn, loaded);
      loaded := loaded + multiset{txn};
      ranks.Adjust(t, tree.freq);
      SameItems(t, txn);
      ResortIfMoved();
    }

    /** NaN, the entropy of fewer than two items, is over no threshold. */
    method ResortIfMoved()
      requires Valid()
      modifies ranks, tree, tree.leaves, tree.leaves.Nodes, tree.leaves.iterators, tree.nodes.Values
      ensures Valid() && ranks.lookup == old(ranks.lookup)
      ensures var e := old(ranks.GetRankEntropy());
        if e.Some? && e.value > threshold then tree.freqAtLastSort == tree.freq && ranks.diffSum == 0
        else tree.freqAtLastSort == old(tree.freqAtLastSort) && ranks.GetRankEntropy() == e
      ensures threshold >= 0.0 ==> ranks.GetRankEntropy() == None || ranks.GetRankEntropy().value <= threshold
      ensures tree.KeepsHeap()
    {
      hide FPTree.Valid, Holding, SpoRanks.Valid;
      var entropy := ranks.GetRankEntropy();
      if entropy.Some? && entropy.value > threshold {
        Resort(tree, loaded);
        ranks.ResetEntropy();
        NoEntropy(ranks);
      }
    }

    method OnUnload(txn: Path)
      requires Valid() && txn in loaded
      modifies this, tree, tree.leaves, tree.leaves.Nodes, tree.leaves.iterators, tree.nodes.Values
      ensures Valid() && loaded == old(loaded) - multiset{txn}
      ensures tree.KeepsHeap()
    {
      hide FPTree.Valid, Holding, SpoRanks.Valid;
      UnloadFrom(tree, txn, loaded);
      loaded := loaded - multiset{txn};
    }
  }

  lemma SameItems(s: Path, t: Path)
    requires multiset(s) == multiset(t)
    ensures Items(s) == Items(t)
  {
    SamePermutation(s, t);
  }

  lemma NoEntropy(ranks: SpoRanks)
    requires ranks.Valid() && ranks.diffSum == 0
    ensures ranks.GetRankEntropy() == None || ranks.GetRankEntropy().value == 0.0
  {
    var n := |ranks.ranking|;
    MostIsEnough(n);
    if n >= 2 {
      assert 0 as real / (n * (n - 1) + n * n / 4) as real == 0.0;
    }
  }

  // ---- mining a streamed tree ------------------------------------------------------------

  /** Sorting the transactions changes no itemset's support and no item's frequency. */
  lemma SupportOfSorted(b: Bag, less: Order, s: set<Item>)
    requires StrictTotal(less)
    ensures Support(SortAll(b, less), s) == Support(b, s)
  {
    forall t: Path | t in b ensures Contains(s)(Sorter(less)(t)) == Contains(s)(t) {
      SortPathSpec(t, less);
      SamePermutation(t, SortPath(t, less));
    }
    SumMap(b, Sorter(less), Contains(s), Contains(s));
  }

  lemma FreqOfSorted(b: Bag, less: Order, i: Item)
    requires StrictTotal(less)
    ensures ItemFreq(SortAll(b, less), i) == ItemFreq(b, i)
  {
    forall t: Path | t in b ensures Occurrences(i)(Sorter(less)(t)) == Occurrences(i)(t) {
      SortPathSpec(t, less);
    }
    SumMap(b, Sorter(less), Occurrences(i), Occurrences(i));
  }

  lemma SortedIsConsistent(b: Bag, less: Order)
    requires StrictTotal(less) && AllDistinct(b)
    ensures Consistent(SortAll(b, less), less)
  {
    forall t: Path | t in SortAll(b, less) ensures Ascending(t, less) {
      MapMembers(b, Sorter(less), t);
      var u :| u in b && Sorter(less)(u) == t;
      SortPathSpec(u, less);
      SamePermutation(u, t);
      AscendingIffSortedDistinct(t, less);
    }
  }

  /** The frequent itemsets of the sorted transactions are those of the transactions as delivered. */
  lemma FrequentWhileSorted(b: Bag, less: Order, minCount: nat, rs: seq<Path>)
    requires StrictTotal(less)
    ensures Enumerates(rs, FrequentFamily(SortAll(b, less), minCount)) <==> Enumerates(rs, FrequentFamily(b, minCount))
  {
    forall s ensures FrequentFamily(SortAll(b, less), minCount)(s) <==> FrequentFamily(b, minCount)(s) {
      SupportOfSorted(b, less, s);
    }
    if Enumerates(rs, FrequentFamily(b, minCount)) {
      EnumeratesSame(rs, FrequentFamily(b, minCount), FrequentFamily(SortAll(b, less), minCount));
    }
    if Enumerates(rs, FrequentFamily(SortAll(b, less), minCount)) {
      EnumeratesSame(rs, FrequentFamily(SortAll(b, less), minCount), FrequentFamily(b, minCount));
    }
  }

  /**
   * Mining a streamed tree writes exactly the frequent itemsets of the loaded transactions, if and
   * only if the tree is no chain of two or more nodes with an infrequent item.
   */
  method MineLoaded(tree: FPTree, ghost loaded: Bag, countOf: Item -> nat, minCount: nat, sort: Sorting) returns (out: PatternOutput)
    requires tree.Valid() && Holding(tree, loaded) && AllDistinct(loaded) && Dependable(sort)
    requires minCount > 0 && forall i: Item :: ItemFreq(loaded, i) > 0 ==> countOf(i) == ItemFreq(loaded, i)
    ensures fresh(out)
    ensures Enumerates(out.written, FrequentFamily(loaded, minCount)) <==>
      forall c :: ChainBag(tree.bag, c) ==> forall i :: i in c ==> ItemFreq(loaded, i) >= minCount
  {
    hide FPTree.Valid, Agree, Consistent, Dependable, StrictTotal, Mined, Enumerates, ChainBag, AllDistinct, SortAll, InsertionOrder, Sum, Occurrences;
    ghost var less := InsertionOrder(tree.freqAtLastSort);
    InsertionOrderIsStrictTotal(tree.freqAtLastSort);
    SortedIsConsistent(loaded, less);
    ConsistentAgrees(tree.bag, less);
    forall i: Item ensures ItemFreq(tree.bag, i) == ItemFreq(loaded, i) {
      FreqOfSorted(loaded, less, i);
    }
    out := MineFPTree(tree, countOf, minCount, sort);
    FrequentWhileSorted(loaded, less, minCount, out.written);
  }
}
