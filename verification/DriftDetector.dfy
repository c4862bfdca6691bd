/** The drift detector over tree, data set and check points (src/StructuralStreamDriftDetector.*). */
module DriftDetection {
  import opened Orders
  import opened Bags
  import opened FPTrees
  import opened TreeSort
  import opened VariableWindow
  import opened CheckPoints
  import opened Projection
  import opened Patterns
  import FPGrowth
  import WindowIndexes
  import Streaming

  /** How the detector looks for an unstable block. */
  datatype Method = Progressive | Partition | Distribution

  /** What the statistics say of one block; their arithmetic is not part of this model. */
  datatype Verdict = Stable | Similar | Unstable

  /** Block length in adaptive mode. */
  const AW_CHECK_INTERVAL: nat := 1032

  // ---- the tree and the data set hold the same transactions --------------------------------

  lemma SortedIsSame(loaded: Bag, txn: Path, less: Order)
    requires StrictTotal(less)
    ensures SortAll(loaded + multiset{SortPath(txn, less)}, less) == SortAll(loaded + multiset{txn}, less)
  {
    ResortPath(txn, less, less);
    MapAdd(loaded, Sorter(less), txn);
    MapAdd(loaded, Sorter(less), SortPath(txn, less));
  }

  lemma AllOfMore(ts: seq<Transaction>, t: Transaction)
    ensures AllOf(ts + [t]) == AllOf(ts) + multiset{t.items}
  {
    assert ItemsOf(ts + [t]) == ItemsOf(ts) + [t.items];
  }

  lemma AllOfFront(ts: seq<Transaction>)
    requires ts != []
    ensures ts[0].items in AllOf(ts) && AllOf(ts) - multiset{ts[0].items} == AllOf(ts[1..])
  {
    assert ItemsOf(ts) == [ts[0].items] + ItemsOf(ts[1..]);
  }

  /** The live table of a tree that holds the sorted transactions counts the transactions. */
  lemma LiveTableCounts(tree: FPTree, loaded: Bag)
    requires tree.Valid() && Streaming.Holding(tree, loaded)
    ensures FreqOk(tree.freq, loaded)
  {
    hide SortAll, ItemFreq;
    InsertionOrderIsStrictTotal(tree.freqAtLastSort);
    forall i: Item ensures Get(tree.freq, i) == ItemFreq(loaded, i) {
      Streaming.FreqOfSorted(loaded, InsertionOrder(tree.freqAtLastSort), i);
      assert Get(tree.freq, i) == ItemFreq(tree.bag, i);
    }
  }

  // ---- taking a purged transaction out of the tables ----------------------------------------

  /** Items of a table each at least as frequent as in t. */
  ghost predicate CountsAtLeast(table: map<Item, nat>, t: Path) {
    forall i: Item :: Get(table, i) >= multiset(t)[i]
  }

  ghost predicate LoweredBy(before: map<Item, nat>, after: map<Item, nat>, t: Path) {
    forall i: Item :: Get(before, i) == Get(after, i) + multiset(t)[i]
  }

  lemma LoweredNone(table: map<Item, nat>)
    ensures LoweredBy(table, table, [])
  {
  }

  lemma LowerOne(before: map<Item, nat>, table: map<Item, nat>, t: Path, k: nat)
    requires k < |t| && CountsAtLeast(before, t) && LoweredBy(before, table, t[..k])
    ensures t[k] in table && table[t[k]] >= 1
    ensures LoweredBy(before, table[t[k] := table[t[k]] - 1], t[..k + 1])
  {
    assert t[..k + 1] == t[..k] + [t[k]];
    assert multiset(t[..k + 1]) == multiset(t[..k]) + multiset{t[k]};
    assert t == t[..k + 1] + t[k + 1..];
    assert multiset(t) == multiset(t[..k + 1]) + multiset(t[k + 1..]);
    assert Get(before, t[k]) >= multiset(t)[t[k]] >= multiset(t[..k])[t[k]] + 1;
  }

  /** The inner loop of PurgeBlocksUpTo; no decrement goes below zero. */
  method LowerTable(table: map<Item, nat>, items: Path) returns (lowered: map<Item, nat>)
    requires CountsAtLeast(table, items)
    ensures LoweredBy(table, lowered, items)
  {
    hide LoweredBy, CountsAtLeast;
    lowered := table;
    LoweredNone(table);
    assert items[..0] == [];
    for k := 0 to |items|
      invariant LoweredBy(table, lowered, items[..k])
    {
      LowerOne(table, lowered, items, k);
      lowered := lowered[items[k] := lowered[items[k]] - 1];
    }
    assert items[..|items|] == items;
  }

  lemma FrontCounted(table: map<Item, nat>, ts: seq<Transaction>, end: nat)
    requires ts != [] && ts[0].id <= end && FreqOk(table, BagUpto(ts, end))
    ensures CountsAtLeast(table, ts[0].items)
    ensures forall after :: LoweredBy(table, after, ts[0].items) ==> FreqOk(after, BagUpto(ts[1..], end))
  {
    hide Sum, BagUpto;
    BagUptoFront(ts, end);
    forall i: Item ensures ItemFreq(BagUpto(ts, end), i) == ItemFreq(BagUpto(ts[1..], end), i) + multiset(ts[0].items)[i] {
      SumAdd(BagUpto(ts[1..], end), Occurrences(i), ts[0].items);
    }
  }

  class StructuralStreamDriftDetector {
    const tree: FPTree
    const dataSet: VariableWindowDataSet
    const interval: nat
    const adaptive: bool
    const how: Method
    var checkPoints: seq<CheckPoint>

    /** Adaptive windows that are not merged by similarity. */
    predicate Histogram() {
      adaptive && how != Progressive
    }

    ghost predicate TreeOk()
      reads dataSet, tree, tree.leaves, tree.leaves.Nodes, tree.leaves.iterators, tree.nodes.Values
    {
      tree.Valid() && dataSet.Valid() && Streaming.Holding(tree, AllOf(dataSet.transactions))
    }

    ghost predicate BlocksOk()
      reads this, dataSet
    {
      BlocksFit(checkPoints, dataSet.transactions, dataSet.FrontId(), dataSet.NextId(), interval)
    }

    ghost predicate Valid()
      reads this, dataSet, tree, tree.leaves, tree.leaves.Nodes, tree.leaves.iterators, tree.nodes.Values
    {
      && interval > 0 && (adaptive ==> interval == AW_CHECK_INTERVAL)
      && TreeOk() && BlocksOk() && (Histogram() ==> KeepsHistogram(checkPoints, interval))
      && NoRepeats(dataSet.transactions)
    }

    constructor (t: FPTree, d: VariableWindowDataSet, checkInterval: nat, adaptiveWindow: bool, search: Method)
      requires t.Valid() && t.bag == multiset{} && d.Valid() && d.transactions == [] && d.FrontId() == 0 && checkInterval > 0
      ensures Valid() && tree == t && dataSet == d && checkPoints == []
    {
      tree, dataSet, checkPoints := t, d, [];
      interval := if adaptiveWindow then AW_CHECK_INTERVAL else checkInterval;
      adaptive, how := adaptiveWindow, search;
      new;
      assert AllOf(d.transactions) == multiset{};
    }

    method MergeCheckPointWithNext(blockIndex: nat)
      requires blockIndex + 1 < |checkPoints|
      modifies `checkPoints
      ensures checkPoints == MergedAt(old(checkPoints), blockIndex)
    {
      var block, next := checkPoints[blockIndex], checkPoints[blockIndex + 1];
      block := block.(endTid := next.endTid);
      block := block.(table := map[]);
      block := block.(table := AddTable(block.table, next.table));
      checkPoints := checkPoints[blockIndex := block];
      checkPoints := checkPoints[..blockIndex + 1] + checkPoints[blockIndex + 2..];
    }

    /** arrangeCheckPoints(2). */
    method ArrangeCheckPoints()
      requires BlocksOk() && interval >= 2 && checkPoints != []
      requires Histogram() ==> Overflowing(Capacities(checkPoints, interval), |checkPoints| - 3, 1)
      modifies `checkPoints
      ensures BlocksOk() && checkPoints != [] && (Histogram() ==> KeepsHistogram(checkPoints, interval))
      ensures checkPoints[|checkPoints| - 1].endTid == old(checkPoints)[|old(checkPoints)| - 1].endTid
      ensures Coarser(old(checkPoints), checkPoints)
    {
      hide TablesExact, EndsBelow, Covering, MergedAt, Capacities, Exponential, Overflowing, Capacity, Contiguous, Coarser;
      CoarserSelf(checkPoints);
      var idx: int := |checkPoints| - 3;
      var expCap: nat := 1;
      while idx >= 0 && CapacityAt(idx) == expCap
        invariant BlocksOk() && -2 <= idx && idx + 2 < |checkPoints| && expCap > 0
        invariant Histogram() ==> Overflowing(Capacities(checkPoints, interval), idx, expCap)
        invariant checkPoints[|checkPoints| - 1].endTid == old(checkPoints)[|old(checkPoints)| - 1].endTid
        invariant Coarser(old(checkPoints), checkPoints)
        decreases idx
      {
        if Histogram() { ArrangeStep(Capacities(checkPoints, interval), idx, expCap); }
        MergeJoinsCapacities(checkPoints, idx, interval);
        Merge(idx, old(checkPoints));
        idx := idx - 2;
        expCap := expCap * 2;
      }
      if Histogram() {
        ArrangeEnds(Capacities(checkPoints, interval), idx, expCap);
      }
    }

    function CapacityAt(k: nat): (c: nat)
      requires k < |checkPoints| && interval >= 2 && BlocksOk()
      reads this, dataSet
      ensures c == Capacities(checkPoints, interval)[k]
    {
      assert WholeBlock(checkPoints[k], interval);
      Capacity(checkPoints[k], interval)
    }

    // ---- looking for an unstable block -----------------------------------------------------

    /** From the newest block on; the oldest one is never tried. */
    method FindUnstableByDistributionChange(verdict: (nat, nat) -> Verdict) returns (unstable: int)
      requires checkPoints != []
      ensures FoundBy(Distribution, adaptive, verdict, checkPoints, checkPoints, unstable)
    {
      hide Coarser;
      CoarserSelf(checkPoints);
      if |checkPoints| == 1 {
        return -1;
      }
      var blockIndex: int := |checkPoints| - 2;
      while blockIndex > 0
        invariant 0 <= blockIndex <= |checkPoints| - 2
        invariant forall b: nat :: blockIndex < b < |checkPoints| - 1 ==> verdict(b, |checkPoints|) != Unstable
      {
        if verdict(blockIndex, |checkPoints|) == Unstable {
          return blockIndex;
        }
        blockIndex := blockIndex - 1;
      }
      return -1;
    }

    /** From the newest block to the oldest; similar neighbours are merged on the way. */
    method FindUnstableByProgressive(verdict: (nat, nat) -> Verdict) returns (unstable: int)
      requires BlocksOk() && checkPoints != [] && !Histogram()
      modifies `checkPoints
      ensures BlocksOk() && checkPoints != []
      ensures checkPoints[|checkPoints| - 1].endTid == old(checkPoints)[|old(checkPoints)| - 1].endTid
      ensures FoundBy(Progressive, adaptive, verdict, old(checkPoints), checkPoints, unstable)
    {
      hide BlocksFit, MergedAt, Coarser, Downwards, FoundBy;
      ghost var before := checkPoints;
      StartDownwards(verdict, before);
      var blockIndex: int := |checkPoints| - 2;
      while blockIndex >= 0
        invariant BlocksOk() && -1 <= blockIndex < |checkPoints| - 1
        invariant checkPoints[|checkPoints| - 1].endTid == before[|before| - 1].endTid
        invariant Coarser(before, checkPoints) && Downwards(verdict, before, checkPoints, blockIndex)
      {
        var v := verdict(blockIndex, |checkPoints|);
        if v == Unstable {
          FoundDownwards(verdict, before, checkPoints, blockIndex, adaptive);
          return blockIndex;
        }
        OneDown(verdict, before, checkPoints, blockIndex);
        if v == Similar {
          Merge(blockIndex, before);
        }
        blockIndex := blockIndex - 1;
      }
      NoneDownwards(verdict, before, checkPoints, adaptive);
      return -1;
    }

    /** From the oldest block on; a merged block is looked at again. */
    method FindUnstableByPartition(verdict: (nat, nat) -> Verdict) returns (unstable: int)
      requires BlocksOk() && checkPoints != []
      modifies `checkPoints
      ensures BlocksOk() && checkPoints != []
      ensures checkPoints[|checkPoints| - 1].endTid == old(checkPoints)[|old(checkPoints)| - 1].endTid
      ensures FoundBy(Partition, adaptive, verdict, old(checkPoints), checkPoints, unstable)
    {
      hide BlocksFit, MergedAt, Coarser, Upwards, FoundBy;
      ghost var before := checkPoints;
      StartUpwards(verdict, before, adaptive);
      var lastBlockIndex := |checkPoints| - 1;
      var blockIndex := 0;
      while blockIndex < lastBlockIndex && |checkPoints| > 1
        invariant BlocksOk() && 0 <= blockIndex <= lastBlockIndex == |checkPoints| - 1
        invariant checkPoints[|checkPoints| - 1].endTid == before[|before| - 1].endTid
        invariant Coarser(before, checkPoints) && Upwards(verdict, before, checkPoints, blockIndex, adaptive)
        decreases |checkPoints| - blockIndex
      {
        var v := verdict(blockIndex, |checkPoints|);
        if v == Unstable {
          FoundUpwards(verdict, before, checkPoints, blockIndex, adaptive);
          return blockIndex;
        }
        OneUp(verdict, before, checkPoints, blockIndex, adaptive);
        if !adaptive {
          if v == Similar {
            Merge(blockIndex, before);
          } else {
            blockIndex := blockIndex + 1;
          }
          lastBlockIndex := |checkPoints| - 1;
        } else {
          blockIndex := blockIndex + 1;
        }
      }
      NoneUpwards(verdict, before, checkPoints, adaptive);
      return -1;
    }

    method Merge(k: nat, ghost fine: seq<CheckPoint>)
      requires BlocksOk() && k + 1 < |checkPoints| && Coarser(fine, checkPoints)
      modifies `checkPoints
      ensures BlocksOk() && |checkPoints| == |old(checkPoints)| - 1
      ensures checkPoints == MergedAt(old(checkPoints), k)
      ensures checkPoints[|checkPoints| - 1].endTid == old(checkPoints)[|old(checkPoints)| - 1].endTid
      ensures Coarser(fine, checkPoints)
    {
      hide BlocksFit, Coarser;
      MergeIsCoarser(fine, checkPoints, k);
      MergeFits(checkPoints, k, dataSet.transactions, dataSet.FrontId(), dataSet.NextId(), interval);
      MergedEntry(checkPoints, k, |checkPoints| - 2);
      MergeCheckPointWithNext(k);
    }

    method FindLastUnstableCheckPoint(verdict: (nat, nat) -> Verdict) returns (unstable: int)
      requires BlocksOk() && checkPoints != [] && (Histogram() ==> KeepsHistogram(checkPoints, interval))
      requires how != Progressive && adaptive ==> interval >= 2
      modifies `checkPoints
      ensures BlocksOk() && checkPoints != [] && (Histogram() ==> KeepsHistogram(checkPoints, interval))
      ensures checkPoints[|checkPoints| - 1].endTid == old(checkPoints)[|old(checkPoints)| - 1].endTid
      ensures FoundBy(how, adaptive, verdict, old(checkPoints), checkPoints, unstable)
    {
      hide BlocksFit, KeepsHistogram, Coarser, Passed;
      match how
      case Distribution => unstable := FindUnstableByDistributionChange(verdict);
      case Partition => unstable := FindUnstableByPartition(verdict);
      case Progressive => unstable := FindUnstableByProgressive(verdict);
    }

    // ---- purging ---------------------------------------------------------------------------

    /** The front transaction leaves tree and data set. */
    method DropFront()
      requires TreeOk() && dataSet.transactions != []
      modifies dataSet, tree, tree.leaves, tree.leaves.Nodes, tree.leaves.iterators, tree.nodes.Values
      ensures TreeOk() && dataSet.transactions == old(dataSet.transactions)[1..] && dataSet.FrontId() == old(dataSet.FrontId()) + 1
      ensures tree.KeepsHeap()
    {
      hide FPTree.Valid, VariableWindowDataSet.Valid, Streaming.Holding;
      AllOfFront(dataSet.transactions);
      var transaction := dataSet.Front();
      Streaming.UnloadFrom(tree, transaction.items, AllOf(dataSet.transactions));
      dataSet.Pop();
    }

    /** The items of a purged transaction leave the tables of the blocks from `from` on. */
    method LowerTables(from: nat, items: Path, ghost ts: seq<Transaction>)
      requires from <= |checkPoints| && ts != [] && ts[0].items == items && TablesExact(checkPoints[from..], ts)
      requires forall k :: from <= k < |checkPoints| ==> ts[0].id <= checkPoints[k].endTid
      modifies `checkPoints
      ensures SameBlocks(old(checkPoints), checkPoints) && checkPoints[..from] == old(checkPoints)[..from]
      ensures TablesExact(checkPoints[from..], ts[1..])
    {
      hide BagUpto, FreqOk;
      for idx := from to |checkPoints|
        invariant SameBlocks(old(checkPoints), checkPoints) && checkPoints[..from] == old(checkPoints)[..from]
        invariant forall k :: from <= k < idx ==> FreqOk(checkPoints[k].table, BagUpto(ts[1..], checkPoints[k].endTid))
        invariant forall k :: idx <= k < |checkPoints| ==> FreqOk(checkPoints[k].table, BagUpto(ts, checkPoints[k].endTid))
      {
        var c := checkPoints[idx];
        FrontCounted(c.table, ts, c.endTid);
        var lowered := LowerTable(c.table, items);
        checkPoints := checkPoints[idx := c.(table := lowered)];
      }
    }

    /** One round of the purging loop. */
    method PurgeOne(blockIndex: nat, ghost cps: seq<CheckPoint>, ghost ts: seq<Transaction>)
      requires TreeOk() && dataSet.transactions != [] && EndsBelow(cps, dataSet.NextId())
      requires MidPurge(cps, checkPoints, blockIndex, ts, dataSet.transactions)
      requires dataSet.transactions[0].id <= cps[blockIndex].endTid
      modifies `checkPoints, dataSet, tree, tree.leaves, tree.leaves.Nodes, tree.leaves.iterators, tree.nodes.Values
      ensures TreeOk() && MidPurge(cps, checkPoints, blockIndex, ts, dataSet.transactions)
      ensures dataSet.NextId() == old(dataSet.NextId()) && |dataSet.transactions| < |old(dataSet.transactions)|
      ensures tree.KeepsHeap()
    {
      hide TreeOk, TablesExact, Dropped;
      ghost var left, before := dataSet.transactions, checkPoints;
      var items := dataSet.Front().items;
      DropFront();
      LowerTables(blockIndex + 1, items, left);
      DroppedOneMore(ts, left, cps[blockIndex].endTid);
    }

    method PurgeBlocksUpTo(blockIndex: nat)
      requires Valid() && blockIndex + 1 < |checkPoints|
      modifies `checkPoints, dataSet, tree, tree.leaves, tree.leaves.Nodes, tree.leaves.iterators, tree.nodes.Values
      ensures Valid() && dataSet.NextId() == old(dataSet.NextId())
      ensures SameBlocks(old(checkPoints)[blockIndex + 1..], checkPoints)
      ensures Purged(old(dataSet.transactions), dataSet.transactions, old(checkPoints)[blockIndex].endTid)
      ensures tree.KeepsHeap()
    {
      hide TreeOk, TablesExact, EndsBelow, Contiguous, Covering, Purged, Dropped, SameBlocks, KeepsHistogram, MidPurge, NoRepeats;
      var endTid := checkPoints[blockIndex].endTid;
      ghost var cps, ts, front := checkPoints, dataSet.transactions, dataSet.FrontId();
      IdsOf();
      StartPurging(cps, blockIndex, ts);
      while dataSet.NumTransactions() > 0 && dataSet.Front().id <= endTid
        invariant TreeOk() && MidPurge(cps, checkPoints, blockIndex, ts, dataSet.transactions)
        invariant dataSet.NextId() == old(dataSet.NextId())
        invariant tree.KeepsHeap()
        decreases |dataSet.transactions|
      {
        PurgeOne(blockIndex, cps, ts);
      }
      IdsOf();
      FinishPurging(cps, checkPoints, blockIndex, ts, dataSet.transactions, front, dataSet.FrontId(), interval);
      NoRepeatsLeft(ts, dataSet.transactions, endTid);
      checkPoints := checkPoints[blockIndex + 1..];
    }

    // ---- mining ----------------------------------------------------------------------------

    /** The data set's counts of the items in the tree. */
    method ItemCounts() returns (counts: map<Item, nat>)
      requires TreeOk() && NoRepeats(dataSet.transactions)
      ensures forall i: Item :: ItemFreq(AllOf(dataSet.transactions), i) > 0 ==> Get(counts, i) == ItemFreq(AllOf(dataSet.transactions), i)
    {
      hide FPTree.Valid, VariableWindowDataSet.Valid, Streaming.Holding, NoRepeats, Sum, Occurrences, WindowIndexes.NaiveCount;
      ghost var b := AllOf(dataSet.transactions);
      counts := map[];
      var rest := tree.headerTable.Keys;
      while rest != {}
        invariant rest <= tree.headerTable.Keys
        invariant forall i: Item :: i in tree.headerTable && i !in rest ==> Get(counts, i) == ItemFreq(b, i)
      {
        var item :| item in rest;
        var n := dataSet.CountItem(item);
        CountIsFreq(dataSet.transactions, item);
        counts := counts[item := n];
        rest := rest - {item};
      }
      forall i: Item | ItemFreq(b, i) > 0 ensures i in tree.headerTable {
        OnTree(i);
      }
    }

    lemma OnTree(i: Item)
      requires TreeOk() && ItemFreq(AllOf(dataSet.transactions), i) > 0
      ensures i in tree.headerTable
    {
      hide FPTree.Valid, Sum;
      InsertionOrderIsStrictTotal(tree.freqAtLastSort);
      Streaming.FreqOfSorted(AllOf(dataSet.transactions), InsertionOrder(tree.freqAtLastSort), i);
      FPGrowth.HeaderHas(tree, i);
    }

    /** Mining the tree of the whole data set, which has just been sorted. */
    method Mine(minCount: nat, sort: Sorting) returns (mined: seq<Path>)
      requires TreeOk() && NoRepeats(dataSet.transactions) && tree.freqAtLastSort == tree.freq
      requires minCount > 0 && Dependable(sort)
      ensures MinedFrom(mined, AllOf(dataSet.transactions), minCount)
    {
      hide FPTree.Valid, VariableWindowDataSet.Valid, NoRepeats, AllDistinct, Dependable, Enumerates, FPGrowth.ChainBag, Sum, Occurrences, FreqOk, SortAll;
      ghost var b := AllOf(dataSet.transactions);
      var counts := ItemCounts();
      NoRepeatsDistinct(dataSet.transactions);
      LiveTableCounts(tree, b);
      var out := Streaming.MineLoaded(tree, b, (i: Item) => Get(counts, i), minCount, sort);
      mined := out.written;
    }

    // ---- one transaction -------------------------------------------------------------------

    /** The transaction, sorted, goes into the tree and to the back of the data set. */
    method InsertAndAppend(id: nat, items: Path) returns (transaction: Transaction)
      requires TreeOk() && id == dataSet.NextId()
      modifies dataSet, tree, tree.leaves, tree.leaves.Nodes, tree.leaves.iterators, tree.nodes.Values
      ensures TreeOk() && transaction.id == id && multiset(transaction.items) == multiset(items)
      ensures dataSet.transactions == old(dataSet.transactions) + [transaction] && dataSet.FrontId() == old(dataSet.FrontId())
      ensures tree.KeepsHeap()
    {
      hide FPTree.Valid, VariableWindowDataSet.Valid, SortAll, SortPath, InsertionOrder, StrictTotal, AllOf;
      ghost var loaded := AllOf(dataSet.transactions);
      var t := Streaming.LoadInto(tree, items, loaded);
      InsertionOrderIsStrictTotal(tree.freqAtLastSort);
      SortedIsSame(loaded, items, InsertionOrder(tree.freqAtLastSort));
      transaction := Transaction(id, t);
      AllOfMore(dataSet.transactions, transaction);
      dataSet.Append(transaction);
    }

    /** A check point at the transaction just added: the table of the whole tree, which is sorted first. */
    method PushCheckPoint(id: nat, ghost ts: seq<Transaction>, ghost transaction: Transaction) returns (ghost table: map<Item, nat>)
      requires TreeOk() && interval > 0 && CheckDue(id, interval) && transaction.id == id && dataSet.FrontId() + |ts| == id
      requires dataSet.transactions == ts + [transaction]
      requires BlocksFit(checkPoints, ts, dataSet.FrontId(), id, interval)
      modifies `checkPoints, tree, tree.leaves, tree.leaves.Nodes, tree.leaves.iterators, tree.nodes.Values
      ensures TreeOk() && BlocksOk() && tree.freqAtLastSort == tree.freq
      ensures interval <= id + 1 && checkPoints == old(checkPoints) + [NewCheckPoint(id, interval, table)]
      ensures tree.KeepsHeap()
    {
      hide FPTree.Valid, VariableWindowDataSet.Valid, BlocksFit, Streaming.Holding, FreqOk, AllOf;
      Streaming.Resort(tree, AllOf(dataSet.transactions));
      LiveTableCounts(tree, AllOf(dataSet.transactions));
      DueIsLate(id, interval);
      EarlierIds(ts, transaction);
      PushFits(checkPoints, ts, transaction, dataSet.FrontId(), interval, tree.freq);
      var start, end := id + 1 - interval, id;
      checkPoints := checkPoints + [CheckPoint(start, end, tree.freq)];
      table := tree.freq;
    }

    lemma EarlierIds(ts: seq<Transaction>, t: Transaction)
      requires dataSet.Valid() && dataSet.transactions == ts + [t]
      ensures forall j :: 0 <= j < |ts| ==> ts[j].id < t.id
    {
      assert dataSet.transactions[|ts|] == t;
      assert forall j :: 0 <= j < |ts| ==> ts[j] == dataSet.transactions[j];
    }

    /** With adaptive windows, the new block lets the histogram be rearranged. */
    method MaybeArrange(id: nat, ghost before: seq<CheckPoint>, ghost table: map<Item, nat>)
      requires interval > 0 && interval <= id + 1 && checkPoints == before + [NewCheckPoint(id, interval, table)] && BlocksOk()
      requires (adaptive ==> interval == AW_CHECK_INTERVAL) && (Histogram() ==> KeepsHistogram(before, interval))
      modifies `checkPoints
      ensures BlocksOk() && checkPoints != [] && (Histogram() ==> KeepsHistogram(checkPoints, interval))
      ensures checkPoints[|checkPoints| - 1].endTid == id
      ensures if adaptive then Coarser(old(checkPoints), checkPoints) else checkPoints == old(checkPoints)
    {
      hide TablesExact, EndsBelow, Covering, Contiguous, Overflowing, KeepsHistogram, Capacities, Coarser;
      if adaptive {
        if Histogram() { PushOverflows(before, id, interval, table); }
        ArrangeCheckPoints();
      }
    }

    /** What Add does at a check point. */
    method LookBack(id: nat, ghost before: seq<CheckPoint>, ghost table: map<Item, nat>, verdict: (nat, nat) -> Verdict,
                    minCount: nat, sort: Sorting)
      returns (unstable: int, mined: seq<Path>, ghost arranged: seq<CheckPoint>, ghost found: seq<CheckPoint>)
      requires TreeOk() && BlocksOk() && interval > 0 && (adaptive ==> interval == AW_CHECK_INTERVAL)
      requires NoRepeats(dataSet.transactions) && tree.freqAtLastSort == tree.freq && minCount > 0 && Dependable(sort)
      requires dataSet.NextId() == id + 1 && dataSet.transactions != []
      requires interval <= id + 1 && checkPoints == before + [NewCheckPoint(id, interval, table)]
      requires Histogram() ==> KeepsHistogram(before, interval)
      modifies `checkPoints, dataSet, tree, tree.leaves, tree.leaves.Nodes, tree.leaves.iterators, tree.nodes.Values
      ensures Valid() && dataSet.NextId() == old(dataSet.NextId())
      ensures checkPoints != [] && checkPoints[|checkPoints| - 1].endTid == id && dataSet.transactions != []
      ensures if adaptive then Coarser(old(checkPoints), arranged) else arranged == old(checkPoints)
      ensures FoundBy(how, adaptive, verdict, arranged, found, unstable) && BlocksLeft(found, checkPoints, unstable)
      ensures LeftAfter(old(dataSet.transactions), dataSet.transactions, found, unstable)
      ensures if unstable == -1 then mined == [] else MinedFrom(mined, AllOf(old(dataSet.transactions)), minCount)
      ensures tree.KeepsHeap()
    {
      hide TreeOk, BlocksFit, KeepsHistogram, Purged, SameBlocks, Coarser, FoundBy, NoRepeats, MinedFrom, Dependable;
      mined := [];
      MaybeArrange(id, before, table);
      arranged := checkPoints;
      unstable := FindLastUnstableCheckPoint(verdict);
      found := checkPoints;
      FoundInside(how, adaptive, verdict, arranged, found, unstable);
      if unstable != -1 {
        mined := MineAndPurge(unstable, id, minCount, sort);
      }
    }

    /** What it does when a block is unstable. */
    method MineAndPurge(unstable: nat, ghost id: nat, minCount: nat, sort: Sorting) returns (mined: seq<Path>)
      requires Valid() && unstable + 1 < |checkPoints| && checkPoints[|checkPoints| - 1].endTid == id
      requires dataSet.NextId() == id + 1 && dataSet.transactions != []
      requires tree.freqAtLastSort == tree.freq && minCount > 0 && Dependable(sort)
      modifies `checkPoints, dataSet, tree, tree.leaves, tree.leaves.Nodes, tree.leaves.iterators, tree.nodes.Values
      ensures Valid() && dataSet.NextId() == old(dataSet.NextId())
      ensures checkPoints != [] && checkPoints[|checkPoints| - 1].endTid == id && dataSet.transactions != []
      ensures BlocksLeft(old(checkPoints), checkPoints, unstable)
      ensures LeftAfter(old(dataSet.transactions), dataSet.transactions, old(checkPoints), unstable)
      ensures MinedFrom(mined, AllOf(old(dataSet.transactions)), minCount)
      ensures tree.KeepsHeap()
    {
      hide TreeOk, BlocksFit, KeepsHistogram, SameBlocks, NoRepeats, MinedFrom, Dependable;
      ghost var ts, end := dataSet.transactions, checkPoints[unstable].endTid;
      EndsUpTo(unstable);
      IdsOf();
      LastKept(checkPoints, unstable);
      mined := Mine(minCount, sort);
      PurgeBlocksUpTo(unstable);
      PurgedUpTo(ts, dataSet.transactions, dataSet.NextId() - |ts|, end, id);
    }

    /** What Add does when a check is due. */
    method CheckPointNow(id: nat, ghost ts: seq<Transaction>, ghost transaction: Transaction, verdict: (nat, nat) -> Verdict,
                         minCount: nat, sort: Sorting)
      returns (unstable: int, mined: seq<Path>, ghost arranged: seq<CheckPoint>, ghost found: seq<CheckPoint>)
      requires TreeOk() && interval > 0 && CheckDue(id, interval) && (adaptive ==> interval == AW_CHECK_INTERVAL)
      requires transaction.id == id && dataSet.FrontId() + |ts| == id && dataSet.transactions == ts + [transaction]
      requires BlocksFit(checkPoints, ts, dataSet.FrontId(), id, interval) && (Histogram() ==> KeepsHistogram(checkPoints, interval))
      requires dataSet.NextId() == id + 1 && NoRepeats(dataSet.transactions) && minCount > 0 && Dependable(sort)
      modifies `checkPoints, dataSet, tree, tree.leaves, tree.leaves.Nodes, tree.leaves.iterators, tree.nodes.Values
      ensures Valid() && dataSet.NextId() == old(dataSet.NextId()) && dataSet.transactions != []
      ensures checkPoints != [] && checkPoints[|checkPoints| - 1].endTid == id
      ensures Pushed(old(checkPoints), arranged, id, interval, adaptive)
      ensures FoundBy(how, adaptive, verdict, arranged, found, unstable) && BlocksLeft(found, checkPoints, unstable)
      ensures LeftAfter(old(dataSet.transactions), dataSet.transactions, found, unstable)
      ensures if unstable == -1 then mined == [] else MinedFrom(mined, AllOf(old(dataSet.transactions)), minCount)
      ensures tree.KeepsHeap()
    {
      hide TreeOk, BlocksFit, KeepsHistogram, CheckDue, FoundBy, BlocksLeft, LeftAfter, Coarser, NoRepeats, MinedFrom, Dependable;
      ghost var table := PushCheckPoint(id, ts, transaction);
      unstable, mined, arranged, found := LookBack(id, old(checkPoints), table, verdict, minCount, sort);
      PushedMeans(old(checkPoints), arranged, id, interval, adaptive, table);
    }

    lemma EndsUpTo(k: nat)
      requires BlocksOk() && k < |checkPoints|
      ensures k + 1 < |checkPoints| ==> checkPoints[k].endTid < checkPoints[|checkPoints| - 1].endTid
    {
    }

    /**
     * Adds a transaction; at the end of an interval looks back for a drift, and if there is one mines
     * the whole data set and purges what lies before it. The blocks with the new one are `arranged` first, and `found` after the search.
     */
    method Add(id: nat, items: Path, verdict: (nat, nat) -> Verdict, minCount: nat, sort: Sorting)
      returns (unstable: int, mined: seq<Path>, ghost arranged: seq<CheckPoint>, ghost found: seq<CheckPoint>)
      requires Valid() && id == dataSet.NextId() && NoDuplicates(items) && minCount > 0 && Dependable(sort)
      modifies `checkPoints, dataSet, tree, tree.leaves, tree.leaves.Nodes, tree.leaves.iterators, tree.nodes.Values
      ensures Valid() && dataSet.NextId() == id + 1 && dataSet.transactions != []
      ensures AddedThenPurged(old(dataSet.transactions), dataSet.transactions, id, items, found, unstable, mined, minCount)
      ensures !CheckDue(id, interval) ==> unstable == -1 && checkPoints == old(checkPoints)
      ensures CheckDue(id, interval) ==>
        && Pushed(old(checkPoints), arranged, id, interval, adaptive)
        && FoundBy(how, adaptive, verdict, arranged, found, unstable) && BlocksLeft(found, checkPoints, unstable)
        && checkPoints != [] && checkPoints[|checkPoints| - 1].endTid == id
      ensures tree.KeepsHeap()
    {
      hide TreeOk, BlocksFit, KeepsHistogram, CheckDue, AddedThenPurged, Pushed, FoundBy, BlocksLeft, LeftAfter, NoRepeats, MinedFrom, Dependable, NoDuplicates;
      ghost var ts := dataSet.transactions;
      IdsOf();
      var transaction := InsertAndAppend(id, items);
      NoRepeatsMore(ts, transaction, items);
      if CheckDue(id, interval) {
        unstable, mined, arranged, found := CheckPointNow(id, ts, transaction, verdict, minCount, sort);
      } else {
        NothingLeft(ts + [transaction], checkPoints);
        unstable, mined, arranged, found := -1, [], checkPoints, checkPoints;
        AppendFits(checkPoints, ts, transaction, dataSet.FrontId(), interval);
      }
      AddedMeans(ts, dataSet.transactions, transaction, items, found, unstable, mined, minCount);
    }

    lemma IdsOf()
      requires TreeOk()
      ensures Numbered(dataSet.transactions, dataSet.FrontId())
    {
    }
  }

  // ---- what is mined ----------------------------------------------------------------------

  ghost predicate NoRepeats(ts: seq<Transaction>) {
    forall k :: 0 <= k < |ts| ==> NoDuplicates(ts[k].items)
  }

  lemma NoRepeatsMore(ts: seq<Transaction>, t: Transaction, items: Path)
    requires NoRepeats(ts) && NoDuplicates(items) && multiset(t.items) == multiset(items)
    ensures NoRepeats(ts + [t])
  {
    hide NoDuplicates;
    SamePermutation(items, t.items);
  }

  lemma NoRepeatsLeft(ts: seq<Transaction>, left: seq<Transaction>, end: nat)
    requires NoRepeats(ts) && Purged(ts, left, end)
    ensures NoRepeats(left)
  {
    hide NoDuplicates;
    var n := |ts| - |left|;
    forall k | 0 <= k < |left| ensures NoDuplicates(left[k].items) {
      assert left[k] == ts[n + k];
    }
  }

  lemma NoRepeatsDistinct(ts: seq<Transaction>)
    requires NoRepeats(ts)
    ensures AllDistinct(AllOf(ts))
  {
    hide NoDuplicates;
    forall t | t in AllOf(ts) ensures NoDuplicates(t) {
      var k :| 0 <= k < |ItemsOf(ts)| && ItemsOf(ts)[k] == t;
    }
  }

  lemma CountIsFreq(ts: seq<Transaction>, i: Item)
    requires NoRepeats(ts)
    ensures WindowIndexes.NaiveCount(ItemsOf(ts), {i}) == ItemFreq(AllOf(ts), i)
  {
    NoRepeatsDistinct(ts);
    WindowIndexes.NaiveIsSupport(ItemsOf(ts), {i});
    FreqIsSupport(AllOf(ts), i);
  }

  /** What mining a freshly sorted tree of the transactions writes: their frequent itemsets, but for the shortcut's chains. */
  ghost predicate MinedFrom(mined: seq<Path>, b: Bag, minCount: nat) {
    exists freq :: FreqOk(freq, b) &&
      (Enumerates(mined, FrequentFamily(b, minCount)) <==>
        forall c :: FPGrowth.ChainBag(SortAll(b, InsertionOrder(freq)), c) ==> forall i :: i in c ==> ItemFreq(b, i) >= minCount)
  }

  // ---- what a search finds -----------------------------------------------------------------

  ghost predicate NeverSimilar(verdict: (nat, nat) -> Verdict) {
    forall b: nat, n: nat :: verdict(b, n) != Similar
  }

  /** Block b was not unstable when there were between lo and hi blocks. */
  ghost predicate Passed(verdict: (nat, nat) -> Verdict, b: nat, lo: nat, hi: nat) {
    exists n: nat :: lo <= n <= hi && verdict(b, n) != Unstable
  }

  /** The newest unstable one of the blocks from lo to the last but one of n. */
  ghost predicate NewestUnstable(verdict: (nat, nat) -> Verdict, lo: nat, n: nat, unstable: int) {
    && (forall b: nat :: lo <= b < n - 1 && b > unstable ==> verdict(b, n) != Unstable)
    && (unstable == -1 || (lo <= unstable < n - 1 && verdict(unstable, n) == Unstable))
  }

  ghost predicate OldestUnstable(verdict: (nat, nat) -> Verdict, n: nat, unstable: int) {
    && (forall b: nat :: b < (if unstable == -1 then n - 1 else unstable) ==> verdict(b, n) != Unstable)
    && (unstable == -1 || (0 <= unstable < n - 1 && verdict(unstable, n) == Unstable))
  }

  /**
   * What a search may make of the blocks and find: an unstable block before the last, the first one
   * in the direction of the search, whose merges leave the blocks not yet reached as they were.
   */
  ghost predicate FoundBy(how: Method, adaptive: bool, verdict: (nat, nat) -> Verdict,
                          before: seq<CheckPoint>, found: seq<CheckPoint>, unstable: int) {
    && -1 <= unstable < |found| - 1 && |found| <= |before| && Coarser(before, found)
    && (unstable >= 0 ==> verdict(unstable, |found|) == Unstable)
    && match how
       case Distribution => found == before && NewestUnstable(verdict, 1, |found|, unstable)
       case Progressive =>
         && found[..unstable + 1] == before[..unstable + 1]
         && (forall b: nat :: unstable < b < |before| - 1 ==> Passed(verdict, b, |found|, |before|))
         && (NeverSimilar(verdict) ==> found == before && NewestUnstable(verdict, 0, |found|, unstable))
       case Partition =>
         && (unstable >= 0 ==> found[unstable + 1..] == before[|before| - |found| + unstable + 1..])
         && (forall b: nat :: b < (if unstable == -1 then |found| - 1 else unstable) ==> Passed(verdict, b, |found|, |before|))
         && (adaptive || NeverSimilar(verdict) ==> found == before && OldestUnstable(verdict, |found|, unstable))
  }

  lemma FoundInside(how: Method, adaptive: bool, verdict: (nat, nat) -> Verdict,
                    before: seq<CheckPoint>, found: seq<CheckPoint>, unstable: int)
    requires FoundBy(how, adaptive, verdict, before, found, unstable)
    ensures -1 <= unstable < |found| - 1
  {
  }

  // ---- the searches' loops ----------------------------------------------------------------

  lemma PassedWider(verdict: (nat, nat) -> Verdict, b: nat, lo: nat, less: nat, hi: nat)
    requires Passed(verdict, b, lo, hi) && less <= lo
    ensures Passed(verdict, b, less, hi)
  {
  }

  /** The newest blocks down to b + 1 were passed; the others are as before. */
  ghost predicate Downwards(verdict: (nat, nat) -> Verdict, before: seq<CheckPoint>, now: seq<CheckPoint>, b: int) {
    && -1 <= b < |now| - 1 <= |before| - 1 && now[..b + 1] == before[..b + 1]
    && (forall x: nat :: b < x < |before| - 1 ==> Passed(verdict, x, |now|, |before|))
    && (NeverSimilar(verdict) ==> now == before && forall x: nat :: b < x < |now| - 1 ==> verdict(x, |now|) != Unstable)
  }

  lemma StartDownwards(verdict: (nat, nat) -> Verdict, before: seq<CheckPoint>)
    requires before != []
    ensures Downwards(verdict, before, before, |before| - 2) && Coarser(before, before)
  {
    CoarserSelf(before);
  }

  lemma OneDown(verdict: (nat, nat) -> Verdict, before: seq<CheckPoint>, now: seq<CheckPoint>, b: nat)
    requires Downwards(verdict, before, now, b) && verdict(b, |now|) != Unstable
    ensures Downwards(verdict, before, now, b - 1)
    ensures verdict(b, |now|) == Similar ==> Downwards(verdict, before, MergedAt(now, b), b - 1)
  {
    hide Passed, Coarser;
    var merged := MergedAt(now, b);
    assert merged[..b] == now[..b] == now[..b + 1][..b] == before[..b + 1][..b] == before[..b];
    assert Passed(verdict, b, |now|, |before|) by { StillPassed(verdict, b, |now|, |before|); }
    forall x: nat | b <= x < |before| - 1 ensures Passed(verdict, x, |merged|, |before|) {
      PassedWider(verdict, x, |now|, |merged|, |before|);
    }
  }

  lemma StillPassed(verdict: (nat, nat) -> Verdict, b: nat, n: nat, hi: nat)
    requires verdict(b, n) != Unstable && n <= hi
    ensures Passed(verdict, b, n, hi)
  {
  }

  lemma FoundDownwards(verdict: (nat, nat) -> Verdict, before: seq<CheckPoint>, now: seq<CheckPoint>, b: nat, adaptive: bool)
    requires Downwards(verdict, before, now, b) && Coarser(before, now) && verdict(b, |now|) == Unstable
    ensures FoundBy(Progressive, adaptive, verdict, before, now, b)
  {
    hide Passed, Coarser;
  }

  lemma NoneDownwards(verdict: (nat, nat) -> Verdict, before: seq<CheckPoint>, now: seq<CheckPoint>, adaptive: bool)
    requires Downwards(verdict, before, now, -1) && Coarser(before, now)
    ensures FoundBy(Progressive, adaptive, verdict, before, now, -1)
  {
    hide Passed, Coarser;
  }

  /** The blocks before b were passed, or merged into such; those after b are as before. */
  ghost predicate Upwards(verdict: (nat, nat) -> Verdict, before: seq<CheckPoint>, now: seq<CheckPoint>, b: nat, adaptive: bool) {
    && b < |now| <= |before| && now[b + 1..] == before[|before| - |now| + b + 1..]
    && (forall x: nat :: x < b ==> Passed(verdict, x, |now|, |before|))
    && (adaptive || NeverSimilar(verdict) ==> now == before && forall x: nat :: x < b ==> verdict(x, |now|) != Unstable)
  }

  lemma StartUpwards(verdict: (nat, nat) -> Verdict, before: seq<CheckPoint>, adaptive: bool)
    requires before != []
    ensures Upwards(verdict, before, before, 0, adaptive) && Coarser(before, before)
  {
    CoarserSelf(before);
  }

  lemma OneUp(verdict: (nat, nat) -> Verdict, before: seq<CheckPoint>, now: seq<CheckPoint>, b: nat, adaptive: bool)
    requires Upwards(verdict, before, now, b, adaptive) && b + 1 < |now| && verdict(b, |now|) != Unstable
    ensures Upwards(verdict, before, now, b + 1, adaptive)
    ensures verdict(b, |now|) == Similar && !adaptive ==> Upwards(verdict, before, MergedAt(now, b), b, adaptive)
  {
    hide Passed, Coarser;
    var merged, d := MergedAt(now, b), |before| - |now|;
    assert now[b + 2..] == now[b + 1..][1..] == before[d + b + 1..][1..] == before[d + b + 2..];
    assert merged[b + 1..] == now[b + 2..];
    StillPassed(verdict, b, |now|, |before|);
    forall x: nat | x < b ensures Passed(verdict, x, |merged|, |before|) {
      PassedWider(verdict, x, |now|, |merged|, |before|);
    }
  }

  lemma FoundUpwards(verdict: (nat, nat) -> Verdict, before: seq<CheckPoint>, now: seq<CheckPoint>, b: nat, adaptive: bool)
    requires Upwards(verdict, before, now, b, adaptive) && b + 1 < |now| && Coarser(before, now) && verdict(b, |now|) == Unstable
    ensures FoundBy(Partition, adaptive, verdict, before, now, b)
  {
    hide Passed, Coarser;
  }

  lemma NoneUpwards(verdict: (nat, nat) -> Verdict, before: seq<CheckPoint>, now: seq<CheckPoint>, adaptive: bool)
    requires now != [] && Upwards(verdict, before, now, |now| - 1, adaptive) && Coarser(before, now)
    ensures FoundBy(Partition, adaptive, verdict, before, now, -1)
  {
    hide Passed, Coarser;
  }

  /** The new block came behind the others, and with adaptive windows blocks were merged. */
  ghost predicate Pushed(before: seq<CheckPoint>, arranged: seq<CheckPoint>, id: nat, interval: nat, adaptive: bool) {
    exists table :: interval <= id + 1 &&
      var pushed := before + [NewCheckPoint(id, interval, table)];
      if adaptive then Coarser(pushed, arranged) else arranged == pushed
  }

  lemma NothingLeft(ts: seq<Transaction>, found: seq<CheckPoint>)
    ensures LeftAfter(ts, ts, found, -1)
  {
  }

  lemma PushedMeans(before: seq<CheckPoint>, arranged: seq<CheckPoint>, id: nat, interval: nat, adaptive: bool, table: map<Item, nat>)
    requires interval <= id + 1
    requires var pushed := before + [NewCheckPoint(id, interval, table)];
      if adaptive then Coarser(pushed, arranged) else arranged == pushed
    ensures Pushed(before, arranged, id, interval, adaptive)
  {
  }

  // ---- what a purge leaves -------------------------------------------------------------------

  /** The blocks up to the unstable one are gone. */
  ghost predicate BlocksLeft(found: seq<CheckPoint>, after: seq<CheckPoint>, unstable: int) {
    if unstable < 0 then after == found
    else unstable < |found| && SameBlocks(found[unstable + 1..], after)
  }

  /** So are exactly their transactions. */
  ghost predicate LeftAfter(ts: seq<Transaction>, left: seq<Transaction>, found: seq<CheckPoint>, unstable: int) {
    if unstable < 0 then left == ts
    else unstable < |found| && Purged(ts, left, found[unstable].endTid)
  }

  /**
   * The transaction came to the back; if a block was unstable, everything was mined, and exactly the
   * transactions of the blocks up to that one left.
   */
  ghost predicate AddedThenPurged(before: seq<Transaction>, after: seq<Transaction>, id: nat, items: Path,
                                  found: seq<CheckPoint>, unstable: int, mined: seq<Path>, minCount: nat) {
    exists t: Transaction ::
      && t.id == id && multiset(t.items) == multiset(items) && LeftAfter(before + [t], after, found, unstable)
      && if unstable == -1 then mined == [] else MinedFrom(mined, AllOf(before + [t]), minCount)
  }

  lemma AddedMeans(before: seq<Transaction>, after: seq<Transaction>, t: Transaction, items: Path,
                   found: seq<CheckPoint>, unstable: int, mined: seq<Path>, minCount: nat)
    requires multiset(t.items) == multiset(items) && LeftAfter(before + [t], after, found, unstable)
    requires if unstable == -1 then mined == [] else MinedFrom(mined, AllOf(before + [t]), minCount)
    ensures AddedThenPurged(before, after, t.id, items, found, unstable, mined, minCount)
  {
  }

  /** A purge before the last transaction leaves that one. */
  lemma PurgedUpTo(ts: seq<Transaction>, left: seq<Transaction>, front: nat, end: nat, id: nat)
    requires Purged(ts, left, end) && end < id && Numbered(ts, front) && front + |ts| == id + 1 && ts != []
    ensures Dropped(ts, left, id) && left != []
  {
    assert ts[|ts| - 1].id == id;
  }

  /** The last block is never purged. */
  lemma LastKept(cps: seq<CheckPoint>, b: nat)
    requires b + 1 < |cps|
    ensures forall now: seq<CheckPoint> :: SameBlocks(cps[b + 1..], now) ==> now != [] && now[|now| - 1].endTid == cps[|cps| - 1].endTid
  {
  }

  ghost predicate Numbered(ts: seq<Transaction>, front: nat) {
    forall j :: 0 <= j < |ts| ==> ts[j].id == front + j
  }

  /** Midway through purging the blocks up to b: cps are the check points before, ts the transactions. */
  ghost predicate MidPurge(cps: seq<CheckPoint>, now: seq<CheckPoint>, b: nat, ts: seq<Transaction>, left: seq<Transaction>) {
    b + 1 < |cps| && SameBlocks(cps, now) && TablesExact(now[b + 1..], left) && Dropped(ts, left, cps[b].endTid)
  }

  lemma StartPurging(cps: seq<CheckPoint>, b: nat, ts: seq<Transaction>)
    requires b + 1 < |cps| && TablesExact(cps, ts)
    ensures MidPurge(cps, cps, b, ts, ts)
  {
    hide FreqOk, BagUpto;
  }

  lemma DroppedOneMore(ts: seq<Transaction>, left: seq<Transaction>, end: nat)
    requires Dropped(ts, left, end) && left != [] && left[0].id <= end
    ensures Dropped(ts, left[1..], end)
  {
  }

  lemma SameBlocksFit(cps: seq<CheckPoint>, now: seq<CheckPoint>, next: nat, interval: nat)
    requires SameBlocks(cps, now)
    ensures EndsBelow(cps, next) ==> EndsBelow(now, next)
    ensures Contiguous(cps, interval) ==> Contiguous(now, interval)
    ensures KeepsHistogram(cps, interval) ==> KeepsHistogram(now, interval)
  {
    hide Exponential;
    if Contiguous(cps, interval) {
      forall k | 0 <= k < |now| ensures WholeBlock(now[k], interval) {
        assert WholeBlock(cps[k], interval);
        var n: nat :| n > 0 && BlockOf(cps[k], interval, n);
        assert BlockOf(now[k], interval, n);
      }
      if interval >= 2 {
        assert Capacities(now, interval) == Capacities(cps, interval);
      }
    }
  }

  lemma FinishPurging(cps: seq<CheckPoint>, now: seq<CheckPoint>, b: nat, ts: seq<Transaction>, left: seq<Transaction>,
                      front: nat, newFront: nat, interval: nat)
    requires interval > 0 && MidPurge(cps, now, b, ts, left) && BlocksFit(cps, ts, front, front + |ts|, interval)
    requires Numbered(ts, front) && Numbered(left, newFront) && newFront + |left| == front + |ts|
    requires left == [] || left[0].id > cps[b].endTid
    ensures BlocksFit(now[b + 1..], left, newFront, front + |ts|, interval)
    ensures KeepsHistogram(cps, interval) ==> KeepsHistogram(now[b + 1..], interval)
    ensures |now| == |cps| && SameBlocks(cps[b + 1..], now[b + 1..]) && Purged(ts, left, cps[b].endTid)
  {
    hide TablesExact, Contiguous, KeepsHistogram;
    SameBlocksFit(cps, now, front + |ts|, interval);
    if interval >= 2 {
      FirstStart(cps, interval, b);
      var n := |ts| - |left|;
      assert n > 0 ==> ts[n - 1].id <= cps[b].endTid;
    }
    PurgeFits(now, b, left, newFront, front + |ts|, interval);
    if KeepsHistogram(cps, interval) {
      PurgeKeepsHistogram(now, b, interval);
    }
  }

  /** The first transactions are gone, all of them with ids up to end. */
  ghost predicate Dropped(before: seq<Transaction>, after: seq<Transaction>, end: nat) {
    && |after| <= |before| && after == before[|before| - |after|..]
    && forall k :: 0 <= k < |before| - |after| ==> before[k].id <= end
  }

  /** Exactly the transactions with ids up to end are gone. */
  ghost predicate Purged(before: seq<Transaction>, after: seq<Transaction>, end: nat) {
    Dropped(before, after, end) && forall k :: 0 <= k < |after| ==> after[k].id > end
  }

  /** Only tables changed. */
  ghost predicate SameBlocks(before: seq<CheckPoint>, after: seq<CheckPoint>) {
    |before| == |after| && forall k :: 0 <= k < |after| ==>
      after[k].startTid == before[k].startTid && after[k].endTid == before[k].endTid
  }
}
