/** The loading loop over a stream, with the tree functor it drives (src/WindowIndex.cpp, src/FPTree.cpp). */
module SlidingWindow {
  import opened Orders
  import opened Bags
  import opened FPTrees
  import opened Projection
  import opened Patterns
  import opened FPGrowth
  import opened SpoRanking
  import opened Streaming
  import opened WindowIndexes

  /** The load functors that keep a tree in step with the window. */
  datatype LoadFunctor = Cp(cp: CpTreeFunctor) | Spo(spo: SpoTreeFunctor)

  function TreeOf(f: LoadFunctor): FPTree {
    match f
    case Cp(cp) => cp.tree
    case Spo(spo) => spo.tree
  }

  ghost function OwnState(f: LoadFunctor): set<object> {
    match f
    case Cp(cp) => {cp}
    case Spo(spo) => {spo, spo.ranks}
  }

  ghost predicate Ready(f: LoadFunctor)
    reads OwnState(f), TreeOf(f), TreeOf(f).leaves, TreeOf(f).leaves.Nodes, TreeOf(f).leaves.iterators, TreeOf(f).nodes.Values
  {
    match f
    case Cp(cp) => cp.Valid()
    case Spo(spo) => spo.Valid()
  }

  ghost function Loaded(f: LoadFunctor): Bag
    reads OwnState(f)
  {
    match f
    case Cp(cp) => cp.loaded
    case Spo(spo) => spo.loaded
  }

  lemma TreeHolds(f: LoadFunctor)
    requires Ready(f)
    ensures TreeOf(f).Valid() && Holding(TreeOf(f), Loaded(f))
  {
  }

  method OnLoad(f: LoadFunctor, txn: Path)
    requires Ready(f)
    modifies OwnState(f), TreeOf(f), TreeOf(f).leaves, TreeOf(f).leaves.Nodes, TreeOf(f).leaves.iterators, TreeOf(f).nodes.Values
    ensures Ready(f) && Loaded(f) == old(Loaded(f)) + multiset{txn}
    ensures TreeOf(f).KeepsHeap()
  {
    hide CpTreeFunctor.Valid, SpoTreeFunctor.Valid;
    match f
    case Cp(cp) => cp.OnLoad(txn);
    case Spo(spo) => spo.OnLoad(txn);
  }

  method OnUnload(f: LoadFunctor, txn: Path)
    requires Ready(f) && txn in Loaded(f)
    modifies OwnState(f), TreeOf(f), TreeOf(f).leaves, TreeOf(f).leaves.Nodes, TreeOf(f).leaves.iterators, TreeOf(f).nodes.Values
    ensures Ready(f) && Loaded(f) == old(Loaded(f)) - multiset{txn}
    ensures TreeOf(f).KeepsHeap()
  {
    hide CpTreeFunctor.Valid, SpoTreeFunctor.Valid;
    match f
    case Cp(cp) => cp.OnUnload(txn);
    case Spo(spo) => spo.OnUnload(txn);
  }

  // ---- the loop --------------------------------------------------------------------------

  /** The last transactions of a stream, at most `window` of them. */
  function LastOf(stream: seq<Path>, window: nat): seq<Path> {
    if |stream| <= window then stream else stream[|stream| - window..]
  }

  lemma WindowMoves(stream: seq<Path>, n: nat, window: nat)
    requires n < |stream| && window > 0
    ensures LastOf(stream[..n + 1], window) ==
      (if n >= window then LastOf(stream[..n], window)[1..] else LastOf(stream[..n], window)) + [stream[n]]
    ensures |LastOf(stream[..n], window)| == if n < window then n else window
  {
    assert stream[..n + 1] == stream[..n] + [stream[n]];
  }

  lemma FrontIsLoaded(window: seq<Path>)
    requires window != []
    ensures window[0] in multiset(window) && multiset(window) - multiset{window[0]} == multiset(window[1..])
  {
    assert window == [window[0]] + window[1..];
  }

  lemma BackIsLoaded(window: seq<Path>, t: Path)
    ensures multiset(window + [t]) == multiset(window) + multiset{t}
  {
  }

  /** When the window is full its front goes, from the tree and from the index. */
  method MakeRoom(index: WindowIndex, f: LoadFunctor, transactionNum: nat)
    requires index.Valid() && Ready(f) && Loaded(f) == multiset(index.window)
    requires transactionNum == index.first + |index.window|
    modifies index, OwnState(f), TreeOf(f), TreeOf(f).leaves, TreeOf(f).leaves.Nodes, TreeOf(f).leaves.iterators, TreeOf(f).nodes.Values
    ensures index.Valid() && Ready(f) && Loaded(f) == multiset(index.window) && |index.window| < index.maxLength
    ensures index.window == if |old(index.window)| == index.maxLength then old(index.window)[1..] else old(index.window)
    ensures transactionNum == index.first + |index.window|
    ensures TreeOf(f).KeepsHeap()
  {
    hide Ready, WindowIndex.Valid;
    WindowBounds(index);
    if |index.window| == index.maxLength {
      DropOldest(index, f, transactionNum - index.maxLength);
    }
  }

  method DropOldest(index: WindowIndex, f: LoadFunctor, frontTxnNum: nat)
    requires index.Valid() && Ready(f) && Loaded(f) == multiset(index.window)
    requires index.window != [] && frontTxnNum == index.first
    modifies index, OwnState(f), TreeOf(f), TreeOf(f).leaves, TreeOf(f).leaves.Nodes, TreeOf(f).leaves.iterators, TreeOf(f).nodes.Values
    ensures index.Valid() && Ready(f) && Loaded(f) == multiset(index.window)
    ensures index.window == old(index.window)[1..] && index.first == old(index.first) + 1
    ensures TreeOf(f).KeepsHeap()
  {
    hide Ready, WindowIndex.Valid;
    FrontIsLoaded(index.window);
    OnUnload(f, index.window[0]);
    index.PopFront(frontTxnNum);
  }

  /** One round of WindowIndex::Load. */
  method LoadOneTransaction(index: WindowIndex, f: LoadFunctor, transactionNum: nat, transaction: Path)
    requires index.Valid() && Ready(f) && Loaded(f) == multiset(index.window)
    requires transactionNum == index.first + |index.window|
    modifies index, OwnState(f), TreeOf(f), TreeOf(f).leaves, TreeOf(f).leaves.Nodes, TreeOf(f).leaves.iterators, TreeOf(f).nodes.Values
    ensures index.Valid() && Ready(f) && Loaded(f) == multiset(index.window)
    ensures index.window == (if |old(index.window)| == index.maxLength then old(index.window)[1..] else old(index.window)) + [transaction]
    ensures transactionNum + 1 == index.first + |index.window|
    ensures TreeOf(f).KeepsHeap()
  {
    hide Ready, WindowIndex.Valid, Loaded;
    MakeRoom(index, f, transactionNum);
    BackIsLoaded(index.window, transaction);
    index.PushBack(transactionNum, transaction);
    OnLoad(f, transaction);
  }

  lemma WindowBounds(index: WindowIndex)
    requires index.Valid()
    ensures |index.window| <= index.maxLength && index.maxLength > 0
  {
  }

  /** WindowIndex::Load: index and tree end up with the last transactions of the stream. */
  method Load(index: WindowIndex, f: LoadFunctor, stream: seq<Path>)
    requires index.Valid() && index.window == [] && index.first == 0
    requires Ready(f) && Loaded(f) == multiset{}
    modifies index, OwnState(f), TreeOf(f), TreeOf(f).leaves, TreeOf(f).leaves.Nodes, TreeOf(f).leaves.iterators, TreeOf(f).nodes.Values
    ensures index.Valid() && index.window == LastOf(stream, index.maxLength)
    ensures Ready(f) && Loaded(f) == multiset(index.window)
  {
    hide Ready, WindowIndex.Valid, LastOf, Loaded;
    var transactionNum := 0;
    LastOfNone(stream, index.maxLength);
    WindowBounds(index);
    while transactionNum < |stream|
      invariant 0 <= transactionNum <= |stream| && index.Valid() && Ready(f) && Loaded(f) == multiset(index.window)
      invariant index.window == LastOf(stream[..transactionNum], index.maxLength)
      invariant index.first + |index.window| == transactionNum
      invariant TreeOf(f).KeepsHeap()
    {
      WindowMoves(stream, transactionNum, index.maxLength);
      LoadOneTransaction(index, f, transactionNum, stream[transactionNum]);
      transactionNum := transactionNum + 1;
    }
    assert stream[..transactionNum] == stream;
  }

  lemma LastOfNone(stream: seq<Path>, window: nat)
    ensures LastOf(stream[..0], window) == []
  {
  }

  // ---- mining the window -------------------------------------------------------------------

  /** The index's counts of single items. */
  method ItemCounts(index: WindowIndex) returns (counts: map<Item, nat>)
    requires index.Valid()
    ensures forall i :: i in index.rows ==> i in counts && counts[i] == NaiveCount(index.window, {i})
  {
    hide WindowIndex.Valid, NaiveCount;
    counts := map[];
    var rest := index.rows.Keys;
    while rest != {}
      invariant rest <= index.rows.Keys
      invariant forall i :: i in index.rows && i !in rest ==> i in counts && counts[i] == NaiveCount(index.window, {i})
    {
      var item :| item in rest;
      var n := index.Count([item]);
      assert Items([item]) == {item};
      counts := counts[item := n];
      rest := rest - {item};
    }
  }

  lemma CountedItem(index: WindowIndex, i: Item)
    requires index.Valid() && AllDistinct(multiset(index.window)) && ItemFreq(multiset(index.window), i) > 0
    ensures i in index.rows && NaiveCount(index.window, {i}) == ItemFreq(multiset(index.window), i)
  {
    var b := multiset(index.window);
    NaiveIsSupport(index.window, {i});
    FreqIsSupport(b, i);
    SumPositive(b, Occurrences(i));
    var t: Path :| t in b && Occurrences(i)(t) > 0;
    var j :| 0 <= j < |index.window| && index.window[j] == t;
    assert i in t;
    index.VerifyWindow(j, i);
  }

  /**
   * What the user gets: mining the tree of a sliding window writes exactly the window's frequent
   * itemsets, if and only if the tree is no chain of two or more nodes with an infrequent item.
   */
  method MineWindow(index: WindowIndex, f: LoadFunctor, minCount: nat, sort: Sorting) returns (out: PatternOutput)
    requires index.Valid() && Ready(f) && Loaded(f) == multiset(index.window)
    requires AllDistinct(multiset(index.window)) && minCount > 0 && Dependable(sort)
    ensures fresh(out)
    ensures Enumerates(out.written, FrequentFamily(multiset(index.window), minCount)) <==>
      forall c :: ChainBag(TreeOf(f).bag, c) ==> forall i :: i in c ==> ItemFreq(multiset(index.window), i) >= minCount
  {
    hide Ready, WindowIndex.Valid, Enumerates, ChainBag, AllDistinct, Dependable, FPTree.Valid, Holding, Sum, Occurrences, NaiveCount;
    TreeHolds(f);
    ghost var b := multiset(index.window);
    var counts := ItemCounts(index);
    var countOf := (i: Item) => Get(counts, i);
    forall i: Item | ItemFreq(b, i) > 0 ensures countOf(i) == ItemFreq(b, i) {
      CountedItem(index, i);
    }
    out := MineLoaded(TreeOf(f), b, countOf, minCount, sort);
  }
}
