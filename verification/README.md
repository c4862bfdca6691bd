# HARM, modelled and verified

HARM mines frequent itemsets from static and streaming data. This project models the parts of it that
are hard to get right, in the imperative form the program itself has, and proves what those parts
promise. Verify everything with `dafny verify dfyconfig.toml`.

The model, from the bottom up:

- `Orders`, `Bags`, `Arithmetic`: transactions as sequences of items, a tree's content as a multiset
  of transactions (`Bag`), sums over such a multiset: `Cnt(b, p)` counts the transactions with prefix
  `p`, `ItemFreq(b, i)` the occurrences of `i`, `Support(b, s)` the transactions that contain `s`.
- `List`, `ListRuns`: the doubly linked list whose iterators are told about appends and erasures.
- `FPTree`, `TreeSort`: the prefix tree on the heap, with its nodes' parent, child and header links,
  the live frequency table and the leaf list. A ghost field `bag` says what the tree stands for;
  `Valid()` says that nodes, counts, child maps, header lists, table and leaf list are exactly what the
  bag requires. `Insert`, `Remove`, `Replace` and `Sort` are proved against that field.
  `TreeSums` derives from it how counts and table entries add up, `ItemTables` that an item map changed
  by increments and decrements is the same table.
- `Projection`, `Patterns`, `TieBreaks`, `FPGrowth`, `FailingRuns`: conditional trees, what their sort
  must guarantee, and the mining recursion.
- `SpoRanks`, `Streaming`, `WindowIndex`, `PopCount`, `SlidingWindow`: streaming. `SlidingWindow.Load`
  runs the bitmap index and the CP-tree or Spo-tree together, `MineWindow` mines the result.
- `VariableWindow`, `CheckPoints`, `DriftDetector`: the drift detector's data set, its check-point
  tables and its exponential histogram.
- `Apriori`, `EditDistance`, `ConnectionTable`, `ItemMap`: the remaining fast forms against simple ones.
- `Introsort`, `Base64`: the two dlib algorithms.

Some results say exactly when the code does what it promises:

- The single-path shortcut of FP-growth tests no `minCount`. `FPGrowth.ExactIff`: the output is
  the frequent itemsets if and only if the tree is not a chain of two or more nodes, or every item of that
  chain is frequent. `FailingRuns.ShortcutRun` is a run of a CP-tree on which it is not.
- `FreqCmp` has no tie-break although its comment promises one, so exactness rests on the sort.
  Two transactions agree if they arrange no pair of items oppositely. `TieBreaks.DependableIff`: mining is
  right on all conditional trees of trees whose transactions agree, if and only if the sort arranges
  agreeing paths so that they still agree. A stable sort with the comparator as written does
  (`StableSortIsDependable`), and so does any strict total tie-break (`TieSortIsDependable`); mining is
  proved exact for every such sort. `std::sort` need not be stable: `FailingRuns.UnstableRun` is a run
  of a CP-tree with a sort that keeps all of its promises, after which a pair of items is found under both of them, and so twice.
- `CheckPoints.FirstCheckPoint`: the first block starts at transaction 0 if and only if the check
  interval is at least 2; with interval 1, transaction 0 belongs to no block.
- `Apriori.Run` with no threads stops after the single items; with any positive number of threads it
  finds everything.
- `ItemMaps.ItemMap.EmptyHasNoItems`: a map whose items were all erased is not `IsEmpty()`. The tree's
  choice between its two insertion comparators depends on that test, and `Streaming.EmptyTableOrder`
  shows that it cannot matter, because the two comparators then order alike.
- Base64: the decode table has 255 entries, so `Decode` asks that byte 255 does not occur; no encoded
  text holds it.

## Model

| member | source | states |
|---|---|---|
| Orders.TableOrderIsStrictTotal | src/FPNode.h:50-66 | the table comparator (higher count first, unknown items last, ties by id) is a strict total order for every table |
| Orders.SortUnique | src/FPNode.cpp:467 | two sorted arrangements of the same items are equal, so any sorting algorithm gives the same transaction |
| Orders.ResortPath | src/FPNode.cpp:466-467 | sorting by one order and then by another is the same as sorting by the second alone |
| Lists.List.Append | src/List.h:87-103 | the value becomes the last node and the last pending one of every live iterator, also of one that stood at the end |
| Lists.List.Prepend | src/List.h:105-114 | the value becomes the first node and no iterator will return it |
| Lists.List.Erase | src/List.h:116-149 | exactly that node leaves the list and every iterator's pending part; an empty token changes nothing |
| Lists.List.NotifyAppended | src/List.h:180-184 | iterators at the end move to the new node, the others stay |
| Lists.List.NotifyDeleted | src/List.h:174-178 | iterators at the erased node move to its successor, the others stay |
| Lists.List.Begin | src/List.h:193-197 | a new registered iterator that has the whole list ahead |
| Lists.List.Next | src/List.h:158-163 | returns the first pending value and moves no other iterator |
| Lists.List.Release | src/List.h:169-171 | the iterator is no longer notified |
| Lists.ErasedPending | src/List.h:124-144 | what lies ahead of a moved iterator after the erase is what lay ahead before, without the erased node |
| ListRuns.Drive | src/List.h:87-197 | for every sequence of appends, prepends, erasures and steps the list stays well formed and the iterator has yielded, in order and once each, the values offered to it (pending at the start or appended later) that were not erased before it reached them |
| ListRuns.WhatIsYielded | src/List.h:87-197 | in every such state, what was yielded plus what is pending is duplicate free and is exactly the offered nodes minus the skipped ones |
| ListRuns.DoErase | src/List.h:118-149 | an erased node counts as skipped exactly if the iterator had yet to return it; the run goes on |
| ListRuns.DoNext | src/List.h:158-163 | a step yields the node at which the iterator stands and extends the yielded sequence by it |
| FPTrees.FPTree.constructor | src/FPNode.h:227-233 | a new tree is well formed and holds no transaction |
| FPTrees.FPTree.AddToHeaderTable | src/FPNode.cpp:336-347 | the new node becomes the head of its item's doubly linked list and all header lists stay exact |
| FPTrees.FPTree.RemoveFromHeaderTable | src/FPNode.cpp:23-41 | unlinking a node as its destructor does leaves header lists of exactly the remaining nodes, whether it was first, last, only or inner |
| FPTrees.FPTree.GetChild | src/FPNode.cpp:235-239 | the node at the extended path, or null if the tree has none |
| FPTrees.FPTree.GetOrCreateChild | src/FPNode.cpp:241-263 | the child node, created if need be with count 0, linked into child map, header list and leaf list, its parent leaving the leaf list |
| FPTrees.FPTree.InsertBelow | src/FPNode.cpp:265-276 | inserting items below a node moves that many transactions from the node's path to the longer path and leaves a well-formed tree; an iterator over the leaves misses at most leaves on that path |
| FPTrees.FPTree.Insert | src/FPNode.cpp:265-276 | the tree stands for its old transactions plus the given number of copies |
| FPTrees.FPTree.Decrement | src/FPNode.cpp:283-290 | node count and table entry fall by the count, and the table entry is never too small for it |
| FPTrees.StopHere | src/FPNode.cpp:309-317 | when a decremented node reaches 0, all that is left below it is the unbranched rest of the removed path with the removed count all along |
| FPTrees.FPTree.Destroy | src/FPNode.cpp:22-58 | the destructor takes the node's whole subtree out of tree, header lists, leaf list and frequency table, leaving the table exact |
| FPTrees.FPTree.Cut | src/FPNode.cpp:309-317 | erasing the child, re-listing its parent as a leaf if it lost its last child, and deleting the subtree restores a well-formed tree without it |
| FPTrees.FPTree.RemoveStep | src/FPNode.cpp:299-320 | one round either ends the removal with the tree of the shortened transactions, or hands over the next node with the rest still owed |
| FPTrees.FPTree.RemoveBelow | src/FPNode.cpp:292-321 | c transactions that go on from the node with these items end at the node instead; all side structures stay exact, also through the early stop |
| FPTrees.FPTree.Remove | src/FPNode.cpp:278-281 | the tree stands for its old transactions minus one copy, so it undoes Insert |
| FPTrees.FPTree.Diverge | src/FPNode.cpp:487-497 | the node of the longest common prefix of the two paths, all of whose nodes are there |
| FPTrees.FPTree.Replace | src/FPNode.cpp:479-501 | c transactions `from` become `to`, the frequency table is literally unchanged, and the leaves a live iterator misses lie on `to` |
| FPTrees.FPTree.SameFrequencies | src/FPNode.cpp:499-500 | removing a path's tail and inserting its rearrangement gives the same table with the same keys |
| TreeSums.CountIsSum | src/FPNode.cpp:265-321 | in every well-formed tree a node counts the transactions that end in it plus the counts of its children |
| TreeSums.TableIsSum | src/FPNode.cpp:265-290 | in every well-formed tree the table entry of an item is the sum of the counts along its header list, also if transactions repeat items |
| ItemTables.CountTransaction | src/FPNode.cpp:273 | incrementing an item map once for every item keeps it the table of the enlarged content |
| ItemTables.UncountTransaction | src/FPNode.cpp:283-290 | decrementing it for every item finds every item known and frequent enough, and restores the table |
| ItemTables.InsertCounting | src/FPNode.cpp:265-276 | an item map counted along with Insert stays entry for entry the tree's table |
| ItemTables.RemoveCounting | src/FPNode.cpp:292-321 | and so it does with Remove |
| TreeSort.TreePathIterator.GetNext | src/FPNode.cpp:410-433 | the next pending leaf, its root-to-leaf path and its count, which is the number of transactions that end exactly there |
| TreeSort.PathBack | src/FPNode.cpp:420-430 | walking up the parents collects exactly the items from the root down to the leaf |
| TreeSort.LeafCount | src/FPNode.cpp:415-418 | all transactions through a leaf end there |
| TreeSort.SortRound | src/FPNode.cpp:464-473 | each round leaves every leaf behind the iterator sorted, keeps the transactions up to order, and either lowers the number of unsorted transactions or leaves fewer leaves pending |
| TreeSort.SortLeaves | src/FPNode.cpp:461-473 | the loop ends, although it mutates the list it iterates over, with no leaf pending and the transactions the same up to order |
| TreeSort.AllSorted | src/FPNode.cpp:464-474 | with every leaf behind the iterator on a sorted path, every transaction of the tree is sorted |
| TreeSort.SortBy | src/FPNode.cpp:444-477 | under any strict total order, also the one that reads the live table, the result stands for every old transaction sorted, with the same frequency table |
| TreeSort.Sort | src/FPNode.cpp:435-442 | the same for the live table, which is remembered as the table at the last sort |
| TreeSort.TreeDetermined | src/FPNode.h:70-225 | two well-formed trees of the same transactions have the same paths, counts and frequencies: a tree sorted in place equals one built from sorted transactions |
| TreeSort.SortedTreePassesIsSorted | src/FPNode.cpp:350-391 | after Sort no child is more frequent than its parent, and equally frequent ones are in id order: the closing assertion holds |
| TreeSort.SortTransaction | src/FPNode.cpp:223-233 | the result is a sorted permutation of the transaction, by the table at the last sort or by appearance if there was none |
| Projection.FoldIsProject | src/FPTree.cpp:123-179 | summing counts over any list of exactly the nodes of an item gives the bag of what stands above the item in each transaction |
| Projection.ProjectionIsFaithful | src/FPTree.cpp:114-180 | for items that reach minCount in the projection, the conditional tree's support of S is the number of transactions in which all of S stands above x |
| Projection.ProjectionIsExact | src/FPTree.cpp:114-180 | S is frequent in the conditional tree of x if and only if S is non-empty and all of S stands above x in at least minCount transactions |
| Projection.ConditionalAgrees | src/FPTree.cpp:171-176 | where the transactions arrange no two items oppositely, neither do those of any conditional tree built with a dependable sort |
| Projection.DeepestItem | src/FPTree.cpp:256-293 | where the transactions agree, every supported itemset has one item below all the others in every transaction that contains it, and is found under no other |
| Projection.ConsistentAgrees | src/FPNode.cpp:223-233 | transactions listed in one strict total order agree |
| Projection.ConditionalItemsAreFrequent | src/FPTree.cpp:165-167 | every item of a conditional tree has its full projected frequency, at least minCount, and the others are gone |
| Projection.FreqIsSupport | src/FPNode.h:227-331 | without duplicate items, an item's frequency is its support |
| Projection.SupportOfProjection | src/FPTree.cpp:123-144 | the support of S in the projection counts the transactions in which S stands above x |
| Patterns.SubPathPatterns | src/FPTree.cpp:79-100 | a node, the sub-paths without it and the sub-paths with it are all non-empty subsets of the chain, once each |
| Patterns.ConditionalPatterns | src/FPTree.cpp:284-291 | x and x prepended to the frequent sets of its conditional tree are exactly the itemsets found under x, once each |
| Patterns.DoneWithAll | src/FPTree.cpp:258-293 | having done the frequent sets by deepest item for all items of the tree, all frequent sets are done |
| Patterns.FoundOnce | src/FPTree.cpp:258-293 | no itemset is found under two items |
| FPGrowth.ChainComplete | src/FPNode.cpp:336-347 | every node of an item is reached by following `next` from the item's header entry |
| FPGrowth.HeaderListCovers | src/FPTree.cpp:146-179 | following the header list of x meets exactly the paths ending in x, and folding their counts gives the projection on x |
| FPGrowth.CountPass | src/FPTree.cpp:121-144 | the first pass counts every item's frequency in the projection |
| FPGrowth.FillPass | src/FPTree.cpp:146-179 | the second pass builds a well-formed tree of the projected paths, each reduced to its frequent items and arranged by whatever the sort returns |
| FPGrowth.ConstructConditionalTree | src/FPTree.cpp:114-180 | the two passes together give the conditional tree of the projection, for every sorting routine that is given FreqCmp |
| FPGrowth.HasSinglePath | src/FPNode.h:154-167 | returns true exactly if the tree is one unbranched path of at least two nodes |
| FPGrowth.AddPatternsInPath | src/FPTree.cpp:63-101 | writes every non-empty subset of the rest of the path once, behind the shared pattern, and restores the pattern |
| FPGrowth.FPGrowth | src/FPTree.cpp:242-296 | with any dependable sort and no tie-break of its own it terminates, restores the pattern, and writes once each exactly the frequent itemsets, or, on a chain of two or more nodes, exactly its non-empty subsets |
| FPGrowth.MineItems | src/FPTree.cpp:256-295 | the loop over the header table writes every frequent itemset once and nothing else |
| FPGrowth.MineItem | src/FPTree.cpp:260-292 | one round writes exactly the frequent itemsets that lie wholly above this item, with it in front |
| FPGrowth.MineSubtree | src/FPTree.cpp:285-292 | the pattern with the item, then the frequent sets of the conditional tree, with the pattern restored |
| FPGrowth.SubtreeIsSmaller | src/FPTree.cpp:278-291 | a conditional tree meets the mining precondition again and has fewer items: the recursion ends |
| FPGrowth.ExactIff | src/FPTree.cpp:250-254 | the output is exactly the frequent itemsets if and only if no chain of two or more nodes has an infrequent item |
| FPGrowth.ShortcutFails | src/FPTree.cpp:250-254 | on the transactions {1, 2} and {1} with minCount 2 no output that FPGrowth may write is the frequent itemsets |
| FailingRuns.ShortcutRun | src/FPTree.cpp:250-254 | a CP-tree functor that loads those two transactions, whatever its sort interval, is mined wrongly |
| FPGrowth.MineFPTree | src/FPTree.cpp:190-240 | a whole run writes what FPGrowth promises, exact under that same condition |
| TieBreaks.StableSortAbove | src/FPTree.cpp:53-61 | a stable sort with FreqCmp as written puts i above j exactly if i is more frequent, or equally frequent and above j before |
| TieBreaks.StableSortIsDependable | src/FPTree.cpp:171-173 | a stable sort with FreqCmp as written returns paths sorted by frequency and is all that mining needs |
| TieBreaks.TieSortIsDependable | src/FPTree.cpp:50-61 | so is FreqCmp with the tie-break that its comment promises, for any strict total tie-break |
| TieBreaks.AgreeIff | src/FPTree.cpp:256-293 | at every threshold each frequent itemset is found under exactly one item and nothing else is, if and only if no two transactions arrange a pair oppositely |
| TieBreaks.DependableIff | src/FPTree.cpp:171-176 | a rearranging sort makes that so on all conditional trees of all agreeing trees if and only if it keeps agreeing paths agreeing, for frequencies that leave room for both |
| TieBreaks.Witness | src/FPTree.cpp:114-180 | any two agreeing paths and any such frequencies arise above one item of an agreeing tree |
| TieBreaks.UnstableSortSorts | src/FPTree.cpp:173 | a sort that turns round one path with equally frequent items still does all that std::sort promises |
| TieBreaks.UnstableSortFindsTwice | src/FPTree.cpp:50-61 | with it, two transactions in one order give a conditional tree in which a pair is found under both its items |
| FailingRuns.UnstableRun | src/FPTree.cpp:171-176 | a CP-tree functor that loads {1, 2, 9} and {1, 2, 3, 9} leads to that conditional tree |
| Streaming.LoadInto | src/CPTreeFunctor.h:38-40 | loading keeps the tree that of the loaded transactions sorted by the table at the last sort |
| Streaming.UnloadFrom | src/CPTreeFunctor.h:58-60 | a loaded transaction is found whole and removed, whatever sorts came in between |
| Streaming.SortAgain | src/FPNode.cpp:435-442 | re-sorting the tree by the live table is sorting the loaded transactions by it, so later unloads agree |
| Streaming.EmptyTableOrder | src/FPNode.cpp:223-233 | with an empty table both insertion comparators give the same arrangement |
| Streaming.CpTreeFunctor.OnLoad | src/CPTreeFunctor.h:37-53 | over every run, the tree is that of the current window; a re-sort happens exactly at every interval-th load |
| Streaming.CpTreeFunctor.OnUnload | src/CPTreeFunctor.h:55-62 | the transaction leaves the window and the tree; its precondition is only that it is in the window |
| Streaming.SpoTreeFunctor.OnLoad | src/SpoTreeFunctor.h:137-154 | the tree is that of the current window, the ranking covers every item seen, and the entropy is at most the threshold afterwards |
| Streaming.SpoTreeFunctor.ResortIfMoved | src/SpoTreeFunctor.h:143-151 | sorts and resets exactly if the entropy exceeds the threshold |
| Streaming.SpoTreeFunctor.OnUnload | src/SpoTreeFunctor.h:156-165 | the transaction leaves the window and the tree |
| Streaming.SupportOfSorted | src/FPNode.cpp:223-233 | sorting all transactions changes no itemset's support |
| Streaming.FreqOfSorted | src/FPNode.cpp:223-233 | sorting all transactions changes no item's frequency |
| Streaming.SortedIsConsistent | src/FPNode.cpp:223-233 | a tree of duplicate-free transactions sorted by one order lists all of them in that order |
| Streaming.MineLoaded | src/FPTree.cpp:190-240 | mining a streamed tree with a dependable sort writes the frequent itemsets of the loaded transactions if and only if the chain condition holds |
| SpoRanking.SpoRanks.AdjustItem | src/SpoTreeFunctor.h:35-72 | one item of the transaction is ranked if new and moved up until the item before it is not to be overtaken, keeping ranking and lookup inverse and diffSum exact |
| SpoRanking.SpoRanks.SwapUp | src/SpoTreeFunctor.h:54-66 | swapping two neighbours keeps lookup the inverse of ranking and diffSum the total distance, without underflow |
| SpoRanking.SpoRanks.BubbleUp | src/SpoTreeFunctor.h:43-72 | the item moves to the first place whose predecessor it may not overtake; the items passed shift down by one and all others stay |
| SpoRanking.SpoRanks.Adjust | src/SpoTreeFunctor.h:33-74 | keeps all that is promised of the ranks, adds exactly the transaction's items, and keeps the stored ranks of known ones |
| SpoRanking.SpoRanks.ResetEntropy | src/SpoTreeFunctor.h:76-84 | stored ranks become the present ranks and the distance 0 |
| SpoRanking.SpoRanks.GetRankEntropy | src/SpoTreeFunctor.h:86-89 | the entropy lies between 0 and 1 for two or more items; below two it is undefined (the source's 0/0) |
| SpoRanking.SwapDistances | src/SpoTreeFunctor.h:55-66 | swapping neighbours changes the total distance by exactly the four terms the code subtracts and adds, and the subtraction cannot underflow |
| SpoRanking.DistanceIsEven | src/SpoTreeFunctor.h:93-105 | the total distance of any permutation of ranks is even |
| SpoRanking.DistanceIsBounded | src/SpoTreeFunctor.h:86-105 | and at most half of n squared |
| SpoRanking.TotalOfPermutation | src/SpoTreeFunctor.h:93-99 | summing any function over a permutation of 0..n-1 is summing it over 0..n-1 |
| PopCount.PopulationCountIsOnes | src/utils.cpp:82-87 | the SWAR formula returns the number of set bits of every 32-bit word |
| PopCount.SetAndClear | src/WindowIndex.cpp:82-86 | setting or clearing with the mask changes exactly that bit |
| PopCount.MaskIsShift | src/WindowIndex.cpp:82-86 | the mask of bit k is 1 shifted by k |
| PopCount.NoBitIsZero | src/WindowIndex.cpp:88-92 | a word without a set bit is 0 |
| WindowIndexes.WindowIndex.Set | src/WindowIndex.cpp:62-94 | exactly the bit of that item and slot becomes the value, rows keep their length, and active chunks stay exactly the non-zero ones |
| WindowIndexes.ActiveMeansSet | src/WindowIndex.cpp:88-92 | a chunk is marked active if and only if one of its bits is set |
| WindowIndexes.WindowIndex.PopFront | src/WindowIndex.cpp:168-177 | the front transaction leaves the window and its bits are cleared; every other bit still says what its slot's transaction contains |
| WindowIndexes.WindowIndex.PushBack | src/WindowIndex.cpp:179-188 | the new transaction takes the slot of its number modulo the window length, which was free |
| WindowIndexes.WindowIndex.VerifyWindow | src/WindowIndex.cpp:125-146 | the bit of window transaction j and an item is set if and only if the transaction holds the item |
| WindowIndexes.WindowIndex.Sparsest | src/WindowIndex.cpp:221-235 | an item of the set with the fewest active chunks, and their number |
| WindowIndexes.WindowIndex.AndChunks | src/WindowIndex.cpp:254-268 | the masked chunk has exactly the bits that all items have, also when the loop stops early at 0 |
| WindowIndexes.WindowIndex.Count | src/WindowIndex.cpp:218-273 | counting through the sparsest item's active chunks gives the number of window transactions that contain the itemset |
| WindowIndexes.NaiveIsSupport | src/WindowIndex.cpp:218-273 | that number is the itemset's support in the window |
| WindowIndexes.FrontRemoved | src/WindowIndex.cpp:168-177 | slots are numbered modulo the window: clearing the front's slot leaves the rest of the window where it was |
| SlidingWindow.MakeRoom | src/WindowIndex.cpp:164-178 | a full window unloads its front from tree and index, and stays as it is otherwise |
| SlidingWindow.DropOldest | src/WindowIndex.cpp:164-178 | the oldest transaction leaves tree and index alike |
| SlidingWindow.LoadOneTransaction | src/WindowIndex.cpp:162-192 | one round shifts the window by one transaction in index and tree alike |
| SlidingWindow.Load | src/WindowIndex.cpp:148-204 | over the whole stream, index and tree hold exactly the last maxLength transactions |
| SlidingWindow.ItemCounts | src/FPTree.cpp:271-274 | the index's count of every known item is its count in the window |
| SlidingWindow.MineWindow | src/FPTree.cpp:190-240 | mining the streamed tree with counts from the bitmap index writes exactly the frequent itemsets of the window if and only if the chain condition holds |
| VariableWindow.GrowingKeepsBits | src/VariableWindowDataSet.cpp:109-119 | growing the lists sets and clears no bit |
| VariableWindow.VariableWindowDataSet.Append | src/VariableWindowDataSet.cpp:122-136 | the transaction is queued and the bits say so |
| VariableWindow.VariableWindowDataSet.ClearFront | src/VariableWindowDataSet.cpp:148-162 | clears exactly the front transaction's bits |
| VariableWindow.VariableWindowDataSet.DropChunks | src/VariableWindowDataSet.cpp:164-173 | dropping every non-empty list's first chunk re-bases all bits at once by a chunk |
| VariableWindow.VariableWindowDataSet.Pop | src/VariableWindowDataSet.cpp:146-178 | the front transaction leaves the queue and the bits still say what is queued, across the drop |
| VariableWindow.VariableWindowDataSet.SmallestItem | src/VariableWindowDataSet.cpp:45-59 | finds an item with the shortest list, or one that was never indexed |
| VariableWindow.VariableWindowDataSet.AndChunks | src/VariableWindowDataSet.cpp:65-79 | bits of the chunk that all the items have |
| VariableWindow.VariableWindowDataSet.Count | src/VariableWindowDataSet.cpp:42-83 | the number of queued transactions with all items, despite lists of different length |
| VariableWindow.VariableWindowDataSet.CountItem | src/VariableWindowDataSet.cpp:85-97 | the number of queued transactions with the item |
| VariableWindow.NoneBeyond | src/VariableWindowDataSet.cpp:61-81 | beyond the shortest list there are no hits |
| CheckPoints.MergeKeepsTables | src/StructuralStreamDriftDetector.cpp:680-688 | merging keeps every table the count of the transactions up to its block's end, although the first table is thrown away |
| CheckPoints.MergeJoinsCapacities | src/StructuralStreamDriftDetector.cpp:812-814 | merging adds the two blocks' capacities and keeps the blocks contiguous |
| CheckPoints.CapacityIs | src/StructuralStreamDriftDetector.cpp:812-814 | for interval 2 or more the code's capacity of a block of n intervals is n; the zero case never arises |
| CheckPoints.ArrangeStep | src/StructuralStreamDriftDetector.cpp:820-824 | one round moves the three-of-a-kind to the next power of two |
| CheckPoints.ArrangeEnds | src/StructuralStreamDriftDetector.cpp:816-825 | when the loop stops, the capacities form an exponential histogram |
| CheckPoints.ExponentialIsHistogram | src/StructuralStreamDriftDetector.cpp:816-825 | capacities are non-increasing powers of two, and every power from the least to the largest occurs once or twice |
| CheckPoints.FewBlocks | src/StructuralStreamDriftDetector.cpp:816-825 | so 2^((blocks+1)/2) is at most the number of covered intervals plus one |
| CheckPoints.HistogramOfBlocks | src/StructuralStreamDriftDetector.cpp:816-825 | both, for the detector's own blocks, with covered intervals times interval length being the covered id range |
| CheckPoints.PurgedHistogram | src/StructuralStreamDriftDetector.cpp:495 | any suffix of an exponential histogram is one |
| CheckPoints.PushFits | src/StructuralStreamDriftDetector.cpp:426-436 | pushing a check point with the live table keeps tables, contiguity and coverage |
| CheckPoints.AppendFits | src/StructuralStreamDriftDetector.cpp:417-420 | a transaction between check points changes no table's meaning |
| CheckPoints.PurgeFits | src/StructuralStreamDriftDetector.cpp:494-495 | after a purge the remaining blocks are contiguous and start at the data set's front id |
| CheckPoints.FirstCheckPoint | src/StructuralStreamDriftDetector.cpp:426-427 | the first block starts at id 0 if and only if the interval is at least 2 |
| DriftDetection.StructuralStreamDriftDetector.MergeCheckPointWithNext | src/StructuralStreamDriftDetector.cpp:669-689 | the two blocks become one with the later table |
| DriftDetection.StructuralStreamDriftDetector.ArrangeCheckPoints | src/StructuralStreamDriftDetector.cpp:816-825 | keeps the block invariant, turns the overfull histogram after a push into a proper one, and only joins blocks |
| DriftDetection.StructuralStreamDriftDetector.CapacityAt | src/StructuralStreamDriftDetector.cpp:812-814 | the code's formula is the number of intervals in the block |
| DriftDetection.StructuralStreamDriftDetector.FindUnstableByProgressive | src/StructuralStreamDriftDetector.cpp:597-666 | for any verdicts, merges on the way keep the blocks exact and leave the older ones untouched; it returns a block found unstable, with none of the newer ones found so, or -1 if none is; without merges it is the newest unstable block |
| DriftDetection.StructuralStreamDriftDetector.FindUnstableByPartition | src/StructuralStreamDriftDetector.cpp:692-810 | the same from the oldest block on: newer blocks stay untouched, and without merges, always in adaptive mode, it returns the oldest unstable block |
| DriftDetection.StructuralStreamDriftDetector.FindUnstableByDistributionChange | src/StructuralStreamDriftDetector.cpp:543-594 | returns the newest unstable block but the last, or -1; the oldest block is never tried |
| DriftDetection.StructuralStreamDriftDetector.FindLastUnstableCheckPoint | src/StructuralStreamDriftDetector.cpp:505-517 | whichever method is configured finds what it promises and keeps the block invariant, and the histogram in the modes that have one |
| DriftDetection.LowerTable | src/StructuralStreamDriftDetector.cpp:486-490 | lowers exactly the transaction's items by their occurrences, never below zero |
| DriftDetection.FrontCounted | src/StructuralStreamDriftDetector.cpp:482-491 | a table that counts the front transaction has enough of each of its items, and lowered it counts the rest |
| DriftDetection.StructuralStreamDriftDetector.PurgeOne | src/StructuralStreamDriftDetector.cpp:475-491 | one purged transaction leaves tree, data set and every later table |
| DriftDetection.StructuralStreamDriftDetector.PurgeBlocksUpTo | src/StructuralStreamDriftDetector.cpp:466-503 | exactly the transactions up to the block's end leave, the later blocks keep their ids, and all tables count exactly what is left |
| DriftDetection.StructuralStreamDriftDetector.InsertAndAppend | src/StructuralStreamDriftDetector.cpp:418-420 | the sorted transaction goes into tree and data set alike |
| DriftDetection.StructuralStreamDriftDetector.PushCheckPoint | src/StructuralStreamDriftDetector.cpp:426-436 | re-sorts the tree and appends one block with the live table, which counts the whole data set |
| DriftDetection.StructuralStreamDriftDetector.Add | src/StructuralStreamDriftDetector.cpp:417-464 | over every run the detector stays valid (exact tables, contiguous blocks, histogram, tree equal to data set); a due check pushes a block ending at the new id and searches as configured; if a block is unstable, the whole data set is mined, and then exactly the transactions and blocks up to that block leave |
| DriftDetection.StructuralStreamDriftDetector.Mine | src/StructuralStreamDriftDetector.cpp:453 | mining the freshly sorted tree with the data set's counts writes exactly the frequent itemsets of the data set if and only if the chain condition holds |
| DriftDetection.StructuralStreamDriftDetector.MineAndPurge | src/StructuralStreamDriftDetector.cpp:451-456 | first the whole data set is mined, then the blocks up to the unstable one leave |
| DriftDetection.OneDown | src/StructuralStreamDriftDetector.cpp:606-664 | passing or merging a block keeps what the search from the newest block down promises |
| DriftDetection.OneUp | src/StructuralStreamDriftDetector.cpp:718-807 | passing a block, or merging it and looking at it again, keeps what the search from the oldest block up promises |
| CheckPoints.MergeIsCoarser | src/StructuralStreamDriftDetector.cpp:669-689 | merged blocks still start and end where earlier blocks did |
| DriftDetection.LiveTableCounts | src/StructuralStreamDriftDetector.cpp:435 | the tree's live table counts the loaded transactions, whatever their order in the tree |
| EditDistances.EditDistanceMatrix | src/DDTreeFunctor.h:29-54 | returns the length of a shortest insert, delete and substitute script |
| EditDistances.EditDistanceLevenshtein | src/DDTreeFunctor.h:79-96 | two swapped rows return the same |
| EditDistances.EditDistanceDiagonal | src/StructuralStreamDriftDetector.cpp:29-62 | taking only the diagonal on a match returns the same |
| EditDistances.LevIsShortest | src/DDTreeFunctor.h:29-54 | the recurrence is the length of a shortest script: one of that length exists and none is shorter |
| EditDistances.DiagonalOnMatch | src/StructuralStreamDriftDetector.cpp:29-62 | a common last element changes nothing, which needs that neighbouring cells differ by at most 1 |
| EditDistances.OneMoreAtLeast | src/StructuralStreamDriftDetector.cpp:29-62 | one more element lowers the distance by at most 1 |
| EditDistances.OneMoreAtMost | src/StructuralStreamDriftDetector.cpp:29-62 | and raises it by at most 1 |
| EditDistances.NoShorter | src/DDTreeFunctor.h:29-54 | every script that turns s into t has at least that many edits |
| ConnectionTables.AddToChildren | src/ConnectionTable.cpp:98-113 | the list gains exactly the node's children and, under each, its grandchildren |
| ConnectionTables.ConnectionTable.AddNewNode | src/ConnectionTable.cpp:65-90 | a new item gets the list of exactly the node's children; the root's list is kept apart |
| ConnectionTables.ConnectionTable.AddNode | src/ConnectionTable.cpp:47-57 | the table covers one node more |
| ConnectionTables.SearchStep | src/ConnectionTable.cpp:45-61 | the queue holds exactly the nodes whose parent is done but not they themselves |
| ConnectionTables.ConnectionTable.CreateTable | src/ConnectionTable.cpp:41-63 | an edge a to b if and only if some node of a has a child of b, and next items likewise for grandchildren |
| ConnectionTables.IsConnected | src/ConnectionTable.cpp:175-215 | terminates, and returns true if and only if b is reached from a by table edges through items of b's frequency |
| ConnectionTables.Progress | src/ConnectionTable.cpp:188-212 | each round visits a new item, or brings the first unvisited queued item closer: items queued repeatedly do no harm |
| ConnectionTables.ClosedHolds | src/ConnectionTable.cpp:188-214 | a set closed under equal-frequency edges holds the end of every equal-frequency path that starts in it |
| ConnectionTables.ConnectionExist | src/ConnectionTable.cpp:157-172 | connected one way, or the other way between equally frequent items; false for unknown ones |
| Apriori.ContainsAllSubSets | src/Apriori.cpp:33-44 | true if and only if every subset with one item less is in the container |
| Apriori.IntersectionSize | src/InvertedDataSetIndex.cpp:174-185 | the size of the intersection |
| Apriori.SafeAdvance | src/Apriori.cpp:46-54 | advances by the step, at most to the end |
| Apriori.GenerateSubCandidates | src/Apriori.cpp:56-79 | exactly the passing joins with a first part in this thread's slice |
| Apriori.SlicesCover | src/Apriori.cpp:87-101 | for any positive number of threads the offset and stride slices together find exactly the joins over all candidates |
| Apriori.GenerateCandidates | src/Apriori.cpp:81-104 | the union is the same for every thread count of at least 1, and empty for 0 |
| Apriori.GenerateInitialCandidates | src/Apriori.cpp:106-117 | the first generation is exactly the passing single items |
| Apriori.GenerationIsLevel | src/Apriori.cpp:81-104 | joining and pruning the passing (k-1)-itemsets gives exactly the passing k-itemsets |
| Apriori.LevelIsJoin | src/Apriori.cpp:66-76 | no passing k-itemset is missed: it is the join of two of the previous generation |
| Apriori.Run | src/Apriori.cpp:133-152 | terminates for any filter and returns, each once, exactly the non-empty itemsets all of whose non-empty subsets pass |
| Apriori.AntiMonotoneMeansAll | src/Apriori.cpp:119-152 | for an anti-monotone filter those are the itemsets that pass |
| Apriori.SupportIsAntiMonotone | src/AprioriFilter.h:61-77 | the support filter is anti-monotone |
| Apriori.SameAsFPGrowth | src/AprioriFilter.h:42-77 | with the support filter and minCount above 0, Apriori's output and an exact FP-growth output hold the same itemsets |
| Introsort.InsertOne | src/dlib/sort.h:405-421 | one round sinks the next element into the sorted prefix |
| Introsort.IsortArray | src/dlib/sort.h:395-422 | array[left..right] becomes a sorted permutation, the rest is untouched |
| Introsort.Heapify | src/dlib/sort.h:286-339 | with heaps below, the sub-heap at i becomes one, with children at 2i+1-start and the next |
| Introsort.BuildHeap | src/dlib/sort.h:468-474 | the whole range becomes a heap |
| Introsort.TakeTop | src/dlib/sort.h:476-482 | swapping the top behind the heap keeps the tail sorted and above the rest |
| Introsort.TopIsLargest | src/dlib/sort.h:476-482 | no element of a heap is above its top |
| Introsort.HsortArray | src/dlib/sort.h:451-483 | array[left..right] becomes a sorted permutation, the rest is untouched |
| Introsort.QsortPartition | src/dlib/sort.h:184-228 | splits around the pivot: smaller ones before it, none smaller after it |
| Introsort.QsortArrayMain | src/dlib/sort.h:236-278 | sorted permutation for any depth budget, through recursion, loop and heap-sort fallback |
| Introsort.QsortArray | src/dlib/sort.h:430-443 | array[left..right] becomes a sorted permutation under any strict weak order, the rest is untouched |
| Base64Coding.Base64.constructor | src/dlib/base64/base64_kernel_1.cpp:35-148 | the tables hold the alphabet and its inverse, and the bad value everywhere else |
| Base64Coding.Base64.EncodeGroup | src/dlib/base64/base64_kernel_1.cpp:214-299 | one to three bytes become four characters as table and shifts say |
| Base64Coding.Base64.Encode | src/dlib/base64/base64_kernel_1.cpp:162-305 | the loop over buffers and the counter writes the encoded text with a line end before every 20th group |
| Base64Coding.Base64.DecodeGroup | src/dlib/base64/base64_kernel_1.cpp:334-375 | four characters become one to three bytes |
| Base64Coding.Base64.Decode | src/dlib/base64/base64_kernel_1.cpp:309-396 | skips what is not in the alphabet, decodes whole groups, and reports an unfinished one |
| Base64Coding.GroupsBack | src/dlib/base64/base64_kernel_1.cpp:214-375 | decoding an encoded group gives the group back, with one or two pads too |
| Base64Coding.RoundTrip | src/dlib/base64/base64_kernel_1.cpp:162-396 | for every byte string and line-ending style, decoding the encoded text gives it back without error, and the text never leaves the decode table |
| Base64Coding.LinesOfEncoded | src/dlib/base64/base64_kernel_1.cpp:187-211 | no output line has more than 76 characters, as section 6.8 of RFC 2045 asks |
| ItemMaps.ItemMap.Contains | src/ItemMap.h:38-46 | true exactly for the non-null items of the map |
| ItemMaps.ItemMap.Set | src/ItemMap.h:48-59 | the map is updated at one key, the vectors growing only when they must |
| ItemMaps.ItemMap.Get | src/ItemMap.h:62-67 | the item's value |
| ItemMaps.ItemMap.GetOr | src/ItemMap.h:69-76 | the item's value, or the fallback |
| ItemMaps.ItemMap.Erase | src/ItemMap.h:90-95 | exactly that key leaves the map |
| ItemMaps.ItemMap.EmptyHasNoItems | src/ItemMap.h:34-36 | an empty map holds nothing, and a map that holds nothing is not empty exactly if it has only erased entries |
| ItemMaps.ItemMapIterator.HasNext | src/ItemMap.h:106-111 | stops at the first valid entry from here on, or past the end |
| ItemMaps.ItemMapIterator.Next | src/ItemMap.h:113-120 | moves to the next valid entry |
| ItemMaps.Keys | src/ItemMap.h:102-141 | a whole iteration meets every key once, in increasing order |
| ItemMaps.Increment | src/ItemMap.h:78-80 | one count rises, from 0 for a new key |
| ItemMaps.Decrement | src/ItemMap.h:82-84 | one count falls |
| ItemMaps.Add | src/ItemMap.h:143-149 | every count becomes the sum of both maps' counts; a map added to itself doubles |
| ItemMaps.Remove | src/ItemMap.h:151-159 | every count becomes the difference |
| ItemMaps.RemoveUndoesAdd | src/ItemMap.h:143-159 | adding another map and removing it again restores every count; doing so with the map itself leaves all counts 0 |

## Left out

- FPGrowth.FPGrowth: `nodePruneDepth` and `ItemFilter` are fixed to none, `DataSet::Count(item)` is a function that agrees with the tree's counts, and `minCount` is a natural number (the ceiling of the source's double).
- FPGrowth.ConstructConditionalTree: `std::sort` with FreqCmp is a parameter, a function of path and frequencies.
- FPTrees.FPTree.Destroy: the destructor is modelled for the unbranched subtree that `Remove` reaches, not for tearing down a whole tree.
- FPTrees.FPTree.Remove: the transaction must be stored, as the source's assertions demand; what release code does otherwise is not modelled.
- TreeSort.SortBy: the closing `IsSorted` assertion is proved for the frequency comparator only; it tests frequency order whatever comparator was passed.
- SpoRanking.SpoRanks.Adjust: does not claim that the ranking is sorted by count, because the source does not keep it sorted (all counts rise before the items are moved one by one, and unloading never adjusts).
- DriftDetection.StructuralStreamDriftDetector.Add: drift statistics are arbitrary verdicts on a block index and the number of blocks, which covers every outcome since no search asks the same question twice; connection tables of check points are not part of it; transactions have no repeated items, as the data set reader sees to (src/DataSetReader.h:82-88).
- ConnectionTables.ConnectionTable.CreateTable: per-edge counts, weights, decay and purging are not modelled; counts in the source are overwritten rather than summed.
- ConnectionTables.IsConnected: every item of the table must be known to the frequency table, as the source's `Get` demands.
- Apriori.Run: threads are the union of their independent slices, the support function is abstract, and candidate sets are listed in some fixed order rather than the one of `std::set`.
- VariableWindow.VariableWindowDataSet.Count: a 128-bit chunk is a set of bit numbers, so the chunk's own bit operations are not modelled.
- Base64Coding.Base64.Decode: byte 255 lies outside the source's 255-entry table, so it may not occur in the input.
- Methods of `FPNode` are methods of the tree with the node as a parameter, because they change the tree's tables as much as the node.
- Outside of conditional trees `std::sort` is insertion sort on sequences; all sorted arrangements under a strict total order are equal, so the algorithm does not matter.
- 32-bit wrap-around of ids and counts, and memory allocation failure.
- The `kFPTree` insertion comparator without tie-break, `InvertedDataSetIndex` and `TidList`, `CoocurrenceGraph`, rule generation, `CanTreeFunctor`: easier members of the same families, or a mode whose order is not total.
- Streams, files, logging, timing, option parsing, `DataSetReader` and `PatternStream`: input is a sequence of transactions, output a growing sequence of itemsets.
- The statistics themselves (Hoeffding bounds, variance, p-values, automatic thresholds) and the rest of dlib.
