/** The frequency table as the tree keeps it: an item map changed by Increment and Decrement (src/FPNode.cpp, src/ItemMap.h). */
module ItemTables {
  import opened Orders
  import opened Bags
  import opened FPTrees
  import opened ItemMaps

  /** What inserting a transaction does to the table. */
  method CountTransaction(table: ItemMap<nat>, txn: Path, c: nat, ghost b: Bag)
    requires table.Valid() && FreqOk(table.View(), b)
    modifies table
    ensures table.Valid() && FreqOk(table.View(), b + Copies(txn, c))
    ensures table.View().Keys == old(table.View()).Keys + Items(txn)
  {
    hide FreqOk, Items;
    NothingCounted(table.View(), b, c, txn);
    var k := 0;
    while k < |txn|
      invariant k <= |txn| && table.Valid() && FreqOk(table.View(), b + Copies(txn[..k], c))
      invariant table.View().Keys == old(table.View()).Keys + Items(txn[..k])
    {
      OneMoreCounted(table.View(), b, txn, k, c);
      ItemsStep(txn, k);
      Increment(table, txn[k], c);
      k := k + 1;
    }
    assert txn[..k] == txn;
  }

  lemma NothingCounted(table: map<Item, nat>, b: Bag, c: nat, txn: Path)
    requires FreqOk(table, b)
    ensures FreqOk(table, b + Copies(txn[..0], c)) && Items(txn[..0]) == {}
  {
    forall i: Item ensures ItemFreq(b + Copies([], c), i) == ItemFreq(b, i) {
      FreqCopies(b, [], c, i);
    }
  }

  lemma OneMoreCounted(table: map<Item, nat>, b: Bag, txn: Path, k: nat, c: nat)
    requires k < |txn| && FreqOk(table, b + Copies(txn[..k], c))
    ensures FreqOk(table[txn[k] := Get(table, txn[k]) + c], b + Copies(txn[..k + 1], c))
  {
    hide Sum;
    assert txn[..k + 1] == txn[..k] + [txn[k]];
    var now := table[txn[k] := Get(table, txn[k]) + c];
    forall i: Item ensures Get(now, i) == ItemFreq(b + Copies(txn[..k + 1], c), i) {
      assert Get(table, i) == ItemFreq(b + Copies(txn[..k], c), i);
      FreqCopies(b, txn[..k], c, i);
      FreqCopies(b, txn[..k + 1], c, i);
      OneMoreOccurrence(txn[..k], txn[k], i, c);
    }
  }

  /** What removing it does: every item is known, and no count is too small. */
  method UncountTransaction(table: ItemMap<nat>, txn: Path, c: nat, ghost b: Bag)
    requires table.Valid() && c > 0 && FreqOk(table.View(), b + Copies(txn, c))
    modifies table
    ensures table.Valid() && FreqOk(table.View(), b) && table.View().Keys == old(table.View()).Keys
  {
    hide FreqOk;
    var k := 0;
    assert txn[0..] == txn;
    while k < |txn|
      invariant k <= |txn| && table.Valid() && FreqOk(table.View(), b + Copies(txn[k..], c))
      invariant table.View().Keys == old(table.View()).Keys
    {
      OneLessOwed(table.View(), b, txn, k, c);
      Decrement(table, txn[k], c);
      k := k + 1;
    }
    assert txn[k..] == [];
    NothingOwed(table.View(), b, c);
  }

  lemma OneLessOwed(table: map<Item, nat>, b: Bag, txn: Path, k: nat, c: nat)
    requires k < |txn| && c > 0 && FreqOk(table, b + Copies(txn[k..], c))
    ensures txn[k] in table && table[txn[k]] >= c
    ensures FreqOk(table[txn[k] := table[txn[k]] - c], b + Copies(txn[k + 1..], c))
  {
    hide Sum;
    var owed := txn[k..];
    assert owed[1..] == txn[k + 1..] && owed[0] == txn[k];
    OwedFreq(b, owed, c, txn[k]);
    assert Get(table, txn[k]) == ItemFreq(b + Copies(owed, c), txn[k]);
    var now := table[txn[k] := table[txn[k]] - c];
    forall i: Item ensures Get(now, i) == ItemFreq(b + Copies(txn[k + 1..], c), i) {
      OwedFreq(b, owed, c, i);
      assert Get(table, i) == ItemFreq(b + Copies(owed, c), i);
    }
  }

  /** The item map has the entries of the tree's own table. */
  ghost predicate TableOf(tree: FPTree, table: ItemMap<nat>)
    reads tree`freq, table
  {
    table.Valid() && forall i: Item :: Get(table.View(), i) == Get(tree.freq, i)
  }

  /** An item map that is counted along with every insertion stays the tree's table ... */
  method InsertCounting(tree: FPTree, table: ItemMap<nat>, txn: Path, c: nat)
    requires tree.Valid() && c > 0 && TableOf(tree, table)
    modifies table, tree, tree.leaves, tree.leaves.Nodes, tree.leaves.iterators, tree.nodes.Values
    ensures tree.Valid() && tree.bag == old(tree.bag) + Copies(txn, c) && TableOf(tree, table)
  {
    hide FreqOk, FPTree.Struct, DomainOk, CountsOk;
    SameTable(tree.freq, table.View(), tree.bag);
    CountTransaction(table, txn, c, tree.bag);
    tree.Insert(txn, c);
    OneTable(tree.freq, table.View(), tree.bag);
  }

  /** ... and so it does with every removal. */
  method RemoveCounting(tree: FPTree, table: ItemMap<nat>, txn: Path)
    requires tree.Valid() && txn in tree.bag && TableOf(tree, table)
    modifies table, tree, tree.leaves, tree.leaves.Nodes, tree.leaves.iterators, tree.nodes.Values
    ensures tree.Valid() && tree.bag == old(tree.bag) - multiset{txn} && TableOf(tree, table)
  {
    hide FreqOk, FPTree.Struct, DomainOk, CountsOk;
    SameTable(tree.freq, table.View(), tree.bag);
    ghost var rest := tree.bag - multiset{txn};
    assert tree.bag == rest + Copies(txn, 1);
    UncountTransaction(table, txn, 1, rest);
    tree.Remove(txn);
    OneTable(tree.freq, table.View(), tree.bag);
  }

  lemma SameTable(freq: map<Item, nat>, table: map<Item, nat>, b: Bag)
    requires FreqOk(freq, b) && forall i: Item :: Get(table, i) == Get(freq, i)
    ensures FreqOk(table, b)
  {
  }

  lemma OneTable(freq: map<Item, nat>, table: map<Item, nat>, b: Bag)
    requires FreqOk(freq, b) && FreqOk(table, b)
    ensures forall i: Item :: Get(table, i) == Get(freq, i)
  {
    hide Sum;
    forall i: Item ensures Get(table, i) == Get(freq, i) {
      assert Get(table, i) == ItemFreq(b, i);
    }
  }
}
