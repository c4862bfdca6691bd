/** A window of varying length with a chunked inverted index (src/VariableWindowDataSet.cpp). */
module VariableWindow {
  import opened Orders
  import opened Bags
  import opened WindowIndexes

  datatype Transaction = Transaction(id: nat, items: Path)

  /** A std::bitset of chunk_size bits, as the set of the numbers of its set bits. */
  type Chunk = set<nat>
  type TidList = seq<Chunk>

  const CHUNK_SIZE: nat := 128

  /** The bit of an item at bit number b of chunk c. */
  predicate InChunk(index: seq<TidList>, item: Item, c: nat, b: nat) {
    item - 1 < |index| && c < |index[item - 1]| && b in index[item - 1][c]
  }

  /** All the items have bit b of chunk c. */
  ghost predicate AllIn(index: seq<TidList>, items: seq<Item>, c: nat, b: nat) {
    forall j :: j in items ==> InChunk(index, j, c, b)
  }

  /** The bits say which items the transactions at each offset have. */
  ghost predicate BitsAre(index: seq<TidList>, line: seq<Path>) {
    forall item: Item, c: nat, b: nat :: InChunk(index, item, c, b) <==>
      b < CHUNK_SIZE && Has(line, CHUNK_SIZE * c + b, item)
  }

  ghost predicate Has(line: seq<Path>, offset: nat, item: Item) {
    offset < |line| && item in line[offset]
  }

  function ItemsOf(ts: seq<Transaction>): (r: seq<Path>)
    ensures |r| == |ts| && forall k :: 0 <= k < |ts| ==> r[k] == ts[k].items
  {
    seq(|ts|, k requires 0 <= k < |ts| => ts[k].items)
  }

  ghost function Free(n: nat): seq<Path> {
    seq(n, _ => [])
  }

  ghost function LineOf(offset: nat, ts: seq<Transaction>): seq<Path> {
    Free(offset) + ItemsOf(ts)
  }

  lemma LineCounts(offset: nat, ts: seq<Transaction>, s: set<Item>)
    requires s != {}
    ensures NaiveCount(LineOf(offset, ts), s) == NaiveCount(ItemsOf(ts), s)
  {
    NaiveNone(Free(offset), s);
    NaiveJoin(Free(offset), ItemsOf(ts), s);
  }

  // ---- changing the index ----------------------------------------------------------------

  function EmptyLists(n: nat): seq<TidList> {
    seq(n, _ => [])
  }

  function EmptyChunks(n: nat): TidList {
    seq(n, _ => {})
  }

  /** EnsureCapacity on the index: the vector has an entry at position k. */
  function WithList(index: seq<TidList>, k: nat): (r: seq<TidList>)
    ensures k < |r| && |r| >= |index|
  {
    if |index| < k + 1 then index + EmptyLists(k + 1 - |index|) else index
  }

  function WithChunk(list: TidList, k: nat): (r: TidList)
    ensures k < |r| && |r| >= |list|
  {
    if |list| < k + 1 then list + EmptyChunks(k + 1 - |list|) else list
  }

  lemma GrowingKeepsBits(index: seq<TidList>, item: Item, c: nat)
    ensures var grown := WithList(index, item - 1);
      forall i: Item, d: nat, b: nat ::
        InChunk(grown[item - 1 := WithChunk(grown[item - 1], c)], i, d, b) <==> InChunk(index, i, d, b)
  {
  }

  class VariableWindowDataSet {
    var index: seq<TidList>
    var transactions: seq<Transaction>
    var firstChunkStartTid: nat
    var firstChunkStartOffset: nat

    /** The windows's transactions by offset from firstChunkStartTid; popped ones count as free. */
    ghost function Line(): seq<Path>
      reads this
    {
      LineOf(firstChunkStartOffset, transactions)
    }

    /** The id of the front transaction, and the one the next transaction gets. */
    ghost function FrontId(): nat
      reads this
    {
      firstChunkStartTid + firstChunkStartOffset
    }

    ghost function NextId(): nat
      reads this
    {
      FrontId() + |transactions|
    }

    ghost predicate Valid()
      reads this
    {
      && firstChunkStartOffset < CHUNK_SIZE
      && (forall j :: 0 <= j < |transactions| ==> transactions[j].id == FrontId() + j)
      && BitsAre(index, Line())
    }

    constructor ()
      ensures Valid() && transactions == [] && NextId() == 0
    {
      index, transactions, firstChunkStartTid, firstChunkStartOffset := [], [], 0, 0;
    }

    function NumTransactions(): nat
      reads this
    {
      |transactions|
    }

    function Front(): Transaction
      requires transactions != []
      reads this
    {
      transactions[0]
    }

    method SetBit(item: Item, chunkIdx: nat, bitNum: nat)
      modifies `index
      ensures forall i: Item, c: nat, b: nat :: InChunk(index, i, c, b) <==>
        InChunk(old(index), i, c, b) || (i == item && c == chunkIdx && b == bitNum)
    {
      GrowingKeepsBits(index, item, chunkIdx);
      index := WithList(index, item - 1);
      index := index[item - 1 := WithChunk(index[item - 1], chunkIdx)];
      var chunk := index[item - 1][chunkIdx];
      index := index[item - 1 := index[item - 1][chunkIdx := chunk + {bitNum}]];
    }

    /** Appends a transaction; ids are handed out one after the other. */
    method Append(transaction: Transaction)
      requires Valid() && transaction.id == NextId()
      modifies `index, `transactions
      ensures Valid() && transactions == old(transactions) + [transaction] && FrontId() == old(FrontId())
    {
      hide InChunk, WithList, WithChunk;
      var offset := transaction.id - firstChunkStartTid;
      var chunkIdx := offset / CHUNK_SIZE;
      var bitNum := offset % CHUNK_SIZE;
      ghost var line := Line();
      for k := 0 to |transaction.items|
        invariant transactions == old(transactions)
        invariant forall i: Item, c: nat, b: nat :: InChunk(index, i, c, b) <==>
          InChunk(old(index), i, c, b) || (i in transaction.items[..k] && c == chunkIdx && b == bitNum)
      {
        SetBit(transaction.items[k], chunkIdx, bitNum);
        assert transaction.items[..k + 1] == transaction.items[..k] + [transaction.items[k]];
      }
      assert transaction.items[..|transaction.items|] == transaction.items;
      Appended(old(index), index, line, transaction.items, chunkIdx, bitNum);
      transactions := transactions + [transaction];
      assert Line() == line + [transaction.items];
    }

    /** Drops the front transaction: clears its bits, or with the last one of a chunk drops all lists' first chunk. */
    method Pop()
      requires Valid() && transactions != []
      modifies this
      ensures Valid() && transactions == old(transactions)[1..] && FrontId() == old(FrontId()) + 1
    {
      if firstChunkStartOffset + 1 < CHUNK_SIZE {
        ClearFront();
        firstChunkStartOffset := firstChunkStartOffset + 1;
      } else {
        DropChunks();
        firstChunkStartOffset := 0;
        firstChunkStartTid := firstChunkStartTid + CHUNK_SIZE;
      }
      transactions := transactions[1..];
      LineShorter(old(firstChunkStartOffset), old(transactions));
    }

    method ClearFront()
      requires Valid() && transactions != []
      modifies `index
      ensures BitsAre(index, Line()[firstChunkStartOffset := []])
    {
      hide InChunk;
      var transaction := transactions[0];
      var bitNum := (transaction.id - firstChunkStartTid) % CHUNK_SIZE;
      ghost var line := Line();
      assert line[firstChunkStartOffset] == transaction.items;
      FrontIsIndexed(index, line, firstChunkStartOffset);
      for k := 0 to |transaction.items|
        invariant forall i: Item, c: nat, b: nat :: InChunk(index, i, c, b) <==>
          InChunk(old(index), i, c, b) && !(i in transaction.items[..k] && c == 0 && b == bitNum)
        invariant forall i :: i in transaction.items ==> i - 1 < |index| && index[i - 1] != []
      {
        var item := transaction.items[k];
        assert item in transaction.items;
        ghost var before := index;
        ClearOne(index, item, bitNum);
        index := index[item - 1 := index[item - 1][0 := index[item - 1][0] - {bitNum}]];
        OneMoreCleared(old(index), before, index, transaction.items, k, bitNum);
      }
      assert transaction.items[..|transaction.items|] == transaction.items;
      Cleared(old(index), index, line, firstChunkStartOffset, transaction.items);
    }

    /** Number of window transactions with all items of a non-empty set. */
    method Count(itemSet: seq<Item>) returns (count: nat)
      requires Valid() && itemSet != []
      ensures count == NaiveCount(ItemsOf(transactions), Items(itemSet))
    {
      hide InChunk, NaiveCount, LineOf, BitsAre;
      ghost var s, line := Items(itemSet), Line();
      assert itemSet[0] in s;
      LineCounts(firstChunkStartOffset, transactions, s);
      var known, smallest := SmallestItem(itemSet);
      if !known {
        UnknownItem(index, line, smallest, s);
        return 0;
      }
      count := 0;
      var shortest := index[smallest - 1];
      for i := 0 to |shortest|
        invariant count == Hits(line, s, CHUNK_SIZE * i)
      {
        var b := shortest[i];
        if b == {} {
          EmptyChunk(index, line, smallest, i, s);
        } else {
          b := AndChunks(itemSet, smallest, i);
          ChunkCount(index, line, itemSet, i, b);
          count := count + |b|;
        }
      }
      NoneBeyond(index, line, smallest, |shortest|, s);
    }

    /** The item with the shortest list; if some item has no list at all, that one. */
    method SmallestItem(itemSet: seq<Item>) returns (known: bool, smallest: Item)
      requires itemSet != []
      ensures smallest in itemSet && (known <==> forall i :: i in itemSet ==> i - 1 < |index|)
      ensures !known ==> smallest - 1 >= |index|
      ensures known ==> forall i :: i in itemSet ==> |index[smallest - 1]| <= |index[i - 1]|
    {
      smallest := itemSet[0];
      for k := 0 to |itemSet|
        invariant smallest in itemSet && (k > 0 ==> smallest - 1 < |index|) && (k == 0 ==> smallest == itemSet[0])
        invariant forall j :: 0 <= j < k ==> itemSet[j] - 1 < |index| && |index[smallest - 1]| <= |index[itemSet[j] - 1]|
      {
        var item := itemSet[k];
        if item - 1 >= |index| {
          return false, item;
        }
        if |index[item - 1]| < |index[smallest - 1]| {
          smallest := item;
        }
      }
      known := true;
    }

    method AndChunks(itemSet: seq<Item>, smallest: Item, i: nat) returns (b: Chunk)
      requires smallest in itemSet && forall j :: j in itemSet ==> j - 1 < |index|
      requires i < |index[smallest - 1]| && forall j :: j in itemSet ==> |index[smallest - 1]| <= |index[j - 1]|
      ensures forall bit: nat :: bit in b <==> AllIn(index, itemSet, i, bit)
    {
      hide AllIn;
      b := index[smallest - 1][i];
      NoneIn(index, i);
      assert itemSet[..0] == [];
      for k := 0 to |itemSet|
        invariant forall bit: nat :: bit in b <==>
          bit in index[smallest - 1][i] && AllIn(index, itemSet[..k], i, bit)
      {
        var item := itemSet[k];
        assert item in itemSet && itemSet[..k + 1] == itemSet[..k] + [item];
        OneMoreIn(index, itemSet[..k], item, i);
        if item == smallest {
          continue;
        }
        var other := index[item - 1];
        if i < |other| {
          b := b * other[i];
        }
      }
      assert itemSet[..|itemSet|] == itemSet;
      MemberIn(index, itemSet, smallest, i);
    }

    /** The count of a single item: all bits of its list. */
    method CountItem(item: Item) returns (count: nat)
      requires Valid()
      ensures count == NaiveCount(ItemsOf(transactions), {item})
    {
      hide InChunk, NaiveCount, LineOf, BitsAre;
      ghost var line := Line();
      LineCounts(firstChunkStartOffset, transactions, {item});
      if item - 1 >= |index| {
        UnknownItem(index, line, item, {item});
        return 0;
      }
      var tidlist := index[item - 1];
      count := 0;
      for i := 0 to |tidlist|
        invariant count == Hits(line, {item}, CHUNK_SIZE * i)
      {
        OwnChunk(index, item, i);
        ChunkCount(index, line, [item], i, tidlist[i]);
        assert Items([item]) == {item};
        count := count + |tidlist[i]|;
      }
      NoneBeyond(index, line, item, |tidlist|, {item});
    }

    method DropChunks()
      requires BitsAre(index, Line()) && |Line()| >= CHUNK_SIZE
      modifies `index
      ensures BitsAre(index, Line()[CHUNK_SIZE..])
    {
      ghost var line := Line();
      for i := 0 to |index|
        invariant |index| == |old(index)|
        invariant forall j :: 0 <= j < i ==> index[j] == if |old(index)[j]| > 0 then old(index)[j][1..] else []
        invariant forall j :: i <= j < |index| ==> index[j] == old(index)[j]
      {
        if |index[i]| > 0 {
          index := index[i := index[i][1..]];
        }
      }
      Rebased(old(index), index, line);
    }
  }

  lemma Appended(before: seq<TidList>, after: seq<TidList>, line: seq<Path>, t: Path, chunkIdx: nat, bitNum: nat)
    requires BitsAre(before, line) && chunkIdx == |line| / CHUNK_SIZE && bitNum == |line| % CHUNK_SIZE
    requires forall i: Item, c: nat, b: nat :: InChunk(after, i, c, b) <==>
      InChunk(before, i, c, b) || (i in t && c == chunkIdx && b == bitNum)
    ensures BitsAre(after, line + [t])
  {
    hide InChunk;
    forall i: Item, c: nat, b: nat
      ensures InChunk(after, i, c, b) <==> b < CHUNK_SIZE && Has(line + [t], CHUNK_SIZE * c + b, i)
    {
      assert InChunk(before, i, c, b) <==> b < CHUNK_SIZE && Has(line, CHUNK_SIZE * c + b, i);
      assert b < CHUNK_SIZE ==> (CHUNK_SIZE * c + b == |line| <==> c == chunkIdx && b == bitNum);
    }
  }

  lemma FrontIsIndexed(index: seq<TidList>, line: seq<Path>, k: nat)
    requires BitsAre(index, line) && k < CHUNK_SIZE && k < |line|
    ensures forall i :: i in line[k] ==> i - 1 < |index| && index[i - 1] != []
  {
    forall i | i in line[k] ensures i - 1 < |index| && index[i - 1] != [] {
      assert Has(line, CHUNK_SIZE * 0 + k, i);
      assert InChunk(index, i, 0, k);
    }
  }

  lemma ClearOne(index: seq<TidList>, item: Item, bitNum: nat)
    requires item - 1 < |index| && index[item - 1] != []
    ensures forall i: Item, c: nat, b: nat ::
      InChunk(index[item - 1 := index[item - 1][0 := index[item - 1][0] - {bitNum}]], i, c, b) <==>
        InChunk(index, i, c, b) && !(i == item && c == 0 && b == bitNum)
  {
  }

  lemma OneMoreCleared(first: seq<TidList>, before: seq<TidList>, after: seq<TidList>, items: Path, k: nat, bitNum: nat)
    requires k < |items|
    requires forall i: Item, c: nat, b: nat :: InChunk(before, i, c, b) <==>
      InChunk(first, i, c, b) && !(i in items[..k] && c == 0 && b == bitNum)
    requires forall i: Item, c: nat, b: nat :: InChunk(after, i, c, b) <==>
      InChunk(before, i, c, b) && !(i == items[k] && c == 0 && b == bitNum)
    ensures forall i: Item, c: nat, b: nat :: InChunk(after, i, c, b) <==>
      InChunk(first, i, c, b) && !(i in items[..k + 1] && c == 0 && b == bitNum)
  {
    hide InChunk;
    assert items[..k + 1] == items[..k] + [items[k]];
    forall i: Item, c: nat, b: nat
      ensures InChunk(after, i, c, b) <==> InChunk(first, i, c, b) && !(i in items[..k + 1] && c == 0 && b == bitNum)
    {
      assert i in items[..k + 1] <==> i in items[..k] || i == items[k];
    }
  }

  lemma Cleared(before: seq<TidList>, after: seq<TidList>, line: seq<Path>, k: nat, t: Path)
    requires BitsAre(before, line) && k < CHUNK_SIZE && k < |line| && line[k] == t
    requires forall i: Item, c: nat, b: nat :: InChunk(after, i, c, b) <==>
      InChunk(before, i, c, b) && !(i in t && c == 0 && b == k)
    ensures BitsAre(after, line[k := []])
  {
    hide InChunk;
    forall i: Item, c: nat, b: nat
      ensures InChunk(after, i, c, b) <==> b < CHUNK_SIZE && Has(line[k := []], CHUNK_SIZE * c + b, i)
    {
      assert InChunk(before, i, c, b) <==> b < CHUNK_SIZE && Has(line, CHUNK_SIZE * c + b, i);
    }
  }

  lemma Rebased(before: seq<TidList>, after: seq<TidList>, line: seq<Path>)
    requires BitsAre(before, line) && |line| >= CHUNK_SIZE && |after| == |before|
    requires forall j :: 0 <= j < |before| ==> after[j] == if |before[j]| > 0 then before[j][1..] else []
    ensures BitsAre(after, line[CHUNK_SIZE..])
  {
    forall i: Item, c: nat, b: nat
      ensures InChunk(after, i, c, b) <==> b < CHUNK_SIZE && Has(line[CHUNK_SIZE..], CHUNK_SIZE * c + b, i)
    {
      assert InChunk(before, i, c + 1, b) <==> b < CHUNK_SIZE && Has(line, CHUNK_SIZE * (c + 1) + b, i);
      assert InChunk(after, i, c, b) <==> InChunk(before, i, c + 1, b);
    }
  }

  lemma LineShorter(offset: nat, ts: seq<Transaction>)
    requires ts != [] && offset < CHUNK_SIZE
    ensures LineOf(offset, ts)[offset := []] == LineOf(offset + 1, ts[1..])
    ensures offset + 1 == CHUNK_SIZE ==> |LineOf(offset, ts)| >= CHUNK_SIZE && LineOf(offset, ts)[CHUNK_SIZE..] == LineOf(0, ts[1..])
  {
  }

  // ---- counting --------------------------------------------------------------------------

  lemma UnknownItem(index: seq<TidList>, line: seq<Path>, item: Item, s: set<Item>)
    requires BitsAre(index, line) && item in s && item - 1 >= |index|
    ensures NaiveCount(line, s) == 0
  {
    forall k | 0 <= k < |line| ensures Contains(s)(line[k]) == 0 {
      OffsetParts(k);
      assert InChunk(index, item, k / CHUNK_SIZE, k % CHUNK_SIZE) <==> Has(line, k, item);
    }
    NaiveNone(line, s);
  }

  lemma OffsetParts(k: nat)
    ensures k == CHUNK_SIZE * (k / CHUNK_SIZE) + k % CHUNK_SIZE && k % CHUNK_SIZE < CHUNK_SIZE
  {
  }

  ghost predicate HitInChunk(line: seq<Path>, s: set<Item>, c: nat, b: nat) {
    HitAt(line, s, CHUNK_SIZE * c + b)
  }

  /** A chunk's hits, counted. */
  lemma {:induction false} HitsInChunk(line: seq<Path>, s: set<Item>, c: nat, bits: Chunk, n: nat)
    requires n <= CHUNK_SIZE && forall b: nat :: b in bits <==> b < n && HitInChunk(line, s, c, b)
    ensures Hits(line, s, CHUNK_SIZE * c + n) == Hits(line, s, CHUNK_SIZE * c) + |bits|
  {
    hide HitAt;
    if n == 0 {
      assert bits == {};
    } else {
      HitsInChunk(line, s, c, bits - {n - 1}, n - 1);
      assert n - 1 in bits <==> HitInChunk(line, s, c, n - 1);
    }
  }

  lemma ChunkCount(index: seq<TidList>, line: seq<Path>, items: seq<Item>, c: nat, bits: Chunk)
    requires BitsAre(index, line) && items != []
    requires forall b: nat :: b in bits <==> AllIn(index, items, c, b)
    ensures Hits(line, Items(items), CHUNK_SIZE * (c + 1)) == Hits(line, Items(items), CHUNK_SIZE * c) + |bits|
  {
    hide InChunk, Hits;
    var s := Items(items);
    forall b: nat ensures b in bits <==> b < CHUNK_SIZE && HitInChunk(line, s, c, b) {
      assert items[0] in s;
      forall j | j in items ensures InChunk(index, j, c, b) <==> b < CHUNK_SIZE && Has(line, CHUNK_SIZE * c + b, j) {}
      if b in bits { assert InChunk(index, items[0], c, b); }
    }
    HitsInChunk(line, s, c, bits, CHUNK_SIZE);
  }

  lemma EmptyChunk(index: seq<TidList>, line: seq<Path>, item: Item, c: nat, s: set<Item>)
    requires BitsAre(index, line) && item in s && item - 1 < |index| && c < |index[item - 1]| && index[item - 1][c] == {}
    ensures Hits(line, s, CHUNK_SIZE * (c + 1)) == Hits(line, s, CHUNK_SIZE * c)
  {
    hide Hits;
    forall b: nat ensures !(b < CHUNK_SIZE && HitInChunk(line, s, c, b)) {
      assert InChunk(index, item, c, b) <==> b < CHUNK_SIZE && Has(line, CHUNK_SIZE * c + b, item);
    }
    HitsInChunk(line, s, c, {}, CHUNK_SIZE);
  }

  lemma MemberIn(index: seq<TidList>, items: seq<Item>, item: Item, c: nat)
    requires item in items
    ensures forall b: nat :: AllIn(index, items, c, b) ==> InChunk(index, item, c, b)
  {
  }

  lemma NoneIn(index: seq<TidList>, c: nat)
    ensures forall b: nat :: AllIn(index, [], c, b)
  {
  }

  lemma OneMoreIn(index: seq<TidList>, items: seq<Item>, item: Item, c: nat)
    ensures forall b: nat :: AllIn(index, items + [item], c, b) <==> AllIn(index, items, c, b) && InChunk(index, item, c, b)
  {
    forall b: nat
      ensures AllIn(index, items + [item], c, b) <==> AllIn(index, items, c, b) && InChunk(index, item, c, b)
    {
      assert item in items + [item];
      if AllIn(index, items + [item], c, b) {
        forall j | j in items ensures InChunk(index, j, c, b) { assert j in items + [item]; }
      }
    }
  }

  lemma OwnChunk(index: seq<TidList>, item: Item, c: nat)
    requires item - 1 < |index| && c < |index[item - 1]|
    ensures forall b: nat :: b in index[item - 1][c] <==> AllIn(index, [item], c, b)
  {
    forall b: nat ensures AllIn(index, [item], c, b) <==> InChunk(index, item, c, b) {
      assert item in [item];
    }
  }

  /** There are no hits beyond the end of a member's list. */
  lemma NoneBeyond(index: seq<TidList>, line: seq<Path>, item: Item, len: nat, s: set<Item>)
    requires BitsAre(index, line) && item in s && item - 1 < |index| && len == |index[item - 1]|
    ensures Hits(line, s, CHUNK_SIZE * len) == NaiveCount(line, s)
  {
    hide Hits, NaiveCount, BitsAre;
    var n := CHUNK_SIZE * len;
    if n >= |line| {
      HitsAreNaive(line, s, n);
    } else {
      NoHitsFrom(index, line, item, len, s, |line|);
      HitsAreNaive(line, s, |line|);
    }
  }

  lemma {:induction false} NoHitsFrom(index: seq<TidList>, line: seq<Path>, item: Item, len: nat, s: set<Item>, n: nat)
    requires BitsAre(index, line) && item in s && item - 1 < |index| && len == |index[item - 1]|
    requires CHUNK_SIZE * len <= n
    ensures Hits(line, s, n) == Hits(line, s, CHUNK_SIZE * len)
  {
    if n > CHUNK_SIZE * len {
      NoHitsFrom(index, line, item, len, s, n - 1);
      OffsetParts(n - 1);
      assert InChunk(index, item, (n - 1) / CHUNK_SIZE, (n - 1) % CHUNK_SIZE) <==> Has(line, n - 1, item);
    }
  }
}
