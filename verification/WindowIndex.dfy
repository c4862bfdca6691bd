/** The bitmap index of a sliding window (src/WindowIndex.cpp). */
module WindowIndexes {
  import opened Orders
  import opened Bags
  import opened PopCount
  import opened Arithmetic

  // ---- counting by looking at every transaction --------------------------------------------

  ghost function NaiveCount(ts: seq<Path>, s: set<Item>): nat {
    if ts == [] then 0 else NaiveCount(ts[..|ts| - 1], s) + Contains(s)(ts[|ts| - 1])
  }

  lemma {:induction false} NaiveUpdate(ts: seq<Path>, k: nat, t: Path, s: set<Item>)
    requires k < |ts|
    ensures NaiveCount(ts[k := t], s) + Contains(s)(ts[k]) == NaiveCount(ts, s) + Contains(s)(t)
  {
    var us, n := ts[k := t], |ts| - 1;
    if k == n {
      assert us[..n] == ts[..n];
    } else {
      NaiveUpdate(ts[..n], k, t, s);
      assert us[..n] == ts[..n][k := t];
    }
  }

  lemma {:induction false} NaiveJoin(ts: seq<Path>, us: seq<Path>, s: set<Item>)
    ensures NaiveCount(ts + us, s) == NaiveCount(ts, s) + NaiveCount(us, s)
  {
    if us == [] {
      assert ts + us == ts;
    } else {
      NaiveJoin(ts, us[..|us| - 1], s);
      assert (ts + us)[..|ts + us| - 1] == ts + us[..|us| - 1];
    }
  }

  lemma NaiveOne(t: Path, s: set<Item>)
    ensures NaiveCount([t], s) == Contains(s)(t)
  {
    assert [t][..0] == [];
  }

  lemma {:induction false} NaiveNone(ts: seq<Path>, s: set<Item>)
    requires forall k :: 0 <= k < |ts| ==> Contains(s)(ts[k]) == 0
    ensures NaiveCount(ts, s) == 0
  {
    if ts != [] { NaiveNone(ts[..|ts| - 1], s); }
  }

  /** The naive count is the support in the bag of the transactions. */
  lemma {:induction false} NaiveIsSupport(ts: seq<Path>, s: set<Item>)
    ensures NaiveCount(ts, s) == Support(multiset(ts), s)
  {
    if ts != [] {
      var init, last := ts[..|ts| - 1], ts[|ts| - 1];
      NaiveIsSupport(init, s);
      assert ts == init + [last];
      SumAdd(multiset(init), Contains(s), last);
    }
  }

  // ---- rows of bits ----------------------------------------------------------------------

  type Rows = map<Item, seq<bv32>>

  function RowLength(window: nat): nat {
    window / 32 + 1
  }

  ghost predicate RowsOk(rows: Rows, len: nat) {
    forall i :: i in rows ==> |rows[i]| == len
  }

  /** The bit of an item in a slot of the window. */
  predicate BitOf(rows: Rows, i: Item, slot: nat) {
    i in rows && slot / 32 < |rows[i]| && TestBit(rows[i][slot / 32], slot % 32)
  }

  /** The bits say which items the slots' transactions contain; slots beyond the window are free. */
  ghost predicate BitsOk(rows: Rows, slots: seq<Path>) {
    forall i: Item, slot: nat :: BitOf(rows, i, slot) <==> slot < |slots| && i in slots[slot]
  }

  function ActiveOf(active: map<Item, set<nat>>, i: Item): set<nat> {
    if i in active then active[i] else {}
  }

  ghost predicate NonZero(rows: Rows, i: Item, c: nat) {
    i in rows && c < |rows[i]| && rows[i][c] != 0
  }

  ghost predicate ActiveOk(rows: Rows, active: map<Item, set<nat>>) {
    forall i: Item, c: nat :: c in ActiveOf(active, i) <==> NonZero(rows, i, c)
  }

  lemma SlotParts(slot: nat, other: nat, window: nat)
    requires slot < window
    ensures slot / 32 < RowLength(window) && slot % 32 < 32
    ensures slot / 32 == other / 32 && slot % 32 == other % 32 ==> slot == other
  {
  }

  function SlotOf(tid: nat, window: nat): (slot: nat)
    requires window > 0
    ensures slot < window
  {
    tid % window
  }

  /** The slot of the transaction j after the one numbered first. */
  function SlotAt(first: nat, j: nat, window: nat): (slot: nat)
    requires window > 0
    ensures slot < window
  {
    SlotOf(first + j, window)
  }

  /** Window transaction j sits in slot (first + j) mod maxLength, and the other slots are free. */
  ghost predicate Placed(slots: seq<Path>, window: seq<Path>, first: nat, maxLength: nat)
    requires maxLength > 0
  {
    && |slots| == maxLength && |window| <= maxLength
    && forall j :: 0 <= j < maxLength ==> slots[SlotAt(first, j, maxLength)] == if j < |window| then window[j] else []
  }

  lemma SlotsDiffer(first: nat, j: nat, k: nat, maxLength: nat)
    requires j < maxLength && k < maxLength && j != k
    ensures SlotAt(first, j, maxLength) != SlotAt(first, k, maxLength)
  {
    if j < k { NoMultiple(first + j, k - j, maxLength); } else { NoMultiple(first + k, j - k, maxLength); }
  }

  lemma FrontRemoved(slots: seq<Path>, window: seq<Path>, first: nat, maxLength: nat)
    requires maxLength > 0 && Placed(slots, window, first, maxLength) && window != []
    ensures |slots| == maxLength && slots[SlotOf(first, maxLength)] == window[0]
    ensures Placed(slots[SlotOf(first, maxLength) := []], window[1..], first + 1, maxLength)
  {
    hide SlotAt, SlotOf;
    SlotNext(first, 0, maxLength);
    var front, after := SlotOf(first, maxLength), slots[SlotOf(first, maxLength) := []];
    assert slots[SlotAt(first, 0, maxLength)] == window[0];
    forall j | 0 <= j < maxLength
      ensures after[SlotAt(first + 1, j, maxLength)] == if j < |window[1..]| then window[1..][j] else []
    {
      SlotNext(first, j, maxLength);
      if j + 1 < maxLength {
        SlotsDiffer(first, 0, j + 1, maxLength);
        assert slots[SlotAt(first, j + 1, maxLength)] == if j + 1 < |window| then window[j + 1] else [];
      }
    }
  }

  /** The last slot of a window length is followed by the first. */
  lemma SlotNext(first: nat, j: nat, window: nat)
    requires j < window
    ensures SlotAt(first, 0, window) == SlotOf(first, window)
    ensures SlotAt(first + 1, j, window) == if j + 1 < window then SlotAt(first, j + 1, window) else SlotOf(first, window)
  {
    if j + 1 == window {
      var q, r := first / window, first % window;
      assert first + window == (q + 1) * window + r;
      ModIs(first + window, q + 1, r, window);
    }
  }

  lemma BackAdded(slots: seq<Path>, window: seq<Path>, first: nat, maxLength: nat, t: Path)
    requires maxLength > 0 && Placed(slots, window, first, maxLength) && |window| < maxLength
    ensures |slots| == maxLength && slots[SlotOf(first + |window|, maxLength)] == []
    ensures Placed(slots[SlotOf(first + |window|, maxLength) := t], window + [t], first, maxLength)
  {
    var slot := SlotAt(first, |window|, maxLength);
    hide SlotOf;
    assert slots[slot] == [];
    forall j | 0 <= j < maxLength
      ensures slots[slot := t][SlotAt(first, j, maxLength)] == if j < |window| + 1 then (window + [t])[j] else []
    {
      if j != |window| { SlotsDiffer(first, j, |window|, maxLength); }
    }
  }

  /** Replacing one slot's transaction and adding or dropping the same at an end of the window. */
  lemma CountsFollow(slots: seq<Path>, k: nat, was: Path, t: Path, window: seq<Path>, after: seq<Path>, s: set<Item>)
    requires s != {} && NaiveCount(slots, s) == NaiveCount(window, s) && k < |slots| && slots[k] == was
    requires (after == window + [t] && was == []) || (window == [was] + after && t == [])
    ensures NaiveCount(slots[k := t], s) == NaiveCount(after, s)
  {
    NaiveUpdate(slots, k, t, s);
    NaiveOne(t, s);
    NaiveOne(was, s);
    NaiveJoin(window, [t], s);
    NaiveJoin([was], after, s);
  }

  class WindowIndex {
    const maxLength: nat
    var rows: Rows
    var active: map<Item, set<nat>>
    var window: seq<Path>

    /** The transaction in each slot, and the number of the window's first transaction. */
    ghost var slots: seq<Path>
    ghost var first: nat

    ghost predicate Tables()
      reads this
    {
      maxLength > 0 && RowsOk(rows, RowLength(maxLength)) && ActiveOk(rows, active)
    }

    ghost predicate SlotsOk()
      requires maxLength > 0
      reads this
    {
      Placed(slots, window, first, maxLength)
    }

    ghost predicate SameCounts()
      reads this
    {
      forall s: set<Item> {:trigger NaiveCount(slots, s)} :: s != {} ==> NaiveCount(slots, s) == NaiveCount(window, s)
    }

    ghost predicate Valid()
      reads this
    {
      Tables() && SlotsOk() && BitsOk(rows, slots) && SameCounts()
    }

    constructor (length: nat)
      requires length > 0
      ensures Valid() && maxLength == length && window == [] && first == 0
    {
      maxLength, rows, active, window := length, map[], map[], [];
      slots, first := seq(length, _ => []), 0;
      new;
      forall s: set<Item> | s != {} ensures NaiveCount(slots, s) == NaiveCount(window, s) {
        NaiveNone(slots, s);
      }
    }

    method MarkChunkUsage(item: Item, chunkIndex: nat, used: bool)
      modifies `active
      ensures active == old(active)[item :=
        if used then ActiveOf(old(active), item) + {chunkIndex} else ActiveOf(old(active), item) - {chunkIndex}]
    {
      var chunks := ActiveOf(active, item);
      if used {
        active := active[item := chunks + {chunkIndex}];
      } else {
        active := active[item := chunks - {chunkIndex}];
      }
    }

    /** The first half of Set: an item not seen before gets a row of zeros. */
    method AddRow(item: Item)
      requires Tables()
      modifies `rows
      ensures Tables() && item in rows
      ensures forall i: Item, slot: nat :: BitOf(rows, i, slot) <==> BitOf(old(rows), i, slot)
    {
      if item !in rows {
        NewRow(rows, item, RowLength(maxLength), active);
        rows := rows[item := seq(RowLength(maxLength), _ => 0)];
      }
    }

    method Set(tid: nat, item: Item, value: bool)
      requires Tables()
      modifies `rows, `active
      ensures Tables()
      ensures forall i: Item, slot: nat :: BitOf(rows, i, slot) <==>
        if i == item && slot == SlotOf(tid, maxLength) then value else BitOf(old(rows), i, slot)
    {
      hide Mask, With, Without, BitOf, ActiveOk;
      AddRow(item);
      ghost var before, slot := rows, SlotOf(tid, maxLength);
      var chunkIndex, bitNum := (tid % maxLength) / 32, (tid % maxLength) % 32;
      SlotParts(slot, 0, maxLength);
      var chunkBefore := rows[item][chunkIndex];
      var chunk := if value then With(chunkBefore, Mask(bitNum)) else Without(chunkBefore, Mask(bitNum));
      rows := rows[item := rows[item][chunkIndex := chunk]];
      BitChanged(before, item, slot, value, chunk, RowLength(maxLength));
      ChunkChanged(before, active, item, chunkIndex, chunk, RowLength(maxLength));
      if (chunkBefore == 0 || chunk == 0) && chunkBefore != chunk {
        MarkChunkUsage(item, chunkIndex, chunk != 0);
      }
      forall i: Item, k: nat ensures BitOf(rows, i, k) <==> if i == item && k == slot then value else BitOf(old(rows), i, k) {
        assert BitOf(before, i, k) <==> BitOf(old(rows), i, k);
      }
    }

    /** Bits of the items in the slot set to one value. */
    method SetAll(tid: nat, txn: Path, value: bool)
      requires Tables()
      modifies `rows, `active
      ensures Tables()
      ensures forall i: Item, slot: nat :: BitOf(rows, i, slot) <==>
        if i in txn && slot == SlotOf(tid, maxLength) then value else BitOf(old(rows), i, slot)
    {
      hide BitOf, RowsOk, ActiveOk, SlotOf;
      for k := 0 to |txn|
        invariant Tables()
        invariant forall i: Item, slot: nat :: BitOf(rows, i, slot) <==>
          if i in txn[..k] && slot == SlotOf(tid, maxLength) then value else BitOf(old(rows), i, slot)
      {
        Set(tid, txn[k], value);
        assert txn[..k + 1] == txn[..k] + [txn[k]];
      }
      assert txn[..|txn|] == txn;
    }

    /** The front transaction leaves the window. */
    method PopFront(frontTxnNum: nat)
      requires Valid() && window != [] && frontTxnNum == first
      modifies this
      ensures Valid() && window == old(window)[1..] && first == old(first) + 1
    {
      hide BitOf, NaiveCount, Placed, RowsOk, ActiveOk, SlotOf;
      var txn := window[0];
      ghost var slot := SlotOf(first, maxLength);
      FrontRemoved(slots, window, first, maxLength);
      SetAll(frontTxnNum, txn, false);
      forall s: set<Item> | s != {} ensures NaiveCount(slots[slot := []], s) == NaiveCount(window[1..], s) {
        assert window == [txn] + window[1..];
        CountsFollow(slots, slot, txn, [], window, window[1..], s);
      }
      window := window[1..];
      slots := slots[slot := []];
      first := first + 1;
    }

    method PushBack(transactionNum: nat, transaction: Path)
      requires Valid() && |window| < maxLength && transactionNum == first + |window|
      modifies this
      ensures Valid() && window == old(window) + [transaction] && first == old(first)
    {
      hide BitOf, NaiveCount, Placed, RowsOk, ActiveOk, SlotOf;
      ghost var slot := SlotOf(transactionNum, maxLength);
      BackAdded(slots, window, first, maxLength, transaction);
      forall s: set<Item> | s != {} ensures NaiveCount(slots[slot := transaction], s) == NaiveCount(window + [transaction], s) {
        CountsFollow(slots, slot, [], transaction, window, window + [transaction], s);
      }
      window := window + [transaction];
      SetAll(transactionNum, transaction, true);
      slots := slots[slot := transaction];
    }

    /** What the debug build verifies of the window: Get says which items a window transaction has. */
    lemma VerifyWindow(j: nat, item: Item)
      requires Valid() && j < |window|
      ensures Get(first + j, item) <==> item in window[j]
    {
      assert slots[SlotAt(first, j, maxLength)] == window[j];
    }

    function GetNumActiveChunks(item: Item): nat
      reads this
    {
      |ActiveOf(active, item)|
    }

    /** The item with the fewest non-zero chunks. */
    method Sparsest(itemSet: seq<Item>) returns (sparsest: Item, numChunks: nat)
      requires itemSet != []
      ensures sparsest in itemSet && numChunks == GetNumActiveChunks(sparsest)
      ensures forall i :: i in itemSet ==> numChunks <= GetNumActiveChunks(i)
    {
      sparsest, numChunks := itemSet[0], GetNumActiveChunks(itemSet[0]);
      for k := 1 to |itemSet|
        invariant sparsest in itemSet && numChunks == GetNumActiveChunks(sparsest)
        invariant forall j :: 0 <= j < k ==> numChunks <= GetNumActiveChunks(itemSet[j])
      {
        var n := GetNumActiveChunks(itemSet[k]);
        if n < numChunks {
          sparsest, numChunks := itemSet[k], n;
        }
      }
    }

    /** The chunk of the sparsest item with the others' chunks masked in, until nothing is left of it. */
    method AndChunks(itemSet: seq<Item>, sparsest: Item, chunkIndex: nat) returns (chunk: bv32)
      requires Tables() && sparsest in itemSet && chunkIndex < RowLength(maxLength)
      requires forall i :: i in itemSet ==> i in rows
      ensures forall k :: 0 <= k < 32 ==> (TestBit(chunk, k) <==> AllHave(rows, itemSet, chunkIndex, k))
    {
      hide TestBit, ActiveOk, Both;
      chunk := rows[sparsest][chunkIndex];
      var j := 0;
      while j < |itemSet| && chunk != 0
        invariant 0 <= j <= |itemSet|
        invariant forall k :: 0 <= k < 32 ==> (TestBit(chunk, k) <==>
          TestBit(rows[sparsest][chunkIndex], k) && AllHave(rows, itemSet[..j], chunkIndex, k))
      {
        var item := itemSet[j];
        j := j + 1;
        MoreHave(rows, itemSet, j - 1, chunkIndex);
        if item == sparsest || item !in rows {
          continue;
        }
        AndChunk(chunk, rows[item][chunkIndex]);
        chunk := Both(chunk, rows[item][chunkIndex]);
      }
      AllMasked(rows, itemSet, j, sparsest, chunkIndex, chunk);
    }

    lemma SlotForEach()
      requires Valid()
      ensures |slots| == maxLength
    {
    }

    method Count(itemSet: seq<Item>) returns (count: nat)
      requires Valid() && itemSet != []
      ensures count == NaiveCount(window, Items(itemSet))
    {
      hide TestBit, BitOf, NonZero, NaiveCount, Placed, RowsOk, SumBlocks, SlotOf;
      ghost var s := Items(itemSet);
      assert itemSet[0] in s;
      assert NaiveCount(slots, s) == NaiveCount(window, s);
      var sparsest, numChunks := Sparsest(itemSet);
      count := 0;
      if numChunks == 0 {
        NowhereActive(rows, active, slots, sparsest, s);
        return;
      }
      if sparsest !in rows {
        NoRow(rows, slots, sparsest, s);
        return;
      }
      EveryRow(rows, active, itemSet);
      var rest := ActiveOf(active, sparsest);
      ghost var done: set<nat> := {};
      SumNone(slots, s, RowLength(maxLength));
      while rest != {}
        invariant rest + done == ActiveOf(active, sparsest) && rest !! done
        invariant count == SumBlocks(slots, s, done, RowLength(maxLength))
      {
        var chunkIndex :| chunkIndex in rest;
        ActiveInRange(rows, active, sparsest, chunkIndex, RowLength(maxLength));
        var chunk := AndChunks(itemSet, sparsest, chunkIndex);
        PopulationCountIsOnes(chunk);
        ChunkHits(rows, slots, itemSet, chunkIndex, chunk);
        SumOneMore(slots, s, done, chunkIndex, RowLength(maxLength));
        count := count + PopulationCount(chunk) as nat;
        rest := rest - {chunkIndex};
        done := done + {chunkIndex};
      }
      SlotForEach();
      AllBlocks(rows, active, slots, sparsest, s, RowLength(maxLength), maxLength);
    }

    function Get(tid: nat, item: Item): bool
      requires maxLength > 0
      reads this
    {
      BitOf(rows, item, SlotOf(tid, maxLength))
    }
  }

  /** The set of active chunks needs a change only when the chunk becomes zero or stops being zero. */
  lemma ChunkChanged(rows: Rows, active: map<Item, set<nat>>, item: Item, c: nat, chunk: bv32, len: nat)
    requires RowsOk(rows, len) && ActiveOk(rows, active) && item in rows && c < len
    ensures var before, after := rows[item][c], rows[item := rows[item][c := chunk]];
      ActiveOk(after,
        if (before == 0 || chunk == 0) && before != chunk then
          active[item := if chunk != 0 then ActiveOf(active, item) + {c} else ActiveOf(active, item) - {c}]
        else active)
  {
    var before, after := rows[item][c], rows[item := rows[item][c := chunk]];
    var marked := active[item := if chunk != 0 then ActiveOf(active, item) + {c} else ActiveOf(active, item) - {c}];
    forall i: Item, k: nat
      ensures NonZero(after, i, k) <==> if i == item && k == c then chunk != 0 else k in ActiveOf(active, i)
    {
      assert k in ActiveOf(active, i) <==> NonZero(rows, i, k);
    }
    assert c in ActiveOf(active, item) <==> NonZero(rows, item, c);
  }

  lemma NewRow(rows: Rows, item: Item, len: nat, active: map<Item, set<nat>>)
    requires item !in rows && RowsOk(rows, len) && ActiveOk(rows, active)
    ensures var grown := rows[item := seq(len, _ => 0)];
      RowsOk(grown, len) && ActiveOk(grown, active) && forall i: Item, slot: nat :: BitOf(grown, i, slot) <==> BitOf(rows, i, slot)
  {
    hide TestBit;
    var grown := rows[item := seq(len, _ => 0)];
    forall i: Item, slot: nat ensures BitOf(grown, i, slot) <==> BitOf(rows, i, slot) {
      ZeroHasNoBit(slot % 32);
    }
    forall i: Item, c: nat ensures c in ActiveOf(active, i) <==> NonZero(grown, i, c) {
      assert c in ActiveOf(active, i) <==> NonZero(rows, i, c);
    }
  }

  lemma BitChanged(rows: Rows, item: Item, slot: nat, value: bool, chunk: bv32, len: nat)
    requires RowsOk(rows, len) && item in rows && slot / 32 < len
    requires chunk == if value then With(rows[item][slot / 32], Mask(slot % 32)) else Without(rows[item][slot / 32], Mask(slot % 32))
    ensures forall i: Item, k: nat :: BitOf(rows[item := rows[item][slot / 32 := chunk]], i, k) <==>
      if i == item && k == slot then value else BitOf(rows, i, k)
  {
    hide Mask, With, Without, TestBit;
    var after := rows[item := rows[item][slot / 32 := chunk]];
    forall i: Item, k: nat
      ensures BitOf(after, i, k) <==> if i == item && k == slot then value else BitOf(rows, i, k)
    {
      if i == item && k / 32 == slot / 32 {
        SetAndClear(rows[item][slot / 32], slot % 32, k % 32);
        SlotParts(slot, k, slot + 1);
      }
    }
  }

  // ---- counting by chunks ------------------------------------------------------------------

  /** Every item of the set has bit k of the chunk. */
  ghost predicate AllHave(rows: Rows, items: seq<Item>, c: nat, k: nat) {
    forall i :: i in items ==> BitOf(rows, i, 32 * c + k)
  }

  lemma ChunkBit(rows: Rows, i: Item, c: nat, k: nat)
    requires k < 32
    ensures BitOf(rows, i, 32 * c + k) <==> i in rows && c < |rows[i]| && TestBit(rows[i][c], k)
  {
    assert (32 * c + k) / 32 == c && (32 * c + k) % 32 == k;
  }

  /** A chunk is marked active exactly when one of its bits is set. */
  lemma ActiveMeansSet(rows: Rows, active: map<Item, set<nat>>, i: Item, c: nat)
    requires ActiveOk(rows, active)
    ensures c in ActiveOf(active, i) <==> exists slot: nat :: slot / 32 == c && BitOf(rows, i, slot)
  {
    assert c in ActiveOf(active, i) <==> NonZero(rows, i, c);
    if slot: nat :| slot / 32 == c && BitOf(rows, i, slot) {
      ZeroHasNoBit(slot % 32);
    }
    if NonZero(rows, i, c) {
      var k := SomeBit(rows[i][c]);
      ChunkBit(rows, i, c, k);
      assert (32 * c + k) / 32 == c;
    }
  }

  lemma SomeBit(w: bv32) returns (k: nat)
    requires w != 0
    ensures k < 32 && TestBit(w, k)
  {
    if forall j :: 0 <= j < 32 ==> !TestBit(w, j) {
      NoBitIsZero(w);
    }
    k :| 0 <= k < 32 && TestBit(w, k);
  }

  lemma MoreHave(rows: Rows, items: seq<Item>, j: nat, c: nat)
    requires j < |items| && items[j] in rows && c < |rows[items[j]]|
    ensures forall k :: 0 <= k < 32 ==>
      (AllHave(rows, items[..j + 1], c, k) <==> AllHave(rows, items[..j], c, k) && TestBit(rows[items[j]][c], k))
  {
    hide TestBit, BitOf;
    assert items[..j + 1] == items[..j] + [items[j]];
    forall k | 0 <= k < 32
      ensures AllHave(rows, items[..j + 1], c, k) <==> AllHave(rows, items[..j], c, k) && TestBit(rows[items[j]][c], k)
    {
      ChunkBit(rows, items[j], c, k);
      if AllHave(rows, items[..j + 1], c, k) {
        assert items[j] in items[..j + 1] && BitOf(rows, items[j], 32 * c + k);
        forall i | i in items[..j] ensures BitOf(rows, i, 32 * c + k) { assert i in items[..j + 1]; }
      }
    }
  }

  lemma AndChunk(v: bv32, w: bv32)
    ensures forall k :: 0 <= k < 32 ==> (TestBit(Both(v, w), k) <==> TestBit(v, k) && TestBit(w, k))
  {
    hide TestBit, Both;
    forall k | 0 <= k < 32 ensures TestBit(Both(v, w), k) <==> TestBit(v, k) && TestBit(w, k) {
      BothBits(v, w, k);
    }
  }

  /** Stopping early is no loss: from a zero chunk no bit comes back. */
  lemma AllMasked(rows: Rows, items: seq<Item>, j: nat, sparsest: Item, c: nat, chunk: bv32)
    requires j <= |items| && sparsest in items && sparsest in rows && c < |rows[sparsest]|
    requires j == |items| || chunk == 0
    requires forall k :: 0 <= k < 32 ==>
      (TestBit(chunk, k) <==> TestBit(rows[sparsest][c], k) && AllHave(rows, items[..j], c, k))
    ensures forall k :: 0 <= k < 32 ==> (TestBit(chunk, k) <==> AllHave(rows, items, c, k))
  {
    hide TestBit, BitOf;
    forall k | 0 <= k < 32 ensures TestBit(chunk, k) <==> AllHave(rows, items, c, k) {
      ChunkBit(rows, sparsest, c, k);
      if j == |items| {
        assert items[..j] == items;
      } else {
        ZeroHasNoBit(k);
      }
      if AllHave(rows, items, c, k) {
        assert BitOf(rows, sparsest, 32 * c + k);
        forall i | i in items[..j] ensures BitOf(rows, i, 32 * c + k) { assert i in items; }
      }
    }
  }

  ghost predicate HitAt(slots: seq<Path>, s: set<Item>, slot: nat) {
    slot < |slots| && forall i :: i in s ==> i in slots[slot]
  }

  /** A hit at bit k of chunk c. */
  ghost predicate HitIn(slots: seq<Path>, s: set<Item>, c: nat, k: nat) {
    HitAt(slots, s, 32 * c + k)
  }

  /** Number of slots below n whose transactions contain s. */
  ghost function Hits(slots: seq<Path>, s: set<Item>, n: nat): nat {
    if n == 0 then 0 else Hits(slots, s, n - 1) + if HitAt(slots, s, n - 1) then 1 else 0
  }

  lemma {:induction false} HitsAreNaive(slots: seq<Path>, s: set<Item>, n: nat)
    requires n >= |slots|
    ensures Hits(slots, s, n) == NaiveCount(slots, s)
    decreases n
  {
    if n == |slots| {
      if n > 0 {
        var init := slots[..n - 1];
        HitsAreNaive(init, s, n - 1);
        SameHits(slots, init, s, n - 1);
      }
    } else {
      HitsAreNaive(slots, s, n - 1);
    }
  }

  lemma {:induction false} SameHits(slots: seq<Path>, init: seq<Path>, s: set<Item>, n: nat)
    requires n <= |init| && init <= slots
    ensures Hits(slots, s, n) == Hits(init, s, n)
  {
    if n > 0 {
      SameHits(slots, init, s, n - 1);
      assert slots[n - 1] == init[n - 1];
    }
  }

  /** Hits among the 32 slots of chunk c. */
  ghost function BlockHits(slots: seq<Path>, s: set<Item>, c: nat): int {
    Hits(slots, s, 32 * c + 32) - Hits(slots, s, 32 * c)
  }

  lemma {:induction false} HitsAreOnes(slots: seq<Path>, s: set<Item>, c: nat, chunk: bv32, n: nat)
    requires n <= 32 && forall k :: 0 <= k < 32 ==> (TestBit(chunk, k) <==> HitIn(slots, s, c, k))
    ensures Hits(slots, s, 32 * c + n) == Hits(slots, s, 32 * c) + OnesFrom(chunk, 0, n)
  {
    hide TestBit, HitAt;
    if n > 0 {
      HitsAreOnes(slots, s, c, chunk, n - 1);
      assert TestBit(chunk, n - 1) <==> HitIn(slots, s, c, n - 1);
    }
  }

  lemma ChunkHits(rows: Rows, slots: seq<Path>, items: seq<Item>, c: nat, chunk: bv32)
    requires BitsOk(rows, slots) && items != []
    requires forall k :: 0 <= k < 32 ==> (TestBit(chunk, k) <==> AllHave(rows, items, c, k))
    ensures BlockHits(slots, Items(items), c) == Ones(chunk)
  {
    hide TestBit, BitOf, Hits, OnesFrom;
    forall k | 0 <= k < 32 ensures TestBit(chunk, k) <==> HitIn(slots, Items(items), c, k) {
      forall i | i in items ensures BitOf(rows, i, 32 * c + k) <==> 32 * c + k < |slots| && i in slots[32 * c + k] {}
      assert items[0] in Items(items);
    }
    HitsAreOnes(slots, Items(items), c, chunk, 32);
  }

  /** The hits of the chunks in done, among the first n chunks. */
  ghost function SumBlocks(slots: seq<Path>, s: set<Item>, done: set<nat>, n: nat): int {
    if n == 0 then 0
    else SumBlocks(slots, s, done, n - 1) + if n - 1 in done then BlockHits(slots, s, n - 1) else 0
  }

  lemma {:induction false} SumNone(slots: seq<Path>, s: set<Item>, n: nat)
    ensures SumBlocks(slots, s, {}, n) == 0
  {
    if n > 0 { SumNone(slots, s, n - 1); }
  }

  lemma {:induction false} SumOneMore(slots: seq<Path>, s: set<Item>, done: set<nat>, c: nat, n: nat)
    requires c !in done
    ensures SumBlocks(slots, s, done + {c}, n) == SumBlocks(slots, s, done, n) + if c < n then BlockHits(slots, s, c) else 0
  {
    hide BlockHits;
    if n > 0 { SumOneMore(slots, s, done, c, n - 1); }
  }

  lemma {:induction false} SumAll(slots: seq<Path>, s: set<Item>, done: set<nat>, n: nat)
    requires forall c :: 0 <= c < n && c !in done ==> BlockHits(slots, s, c) == 0
    ensures SumBlocks(slots, s, done, n) == Hits(slots, s, 32 * n)
  {
    if n > 0 {
      hide Hits;
      SumAll(slots, s, done, n - 1);
      assert 32 * (n - 1) + 32 == 32 * n;
    }
  }

  /** Outside the active chunks of one of its items an itemset has no hits. */
  lemma InactiveBlock(rows: Rows, active: map<Item, set<nat>>, slots: seq<Path>, i: Item, s: set<Item>, c: nat)
    requires BitsOk(rows, slots) && ActiveOk(rows, active) && i in s && c !in ActiveOf(active, i)
    ensures BlockHits(slots, s, c) == 0
  {
    hide TestBit, BitOf, Hits;
    assert !NonZero(rows, i, c);
    forall k | 0 <= k < 32 ensures !HitIn(slots, s, c, k) {
      assert BitOf(rows, i, 32 * c + k) <==> 32 * c + k < |slots| && i in slots[32 * c + k];
      ChunkBit(rows, i, c, k);
      ZeroHasNoBit(k);
    }
    NoHits(slots, s, c, 32);
  }

  lemma {:induction false} NoHits(slots: seq<Path>, s: set<Item>, c: nat, n: nat)
    requires n <= 32 && forall k :: 0 <= k < 32 ==> !HitIn(slots, s, c, k)
    ensures Hits(slots, s, 32 * c + n) == Hits(slots, s, 32 * c)
  {
    hide HitAt;
    if n > 0 {
      NoHits(slots, s, c, n - 1);
      assert !HitIn(slots, s, c, n - 1);
    }
  }

  lemma AllBlocks(rows: Rows, active: map<Item, set<nat>>, slots: seq<Path>, i: Item, s: set<Item>, len: nat, window: nat)
    requires BitsOk(rows, slots) && ActiveOk(rows, active) && i in s
    requires |slots| == window && len == RowLength(window)
    ensures SumBlocks(slots, s, ActiveOf(active, i), len) == NaiveCount(slots, s)
  {
    hide BlockHits, Hits, BitsOk, ActiveOk, NaiveCount;
    forall c | 0 <= c < len && c !in ActiveOf(active, i) ensures BlockHits(slots, s, c) == 0 {
      InactiveBlock(rows, active, slots, i, s, c);
    }
    SumAll(slots, s, ActiveOf(active, i), len);
    assert 32 * len >= window;
    HitsAreNaive(slots, s, 32 * len);
  }

  /** An item without an active chunk appears nowhere. */
  lemma NowhereActive(rows: Rows, active: map<Item, set<nat>>, slots: seq<Path>, i: Item, s: set<Item>)
    requires BitsOk(rows, slots) && ActiveOk(rows, active) && i in s && |ActiveOf(active, i)| == 0
    ensures NaiveCount(slots, s) == 0
  {
    hide BlockHits, Hits, BitsOk, ActiveOk, NaiveCount;
    AllBlocks(rows, active, slots, i, s, RowLength(|slots|), |slots|);
    assert ActiveOf(active, i) == {};
    SumNone(slots, s, RowLength(|slots|));
  }

  lemma NoRow(rows: Rows, slots: seq<Path>, i: Item, s: set<Item>)
    requires BitsOk(rows, slots) && i in s && i !in rows
    ensures NaiveCount(slots, s) == 0
  {
    forall k | 0 <= k < |slots| ensures Contains(s)(slots[k]) == 0 {
      assert BitOf(rows, i, k) <==> i in slots[k];
    }
    NaiveNone(slots, s);
  }

  lemma EveryRow(rows: Rows, active: map<Item, set<nat>>, items: seq<Item>)
    requires ActiveOk(rows, active) && forall i :: i in items ==> |ActiveOf(active, i)| > 0
    ensures forall i :: i in items ==> i in rows
  {
    forall i | i in items ensures i in rows {
      var c :| c in ActiveOf(active, i);
      assert NonZero(rows, i, c);
    }
  }

  lemma ActiveInRange(rows: Rows, active: map<Item, set<nat>>, i: Item, c: nat, len: nat)
    requires ActiveOk(rows, active) && RowsOk(rows, len) && c in ActiveOf(active, i)
    ensures c < len
  {
    assert NonZero(rows, i, c);
  }
}
