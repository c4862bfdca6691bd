/** The drift detector's check points: cumulative tables over blocks of transactions (src/StructuralStreamDriftDetector.*). */
module CheckPoints {
  import opened Orders
  import opened Bags
  import opened Arithmetic
  import opened VariableWindow

  datatype CheckPoint = CheckPoint(startTid: nat, endTid: nat, table: map<Item, nat>)

  /** The transactions with an id up to end. */
  ghost function BagUpto(ts: seq<Transaction>, end: nat): Bag {
    if ts == [] then multiset{}
    else
      var last := ts[|ts| - 1];
      BagUpto(ts[..|ts| - 1], end) + if last.id <= end then multiset{last.items} else multiset{}
  }

  ghost function AllOf(ts: seq<Transaction>): Bag {
    multiset(ItemsOf(ts))
  }

  lemma BagUptoMore(ts: seq<Transaction>, t: Transaction, end: nat)
    ensures BagUpto(ts + [t], end) == BagUpto(ts, end) + if t.id <= end then multiset{t.items} else multiset{}
  {
    assert (ts + [t])[..|ts|] == ts;
  }

  lemma {:induction false} BagUptoAll(ts: seq<Transaction>, end: nat)
    requires forall j :: 0 <= j < |ts| ==> ts[j].id <= end
    ensures BagUpto(ts, end) == AllOf(ts)
  {
    if ts != [] {
      var init, last := ts[..|ts| - 1], ts[|ts| - 1];
      BagUptoAll(init, end);
      assert ItemsOf(ts) == ItemsOf(init) + [last.items];
    }
  }

  lemma {:induction false} BagUptoFront(ts: seq<Transaction>, end: nat)
    requires ts != [] && ts[0].id <= end
    ensures BagUpto(ts, end) == BagUpto(ts[1..], end) + multiset{ts[0].items}
  {
    hide BagUpto;
    var n := |ts| - 1;
    BagUptoMore(ts[..n], ts[n], end);
    assert ts == ts[..n] + [ts[n]];
    if n == 0 {
      assert ts[..0] == [] == ts[1..];
    } else {
      BagUptoFront(ts[..n], end);
      assert ts[1..] == ts[..n][1..] + [ts[n]];
      BagUptoMore(ts[..n][1..], ts[n], end);
      AddAround(BagUpto(ts[..n][1..], end), ts[0].items, if ts[n].id <= end then multiset{ts[n].items} else multiset{});
    }
  }

  lemma AddAround(b: Bag, t: Path, c: Bag)
    ensures b + multiset{t} + c == b + c + multiset{t}
  {
  }

  /** Every table counts exactly the transactions still in the data set with an id up to its block's end. */
  ghost predicate TablesExact(cps: seq<CheckPoint>, ts: seq<Transaction>) {
    forall k :: 0 <= k < |cps| ==> FreqOk(cps[k].table, BagUpto(ts, cps[k].endTid))
  }

  /** Later blocks end later, and all of them before the next transaction. */
  ghost predicate EndsBelow(cps: seq<CheckPoint>, next: nat) {
    && (forall k :: 0 <= k < |cps| ==> cps[k].endTid < next)
    && (forall j, k :: 0 <= j < k < |cps| ==> cps[j].endTid < cps[k].endTid)
  }

  /** The blocks follow each other without a gap, each a whole number of intervals long. */
  ghost predicate Contiguous(cps: seq<CheckPoint>, interval: nat) {
    && (forall k {:trigger cps[k]} :: 0 <= k < |cps| ==> WholeBlock(cps[k], interval))
    && (forall j, k :: 0 <= j && k == j + 1 && k < |cps| ==> cps[k].startTid == cps[j].endTid + 1)
  }

  ghost predicate WholeBlock(c: CheckPoint, interval: nat) {
    exists n: nat :: n > 0 && BlockOf(c, interval, n)
  }

  ghost predicate BlockOf(c: CheckPoint, interval: nat, n: nat) {
    c.endTid + 1 == c.startTid + n * interval
  }

  /** The first block starts at the data set's front, the last one ends at the last full interval. */
  ghost predicate Covering(cps: seq<CheckPoint>, front: nat, next: nat, interval: nat)
    requires interval > 0
  {
    if cps == [] then front == 0 && next < interval
    else cps[0].startTid == front && cps[|cps| - 1].endTid + 1 == next - next % interval
  }

  // ---- merging ---------------------------------------------------------------------------

  /** ItemMap::Add. */
  function AddTable(m: map<Item, nat>, other: map<Item, nat>): map<Item, nat> {
    map i | i in m.Keys + other.Keys :: Get(m, i) + Get(other, i)
  }

  /** Check point k takes over the end and the table of its successor, which disappears. */
  function MergedAt(cps: seq<CheckPoint>, k: nat): (r: seq<CheckPoint>)
    requires k + 1 < |cps|
    ensures |r| == |cps| - 1
  {
    var next := cps[k + 1];
    cps[..k] + [CheckPoint(cps[k].startTid, next.endTid, AddTable(map[], next.table))] + cps[k + 2..]
  }

  lemma AddToCleared(m: map<Item, nat>)
    ensures AddTable(map[], m) == m
  {
  }

  lemma MergedEntry(cps: seq<CheckPoint>, k: nat, j: nat)
    requires k + 1 < |cps| && j < |cps| - 1
    ensures MergedAt(cps, k)[j] ==
      if j < k then cps[j]
      else if j == k then CheckPoint(cps[k].startTid, cps[k + 1].endTid, cps[k + 1].table)
      else cps[j + 1]
  {
    AddToCleared(cps[k + 1].table);
  }

  ghost predicate StartsAt(cps: seq<CheckPoint>, tid: nat) {
    exists i :: 0 <= i < |cps| && cps[i].startTid == tid
  }

  ghost predicate EndsAt(cps: seq<CheckPoint>, tid: nat) {
    exists i :: 0 <= i < |cps| && cps[i].endTid == tid
  }

  /** The coarse blocks start and end where fine ones do. */
  ghost predicate Coarser(fine: seq<CheckPoint>, coarse: seq<CheckPoint>) {
    forall k :: 0 <= k < |coarse| ==> StartsAt(fine, coarse[k].startTid) && EndsAt(fine, coarse[k].endTid)
  }

  lemma CoarserSelf(cps: seq<CheckPoint>)
    ensures Coarser(cps, cps)
  {
  }

  lemma MergeIsCoarser(fine: seq<CheckPoint>, cps: seq<CheckPoint>, k: nat)
    requires k + 1 < |cps| && Coarser(fine, cps)
    ensures Coarser(fine, MergedAt(cps, k))
  {
    hide MergedAt, StartsAt, EndsAt;
    forall j | 0 <= j < |cps| - 1
      ensures StartsAt(fine, MergedAt(cps, k)[j].startTid) && EndsAt(fine, MergedAt(cps, k)[j].endTid)
    {
      MergedEntry(cps, k, j);
      assert EndsAt(fine, cps[j].endTid) && EndsAt(fine, cps[j + 1].endTid);
    }
  }

  lemma MergeKeepsTables(cps: seq<CheckPoint>, k: nat, ts: seq<Transaction>)
    requires k + 1 < |cps| && TablesExact(cps, ts)
    ensures TablesExact(MergedAt(cps, k), ts)
  {
    hide FreqOk, BagUpto, MergedAt;
    forall j | 0 <= j < |cps| - 1 ensures FreqOk(MergedAt(cps, k)[j].table, BagUpto(ts, MergedAt(cps, k)[j].endTid)) {
      MergedEntry(cps, k, j);
      assert FreqOk(cps[j].table, BagUpto(ts, cps[j].endTid)) && FreqOk(cps[j + 1].table, BagUpto(ts, cps[j + 1].endTid));
    }
  }

  lemma MergeKeepsEnds(cps: seq<CheckPoint>, k: nat, next: nat)
    requires k + 1 < |cps| && EndsBelow(cps, next)
    ensures EndsBelow(MergedAt(cps, k), next)
  {
    hide MergedAt;
    forall j | 0 <= j < |cps| - 1 ensures MergedAt(cps, k)[j].endTid < next {
      MergedEntry(cps, k, j);
    }
    forall i, j | 0 <= i < j < |cps| - 1 ensures MergedAt(cps, k)[i].endTid < MergedAt(cps, k)[j].endTid {
      MergedEntry(cps, k, i);
      MergedEntry(cps, k, j);
    }
  }

  lemma MergedBlock(a: CheckPoint, b: CheckPoint, interval: nat)
    requires WholeBlock(a, interval) && WholeBlock(b, interval) && b.startTid == a.endTid + 1
    ensures WholeBlock(CheckPoint(a.startTid, b.endTid, b.table), interval)
  {
    var m: nat :| m > 0 && BlockOf(a, interval, m);
    var n: nat :| n > 0 && BlockOf(b, interval, n);
    Distribute(interval, m, n);
    assert BlockOf(CheckPoint(a.startTid, b.endTid, b.table), interval, m + n);
  }

  lemma MergeKeepsContiguity(cps: seq<CheckPoint>, k: nat, interval: nat)
    requires k + 1 < |cps| && Contiguous(cps, interval)
    ensures Contiguous(MergedAt(cps, k), interval)
  {
    hide WholeBlock, MergedAt;
    var r := MergedAt(cps, k);
    MergedBlock(cps[k], cps[k + 1], interval);
    forall j | 0 <= j < |r| ensures WholeBlock(r[j], interval) {
      MergedEntry(cps, k, j);
    }
    forall i, j | 0 <= i && j == i + 1 && j < |r| ensures r[j].startTid == r[i].endTid + 1 {
      MergedEntry(cps, k, i);
      MergedEntry(cps, k, j);
    }
  }

  lemma MergeKeepsCovering(cps: seq<CheckPoint>, k: nat, front: nat, next: nat, interval: nat)
    requires k + 1 < |cps| && interval > 0 && Covering(cps, front, next, interval)
    ensures Covering(MergedAt(cps, k), front, next, interval)
  {
    hide MergedAt;
    MergedEntry(cps, k, 0);
    MergedEntry(cps, k, |cps| - 2);
  }

  // ---- the exponential histogram ---------------------------------------------------------

  function Pow2(e: nat): (p: nat)
    ensures p > 0
  {
    if e == 0 then 1 else 2 * Pow2(e - 1)
  }

  /** Capacities from oldest to newest, built up from the newest: p once or twice, then 2p once or twice, ... */
  ghost predicate Exponential(c: seq<nat>, p: nat) {
    c == [] || (c[|c| - 1] == p && (
      || Exponential(c[..|c| - 1], 2 * p)
      || (|c| >= 2 && c[|c| - 2] == p && Exponential(c[..|c| - 2], 2 * p))))
  }

  ghost function CountOf(c: seq<nat>, v: nat): nat {
    multiset(c)[v]
  }

  ghost predicate PowerFrom(v: nat, e: nat) {
    exists d: nat :: d >= e && v == Pow2(d)
  }

  /** From p = 2^e on: non-increasing powers of two, each from p to the largest once or twice. */
  ghost predicate HistogramFrom(c: seq<nat>, e: nat) {
    && (forall j, k :: 0 <= j < k < |c| ==> c[j] >= c[k])
    && (forall v :: v in c ==> PowerFrom(v, e))
    && (forall d: nat :: c != [] && d >= e && Pow2(d) <= c[0] ==> 1 <= CountOf(c, Pow2(d)) <= 2)
  }

  lemma {:induction false} Pow2Grows(d: nat, e: nat)
    requires d < e
    ensures Pow2(d) < Pow2(e)
  {
    if d < e - 1 { Pow2Grows(d, e - 1); }
  }

  lemma Pow2Ordered(d: nat, e: nat)
    ensures Pow2(d) <= Pow2(e) <==> d <= e
    ensures Pow2(d) == Pow2(e) <==> d == e
  {
    if d < e { Pow2Grows(d, e); } else if e < d { Pow2Grows(e, d); }
  }

  /** Putting 2^e once or twice after a histogram from 2^(e+1) on. */
  lemma OneLevelMore(c: seq<nat>, e: nat, tail: seq<nat>)
    requires HistogramFrom(c, e + 1) && (tail == [Pow2(e)] || tail == [Pow2(e), Pow2(e)])
    ensures HistogramFrom(c + tail, e)
  {
    hide Pow2, CountOf, PowerFrom;
    var r := c + tail;
    OwnLevel(e);
    forall v | v in r ensures PowerFrom(v, e) && v >= Pow2(e) {
      if v in c { LevelAbove(c, e, v); } else { assert v == Pow2(e); }
    }
    LevelOrder(c, tail, Pow2(e));
    forall d: nat | d >= e && Pow2(d) <= r[0] ensures 1 <= CountOf(r, Pow2(d)) <= 2 {
      LevelCount(c, e, tail, d);
    }
  }

  lemma LevelOrder(c: seq<nat>, tail: seq<nat>, p: nat)
    requires forall j, k :: 0 <= j < k < |c| ==> c[j] >= c[k]
    requires (tail == [p] || tail == [p, p]) && forall v :: v in c + tail ==> v >= p
    ensures forall j, k :: 0 <= j < k < |c + tail| ==> (c + tail)[j] >= (c + tail)[k]
  {
    forall j, k | 0 <= j < k < |c + tail| ensures (c + tail)[j] >= (c + tail)[k] {
      assert (c + tail)[j] in c + tail;
    }
  }

  lemma LevelAbove(c: seq<nat>, e: nat, v: nat)
    requires HistogramFrom(c, e + 1) && v in c
    ensures v > Pow2(e) && PowerFrom(v, e)
  {
    var d: nat :| d >= e + 1 && v == Pow2(d);
    Pow2Grows(e, d);
  }

  lemma OwnLevel(e: nat)
    ensures PowerFrom(Pow2(e), e)
  {
  }

  lemma LevelCount(c: seq<nat>, e: nat, tail: seq<nat>, d: nat)
    requires HistogramFrom(c, e + 1) && (tail == [Pow2(e)] || tail == [Pow2(e), Pow2(e)])
    requires d >= e && Pow2(d) <= (c + tail)[0]
    ensures 1 <= CountOf(c + tail, Pow2(d)) <= 2
  {
    hide Pow2;
    Pow2Ordered(d, e);
    TailCount(c, tail, Pow2(e), Pow2(d));
    if Pow2(e) in c { LevelAbove(c, e, Pow2(e)); }
  }

  lemma TailCount(c: seq<nat>, tail: seq<nat>, p: nat, v: nat)
    requires tail == [p] || tail == [p, p]
    ensures CountOf(c + tail, v) == CountOf(c, v) + if v == p then |tail| else 0
    ensures p !in c ==> CountOf(c, p) == 0
  {
    assert multiset(c + tail) == multiset(c) + multiset(tail);
  }

  lemma {:induction false} ExponentialIsHistogram(c: seq<nat>, e: nat)
    requires Exponential(c, Pow2(e))
    ensures HistogramFrom(c, e)
    decreases |c|
  {
    hide HistogramFrom;
    if c == [] {
      NoBlocks(e);
    } else if Exponential(c[..|c| - 1], 2 * Pow2(e)) {
      ExponentialIsHistogram(c[..|c| - 1], e + 1);
      assert c == c[..|c| - 1] + [Pow2(e)];
      OneLevelMore(c[..|c| - 1], e, [Pow2(e)]);
    } else {
      ExponentialIsHistogram(c[..|c| - 2], e + 1);
      assert c == c[..|c| - 2] + [Pow2(e), Pow2(e)];
      OneLevelMore(c[..|c| - 2], e, [Pow2(e), Pow2(e)]);
    }
  }

  lemma NoBlocks(e: nat)
    ensures HistogramFrom([], e)
  {
  }

  ghost function SumOf(c: seq<nat>): nat {
    if c == [] then 0 else SumOf(c[..|c| - 1]) + c[|c| - 1]
  }

  /** With N intervals covered there are at most 2 * log2(N + 1) blocks. */
  lemma {:induction false} FewBlocks(c: seq<nat>, e: nat)
    requires Exponential(c, Pow2(e))
    ensures Pow2(e + (|c| + 1) / 2) <= SumOf(c) + Pow2(e)
    decreases |c|
  {
    if c != [] {
      var n := |c|;
      if Exponential(c[..n - 1], 2 * Pow2(e)) {
        FewBlocks(c[..n - 1], e + 1);
        Pow2Ordered(e + (n + 1) / 2, e + 1 + n / 2);
      } else {
        FewBlocks(c[..n - 2], e + 1);
        assert c[..n - 1][..n - 2] == c[..n - 2];
      }
    }
  }

  /** Dropping the oldest blocks leaves a histogram. */
  lemma OneBlock(c: seq<nat>, p: nat)
    requires |c| == 1 && c[0] == p
    ensures Exponential(c, p)
  {
    assert c[..0] == [];
  }

  lemma {:induction false} PurgedHistogram(c: seq<nat>, p: nat, k: nat)
    requires Exponential(c, p) && k <= |c|
    ensures Exponential(c[k..], p)
    decreases |c|
  {
    var n := |c|;
    if k < n {
      assert c[k..][..n - k - 1] == c[..n - 1][k..];
      assert c[k..][n - k - 1] == c[n - 1] == p;
      if Exponential(c[..n - 1], 2 * p) {
        PurgedHistogram(c[..n - 1], 2 * p, k);
      } else if k == n - 1 {
        OneBlock(c[k..], p);
      } else {
        PurgedHistogram(c[..n - 2], 2 * p, k);
        assert c[k..][..n - k - 2] == c[..n - 2][k..];
      }
    }
  }

  /** Halving powers of two from p / 2 down to 1. */
  ghost predicate Halving(tail: seq<nat>, p: nat) {
    if tail == [] then p == 1 else p == 2 * tail[0] && Halving(tail[1..], tail[0])
  }

  lemma {:induction false} HistogramOver(c: seq<nat>, p: nat, tail: seq<nat>)
    requires Exponential(c, p) && Halving(tail, p)
    ensures Exponential(c + tail, 1)
    decreases |tail|
  {
    if tail == [] {
      assert c + tail == c;
    } else {
      var d := c + [tail[0]];
      assert tail == [tail[0]] + tail[1..];
      assert d[..|d| - 1] == c;
      HistogramOver(d, tail[0], tail[1..]);
      assert c + tail == d + tail[1..];
    }
  }

  // ---- arrangeCheckPoints ----------------------------------------------------------------

  /** Number of intervals a block covers. */
  function Capacity(c: CheckPoint, interval: nat): nat
    requires interval > 0 && c.startTid <= c.endTid + 1
  {
    if c.endTid == 0 then 0 else (c.endTid - c.startTid + 1) / interval
  }

  ghost function Capacities(cps: seq<CheckPoint>, interval: nat): (c: seq<nat>)
    requires interval > 0 && Contiguous(cps, interval)
    ensures |c| == |cps|
  {
    seq(|cps|, k requires 0 <= k < |cps| =>
      assert WholeBlock(cps[k], interval);
      Capacity(cps[k], interval))
  }

  lemma CapacityIs(c: CheckPoint, interval: nat, n: nat)
    requires interval >= 2 && n > 0 && BlockOf(c, interval, n)
    ensures c.endTid != 0 && c.startTid <= c.endTid && Capacity(c, interval) == n
  {
    MulGap(0, n, interval);
    ModIs(n * interval, n, 0, interval);
  }

  /** What merging does to the capacities. */
  ghost function JoinedAt(c: seq<nat>, k: nat): seq<nat>
    requires k + 1 < |c|
  {
    c[..k] + [c[k] + c[k + 1]] + c[k + 2..]
  }

  lemma MergeJoinsCapacities(cps: seq<CheckPoint>, k: nat, interval: nat)
    requires k + 1 < |cps| && interval >= 2 && Contiguous(cps, interval)
    ensures Contiguous(MergedAt(cps, k), interval)
    ensures Capacities(MergedAt(cps, k), interval) == JoinedAt(Capacities(cps, interval), k)
  {
    hide MergedAt, Contiguous, Capacity;
    MergeKeepsContiguity(cps, k, interval);
    var r := MergedAt(cps, k);
    var c, d := Capacities(cps, interval), Capacities(r, interval);
    forall j | 0 <= j < |d| ensures d[j] == JoinedAt(c, k)[j] {
      MergedEntry(cps, k, j);
      if j == k { JoinedCapacity(cps, k, interval); }
    }
  }

  lemma JoinedCapacity(cps: seq<CheckPoint>, k: nat, interval: nat)
    requires k + 1 < |cps| && interval >= 2 && Contiguous(cps, interval)
    ensures cps[k].startTid <= cps[k + 1].endTid
    ensures Capacity(CheckPoint(cps[k].startTid, cps[k + 1].endTid, cps[k + 1].table), interval) ==
      Capacities(cps, interval)[k] + Capacities(cps, interval)[k + 1]
  {
    var a, b := cps[k], cps[k + 1];
    assert WholeBlock(a, interval) && WholeBlock(b, interval);
    var m: nat :| m > 0 && BlockOf(a, interval, m);
    var n: nat :| n > 0 && BlockOf(b, interval, n);
    CapacityIs(a, interval, m);
    CapacityIs(b, interval, n);
    Distribute(interval, m, n);
    CapacityIs(CheckPoint(a.startTid, b.endTid, b.table), interval, m + n);
  }

  /** The loop of arrangeCheckPoints: p overflows at index idx + 2. */
  ghost predicate Overflowing(c: seq<nat>, idx: int, p: nat) {
    && -2 <= idx && idx + 2 < |c|
    && c[idx + 2] == p && Exponential(c[..idx + 2], p) && Halving(c[idx + 3..], p)
  }

  lemma StartArranging(c: seq<nat>)
    requires Exponential(c, 1)
    ensures Overflowing(c + [1], |c| - 2, 1)
  {
    assert (c + [1])[..|c|] == c;
  }

  lemma ArrangeStep(c: seq<nat>, idx: nat, p: nat)
    requires p > 0 && Overflowing(c, idx, p) && c[idx] == p
    ensures Overflowing(JoinedAt(c, idx), idx - 2, 2 * p)
  {
    var d, r := c[..idx + 2], JoinedAt(c, idx);
    assert d[|d| - 1] == c[idx + 1];
    assert d[..|d| - 1] == c[..idx + 1] && d[..|d| - 2] == c[..idx];
    assert c[..idx + 1][|c[..idx + 1]| - 1] == c[idx];
    assert !Exponential(c[..idx + 1], 2 * p);
    assert Exponential(c[..idx], 2 * p);
    assert r[idx] == 2 * p;
    assert r[..idx] == c[..idx];
    assert r[idx + 1..] == [p] + c[idx + 3..];
    assert ([p] + c[idx + 3..])[1..] == c[idx + 3..];
  }

  lemma ArrangeEnds(c: seq<nat>, idx: int, p: nat)
    requires p > 0 && Overflowing(c, idx, p) && (idx < 0 || c[idx] != p)
    ensures Exponential(c, 1)
  {
    var d := c[..idx + 3];
    assert d[..idx + 2] == c[..idx + 2];
    if idx == -2 {
      assert d[..0] == [];
    } else {
      assert c[..idx + 2][..idx + 1] == d[..idx + 1];
      if idx == -1 { assert d[..0] == []; }
    }
    HistogramOver(d, p, c[idx + 3..]);
    assert d + c[idx + 3..] == c;
  }

  // ---- all invariants of the blocks together -----------------------------------------------

  /** cps describes the transactions ts, numbered from front to next - 1. */
  ghost predicate BlocksFit(cps: seq<CheckPoint>, ts: seq<Transaction>, front: nat, next: nat, interval: nat) {
    && TablesExact(cps, ts) && EndsBelow(cps, next)
    && (interval >= 2 ==> Contiguous(cps, interval) && Covering(cps, front, next, interval))
  }

  ghost predicate KeepsHistogram(cps: seq<CheckPoint>, interval: nat) {
    interval >= 2 && Contiguous(cps, interval) && Exponential(Capacities(cps, interval), 1)
  }

  predicate CheckDue(id: nat, interval: nat)
    requires interval > 0
  {
    id != 0 && (id + 1) % interval == 0
  }

  lemma MergeFits(cps: seq<CheckPoint>, k: nat, ts: seq<Transaction>, front: nat, next: nat, interval: nat)
    requires k + 1 < |cps| && BlocksFit(cps, ts, front, next, interval)
    ensures BlocksFit(MergedAt(cps, k), ts, front, next, interval)
  {
    hide TablesExact, EndsBelow, Contiguous, Covering, MergedAt;
    MergeKeepsTables(cps, k, ts);
    MergeKeepsEnds(cps, k, next);
    if interval >= 2 {
      MergeKeepsContiguity(cps, k, interval);
      MergeKeepsCovering(cps, k, front, next, interval);
    }
  }

  lemma AppendKeepsTables(cps: seq<CheckPoint>, ts: seq<Transaction>, t: Transaction)
    requires TablesExact(cps, ts) && EndsBelow(cps, t.id)
    ensures TablesExact(cps, ts + [t])
  {
    hide FreqOk, BagUpto;
    forall k | 0 <= k < |cps| ensures FreqOk(cps[k].table, BagUpto(ts + [t], cps[k].endTid)) {
      BagUptoMore(ts, t, cps[k].endTid);
      AddNothing(BagUpto(ts, cps[k].endTid));
    }
  }

  lemma AddNothing(b: Bag)
    ensures b + multiset{} == b
  {
  }

  lemma ModStep(next: nat, interval: nat)
    requires interval >= 2
    ensures (next + 1) % interval == if next % interval + 1 == interval then 0 else next % interval + 1
  {
    var q, r := next / interval, next % interval;
    assert next == q * interval + r;
    if r + 1 == interval {
      MulStep(q, interval);
      ModIs(next + 1, q + 1, 0, interval);
    } else {
      ModIs(next + 1, q, r + 1, interval);
    }
  }

  lemma AppendFits(cps: seq<CheckPoint>, ts: seq<Transaction>, t: Transaction, front: nat, interval: nat)
    requires interval > 0 && BlocksFit(cps, ts, front, t.id, interval) && !CheckDue(t.id, interval)
    ensures BlocksFit(cps, ts + [t], front, t.id + 1, interval)
  {
    hide TablesExact, Contiguous;
    AppendKeepsTables(cps, ts, t);
    if interval >= 2 { ModStep(t.id, interval); ZeroMod(t.id, interval); }
  }

  lemma ZeroMod(a: nat, m: nat)
    requires m > 0
    ensures a < m ==> a % m == a
    ensures a >= m ==> a - a % m >= m
  {
    if a < m { ModIs(a, 0, a, m); }
  }

  function NewCheckPoint(id: nat, interval: nat, table: map<Item, nat>): CheckPoint
    requires interval <= id + 1
  {
    CheckPoint(id + 1 - interval, id, table)
  }

  lemma DueIsLate(id: nat, interval: nat)
    requires interval > 0 && CheckDue(id, interval)
    ensures interval <= id + 1
  {
    ZeroMod(id + 1, interval);
  }

  lemma PushFits(cps: seq<CheckPoint>, ts: seq<Transaction>, t: Transaction, front: nat, interval: nat, table: map<Item, nat>)
    requires interval > 0 && BlocksFit(cps, ts, front, t.id, interval) && CheckDue(t.id, interval) && interval <= t.id + 1
    requires forall j :: 0 <= j < |ts| ==> ts[j].id < t.id
    requires FreqOk(table, AllOf(ts + [t]))
    ensures BlocksFit(cps + [NewCheckPoint(t.id, interval, table)], ts + [t], front, t.id + 1, interval)
  {
    hide FreqOk, BagUpto, WholeBlock;
    var c := NewCheckPoint(t.id, interval, table);
    AppendKeepsTables(cps, ts, t);
    BagUptoAll(ts + [t], t.id);
    NewBlock(t.id, interval, table);
    if interval >= 2 { ModStep(t.id, interval); ZeroMod(t.id, interval); ZeroMod(t.id + 1, interval); }
  }

  lemma NewBlock(id: nat, interval: nat, table: map<Item, nat>)
    requires 0 < interval <= id + 1
    ensures WholeBlock(NewCheckPoint(id, interval, table), interval)
  {
    assert BlockOf(NewCheckPoint(id, interval, table), interval, 1);
  }

  /** A push makes the histogram overflow at its lowest level. */
  lemma PushOverflows(cps: seq<CheckPoint>, id: nat, interval: nat, table: map<Item, nat>)
    requires KeepsHistogram(cps, interval) && interval <= id + 1
    requires Contiguous(cps + [NewCheckPoint(id, interval, table)], interval)
    ensures Overflowing(Capacities(cps + [NewCheckPoint(id, interval, table)], interval), |cps| - 2, 1)
  {
    var c := NewCheckPoint(id, interval, table);
    assert BlockOf(c, interval, 1);
    CapacityIs(c, interval, 1);
    assert Capacities(cps + [c], interval) == Capacities(cps, interval) + [1];
    StartArranging(Capacities(cps, interval));
  }

  lemma {:induction false} FirstStart(cps: seq<CheckPoint>, interval: nat, k: nat)
    requires Contiguous(cps, interval) && interval > 0 && k < |cps|
    ensures cps[0].startTid <= cps[k].endTid
  {
    assert WholeBlock(cps[k], interval);
    var n: nat :| n > 0 && BlockOf(cps[k], interval, n);
    MulGap(0, n, interval);
    if k > 0 { FirstStart(cps, interval, k - 1); }
  }

  /** Dropping the first blocks together with their transactions. */
  lemma PurgeFits(cps: seq<CheckPoint>, b: nat, ts: seq<Transaction>, front: nat, next: nat, interval: nat)
    requires b + 1 < |cps| && EndsBelow(cps, next) && TablesExact(cps[b + 1..], ts)
    requires interval >= 2 ==> Contiguous(cps, interval) && front == cps[b].endTid + 1
    requires interval >= 2 ==> cps[|cps| - 1].endTid + 1 == next - next % interval
    ensures BlocksFit(cps[b + 1..], ts, front, next, interval)
  {
    hide WholeBlock, TablesExact;
  }

  lemma PurgeKeepsHistogram(cps: seq<CheckPoint>, b: nat, interval: nat)
    requires b + 1 < |cps| && KeepsHistogram(cps, interval)
    ensures KeepsHistogram(cps[b + 1..], interval)
  {
    assert Contiguous(cps[b + 1..], interval);
    assert Capacities(cps[b + 1..], interval) == Capacities(cps, interval)[b + 1..];
    PurgedHistogram(Capacities(cps, interval), 1, b + 1);
  }

  /** The histogram as its users see it, and how few blocks it takes. */
  lemma HistogramOfBlocks(cps: seq<CheckPoint>, interval: nat)
    requires KeepsHistogram(cps, interval)
    ensures HistogramFrom(Capacities(cps, interval), 0)
    ensures Pow2((|cps| + 1) / 2) <= SumOf(Capacities(cps, interval)) + 1
    ensures cps != [] ==> cps[|cps| - 1].endTid + 1 == cps[0].startTid + SumOf(Capacities(cps, interval)) * interval
  {
    hide Exponential, HistogramFrom, SumOf, Contiguous, Capacities;
    assert Pow2(0) == 1;
    ExponentialIsHistogram(Capacities(cps, interval), 0);
    FewBlocks(Capacities(cps, interval), 0);
    SumIsLength(cps, interval);
  }

  lemma {:induction false} SumIsLength(cps: seq<CheckPoint>, interval: nat)
    requires interval >= 2 && Contiguous(cps, interval)
    ensures cps != [] ==> cps[|cps| - 1].endTid + 1 == cps[0].startTid + SumOf(Capacities(cps, interval)) * interval
    decreases |cps|
  {
    if cps != [] {
      var n := |cps| - 1;
      var init, c := cps[..n], Capacities(cps, interval);
      assert Contiguous(init, interval);
      SumIsLength(init, interval);
      assert Capacities(init, interval) == c[..n];
      assert WholeBlock(cps[n], interval);
      var m: nat :| m > 0 && BlockOf(cps[n], interval, m);
      CapacityIs(cps[n], interval, m);
      assert c[n] == m;
      hide Contiguous, Capacities;
      if n > 0 {
        assert init[n - 1] == cps[n - 1] && init[0] == cps[0];
        LengthsAdd(cps[0].startTid, cps[n].startTid, cps[n].endTid, SumOf(c[..n]), m, interval);
      }
    }
  }

  lemma LengthsAdd(first: nat, start: nat, end: nat, sum: nat, m: nat, interval: nat)
    requires start == first + sum * interval && end + 1 == start + m * interval
    ensures end + 1 == first + (sum + m) * interval
  {
    Distribute(interval, sum, m);
  }

  /**
   * The first check point starts at the front of the data set if and only if an interval has at least
   * two transactions: with interval 1, transaction 0 gets no check point.
   */
  lemma FirstCheckPoint(id: nat, interval: nat, table: map<Item, nat>)
    requires interval > 0 && CheckDue(id, interval)
    requires forall j: nat :: j < id ==> !CheckDue(j, interval)
    ensures interval <= id + 1
    ensures NewCheckPoint(id, interval, table).startTid == 0 <==> interval >= 2
  {
    DueIsLate(id, interval);
    if interval == 1 {
      assert CheckDue(1, 1);
    } else {
      ModIs(interval, 1, 0, interval);
      assert CheckDue(interval - 1, interval);
    }
  }
}
