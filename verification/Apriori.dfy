/** Level-wise mining with striding threads (src/Apriori.cpp). */
module Apriori {
  import opened Orders
  import opened Bags
  import opened Projection
  import opened Patterns

  type ItemSet = set<Item>
  type Filter = ItemSet -> bool

  // ---- what is to be found ---------------------------------------------------------------

  /** Every non-empty subset passes the filter. */
  ghost predicate AllPass(filter: Filter, s: ItemSet) {
    forall t :: t != {} && t <= s ==> filter(t)
  }

  /** The itemsets of one size over the index's items that pass with all their subsets. */
  ghost predicate Level(items: set<Item>, filter: Filter, k: nat, s: ItemSet) {
    |s| == k && s <= items && AllPass(filter, s)
  }

  ghost predicate AntiMonotone(filter: Filter) {
    forall s, t :: t != {} && t <= s && filter(s) ==> filter(t)
  }

  /** The order in which a std::set of itemsets is walked is left open. */
  ghost predicate Lists(c: seq<ItemSet>, s: set<ItemSet>) {
    && (forall x :: x in c <==> x in s)
    && (forall j, k :: 0 <= j < k < |c| ==> c[j] != c[k])
  }

  ghost predicate IsLevel(c: seq<ItemSet>, items: set<Item>, filter: Filter, k: nat) {
    && (forall s :: s in c <==> Level(items, filter, k, s))
    && (forall i, j :: 0 <= i < j < |c| ==> c[i] != c[j])
  }

  method InOrder(s: set<ItemSet>) returns (c: seq<ItemSet>)
    ensures Lists(c, s)
  {
    c := [];
    var rest := s;
    while rest != {}
      invariant rest <= s && (forall x :: x in c <==> x in s && x !in rest)
      invariant forall j, k :: 0 <= j < k < |c| ==> c[j] != c[k]
    {
      var x :| x in rest;
      c := c + [x];
      rest := rest - {x};
    }
  }

  // ---- candidate generation ----------------------------------------------------------------

  method GenerateInitialCandidates(items: set<Item>, filter: Filter) returns (candidates: seq<ItemSet>)
    ensures IsLevel(candidates, items, filter, 1)
  {
    var found: set<ItemSet> := {};
    var rest := items;
    while rest != {}
      invariant rest <= items
      invariant forall s :: s in found <==> exists i :: i in items && i !in rest && s == {i} && filter(s)
    {
      var item :| item in rest;
      if filter({item}) {
        found := found + {{item}};
      }
      rest := rest - {item};
    }
    candidates := InOrder(found);
    forall s ensures s in found <==> Level(items, filter, 1, s) {
      Singletons(items, filter, s);
    }
  }

  lemma Singletons(items: set<Item>, filter: Filter, s: ItemSet)
    ensures Level(items, filter, 1, s) <==> exists i :: i in items && s == {i} && filter(s)
  {
    if |s| == 1 {
      var i :| i in s;
      OnlyMember(s, i);
    }
    if i :| i in items && s == {i} && filter(s) {
      forall t | t != {} && t <= s ensures filter(t) {
        var j :| j in t;
        assert t == s;
      }
    }
  }

  lemma OnlyMember(s: ItemSet, i: Item)
    requires |s| == 1 && i in s
    ensures s == {i}
  {
    assert |s - {i}| == 0;
    assert s == (s - {i}) + {i};
  }

  method IntersectionSize(x: ItemSet, y: ItemSet) returns (count: nat)
    ensures count == |x * y|
  {
    count := 0;
    var rest := x;
    while rest != {}
      invariant rest <= x && count == |(x - rest) * y|
    {
      var i :| i in rest;
      if i in y {
        count := count + 1;
        assert (x - (rest - {i})) * y == (x - rest) * y + {i};
      } else {
        assert (x - (rest - {i})) * y == (x - rest) * y;
      }
      rest := rest - {i};
    }
    assert x - rest == x;
  }

  /** All subsets with one item less are in the container. */
  ghost predicate SubSetsIn(container: seq<ItemSet>, s: ItemSet) {
    forall i :: i in s ==> s - {i} in container
  }

  method ContainsAllSubSets(container: seq<ItemSet>, itemset: ItemSet) returns (all: bool)
    ensures all <==> SubSetsIn(container, itemset)
  {
    var k, rest := itemset, itemset;
    while rest != {}
      invariant k == itemset && rest <= itemset
      invariant forall i :: i in itemset && i !in rest ==> itemset - {i} in container
    {
      var item :| item in rest;
      k := k - {item};
      if k !in container {
        return false;
      }
      k := k + {item};
      rest := rest - {item};
    }
    return true;
  }

  /** s is joined from x and y, and passes. */
  ghost predicate Joined(c: seq<ItemSet>, k: nat, filter: Filter, x: ItemSet, y: ItemSet, s: ItemSet) {
    |x * y| == k - 2 && s == x + y && filter(s) && SubSetsIn(c, s)
  }

  /** Join partners of x among the first n candidates. */
  ghost predicate JoinedUpTo(c: seq<ItemSet>, k: nat, filter: Filter, x: ItemSet, n: nat, s: ItemSet)
    requires n <= |c|
  {
    exists j :: 0 <= j < n && Joined(c, k, filter, x, c[j], s)
  }

  /** Position p belongs to the slice that starts at offset and goes on in steps. */
  ghost predicate InSlice(p: nat, offset: nat, step: nat) {
    exists m: nat :: p == offset + m * step
  }

  ghost predicate FoundBy(c: seq<ItemSet>, k: nat, filter: Filter, offset: nat, step: nat, upTo: nat, s: ItemSet) {
    exists p :: 0 <= p < upTo && p < |c| && InSlice(p, offset, step) && JoinedUpTo(c, k, filter, c[p], |c|, s)
  }

  /** safeAdvance: the iterator, as a position, stops at the end. */
  method SafeAdvance(at: nat, end: nat, step: nat) returns (next: nat)
    requires at <= end
    ensures next == if at + step <= end then at + step else end
  {
    next := at;
    for i := 0 to step
      invariant next == if at + i <= end then at + i else end
    {
      if next != end {
        next := next + 1;
      }
    }
  }

  method JoinWithAll(c: seq<ItemSet>, k: nat, filter: Filter, x: ItemSet, found: set<ItemSet>) returns (result: set<ItemSet>)
    requires k >= 2
    ensures forall s :: s in result <==> s in found || JoinedUpTo(c, k, filter, x, |c|, s)
  {
    hide Joined;
    result := found;
    for j := 0 to |c|
      invariant forall s :: s in result <==> s in found || JoinedUpTo(c, k, filter, x, j, s)
    {
      var y := c[j];
      var n := IntersectionSize(x, y);
      ghost var before := result;
      if n == k - 2 {
        var itemset := x + y;
        var all := ContainsAllSubSets(c, itemset);
        if filter(itemset) && all {
          result := result + {itemset};
        }
      }
      forall s ensures s in result <==> s in before || Joined(c, k, filter, x, y, s) {
        JoinedMeans(c, k, filter, x, y, s);
      }
    }
  }

  lemma JoinedMeans(c: seq<ItemSet>, k: nat, filter: Filter, x: ItemSet, y: ItemSet, s: ItemSet)
    ensures Joined(c, k, filter, x, y, s) <==> |x * y| == k - 2 && s == x + y && filter(s) && SubSetsIn(c, s)
  {
  }

  /** One thread's slice. */
  method GenerateSubCandidates(c: seq<ItemSet>, startOffset: nat, k: nat, step: nat, filter: Filter) returns (result: set<ItemSet>)
    requires k >= 2 && step > 0
    ensures forall s :: s in result <==> FoundBy(c, k, filter, startOffset, step, |c|, s)
  {
    hide JoinedUpTo, InSlice, FoundBy;
    result := {};
    var p := SafeAdvance(0, |c|, startOffset);
    ghost var m: nat := 0;
    NothingBefore(c, k, filter, startOffset, step, p);
    while p < |c|
      invariant p <= |c| && (p < |c| ==> p == startOffset + m * step)
      invariant forall s :: s in result <==> FoundBy(c, k, filter, startOffset, step, p, s)
      decreases |c| - p
    {
      result := JoinWithAll(c, k, filter, c[p], result);
      var next := SafeAdvance(p, |c|, step);
      NextOfSlice(c, k, filter, startOffset, step, p, m, next);
      p, m := next, m + 1;
    }
  }

  lemma NothingBefore(c: seq<ItemSet>, k: nat, filter: Filter, offset: nat, step: nat, p: nat)
    requires p <= offset && p <= |c|
    ensures forall s :: !FoundBy(c, k, filter, offset, step, p, s)
    ensures p == offset ==> p == offset + 0 * step
  {
    hide JoinedUpTo;
    forall q: nat | q < p ensures !InSlice(q, offset, step) {
      forall m: nat ensures q != offset + m * step {}
    }
  }

  lemma NextOfSlice(c: seq<ItemSet>, k: nat, filter: Filter, offset: nat, step: nat, p: nat, m: nat, next: nat)
    requires p < |c| && p == offset + m * step && step > 0
    requires next == if p + step <= |c| then p + step else |c|
    ensures next < |c| ==> next == offset + (m + 1) * step
    ensures forall s :: FoundBy(c, k, filter, offset, step, next, s) <==>
      FoundBy(c, k, filter, offset, step, p, s) || JoinedUpTo(c, k, filter, c[p], |c|, s)
  {
    hide JoinedUpTo;
    assert (m + 1) * step == m * step + step;
    assert InSlice(p, offset, step);
    forall q | p < q < next ensures !InSlice(q, offset, step) {
      BetweenSteps(q, offset, step, p, m);
    }
    forall s ensures FoundBy(c, k, filter, offset, step, next, s) <==>
      FoundBy(c, k, filter, offset, step, p, s) || JoinedUpTo(c, k, filter, c[p], |c|, s)
    {
      if FoundBy(c, k, filter, offset, step, next, s) {
        var q :| 0 <= q < next && q < |c| && InSlice(q, offset, step) && JoinedUpTo(c, k, filter, c[q], |c|, s);
        assert q <= p;
      }
    }
  }

  lemma BetweenSteps(q: nat, offset: nat, step: nat, p: nat, m: nat)
    requires p == offset + m * step && p < q < p + step
    ensures !InSlice(q, offset, step)
  {
    forall n: nat ensures q != offset + n * step {
      if n <= m { assert n * step <= m * step; } else { assert n * step >= (m + 1) * step == m * step + step; }
    }
  }

  /** The slices of all threads together cover every candidate; without a thread nothing is found. */
  method GenerateCandidates(c: seq<ItemSet>, k: nat, filter: Filter, numThreads: nat) returns (results: set<ItemSet>)
    requires k >= 2
    ensures numThreads > 0 ==> forall s :: s in results <==> exists p :: 0 <= p < |c| && JoinedUpTo(c, k, filter, c[p], |c|, s)
    ensures numThreads == 0 ==> results == {}
  {
    hide JoinedUpTo, FoundBy;
    results := {};
    for i := 0 to numThreads
      invariant forall s :: s in results <==> exists t :: 0 <= t < i && FoundBy(c, k, filter, t, numThreads, |c|, s)
    {
      var result := GenerateSubCandidates(c, i, k, numThreads, filter);
      results := results + result;
    }
    if numThreads > 0 {
      forall s ensures s in results <==> exists p :: 0 <= p < |c| && JoinedUpTo(c, k, filter, c[p], |c|, s) {
        SlicesCover(c, k, filter, numThreads, s);
      }
    }
  }

  lemma SlicesCover(c: seq<ItemSet>, k: nat, filter: Filter, n: nat, s: ItemSet)
    requires n > 0
    ensures (exists t :: 0 <= t < n && FoundBy(c, k, filter, t, n, |c|, s)) <==>
      exists p :: 0 <= p < |c| && JoinedUpTo(c, k, filter, c[p], |c|, s)
  {
    hide JoinedUpTo;
    if p :| 0 <= p < |c| && JoinedUpTo(c, k, filter, c[p], |c|, s) {
      var m: nat, t := p / n, p % n;
      assert p == t + m * n;
      assert InSlice(p, t, n);
      assert FoundBy(c, k, filter, t, n, |c|, s);
    }
  }

  // ---- each generation is a level ------------------------------------------------------------

  lemma JoinIsLevel(c: seq<ItemSet>, items: set<Item>, filter: Filter, k: nat, x: ItemSet, y: ItemSet, s: ItemSet)
    requires k >= 2 && IsLevel(c, items, filter, k - 1) && x in c && y in c && Joined(c, k, filter, x, y, s)
    ensures Level(items, filter, k, s)
  {
    hide AllPass;
    assert Level(items, filter, k - 1, x) && Level(items, filter, k - 1, y);
    SizeOfUnion(x, y);
    forall i | i in s ensures AllPass(filter, s - {i}) {
      assert Level(items, filter, k - 1, s - {i});
    }
    PassesWithAll(filter, s);
  }

  lemma SizeOfUnion(x: ItemSet, y: ItemSet)
    ensures |x + y| == |x| + |y| - |x * y|
  {
  }

  lemma PassesWithAll(filter: Filter, s: ItemSet)
    requires filter(s) && forall i :: i in s ==> AllPass(filter, s - {i})
    ensures AllPass(filter, s)
  {
    forall t | t != {} && t <= s ensures filter(t) {
      if t != s {
        var i :| i in s && i !in t;
        assert t <= s - {i};
      }
    }
  }

  lemma LevelIsJoin(c: seq<ItemSet>, items: set<Item>, filter: Filter, k: nat, s: ItemSet)
    requires k >= 2 && IsLevel(c, items, filter, k - 1) && Level(items, filter, k, s)
    ensures exists p :: 0 <= p < |c| && JoinedUpTo(c, k, filter, c[p], |c|, s)
  {
    hide AllPass, Level;
    var a, b := TwoMembers(s, k, items, filter);
    forall i | i in s ensures s - {i} in c {
      SmallerLevel(items, filter, k, s, i);
    }
    var x, y := s - {a}, s - {b};
    WithoutEach(s, a, b);
    PassesItself(items, filter, k, s);
    assert Joined(c, k, filter, x, y, s);
    var p :| 0 <= p < |c| && c[p] == x;
    var q :| 0 <= q < |c| && c[q] == y;
    assert JoinedUpTo(c, k, filter, c[p], |c|, s);
  }

  lemma TwoMembers(s: ItemSet, k: nat, items: set<Item>, filter: Filter) returns (a: Item, b: Item)
    requires k >= 2 && Level(items, filter, k, s)
    ensures a in s && b in s && a != b && |s| == k
  {
    a :| a in s;
    assert |s - {a}| == k - 1;
    b :| b in s - {a};
  }

  lemma WithoutEach(s: ItemSet, a: Item, b: Item)
    requires a in s && b in s && a != b
    ensures (s - {a}) + (s - {b}) == s && |(s - {a}) * (s - {b})| == |s| - 2
  {
    assert (s - {a}) * (s - {b}) == s - {a} - {b};
  }

  lemma PassesItself(items: set<Item>, filter: Filter, k: nat, s: ItemSet)
    requires k > 0 && Level(items, filter, k, s)
    ensures filter(s)
  {
    assert s != {} by { assert |s| > 0; }
  }

  lemma SmallerLevel(items: set<Item>, filter: Filter, k: nat, s: ItemSet, i: Item)
    requires Level(items, filter, k, s) && i in s
    ensures Level(items, filter, k - 1, s - {i})
  {
    assert |s - {i}| == k - 1;
  }

  lemma GenerationIsLevel(c: seq<ItemSet>, items: set<Item>, filter: Filter, k: nat)
    requires k >= 2 && IsLevel(c, items, filter, k - 1)
    ensures forall s :: Level(items, filter, k, s) <==> exists p :: 0 <= p < |c| && JoinedUpTo(c, k, filter, c[p], |c|, s)
  {
    hide IsLevel, Level, Joined;
    forall s ensures Level(items, filter, k, s) <==> exists p :: 0 <= p < |c| && JoinedUpTo(c, k, filter, c[p], |c|, s) {
      if Level(items, filter, k, s) { LevelIsJoin(c, items, filter, k, s); }
      if p :| 0 <= p < |c| && JoinedUpTo(c, k, filter, c[p], |c|, s) {
        var j :| 0 <= j < |c| && Joined(c, k, filter, c[p], c[j], s);
        JoinIsLevel(c, items, filter, k, c[p], c[j], s);
      }
    }
  }

  // ---- the main loop -----------------------------------------------------------------------

  /** The itemsets of size up to k that pass with all their subsets. */
  ghost predicate UpTo(items: set<Item>, filter: Filter, k: nat, s: ItemSet) {
    1 <= |s| <= k && s <= items && AllPass(filter, s)
  }

  ghost predicate Gathered(result: seq<ItemSet>, items: set<Item>, filter: Filter, k: nat) {
    && (forall s :: s in result <==> UpTo(items, filter, k, s))
    && (forall i, j :: 0 <= i < j < |result| ==> result[i] != result[j])
  }

  lemma GatherMore(result: seq<ItemSet>, items: set<Item>, filter: Filter, k: nat, c: seq<ItemSet>)
    requires Gathered(result, items, filter, k) && IsLevel(c, items, filter, k + 1)
    ensures Gathered(result + c, items, filter, k + 1)
  {
    hide AllPass;
    var r := result + c;
    forall i, j | 0 <= i < j < |r| ensures r[i] != r[j] {
      if i < |result| <= j {
        assert r[i] in result && r[j] in c;
        assert UpTo(items, filter, k, r[i]) && Level(items, filter, k + 1, r[j]);
      }
    }
    forall s ensures s in r <==> UpTo(items, filter, k + 1, s) {
      assert s in c <==> Level(items, filter, k + 1, s);
      assert s in result <==> UpTo(items, filter, k, s);
    }
  }

  lemma NoLargerLevel(c: seq<ItemSet>, items: set<Item>, filter: Filter, k: nat)
    requires IsLevel(c, items, filter, k) && c != []
    ensures k <= |items|
  {
    assert c[0] in c;
    assert Level(items, filter, k, c[0]);
    SubsetSize(c[0], items);
  }

  lemma SubsetSize(s: ItemSet, t: ItemSet)
    requires s <= t
    ensures |s| <= |t|
  {
    assert t == s + (t - s);
  }

  /** An empty level leaves all larger ones empty. */
  lemma NothingAbove(result: seq<ItemSet>, items: set<Item>, filter: Filter, k: nat)
    requires k >= 1 && Gathered(result, items, filter, k) && forall s :: !Level(items, filter, k, s)
    ensures forall s :: s in result <==> s != {} && s <= items && AllPass(filter, s)
  {
    forall s ensures s in result <==> s != {} && s <= items && AllPass(filter, s) {
      assert s in result <==> UpTo(items, filter, k, s);
      if s != {} && s <= items && AllPass(filter, s) && |s| > k {
        var t := ShrinkTo(s, k);
        assert Level(items, filter, k, t);
      }
      if s == {} { assert |s| == 0; } else { assert |s| >= 1; }
    }
  }

  lemma {:induction false} ShrinkTo(s: ItemSet, k: nat) returns (t: ItemSet)
    requires |s| >= k
    ensures t <= s && |t| == k
    decreases |s|
  {
    if |s| == k {
      t := s;
    } else {
      var i :| i in s;
      t := ShrinkTo(s - {i}, k);
    }
  }

  lemma LevelOne(c: seq<ItemSet>, items: set<Item>, filter: Filter)
    requires IsLevel(c, items, filter, 1)
    ensures Gathered(c, items, filter, 1)
  {
  }

  /**
   * With at least one thread, exactly the non-empty itemsets all of whose non-empty subsets pass the
   * filter, each once. Without a thread only those of size 1.
   */
  method Run(items: set<Item>, filter: Filter, numThreads: nat) returns (result: seq<ItemSet>)
    ensures forall j, k :: 0 <= j < k < |result| ==> result[j] != result[k]
    ensures numThreads > 0 ==> forall s :: s in result <==> s != {} && s <= items && AllPass(filter, s)
    ensures numThreads == 0 ==> forall s :: s in result <==> |s| == 1 && s <= items && AllPass(filter, s)
  {
    hide AllPass, IsLevel, Level, JoinedUpTo, Lists;
    var k := 1;
    var candidates := GenerateInitialCandidates(items, filter);
    result := candidates;
    LevelOne(candidates, items, filter);
    while candidates != []
      invariant k >= 1 && (numThreads > 0 || k == 1 ==> IsLevel(candidates, items, filter, k))
      invariant k > 1 && numThreads == 0 ==> candidates == []
      invariant Gathered(result, items, filter, if numThreads > 0 then k else 1)
      decreases |items| + 1 - k, |candidates|
    {
      NoLargerLevel(candidates, items, filter, k);
      k := k + 1;
      var generated := GenerateCandidates(candidates, k, filter, numThreads);
      GenerationIsLevel(candidates, items, filter, k);
      candidates := InOrder(generated);
      NextLevel(candidates, generated, items, filter, k);
      if numThreads > 0 {
        GatherMore(result, items, filter, k - 1, candidates);
      } else {
        NoneListed(candidates);
        assert result + candidates == result;
      }
      result := result + candidates;
    }
    if numThreads > 0 {
      EmptyLevel(items, filter, k);
      NothingAbove(result, items, filter, k);
    }
  }

  lemma NextLevel(c: seq<ItemSet>, found: set<ItemSet>, items: set<Item>, filter: Filter, k: nat)
    requires Lists(c, found)
    ensures (forall s :: s in found <==> Level(items, filter, k, s)) ==> IsLevel(c, items, filter, k)
  {
  }

  lemma NoneListed(c: seq<ItemSet>)
    requires Lists(c, {})
    ensures c == []
  {
    var x := if c != [] then c[0] else {};
    assert c != [] ==> x in c;
  }

  lemma EmptyLevel(items: set<Item>, filter: Filter, k: nat)
    requires IsLevel([], items, filter, k)
    ensures forall s :: !Level(items, filter, k, s)
  {
    forall s ensures !Level(items, filter, k, s) {
      assert s !in [];
    }
  }

  // ---- anti-monotone filters ----------------------------------------------------------------

  lemma AntiMonotoneMeansAll(filter: Filter, s: ItemSet)
    requires AntiMonotone(filter) && s != {}
    ensures AllPass(filter, s) <==> filter(s)
  {
  }

  function SupportFilter(support: ItemSet -> nat, minCount: nat): Filter {
    (s: ItemSet) => support(s) >= minCount
  }

  lemma SupportShrinks(b: Bag, s: ItemSet, t: ItemSet)
    requires t <= s
    ensures Support(b, t) >= Support(b, s)
  {
    SumBound(b, Contains(s), Contains(t));
  }

  lemma SupportIsAntiMonotone(b: Bag, support: ItemSet -> nat, minCount: nat)
    requires forall s :: s != {} ==> support(s) == Support(b, s)
    ensures AntiMonotone(SupportFilter(support, minCount))
  {
    var f := SupportFilter(support, minCount);
    forall s, t | t != {} && t <= s && f(s) ensures f(t) {
      assert s != {};
      SupportShrinks(b, s, t);
    }
  }

  /** With minCount > 0 Apriori returns what FP-growth writes. */
  lemma SameAsFPGrowth(b: Bag, items: set<Item>, support: ItemSet -> nat, minCount: nat, result: seq<ItemSet>, rs: seq<Path>)
    requires minCount > 0 && (forall s :: s != {} ==> support(s) == Support(b, s))
    requires forall t, i :: t in b && i in t ==> i in items
    requires forall s :: s in result <==> s != {} && s <= items && AllPass(SupportFilter(support, minCount), s)
    requires Enumerates(rs, FrequentFamily(b, minCount))
    ensures forall s :: s in result <==> Writes(rs, s)
  {
    hide AllPass, Support;
    forall s ensures s in result <==> Writes(rs, s) {
      if s != {} {
        SupportIsAntiMonotone(b, support, minCount);
        AntiMonotoneMeansAll(SupportFilter(support, minCount), s);
        if Support(b, s) >= minCount { SupportedItems(b, items, s); }
      }
      assert Writes(rs, s) <==> FrequentFamily(b, minCount)(s) by { WrittenIsFrequent(rs, b, minCount, s); }
    }
  }

  lemma SupportedItems(b: Bag, items: set<Item>, s: ItemSet)
    requires Support(b, s) > 0 && forall t, i :: t in b && i in t ==> i in items
    ensures s <= items
  {
    SumPositive(b, Contains(s));
    var t :| t in b && Contains(s)(t) > 0;
  }

  lemma WrittenIsFrequent(rs: seq<Path>, b: Bag, minCount: nat, s: ItemSet)
    requires Enumerates(rs, FrequentFamily(b, minCount))
    ensures Writes(rs, s) <==> FrequentFamily(b, minCount)(s)
  {
  }
}
