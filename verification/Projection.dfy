/** Conditional pattern bases: what projecting a bag of transactions onto an item keeps. */
module Projection {
  import opened Orders
  import opened Bags

  /** The part of t above its first x. */
  function Before(t: Path, x: Item): Path {
    if t == [] || t[0] == x then [] else [t[0]] + Before(t[1..], x)
  }

  lemma {:induction false} BeforeSpec(t: Path, x: Item)
    requires x in t
    ensures |Before(t, x)| < |t| && t[|Before(t, x)|] == x
    ensures Before(t, x) == t[..|Before(t, x)|] && x !in Before(t, x)
  {
    if t[0] != x {
      assert x in t[1..];
      BeforeSpec(t[1..], x);
      assert t == [t[0]] + t[1..];
    }
  }

  lemma BeforeUnique(t: Path, x: Item, k: nat)
    requires NoDuplicates(t) && k < |t| && t[k] == x
    ensures Before(t, x) == t[..k]
  {
    BeforeSpec(t, x);
  }

  /** The conditional pattern base of x: the paths above x, one per transaction with x. */
  ghost function Project(b: Bag, x: Item): Bag
    decreases |b|
  {
    if b == multiset{} then multiset{}
    else
      var t :| t in b;
      Project(b - multiset{t}, x) + Above(t, x)
  }

  ghost function Above(t: Path, x: Item): Bag {
    if x in t then multiset{Before(t, x)} else multiset{}
  }

  lemma AddSwapBags(a: Bag, b: Bag, c: Bag)
    ensures a + b + c == a + c + b
  {
  }

  lemma {:induction false} ProjectPick(b: Bag, x: Item, t: Path)
    requires t in b
    ensures Project(b, x) == Project(b - multiset{t}, x) + Above(t, x)
    decreases |b|
  {
    var u :| u in b && Project(b, x) == Project(b - multiset{u}, x) + Above(u, x);
    if u != t {
      ProjectPick(b - multiset{u}, x, t);
      ProjectPick(b - multiset{t}, x, u);
      RemoveSwap(b, t, u);
      AddSwapBags(Project(b - multiset{u} - multiset{t}, x), Above(t, x), Above(u, x));
    }
  }

  // ---- reading a projection off the header list ------------------------------------------

  /** What walking the header list collects: the path above each node, as often as the node counts. */
  ghost function Fold(ps: seq<Path>, b: Bag): Bag
    requires forall k :: 0 <= k < |ps| ==> ps[k] != []
  {
    if ps == [] then multiset{}
    else Fold(ps[..|ps| - 1], b) + Copies(InitOf(ps[|ps| - 1]), Cnt(b, ps[|ps| - 1]))
  }

  function InitOf(p: Path): Path
    requires p != []
  {
    p[..|p| - 1]
  }

  ghost predicate PathsTo(ps: seq<Path>, x: Item) {
    && (forall k :: 0 <= k < |ps| ==> ps[k] != [] && ps[k][|ps[k]| - 1] == x)
    && (forall i, j :: 0 <= i < j < |ps| ==> ps[i] != ps[j])
  }

  /** The list has the path down to x of every transaction with x. */
  ghost predicate Covers(ps: seq<Path>, b: Bag, x: Item) {
    forall t :: t in b && x in t ==> Before(t, x) + [x] in ps
  }

  ghost predicate AllDistinct(b: Bag) {
    forall t :: t in b ==> NoDuplicates(t)
  }

  lemma PathsToPrefix(ps: seq<Path>, x: Item)
    requires PathsTo(ps, x) && ps != []
    ensures PathsTo(ps[..|ps| - 1], x) && ps[|ps| - 1] !in ps[..|ps| - 1]
  {
  }

  lemma {:induction false} FoldEmpty(ps: seq<Path>, x: Item)
    requires PathsTo(ps, x)
    ensures Fold(ps, multiset{}) == multiset{}
  {
    if ps != [] {
      PathsToPrefix(ps, x);
      FoldEmpty(ps[..|ps| - 1], x);
    }
  }

  lemma PrefixEndingIn(p: Path, t: Path, x: Item)
    requires NoDuplicates(t) && p != [] && p[|p| - 1] == x
    ensures p <= t <==> x in t && p == Before(t, x) + [x]
  {
    if p <= t {
      assert t[|p| - 1] == p[|p| - 1];
      BeforeUnique(t, x, |p| - 1);
      assert p == p[..|p| - 1] + [x];
      assert p[..|p| - 1] == t[..|p| - 1];
    }
    if x in t && p == Before(t, x) + [x] {
      BeforeSpec(t, x);
      assert p == t[..|p|];
    }
  }

  /** What transaction t adds to the walk over ps: its own path, if ps has the node it passes. */
  ghost function Added(ps: seq<Path>, x: Item, t: Path): Bag {
    if x in t && Before(t, x) + [x] in ps then multiset{Before(t, x)} else multiset{}
  }

  lemma AddedHere(ps: seq<Path>, b: Bag, x: Item, t: Path)
    requires PathsTo(ps, x) && ps != [] && t in b && NoDuplicates(t) && ps[|ps| - 1] <= t
    ensures Added(ps, x, t) == multiset{InitOf(ps[|ps| - 1])} && Added(ps[..|ps| - 1], x, t) == multiset{}
    ensures Cnt(b, ps[|ps| - 1]) == Cnt(b - multiset{t}, ps[|ps| - 1]) + 1
  {
    PathsToPrefix(ps, x);
    SumPick(b, PrefixIndicator(ps[|ps| - 1]), t);
    PrefixEndingIn(ps[|ps| - 1], t, x);
    assert ps[|ps| - 1] in ps;
  }

  lemma AddedBefore(ps: seq<Path>, b: Bag, x: Item, t: Path)
    requires PathsTo(ps, x) && ps != [] && t in b && NoDuplicates(t) && !(ps[|ps| - 1] <= t)
    ensures Added(ps, x, t) == Added(ps[..|ps| - 1], x, t)
    ensures Cnt(b, ps[|ps| - 1]) == Cnt(b - multiset{t}, ps[|ps| - 1])
  {
    SumPick(b, PrefixIndicator(ps[|ps| - 1]), t);
    PrefixEndingIn(ps[|ps| - 1], t, x);
    assert ps == ps[..|ps| - 1] + [ps[|ps| - 1]];
  }

  lemma {:induction false} FoldStep(ps: seq<Path>, b: Bag, x: Item, t: Path)
    requires PathsTo(ps, x) && t in b && NoDuplicates(t)
    ensures Fold(ps, b) == Fold(ps, b - multiset{t}) + Added(ps, x, t)
  {
    hide NoDuplicates, Added, Cnt;
    if ps == [] {
      AddedNone(x, t);
      NoBag(multiset{});
    } else {
      var last, init := ps[|ps| - 1], ps[..|ps| - 1];
      PathsToPrefix(ps, x);
      FoldStep(init, b, x, t);
      var before := Fold(init, b - multiset{t});
      if last <= t {
        AddedHere(ps, b, x, t);
        NoBag(before);
        CopiesStep(before, InitOf(last), Cnt(b, last));
      } else {
        AddedBefore(ps, b, x, t);
        AddSwapBags(before, Added(init, x, t), Copies(InitOf(last), Cnt(b, last)));
      }
    }
  }

  lemma NoBag(b: Bag)
    ensures b + multiset{} == b
  {
  }

  lemma AddedNone(x: Item, t: Path)
    ensures Added([], x, t) == multiset{}
  {
  }

  /** The header list collects the conditional pattern base, nothing else. */
  lemma {:induction false} FoldIsProject(ps: seq<Path>, b: Bag, x: Item)
    requires PathsTo(ps, x) && AllDistinct(b) && Covers(ps, b, x)
    ensures Fold(ps, b) == Project(b, x)
    decreases |b|
  {
    if b == multiset{} {
      FoldEmpty(ps, x);
    } else {
      var t :| t in b;
      FoldStep(ps, b, x, t);
      ProjectPick(b, x, t);
      FoldIsProject(ps, b - multiset{t}, x);
    }
  }

  // ---- the conditional bag ---------------------------------------------------------------

  /** How std::sort arranges a path, given the frequencies that FreqCmp compares. */
  type Sorting = (Path, map<Item, nat>) -> Path

  ghost predicate Rearranges(sort: Sorting) {
    forall q: Path, freq: map<Item, nat> :: multiset(sort(q, freq)) == multiset(q)
  }

  /** The items of a path that reach minCount in the projection. */
  function Keep(q: Path, freq: map<Item, nat>, minCount: nat): Path {
    if q == [] then []
    else (if Get(freq, q[0]) >= minCount then [q[0]] else []) + Keep(q[1..], freq, minCount)
  }

  lemma {:induction false} KeepItems(q: Path, freq: map<Item, nat>, minCount: nat, i: Item)
    ensures multiset(Keep(q, freq, minCount))[i] == if Get(freq, i) >= minCount then multiset(q)[i] else 0
  {
    if q != [] {
      KeepItems(q[1..], freq, minCount, i);
      TailItems(q);
    }
  }

  ghost function Conditioner(freq: map<Item, nat>, minCount: nat, sort: Sorting): Path -> Path {
    (q: Path) => sort(Keep(q, freq, minCount), freq)
  }

  lemma ConditionedItems(q: Path, freq: map<Item, nat>, minCount: nat, sort: Sorting, i: Item)
    requires Rearranges(sort)
    ensures multiset(Conditioner(freq, minCount, sort)(q))[i] == if Get(freq, i) >= minCount then multiset(q)[i] else 0
  {
    assert multiset(sort(Keep(q, freq, minCount), freq)) == multiset(Keep(q, freq, minCount));
    KeepItems(q, freq, minCount, i);
  }

  lemma ConditionedMember(q: Path, freq: map<Item, nat>, minCount: nat, sort: Sorting, i: Item)
    requires Rearranges(sort)
    ensures i in Conditioner(freq, minCount, sort)(q) <==> i in q && Get(freq, i) >= minCount
  {
    var r := Conditioner(freq, minCount, sort)(q);
    ConditionedItems(q, freq, minCount, sort, i);
    assert i in r <==> i in multiset(r);
    assert i in q <==> i in multiset(q);
  }

  ghost function AboveIndicator(x: Item, s: set<Item>): Path -> nat {
    (t: Path) => if x in t && (forall i :: i in s ==> i in Before(t, x)) then 1 else 0
  }

  /** Number of transactions in which all of s lies above x. */
  ghost function SupportAbove(b: Bag, x: Item, s: set<Item>): nat {
    Sum(b, AboveIndicator(x, s))
  }

  lemma {:induction false} SupportOfProjection(b: Bag, x: Item, s: set<Item>)
    ensures Support(Project(b, x), s) == SupportAbove(b, x, s)
    decreases |b|
  {
    if b != multiset{} {
      var t :| t in b;
      SupportOfProjection(b - multiset{t}, x, s);
      ProjectPick(b, x, t);
      SumPick(b, AboveIndicator(x, s), t);
      if x in t {
        SumAdd(Project(b - multiset{t}, x), Contains(s), Before(t, x));
      } else {
        NoBag(Project(b - multiset{t}, x));
      }
    }
  }

  /** Projection is faithful: for items that reach minCount in it, nothing above x is lost or gained. */
  lemma ProjectionIsFaithful(b: Bag, x: Item, s: set<Item>, freq: map<Item, nat>, minCount: nat, sort: Sorting)
    requires Rearranges(sort) && FreqOk(freq, Project(b, x))
    requires forall i :: i in s ==> ItemFreq(Project(b, x), i) >= minCount
    ensures Support(MapBag(Project(b, x), Conditioner(freq, minCount, sort)), s) == SupportAbove(b, x, s)
  {
    var p, f := Project(b, x), Conditioner(freq, minCount, sort);
    forall q | q in p ensures Contains(s)(f(q)) == Contains(s)(q) {
      forall i | i in s ensures i in f(q) <==> i in q {
        assert Get(freq, i) == ItemFreq(p, i);
        ConditionedMember(q, freq, minCount, sort, i);
      }
    }
    SumMap(p, f, Contains(s), Contains(s));
    SupportOfProjection(b, x, s);
  }

  /** An item below minCount in the projection is gone from the conditional bag. */
  lemma InfrequentIsGone(b: Bag, x: Item, s: set<Item>, i: Item, freq: map<Item, nat>, minCount: nat, sort: Sorting)
    requires Rearranges(sort) && FreqOk(freq, Project(b, x))
    requires i in s && ItemFreq(Project(b, x), i) < minCount
    ensures Support(MapBag(Project(b, x), Conditioner(freq, minCount, sort)), s) == 0
  {
    var p, f := Project(b, x), Conditioner(freq, minCount, sort);
    if Support(MapBag(p, f), s) > 0 {
      var t := Supporter(MapBag(p, f), s);
      MapMembers(p, f, t);
      var q :| q in p && f(q) == t;
      assert Get(freq, i) == ItemFreq(p, i);
      ConditionedMember(q, freq, minCount, sort, i);
    }
  }

  lemma Supporter(b: Bag, s: set<Item>) returns (t: Path)
    requires Support(b, s) > 0
    ensures t in b && forall i :: i in s ==> i in t
  {
    SumPositive(b, Contains(s));
    t :| t in b && Contains(s)(t) > 0;
  }

  lemma {:induction false} ProjectMembers(b: Bag, x: Item, q: Path)
    ensures q in Project(b, x) <==> exists t :: t in b && x in t && Before(t, x) == q
    decreases |b|
  {
    if b != multiset{} {
      var t :| t in b;
      ProjectPick(b, x, t);
      ProjectMembers(b - multiset{t}, x, q);
      if exists u :: u in b && x in u && Before(u, x) == q {
        var u :| u in b && x in u && Before(u, x) == q;
        if u != t { assert u in b - multiset{t}; }
      }
    }
  }

  // ---- transactions that agree on the order of their items --------------------------------

  ghost predicate StandsAbove(t: Path, i: Item, j: Item) {
    j in t && i in Before(t, j)
  }

  /** u arranges the items that it shares with t as t does. */
  ghost predicate Alike(t: Path, u: Path) {
    forall i, j :: StandsAbove(t, i, j) && i in u && j in u ==> StandsAbove(u, i, j)
  }

  /** No transaction repeats an item, and no two arrange a pair of items oppositely. */
  ghost predicate Agree(b: Bag) {
    AllDistinct(b) && forall t, u :: t in b && u in b ==> Alike(t, u)
  }

  /** Every transaction lists its items in the one order `less`, without repeats. */
  ghost predicate Consistent(b: Bag, less: Order) {
    forall t :: t in b ==> Ascending(t, less)
  }

  lemma AboveAt(t: Path, j: nat, k: nat)
    requires NoDuplicates(t) && j < |t| && k < |t|
    ensures StandsAbove(t, t[j], t[k]) <==> j < k
  {
    BeforeUnique(t, t[k], k);
    if j < k { assert t[..k][j] == t[j]; }
  }

  lemma AboveInside(t: Path, i: Item, j: Item)
    requires StandsAbove(t, i, j)
    ensures i in t && j in t && i != j
  {
    BeforeSpec(t, j);
  }

  lemma AboveOneWay(t: Path, i: Item, j: Item)
    requires NoDuplicates(t) && i in t && j in t && i != j
    ensures StandsAbove(t, i, j) <==> !StandsAbove(t, j, i)
  {
    var k, l :| 0 <= k < |t| && 0 <= l < |t| && t[k] == i && t[l] == j;
    AboveAt(t, k, l);
    AboveAt(t, l, k);
  }

  lemma ConsistentAgrees(b: Bag, less: Order)
    requires StrictTotal(less) && Consistent(b, less)
    ensures Agree(b)
  {
    forall t | t in b ensures NoDuplicates(t) {
      AscendingIffSortedDistinct(t, less);
    }
    forall t, u | t in b && u in b ensures Alike(t, u) {
      AscendingAlike(t, u, less);
    }
  }

  lemma AscendingAlike(t: Path, u: Path, less: Order)
    requires StrictTotal(less) && Ascending(t, less) && Ascending(u, less)
    ensures Alike(t, u)
  {
    AscendingIffSortedDistinct(t, less);
    AscendingIffSortedDistinct(u, less);
    forall i, j | StandsAbove(t, i, j) && i in u && j in u ensures StandsAbove(u, i, j) {
      AboveInside(t, i, j);
      var k, l :| 0 <= k < |t| && 0 <= l < |t| && t[k] == i && t[l] == j;
      AboveAt(t, k, l);
      var m, n :| 0 <= m < |u| && 0 <= n < |u| && u[m] == i && u[n] == j;
      AboveAt(u, m, n);
    }
  }

  /** Of some of t's items, the one that stands deepest in t. */
  lemma DeepestIn(t: Path, s: set<Item>) returns (x: Item)
    requires NoDuplicates(t) && s != {} && forall i :: i in s ==> i in t
    ensures x in s && forall i :: i in s && i != x ==> StandsAbove(t, i, x)
  {
    var k := LastPosition(t, s, |t|);
    x := t[k];
    forall i | i in s && i != x ensures StandsAbove(t, i, x) {
      var j :| 0 <= j < |t| && t[j] == i;
      AboveAt(t, j, k);
    }
  }

  lemma {:induction false} LastPosition(t: Path, s: set<Item>, n: nat) returns (k: nat)
    requires n <= |t| && exists j :: 0 <= j < n && t[j] in s
    ensures k < n && t[k] in s && forall j :: k < j < n ==> t[j] !in s
  {
    if t[n - 1] in s { k := n - 1; } else { k := LastPosition(t, s, n - 1); }
  }

  /** Mining finds s under its item x if the rest of s lies above x often enough. */
  ghost predicate FoundUnder(b: Bag, minCount: nat, x: Item, s: set<Item>) {
    x in s && SupportAbove(b, x, s - {x}) >= minCount
  }

  lemma AllWhenAbove(t: Path, x: Item, s: set<Item>)
    requires x in s
    ensures AboveIndicator(x, s - {x})(t) <= Contains(s)(t)
  {
    if AboveIndicator(x, s - {x})(t) > 0 {
      BeforeSpec(t, x);
      forall i | i in s ensures i in t {
        assert i != x ==> i in s - {x};
      }
    }
  }

  lemma FoundIsFrequent(b: Bag, minCount: nat, x: Item, s: set<Item>)
    requires FoundUnder(b, minCount, x, s)
    ensures Frequent(b, minCount, s)
  {
    forall t | t in b ensures AboveIndicator(x, s - {x})(t) <= Contains(s)(t) {
      AllWhenAbove(t, x, s);
    }
    SumBound(b, AboveIndicator(x, s - {x}), Contains(s));
  }

  /** Where the transactions agree, all occurrences of an itemset lie above one of its items. */
  lemma DeepestItem(b: Bag, s: set<Item>) returns (x: Item)
    requires Agree(b) && s != {} && Support(b, s) > 0
    ensures x in s && SupportAbove(b, x, s - {x}) == Support(b, s)
    ensures forall y :: y in s && y != x ==> SupportAbove(b, y, s - {y}) == 0
  {
    hide StandsAbove, Alike, NoDuplicates;
    var t := Supporter(b, s);
    x := DeepestIn(t, s);
    forall u | u in b ensures AboveIndicator(x, s - {x})(u) == Contains(s)(u) {
      DeepestAlike(t, u, s, x);
    }
    SumCongruence(b, AboveIndicator(x, s - {x}), Contains(s));
    forall y | y in s && y != x ensures SupportAbove(b, y, s - {y}) == 0 {
      SumPositive(b, AboveIndicator(y, s - {y}));
      if u :| u in b && AboveIndicator(y, s - {y})(u) > 0 {
        DeepestAlike(t, u, s, x);
        NotDeepest(t, u, s, x, y);
      }
    }
  }

  lemma DeepestAlike(t: Path, u: Path, s: set<Item>, x: Item)
    requires Alike(t, u) && x in s && forall i :: i in s && i != x ==> StandsAbove(t, i, x)
    ensures AboveIndicator(x, s - {x})(u) == Contains(s)(u)
  {
    if Contains(s)(u) > 0 {
      forall i | i in s - {x} ensures i in Before(u, x) {
        assert StandsAbove(u, i, x);
      }
    }
    AllWhenAbove(u, x, s);
  }

  lemma NotDeepest(t: Path, u: Path, s: set<Item>, x: Item, y: Item)
    requires NoDuplicates(u) && Alike(t, u) && x in s && y in s && x != y
    requires forall i :: i in s && i != x ==> StandsAbove(t, i, x)
    ensures AboveIndicator(y, s - {y})(u) == 0
  {
    assert StandsAbove(t, y, x);
    AllWhenAbove(u, y, s);
    if AboveIndicator(y, s - {y})(u) > 0 {
      assert x in s - {y};
      AboveOneWay(u, x, y);
    }
  }

  lemma NeverAboveItself(b: Bag, x: Item, s: set<Item>)
    requires x in s
    ensures SupportAbove(b, x, s) == 0
  {
    SumPositive(b, AboveIndicator(x, s));
    if t :| t in b && AboveIndicator(x, s)(t) > 0 {
      BeforeSpec(t, x);
    }
  }

  lemma AloneIsFreq(b: Bag, x: Item)
    requires AllDistinct(b)
    ensures SupportAbove(b, x, {}) == ItemFreq(b, x)
  {
    FreqIsSupport(b, x);
    SumCongruence(b, AboveIndicator(x, {}), Contains({x}));
  }

  lemma FreqAtLeastSupport(b: Bag, s: set<Item>, i: Item)
    requires i in s
    ensures ItemFreq(b, i) >= Support(b, s)
  {
    forall t: Path | t in b ensures Contains(s)(t) <= Occurrences(i)(t) {
      if i in t { assert i in multiset(t); }
    }
    SumBound(b, Contains(s), Occurrences(i));
  }

  lemma FreqIsSupport(b: Bag, i: Item)
    requires AllDistinct(b)
    ensures ItemFreq(b, i) == Support(b, {i})
  {
    forall t: Path | t in b ensures Contains({i})(t) == Occurrences(i)(t) {
      if i in t {
        var k :| 0 <= k < |t| && t[k] == i;
        OnceInMultiset(t, k);
      } else {
        assert i in {i};
        assert i !in multiset(t);
      }
    }
    SumCongruence(b, Contains({i}), Occurrences(i));
  }

  ghost predicate Frequent(b: Bag, minCount: nat, s: set<Item>) {
    s != {} && Support(b, s) >= minCount
  }

  /** Itemsets frequent in the conditional tree of x are those that lie above x often enough. */
  lemma ProjectionIsExact(b: Bag, x: Item, s: set<Item>, freq: map<Item, nat>, minCount: nat, sort: Sorting)
    requires Rearranges(sort) && minCount > 0 && FreqOk(freq, Project(b, x))
    ensures Frequent(MapBag(Project(b, x), Conditioner(freq, minCount, sort)), minCount, s)
       <==> s != {} && SupportAbove(b, x, s) >= minCount
  {
    hide Rearranges, FreqOk, MapBag, Project, Sum, AboveIndicator, Contains, Occurrences;
    var p := Project(b, x);
    if i :| i in s && ItemFreq(p, i) < minCount {
      InfrequentIsGone(b, x, s, i, freq, minCount, sort);
      SupportOfProjection(b, x, s);
      FreqAtLeastSupport(p, s, i);
    } else {
      ProjectionIsFaithful(b, x, s, freq, minCount, sort);
    }
  }

  /** The frequencies have room for both paths. */
  ghost predicate RoomFor(freq: map<Item, nat>, q: Path, r: Path) {
    forall i: Item :: Get(freq, i) >= multiset(q)[i] + multiset(r)[i]
  }

  /** Paths that agree still do once they are sorted by frequencies that may be theirs. */
  ghost predicate KeepsAgreement(sort: Sorting) {
    forall q: Path, r: Path, freq: map<Item, nat> ::
      NoDuplicates(q) && NoDuplicates(r) && Alike(q, r) && RoomFor(freq, q, r) ==> Alike(sort(q, freq), sort(r, freq))
  }

  /** A sorting routine that mining can rely on. */
  ghost predicate Dependable(sort: Sorting) {
    Rearranges(sort) && KeepsAgreement(sort)
  }

  lemma {:induction false} KeepMember(q: Path, freq: map<Item, nat>, minCount: nat, i: Item)
    ensures i in Keep(q, freq, minCount) <==> i in q && Get(freq, i) >= minCount
  {
    if q != [] {
      KeepMember(q[1..], freq, minCount, i);
      assert q == [q[0]] + q[1..];
    }
  }

  lemma AboveHead(h: Item, t: Path, i: Item, j: Item)
    ensures StandsAbove([h] + t, i, j) <==> j != h && j in t && (i == h || StandsAbove(t, i, j))
  {
    assert ([h] + t)[1..] == t;
  }

  lemma TailDistinct(q: Path)
    requires q != [] && NoDuplicates(q)
    ensures NoDuplicates(q[1..]) && q[0] !in q[1..]
  {
  }

  lemma {:induction false} KeepAbove(q: Path, freq: map<Item, nat>, minCount: nat, i: Item, j: Item)
    requires NoDuplicates(q)
    ensures StandsAbove(Keep(q, freq, minCount), i, j) <==> StandsAbove(q, i, j) && Get(freq, i) >= minCount && Get(freq, j) >= minCount
  {
    if q != [] {
      hide StandsAbove, NoDuplicates;
      TailDistinct(q);
      KeepAbove(q[1..], freq, minCount, i, j);
      KeepMember(q[1..], freq, minCount, j);
      assert q == [q[0]] + q[1..];
      AboveHead(q[0], q[1..], i, j);
      var k := Keep(q[1..], freq, minCount);
      AboveHead(q[0], k, i, j);
      assert Keep(q, freq, minCount) == if Get(freq, q[0]) >= minCount then [q[0]] + k else k;
    }
  }

  lemma SameDistinct(s: Path, t: Path)
    requires NoDuplicates(s) && forall i: Item :: multiset(t)[i] <= multiset(s)[i]
    ensures NoDuplicates(t)
  {
    forall i, j | 0 <= i < j < |t| ensures t[i] != t[j] {
      if t[i] == t[j] {
        TwiceInMultiset(t, i, j);
        assert t[i] in multiset(s);
        var k :| 0 <= k < |s| && s[k] == t[i];
        OnceInMultiset(s, k);
      }
    }
  }

  lemma KeepAlike(q: Path, r: Path, freq: map<Item, nat>, minCount: nat)
    requires NoDuplicates(q) && NoDuplicates(r) && Alike(q, r)
    ensures NoDuplicates(Keep(q, freq, minCount)) && Alike(Keep(q, freq, minCount), Keep(r, freq, minCount))
  {
    hide StandsAbove, Keep;
    var k: Path, l: Path := Keep(q, freq, minCount), Keep(r, freq, minCount);
    forall i: Item ensures multiset(k)[i] <= multiset(q)[i] {
      KeepItems(q, freq, minCount, i);
    }
    SameDistinct(q, k);
    forall i, j | StandsAbove(k, i, j) && i in l && j in l ensures StandsAbove(l, i, j) {
      KeepAbove(q, freq, minCount, i, j);
      KeepAbove(r, freq, minCount, i, j);
      KeepMember(r, freq, minCount, i);
      KeepMember(r, freq, minCount, j);
    }
  }

  lemma BeforeAlike(t: Path, u: Path, x: Item)
    requires NoDuplicates(t) && NoDuplicates(u) && Alike(t, u) && x in t && x in u
    ensures NoDuplicates(Before(t, x)) && NoDuplicates(Before(u, x)) && Alike(Before(t, x), Before(u, x))
  {
    BeforeSpec(t, x);
    BeforeSpec(u, x);
    var q, r := Before(t, x), Before(u, x);
    forall i, j | StandsAbove(q, i, j) && i in r && j in r ensures StandsAbove(r, i, j) {
      AboveInPrefix(t, |q|, i, j);
      AboveInPrefix(u, |r|, i, j);
    }
  }

  lemma AboveInPrefix(t: Path, n: nat, i: Item, j: Item)
    requires NoDuplicates(t) && n <= |t| && j in t[..n]
    ensures StandsAbove(t[..n], i, j) <==> StandsAbove(t, i, j)
  {
    var k :| 0 <= k < n && t[k] == j;
    BeforeUnique(t, j, k);
    BeforeUnique(t[..n], j, k);
    assert t[..n][..k] == t[..k];
  }

  /** The transactions of a conditional bag agree again. */
  lemma ConditionalAgrees(b: Bag, x: Item, freq: map<Item, nat>, minCount: nat, sort: Sorting)
    requires Dependable(sort) && Agree(b) && FreqOk(freq, Project(b, x))
    ensures Agree(MapBag(Project(b, x), Conditioner(freq, minCount, sort)))
  {
    hide NoDuplicates, Alike, MapBag, Project, Keep, Rearranges, KeepsAgreement, FreqOk;
    var p, f := Project(b, x), Conditioner(freq, minCount, sort);
    var c := MapBag(p, f);
    forall t | t in c ensures NoDuplicates(t) {
      var q := Conditioned(b, x, f, t);
      ProjectedAlike(b, x, q, q);
      DistinctWhenSorted(q, freq, minCount, sort);
    }
    forall t, u | t in c && u in c ensures Alike(t, u) {
      var q := Conditioned(b, x, f, t);
      var r := Conditioned(b, x, f, u);
      ProjectedAlike(b, x, q, r);
      SortedAlike(p, q, r, freq, minCount, sort);
    }
  }

  lemma Conditioned(b: Bag, x: Item, f: Path -> Path, t: Path) returns (q: Path)
    requires t in MapBag(Project(b, x), f)
    ensures q in Project(b, x) && f(q) == t
  {
    MapMembers(Project(b, x), f, t);
    q :| q in Project(b, x) && f(q) == t;
  }

  lemma ProjectedAlike(b: Bag, x: Item, q: Path, r: Path)
    requires Agree(b) && q in Project(b, x) && r in Project(b, x)
    ensures NoDuplicates(q) && NoDuplicates(r) && Alike(q, r)
  {
    ProjectMembers(b, x, q);
    ProjectMembers(b, x, r);
    var t :| t in b && x in t && Before(t, x) == q;
    var u :| u in b && x in u && Before(u, x) == r;
    BeforeAlike(t, u, x);
  }

  lemma DistinctWhenSorted(q: Path, freq: map<Item, nat>, minCount: nat, sort: Sorting)
    requires Rearranges(sort) && NoDuplicates(q)
    ensures NoDuplicates(Conditioner(freq, minCount, sort)(q))
  {
    forall i: Item ensures multiset(Conditioner(freq, minCount, sort)(q))[i] <= multiset(q)[i] {
      ConditionedItems(q, freq, minCount, sort, i);
    }
    SameDistinct(q, Conditioner(freq, minCount, sort)(q));
  }

  lemma SortedAlike(p: Bag, q: Path, r: Path, freq: map<Item, nat>, minCount: nat, sort: Sorting)
    requires Dependable(sort) && FreqOk(freq, p) && q in p && r in p
    requires NoDuplicates(q) && NoDuplicates(r) && Alike(q, r)
    ensures Alike(Conditioner(freq, minCount, sort)(q), Conditioner(freq, minCount, sort)(r))
  {
    hide NoDuplicates, Alike, Keep;
    var k: Path, l: Path := Keep(q, freq, minCount), Keep(r, freq, minCount);
    if k == l {
      AlikeItself(sort(k, freq));
    } else {
      KeepAlike(q, r, freq, minCount);
      KeepAlike(r, r, freq, minCount) by { AlikeItself(r); }
      RoomForKept(p, q, r, freq, minCount);
    }
  }

  lemma AlikeItself(t: Path)
    ensures Alike(t, t)
  {
  }

  lemma RoomForKept(p: Bag, q: Path, r: Path, freq: map<Item, nat>, minCount: nat)
    requires FreqOk(freq, p) && q in p && r in p && q != r
    ensures RoomFor(freq, Keep(q, freq, minCount), Keep(r, freq, minCount))
  {
    hide Keep, Sum;
    forall i: Item ensures Get(freq, i) >= multiset(Keep(q, freq, minCount))[i] + multiset(Keep(r, freq, minCount))[i] {
      KeepItems(q, freq, minCount, i);
      KeepItems(r, freq, minCount, i);
      assert Get(freq, i) == ItemFreq(p, i);
      SumPick(p, Occurrences(i), q);
      SumPick(p - multiset{q}, Occurrences(i), r);
    }
  }

  /** All of the conditional bag's items reach minCount in it, and lie above x. */
  lemma ConditionalItemsAreFrequent(b: Bag, x: Item, i: Item, freq: map<Item, nat>, minCount: nat, sort: Sorting)
    requires Rearranges(sort) && FreqOk(freq, Project(b, x))
    ensures var c := MapBag(Project(b, x), Conditioner(freq, minCount, sort));
      ItemFreq(c, i) == if ItemFreq(Project(b, x), i) >= minCount then ItemFreq(Project(b, x), i) else 0
  {
    hide Sum, MapBag, Project, SortPath, Keep, StrictTotal, Occurrences;
    var p, f := Project(b, x), Conditioner(freq, minCount, sort);
    assert Get(freq, i) == ItemFreq(p, i);
    if ItemFreq(p, i) >= minCount {
      forall q | q in p ensures Occurrences(i)(f(q)) == Occurrences(i)(q) {
        ConditionedOccurrences(q, freq, minCount, sort, i);
      }
      SumMap(p, f, Occurrences(i), Occurrences(i));
    } else {
      forall t: Path | t in MapBag(p, f) ensures Occurrences(i)(t) == 0 {
        MapMembers(p, f, t);
        var q :| q in p && f(q) == t;
        ConditionedOccurrences(q, freq, minCount, sort, i);
      }
      SumPositive(MapBag(p, f), Occurrences(i));
    }
  }

  lemma ConditionedOccurrences(q: Path, freq: map<Item, nat>, minCount: nat, sort: Sorting, i: Item)
    requires Rearranges(sort)
    ensures Occurrences(i)(Conditioner(freq, minCount, sort)(q)) == if Get(freq, i) >= minCount then Occurrences(i)(q) else 0
  {
    hide StrictTotal, SortPath, Keep;
    ConditionedItems(q, freq, minCount, sort, i);
  }

  lemma BeforeOccurrences(t: Path, x: Item, i: Item)
    requires x in t
    ensures Occurrences(i)(Before(t, x)) <= Occurrences(i)(t)
  {
    BeforeSpec(t, x);
    var n := |Before(t, x)|;
    assert t == t[..n] + t[n..];
    assert multiset(t) == multiset(t[..n]) + multiset(t[n..]);
  }

  lemma {:induction false} ProjectFreqBound(b: Bag, x: Item, i: Item)
    ensures ItemFreq(Project(b, x), i) <= ItemFreq(b, i)
    decreases |b|
  {
    if b != multiset{} {
      hide Sum, Occurrences, Project;
      var t :| t in b;
      ProjectFreqBound(b - multiset{t}, x, i);
      ProjectPick(b, x, t);
      SumPick(b, Occurrences(i), t);
      if x in t {
        SumAdd(Project(b - multiset{t}, x), Occurrences(i), Before(t, x));
        BeforeOccurrences(t, x, i);
      } else {
        NoBag(Project(b - multiset{t}, x));
      }
    }
  }

  /** x itself is never above x. */
  lemma ProjectDropsItem(b: Bag, x: Item)
    ensures ItemFreq(Project(b, x), x) == 0
  {
    forall q: Path | q in Project(b, x) ensures Occurrences(x)(q) == 0 {
      ProjectMembers(b, x, q);
      var t :| t in b && x in t && Before(t, x) == q;
      BeforeSpec(t, x);
      assert x in multiset(q) ==> x in q;
    }
    SumPositive(Project(b, x), Occurrences(x));
  }
}
