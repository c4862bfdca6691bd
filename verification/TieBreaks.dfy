/** What a sort with FreqCmp has to guarantee for mining to be exact (src/FPTree.cpp, FreqCmp and std::sort). */
module TieBreaks {
  import opened Orders
  import opened Bags
  import opened Projection
  import opened Patterns

  /** FreqCmp as it is written: higher counts first, and nothing said of equal ones. */
  function FreqCmp(freq: map<Item, nat>): Order {
    (a: Item, b: Item) => Get(freq, a) > Get(freq, b)
  }

  /** All that std::sort promises of its result. */
  ghost predicate SortsByFreq(sort: Sorting) {
    Rearranges(sort) && forall q: Path, freq: map<Item, nat> :: Sorted(sort(q, freq), FreqCmp(freq))
  }

  // ---- a stable sort ----------------------------------------------------------------------

  /** Insertion sort with FreqCmp, which leaves equal items in the order in which they come. */
  function StableSort(): Sorting {
    (q: Path, freq: map<Item, nat>) => SortPath(q, FreqCmp(freq))
  }

  lemma {:induction false} StableInsertSorts(x: Item, s: Path, freq: map<Item, nat>)
    requires Sorted(s, FreqCmp(freq))
    ensures Sorted(InsertSorted(x, s, FreqCmp(freq)), FreqCmp(freq))
    ensures multiset(InsertSorted(x, s, FreqCmp(freq))) == multiset(s) + multiset{x}
  {
    var less := FreqCmp(freq);
    if s == [] {
      NothingFirst(x, freq);
    } else {
      hide Sorted;
      assert s == [s[0]] + s[1..];
      TakeFirst(s, freq);
      if less(s[0], x) {
        StableInsertSorts(x, s[1..], freq);
        var r := InsertSorted(x, s[1..], less);
        forall y | y in r ensures Get(freq, y) <= Get(freq, s[0]) {
          assert y in multiset(r);
          assert y == x || y in s[1..];
        }
        PutFirst(s[0], r, freq);
      } else {
        PutFirst(x, s, freq);
      }
    }
  }

  lemma NothingFirst(x: Item, freq: map<Item, nat>)
    ensures Sorted([x], FreqCmp(freq))
  {
  }

  lemma PutFirst(x: Item, s: Path, freq: map<Item, nat>)
    requires Sorted(s, FreqCmp(freq)) && forall y :: y in s ==> Get(freq, y) <= Get(freq, x)
    ensures Sorted([x] + s, FreqCmp(freq)) && multiset([x] + s) == multiset(s) + multiset{x}
  {
  }

  lemma TakeFirst(s: Path, freq: map<Item, nat>)
    requires s != [] && Sorted(s, FreqCmp(freq))
    ensures Sorted(s[1..], FreqCmp(freq)) && forall y :: y in s ==> Get(freq, y) <= Get(freq, s[0])
  {
    forall y | y in s ensures Get(freq, y) <= Get(freq, s[0]) {
      BelowFirst(s, freq, y, s[0]);
    }
  }

  lemma {:induction false} StableSortSorts(q: Path, freq: map<Item, nat>)
    ensures Sorted(SortPath(q, FreqCmp(freq)), FreqCmp(freq))
    ensures multiset(SortPath(q, FreqCmp(freq))) == multiset(q)
  {
    if q != [] {
      StableSortSorts(q[1..], freq);
      StableInsertSorts(q[0], SortPath(q[1..], FreqCmp(freq)), freq);
      assert q == [q[0]] + q[1..];
    }
  }

  lemma {:induction false} StableInsertAbove(x: Item, s: Path, freq: map<Item, nat>, i: Item, j: Item)
    requires Sorted(s, FreqCmp(freq)) && NoDuplicates(s) && x !in s
    ensures StandsAbove(InsertSorted(x, s, FreqCmp(freq)), i, j) <==>
      || StandsAbove(s, i, j)
      || (i == x && j in s && Get(freq, x) >= Get(freq, j))
      || (j == x && i in s && Get(freq, i) > Get(freq, x))
  {
    hide StandsAbove;
    var less := FreqCmp(freq);
    if s == [] {
      AboveHead(x, [], i, j);
      NothingAbove(i, j);
      assert [x] + [] == [x];
    } else if less(s[0], x) {
      var r := InsertSorted(x, s[1..], less);
      StableInsertAbove(x, s[1..], freq, i, j);
      StableInsertSorts(x, s[1..], freq);
      AboveHead(s[0], r, i, j);
      AboveHead(s[0], s[1..], i, j);
      NothingAboveAbsent(s[1..], i, x);
      assert s == [s[0]] + s[1..] && InsertSorted(x, s, less) == [s[0]] + r;
      assert j in r <==> j in multiset(r);
      assert j in s[1..] <==> j in multiset(s[1..]);
    } else {
      AboveHead(x, s, i, j);
      NothingAboveAbsent(s, i, x);
      if StandsAbove(s, i, j) { AboveInside(s, i, j); }
      BelowFirst(s, freq, i, x);
      BelowFirst(s, freq, j, x);
    }
  }

  lemma NothingAbove(i: Item, j: Item)
    ensures !StandsAbove([], i, j)
  {
  }

  lemma NothingAboveAbsent(s: Path, i: Item, x: Item)
    requires x !in s
    ensures !StandsAbove(s, i, x) && !StandsAbove(s, x, i)
  {
    if StandsAbove(s, x, i) { AboveInside(s, x, i); }
  }

  lemma BelowFirst(s: Path, freq: map<Item, nat>, i: Item, x: Item)
    requires Sorted(s, FreqCmp(freq)) && s != [] && !FreqCmp(freq)(s[0], x)
    ensures i in s ==> Get(freq, i) <= Get(freq, x)
  {
    if i in s {
      var k :| 0 <= k < |s| && s[k] == i;
      assert k > 0 ==> !FreqCmp(freq)(s[k], s[0]);
    }
  }

  /** The stable sort's tie-break is the order in which the items come. */
  lemma {:induction false} StableSortAbove(q: Path, freq: map<Item, nat>, i: Item, j: Item)
    requires NoDuplicates(q)
    ensures StandsAbove(SortPath(q, FreqCmp(freq)), i, j) <==>
      i in q && j in q && (Get(freq, i) > Get(freq, j) || (Get(freq, i) == Get(freq, j) && StandsAbove(q, i, j)))
  {
    hide StandsAbove, NoDuplicates, Sorted;
    if q == [] {
      NothingAbove(i, j);
    } else {
      var x, t := q[0], q[1..];
      var s := SortPath(t, FreqCmp(freq));
      TailDistinct(q);
      StableSortSorts(t, freq);
      SameDistinct(t, s);
      SamePermutation(s, t);
      StableSortAbove(t, freq, i, j);
      StableInsertAbove(x, s, freq, i, j);
      assert q == [x] + t;
      AboveHead(x, t, i, j);
      NothingAboveAbsent(t, i, x);
      NothingAboveAbsent(t, j, x);
    }
  }

  lemma StableSortIsDependable()
    ensures SortsByFreq(StableSort()) && Dependable(StableSort())
  {
    hide StandsAbove, NoDuplicates, Sorted;
    forall q: Path, freq: map<Item, nat>
      ensures multiset(StableSort()(q, freq)) == multiset(q) && Sorted(StableSort()(q, freq), FreqCmp(freq))
    {
      StableSortSorts(q, freq);
    }
    forall q: Path, r: Path, freq: map<Item, nat> | NoDuplicates(q) && NoDuplicates(r) && Alike(q, r)
      ensures Alike(StableSort()(q, freq), StableSort()(r, freq))
    {
      StableSortAlike(q, r, freq);
    }
  }

  lemma StableSortAlike(q: Path, r: Path, freq: map<Item, nat>)
    requires NoDuplicates(q) && NoDuplicates(r) && Alike(q, r)
    ensures Alike(SortPath(q, FreqCmp(freq)), SortPath(r, FreqCmp(freq)))
  {
    hide StandsAbove, NoDuplicates, Sorted;
    var s, t := SortPath(q, FreqCmp(freq)), SortPath(r, FreqCmp(freq));
    StableSortSorts(r, freq);
    SamePermutation(t, r);
    forall i, j | StandsAbove(s, i, j) && i in t && j in t ensures StandsAbove(t, i, j) {
      StableSortAbove(q, freq, i, j);
      StableSortAbove(r, freq, i, j);
    }
  }

  // ---- a fixed tie-break ------------------------------------------------------------------

  /** FreqCmp with the tie-break that its comment promises. */
  function FreqOrder(freq: map<Item, nat>, tie: Order): Order {
    (a: Item, b: Item) => Get(freq, a) > Get(freq, b) || (Get(freq, a) == Get(freq, b) && tie(a, b))
  }

  function TieSort(tie: Order): Sorting {
    (q: Path, freq: map<Item, nat>) => SortPath(q, FreqOrder(freq, tie))
  }

  lemma FreqOrderIsStrictTotal(freq: map<Item, nat>, tie: Order)
    requires StrictTotal(tie)
    ensures StrictTotal(FreqOrder(freq, tie))
  {
  }

  lemma TieSortIsDependable(tie: Order)
    requires StrictTotal(tie)
    ensures SortsByFreq(TieSort(tie)) && Dependable(TieSort(tie))
  {
    hide StandsAbove, NoDuplicates, StrictTotal;
    forall q: Path, freq: map<Item, nat>
      ensures multiset(TieSort(tie)(q, freq)) == multiset(q) && Sorted(TieSort(tie)(q, freq), FreqCmp(freq))
    {
      TieSortSorts(q, freq, tie);
    }
    forall q: Path, r: Path, freq: map<Item, nat> | NoDuplicates(q) && NoDuplicates(r)
      ensures Alike(TieSort(tie)(q, freq), TieSort(tie)(r, freq))
    {
      TieSortSorts(q, freq, tie);
      TieSortSorts(r, freq, tie);
      FreqOrderIsStrictTotal(freq, tie);
      AscendingAlike(TieSort(tie)(q, freq), TieSort(tie)(r, freq), FreqOrder(freq, tie));
    }
  }

  lemma TieSortSorts(q: Path, freq: map<Item, nat>, tie: Order)
    requires StrictTotal(tie)
    ensures multiset(TieSort(tie)(q, freq)) == multiset(q) && Sorted(TieSort(tie)(q, freq), FreqCmp(freq))
    ensures NoDuplicates(q) ==> Ascending(TieSort(tie)(q, freq), FreqOrder(freq, tie))
  {
    hide StrictTotal, NoDuplicates;
    var s, less := TieSort(tie)(q, freq), FreqOrder(freq, tie);
    FreqOrderIsStrictTotal(freq, tie);
    SortPathSpec(q, less);
    forall i, j | 0 <= i < j < |s| ensures !FreqCmp(freq)(s[j], s[i]) {
      assert !less(s[j], s[i]);
    }
    if NoDuplicates(q) {
      SameDistinct(q, s);
      AscendingIffSortedDistinct(s, less);
    }
  }

  // ---- exactly what is needed --------------------------------------------------------------

  /** At every threshold, each frequent itemset is found under exactly one item and no other set is found. */
  ghost predicate FoundOnceEach(b: Bag) {
    forall minCount: nat, s: set<Item> :: minCount > 0 ==> FoundOnceAt(b, minCount, s)
  }

  ghost predicate FoundOnceAt(b: Bag, minCount: nat, s: set<Item>) {
    && (Frequent(b, minCount, s) <==> exists x :: FoundUnder(b, minCount, x, s))
    && (forall x, y :: FoundUnder(b, minCount, x, s) && FoundUnder(b, minCount, y, s) ==> x == y)
  }

  /** That is so if and only if no two transactions arrange a pair oppositely. */
  lemma AgreeIff(b: Bag)
    requires AllDistinct(b)
    ensures Agree(b) <==> FoundOnceEach(b)
  {
    hide StandsAbove, NoDuplicates;
    if Agree(b) {
      AgreeingIsFound(b);
    }
    if FoundOnceEach(b) {
      forall t, u | t in b && u in b ensures Alike(t, u) {
        FoundIsAlike(b, t, u);
      }
    }
  }

  lemma AgreeingIsFound(b: Bag)
    requires Agree(b)
    ensures FoundOnceEach(b)
  {
    hide Agree, FoundUnder;
    forall minCount: nat, s: set<Item> | minCount > 0 ensures FoundOnceAt(b, minCount, s) {
      if Frequent(b, minCount, s) {
        var x := FoundSomewhere(b, minCount, s);
      }
      if x :| FoundUnder(b, minCount, x, s) {
        FoundIsFrequent(b, minCount, x, s);
      }
      forall x, y | FoundUnder(b, minCount, x, s) && FoundUnder(b, minCount, y, s) ensures x == y {
        FoundOnce(b, minCount, x, y, s);
      }
    }
  }

  lemma FoundSomewhere(b: Bag, minCount: nat, s: set<Item>) returns (x: Item)
    requires Agree(b) && minCount > 0 && Frequent(b, minCount, s)
    ensures FoundUnder(b, minCount, x, s)
  {
    x := DeepestItem(b, s);
  }

  lemma FoundIsAlike(b: Bag, t: Path, u: Path)
    requires AllDistinct(b) && FoundOnceEach(b) && t in b && u in b
    ensures Alike(t, u)
  {
    hide StandsAbove, NoDuplicates, FoundUnder;
    forall i, j | StandsAbove(t, i, j) && i in u && j in u ensures StandsAbove(u, i, j) {
      AboveInside(t, i, j);
      AboveOneWay(u, i, j);
      if StandsAbove(u, j, i) {
        PairFound(b, t, i, j, {i, j});
        PairFound(b, u, j, i, {i, j});
        OneItem(b, {i, j}, i, j);
      }
    }
  }

  lemma OneItem(b: Bag, s: set<Item>, i: Item, j: Item)
    requires FoundOnceEach(b) && FoundUnder(b, 1, i, s) && FoundUnder(b, 1, j, s)
    ensures i == j
  {
    assert FoundOnceAt(b, 1, s);
  }

  lemma PairFound(b: Bag, t: Path, i: Item, j: Item, s: set<Item>)
    requires t in b && StandsAbove(t, i, j) && s == {i, j}
    ensures FoundUnder(b, 1, j, s)
  {
    AboveInside(t, i, j);
    assert s - {j} == {i};
    SumPositive(b, AboveIndicator(j, {i}));
    assert AboveIndicator(j, {i})(t) > 0;
  }

  /** Mining is right on the conditional bag of x. */
  ghost predicate MinesExactly(sort: Sorting, b: Bag, x: Item, freq: map<Item, nat>, minCount: nat) {
    FoundOnceEach(MapBag(Project(b, x), Conditioner(freq, minCount, sort)))
  }

  /**
   * The exact condition on the sort: mining is right on every conditional bag of every bag whose
   * transactions agree if and only if the sort never arranges paths that agree so that they do not.
   */
  lemma DependableIff(sort: Sorting)
    requires Rearranges(sort)
    ensures KeepsAgreement(sort) <==>
      forall b, x, freq, minCount: nat :: minCount > 0 && Agree(b) && FreqOk(freq, Project(b, x)) ==> MinesExactly(sort, b, x, freq, minCount)
  {
    hide Rearranges, Agree, FreqOk, Project, FoundOnceEach, Alike, NoDuplicates, RoomFor;
    if KeepsAgreement(sort) {
      forall b, x, freq, minCount: nat | minCount > 0 && Agree(b) && FreqOk(freq, Project(b, x))
        ensures MinesExactly(sort, b, x, freq, minCount)
      {
        ConditionalAgrees(b, x, freq, minCount, sort);
        AgreeingIsFound(MapBag(Project(b, x), Conditioner(freq, minCount, sort)));
      }
    }
    if forall b, x, freq, minCount: nat :: minCount > 0 && Agree(b) && FreqOk(freq, Project(b, x)) ==> MinesExactly(sort, b, x, freq, minCount) {
      forall q: Path, r: Path, freq: map<Item, nat> | NoDuplicates(q) && NoDuplicates(r) && Alike(q, r) && RoomFor(freq, q, r)
        ensures Alike(sort(q, freq), sort(r, freq))
      {
        if q == r {
          AlikeItself(sort(q, freq));
        } else {
          var b, x := Witness(q, r, freq);
          assert MinesExactly(sort, b, x, freq, 1);
          WitnessTells(sort, q, r, freq, b, x);
        }
      }
    }
  }

  // ---- a bag for any two paths and frequencies ---------------------------------------------

  ghost function Singles(keys: set<Item>, need: Item -> nat): Bag {
    if keys == {} then multiset{}
    else var i :| i in keys; Singles(keys - {i}, need) + Copies([i], need(i))
  }

  lemma {:induction false} SinglesFreq(keys: set<Item>, need: Item -> nat, j: Item)
    ensures ItemFreq(Singles(keys, need), j) == if j in keys then need(j) else 0
    decreases |keys|
  {
    hide Sum;
    if keys != {} {
      var i :| i in keys && Singles(keys, need) == Singles(keys - {i}, need) + Copies([i], need(i));
      SinglesFreq(keys - {i}, need, j);
      FreqSingle(Singles(keys - {i}, need), i, need(i), j);
    } else {
      SumPositive(multiset{}, Occurrences(j));
    }
  }

  lemma FreqSingle(b: Bag, i: Item, c: nat, j: Item)
    ensures ItemFreq(b + Copies([i], c), j) == ItemFreq(b, j) + if i == j then c else 0
  {
    hide Sum;
    FreqCopies(b, [i], c, j);
    assert multiset([i])[j] == if i == j then 1 else 0;
  }

  lemma {:induction false} SinglesMembers(keys: set<Item>, need: Item -> nat, t: Path)
    requires t in Singles(keys, need)
    ensures |t| == 1 && t[0] in keys
    decreases |keys|
  {
    var i :| i in keys && Singles(keys, need) == Singles(keys - {i}, need) + Copies([i], need(i));
    if t != [i] {
      assert Copies([i], need(i))[t] == 0;
      SinglesMembers(keys - {i}, need, t);
    }
  }

  ghost function Spare(freq: map<Item, nat>, q: Path, r: Path): Item -> nat {
    (i: Item) => if Get(freq, i) >= multiset(q)[i] + multiset(r)[i] then Get(freq, i) - multiset(q)[i] - multiset(r)[i] else 0
  }

  ghost function Padded(freq: map<Item, nat>, q: Path, r: Path): Bag {
    Singles(freq.Keys, Spare(freq, q, r)) + multiset{q} + multiset{r}
  }

  lemma PaddedFreq(freq: map<Item, nat>, q: Path, r: Path)
    requires RoomFor(freq, q, r)
    ensures FreqOk(freq, Padded(freq, q, r))
  {
    hide Sum, Singles;
    var s := Singles(freq.Keys, Spare(freq, q, r));
    forall i: Item ensures Get(freq, i) == ItemFreq(Padded(freq, q, r), i) {
      SinglesFreq(freq.Keys, Spare(freq, q, r), i);
      SumAdd(s, Occurrences(i), q);
      SumAdd(s + multiset{q}, Occurrences(i), r);
    }
  }

  ghost function Under(x: Item): Path -> Path {
    (t: Path) => t + [x]
  }

  lemma {:induction false} ProjectUnder(p: Bag, x: Item)
    requires forall t :: t in p ==> x !in t
    ensures Project(MapBag(p, Under(x)), x) == p
    decreases |p|
  {
    hide MapBag, Project, Before;
    if p == multiset{} {
      NothingUnder(p, x);
    } else {
      var t :| t in p;
      var rest := p - multiset{t};
      ProjectUnder(rest, x);
      BeforeLast(t, x);
      OneMoreUnder(rest, x, t);
      assert rest + multiset{t} == p;
    }
  }

  lemma OneMoreUnder(p: Bag, x: Item, t: Path)
    requires x in t + [x] && Before(t + [x], x) == t
    ensures Project(MapBag(p + multiset{t}, Under(x)), x) == Project(MapBag(p, Under(x)), x) + multiset{t}
  {
    hide MapBag, Project, Before;
    var u := t + [x];
    MapPick(p + multiset{t}, Under(x), t);
    assert p + multiset{t} - multiset{t} == p;
    var b := MapBag(p, Under(x));
    ProjectPick(b + multiset{u}, x, u);
    assert b + multiset{u} - multiset{u} == b;
  }

  lemma NothingUnder(p: Bag, x: Item)
    requires p == multiset{}
    ensures Project(MapBag(p, Under(x)), x) == p
  {
  }

  lemma {:induction false} BeforeLast(t: Path, x: Item)
    requires x !in t
    ensures x in t + [x] && Before(t + [x], x) == t
  {
    if t != [] {
      BeforeLast(t[1..], x);
      assert (t + [x])[1..] == t[1..] + [x];
    }
    assert (t + [x])[|t|] == x;
  }

  lemma UnderAlike(t: Path, u: Path, x: Item)
    requires NoDuplicates(t) && NoDuplicates(u) && Alike(t, u) && x !in t && x !in u
    ensures NoDuplicates(t + [x]) && Alike(t + [x], u + [x])
  {
    hide StandsAbove;
    forall i, j | StandsAbove(t + [x], i, j) && i in u + [x] && j in u + [x] ensures StandsAbove(u + [x], i, j) {
      AboveUnder(t, x, i, j);
      AboveUnder(u, x, i, j);
      AboveInside(t + [x], i, j);
      if j != x { AboveInside(t, i, j); }
    }
  }

  lemma AboveUnder(t: Path, x: Item, i: Item, j: Item)
    requires NoDuplicates(t) && x !in t
    ensures StandsAbove(t + [x], i, j) <==> if j == x then i in t else StandsAbove(t, i, j)
  {
    if j == x {
      BeforeLast(t, x);
    } else if j in t {
      assert (t + [x])[..|t|] == t;
      AboveInPrefix(t + [x], |t|, i, j);
    }
  }

  lemma SingleAlike(t: Path, u: Path)
    requires |t| == 1 || |u| == 1
    ensures Alike(t, u)
  {
    forall i, j | StandsAbove(t, i, j) && i in u && j in u ensures StandsAbove(u, i, j) {
      AboveInside(t, i, j);
    }
  }

  lemma PaddedAlike(freq: map<Item, nat>, q: Path, r: Path, t: Path, u: Path)
    requires NoDuplicates(q) && NoDuplicates(r) && Alike(q, r) && Alike(r, q)
    requires t in Padded(freq, q, r) && u in Padded(freq, q, r)
    ensures NoDuplicates(t) && NoDuplicates(u) && Alike(t, u)
  {
    hide StandsAbove, Alike, Singles;
    if t != q && t != r { SinglesMembers(freq.Keys, Spare(freq, q, r), t); }
    if u != q && u != r { SinglesMembers(freq.Keys, Spare(freq, q, r), u); }
    if |t| == 1 || |u| == 1 {
      SingleAlike(t, u);
    } else if t == u {
      AlikeItself(t);
    }
  }

  lemma AlikeBack(q: Path, r: Path)
    requires NoDuplicates(q) && NoDuplicates(r) && Alike(q, r)
    ensures Alike(r, q)
  {
    hide StandsAbove, NoDuplicates;
    forall i, j | StandsAbove(r, i, j) && i in q && j in q ensures StandsAbove(q, i, j) {
      AboveInside(r, i, j);
      AboveOneWay(q, i, j);
      AboveOneWay(r, i, j);
    }
  }

  lemma FreshItem(s: set<Item>) returns (x: Item)
    ensures forall i :: i in s ==> i < x
    decreases |s|
  {
    if s == {} {
      x := 1;
    } else {
      var j :| j in s;
      var y := FreshItem(s - {j});
      x := if y > j then y else j + 1;
      forall i | i in s ensures i < x {
        assert i != j ==> i in s - {j};
      }
    }
  }

  /** A bag that agrees, in which q and r stand above x and everything above x has the given frequencies. */
  lemma Witness(q: Path, r: Path, freq: map<Item, nat>) returns (b: Bag, x: Item)
    requires NoDuplicates(q) && NoDuplicates(r) && Alike(q, r) && RoomFor(freq, q, r)
    ensures Project(b, x) == Padded(freq, q, r) && Agree(b) && FreqOk(freq, Project(b, x))
  {
    hide StandsAbove, Alike, NoDuplicates, Singles, Project, MapBag, FreqOk, RoomFor;
    x := FreshItem(freq.Keys + Items(q) + Items(r));
    var p := Padded(freq, q, r);
    b := MapBag(p, Under(x));
    AlikeBack(q, r);
    forall t | t in p ensures x !in t {
      NotAmong(freq, q, r, t, x);
    }
    ProjectUnder(p, x);
    PaddedFreq(freq, q, r);
    forall t, u | t in b && u in b ensures NoDuplicates(t) && Alike(t, u) {
      MapMembers(p, Under(x), t);
      MapMembers(p, Under(x), u);
      var v :| v in p && Under(x)(v) == t;
      var w :| w in p && Under(x)(w) == u;
      PaddedAlike(freq, q, r, v, w);
      UnderAlike(v, w, x);
    }
  }

  lemma NotAmong(freq: map<Item, nat>, q: Path, r: Path, t: Path, x: Item)
    requires t in Padded(freq, q, r) && forall i :: i in freq.Keys + Items(q) + Items(r) ==> i < x
    ensures x !in t
  {
    if t == q || t == r {
      assert forall i :: i in t ==> i in freq.Keys + Items(q) + Items(r);
    } else {
      SinglesMembers(freq.Keys, Spare(freq, q, r), t);
      assert t[0] in freq.Keys + Items(q) + Items(r);
    }
  }

  lemma {:induction false} KeepsAll(q: Path, freq: map<Item, nat>)
    requires forall i :: i in q ==> Get(freq, i) >= 1
    ensures Keep(q, freq, 1) == q
  {
    if q != [] {
      KeepsAll(q[1..], freq);
    }
  }

  lemma RoomForEach(freq: map<Item, nat>, q: Path, r: Path)
    requires RoomFor(freq, q, r)
    ensures Keep(q, freq, 1) == q && Keep(r, freq, 1) == r
  {
    forall i | i in q ensures Get(freq, i) >= 1 { assert i in multiset(q); }
    forall i | i in r ensures Get(freq, i) >= 1 { assert i in multiset(r); }
    KeepsAll(q, freq);
    KeepsAll(r, freq);
  }

  lemma WitnessTells(sort: Sorting, q: Path, r: Path, freq: map<Item, nat>, b: Bag, x: Item)
    requires Rearranges(sort) && RoomFor(freq, q, r) && Project(b, x) == Padded(freq, q, r) && Agree(b)
    requires MinesExactly(sort, b, x, freq, 1)
    ensures Alike(sort(q, freq), sort(r, freq))
  {
    hide StandsAbove, Alike, NoDuplicates, Singles, Project, MapBag, RoomFor, Rearranges, FoundOnceEach, Agree;
    var p, f := Project(b, x), Conditioner(freq, 1, sort);
    var c := MapBag(p, f);
    RoomForEach(freq, q, r);
    forall t | t in c ensures NoDuplicates(t) {
      var v := Conditioned(b, x, f, t);
      ProjectedAlike(b, x, v, v);
      DistinctWhenSorted(v, freq, 1, sort);
    }
    AgreeIff(c);
    MapMembers(p, f, f(q));
    MapMembers(p, f, f(r));
    AgreeMeans(c, f(q), f(r));
  }

  lemma AgreeMeans(b: Bag, t: Path, u: Path)
    requires Agree(b) && t in b && u in b
    ensures Alike(t, u)
  {
  }

  // ---- a sort that is not stable ------------------------------------------------------------

  /** A sort as std::sort may be: it turns one of the paths with equal items round. */
  function UnstableSort(): Sorting {
    (q: Path, freq: map<Item, nat>) =>
      if q == [1, 2, 3] && Get(freq, 1) == Get(freq, 2) >= Get(freq, 3) then [2, 1, 3]
      else SortPath(q, FreqCmp(freq))
  }

  lemma UnstableSortSorts()
    ensures SortsByFreq(UnstableSort())
  {
    hide SortPath, InsertSorted, Sorted;
    forall q: Path, freq: map<Item, nat>
      ensures multiset(UnstableSort()(q, freq)) == multiset(q) && Sorted(UnstableSort()(q, freq), FreqCmp(freq))
    {
      StableSortSorts(q, freq);
      TurnedIsSorted(q, [2, 1, 3], freq);
    }
  }

  lemma TurnedIsSorted(q: Path, r: Path, freq: map<Item, nat>)
    requires r == [2, 1, 3]
    ensures q == [1, 2, 3] ==> multiset(r) == multiset(q)
    ensures Get(freq, 1) == Get(freq, 2) >= Get(freq, 3) ==> Sorted(r, FreqCmp(freq))
  {
  }

  /** With it, two transactions in one order give a conditional tree in which a pair is found under both its items. */
  lemma UnstableSortFindsTwice(b: Bag, freq: map<Item, nat>, c: Bag)
    requires b == multiset{[1, 2, 9], [1, 2, 3, 9]} && FreqOk(freq, Project(b, 9))
    requires c == MapBag(Project(b, 9), Conditioner(freq, 1, UnstableSort()))
    ensures Agree(b) && FoundUnder(c, 1, 1, {1, 2}) && FoundUnder(c, 1, 2, {1, 2})
  {
    hide Sum, MapBag, Project, StandsAbove, Agree, FoundUnder, FreqOk, Keep;
    InIdOrder(b);
    ProjectedPair(b);
    PairFreq(b, freq);
    var q: Path, r: Path, f := [1, 2], [1, 2, 3], Conditioner(freq, 1, UnstableSort());
    KeepsAll(q, freq);
    KeepsAll(r, freq);
    MapMembers(Project(b, 9), f, f(q));
    MapMembers(Project(b, 9), f, f(r));
    PairSorted(freq);
    TurnedRound();
    PairFound(c, [1, 2], 1, 2, {1, 2});
    PairFound(c, [2, 1, 3], 2, 1, {1, 2});
  }

  lemma InIdOrder(b: Bag)
    requires b == multiset{[1, 2, 9], [1, 2, 3, 9]}
    ensures Agree(b)
  {
    AppearanceOrderIsStrictTotal();
    assert Consistent(b, AppearanceOrder());
    ConsistentAgrees(b, AppearanceOrder());
  }

  lemma BeforeNine()
    ensures Before([1, 2, 9], 9) == [1, 2] && Before([1, 2, 3, 9], 9) == [1, 2, 3]
  {
    BeforeUnique([1, 2, 9], 9, 2);
    BeforeUnique([1, 2, 3, 9], 9, 3);
  }

  lemma ProjectedPair(b: Bag)
    requires b == multiset{[1, 2, 9], [1, 2, 3, 9]}
    ensures Project(b, 9) == multiset{[1, 2], [1, 2, 3]}
  {
    hide Before;
    BeforeNine();
    ProjectTwo([1, 2, 9], [1, 2, 3, 9], 9, [1, 2], [1, 2, 3]);
  }

  lemma ProjectTwo(s: Path, t: Path, x: Item, p: Path, q: Path)
    requires x in s && x in t && Before(s, x) == p && Before(t, x) == q
    ensures Project(multiset{s, t}, x) == multiset{p, q}
  {
    hide Project, Before;
    ProjectPick(multiset{s, t}, x, s);
    assert multiset{s, t} - multiset{s} == multiset{t};
    ProjectPick(multiset{t}, x, t);
    assert multiset{t} - multiset{t} == multiset{};
    ProjectNone(x);
  }

  lemma ProjectNone(x: Item)
    ensures Project(multiset{}, x) == multiset{}
  {
  }

  lemma PairFreq(b: Bag, freq: map<Item, nat>)
    requires Project(b, 9) == multiset{[1, 2], [1, 2, 3]} && FreqOk(freq, Project(b, 9))
    ensures Get(freq, 1) == Get(freq, 2) == 2 && Get(freq, 3) == 1
  {
    hide Sum;
    var q: Path, r: Path := [1, 2], [1, 2, 3];
    forall i: Item | i <= 3 ensures Get(freq, i) == multiset(q)[i] + multiset(r)[i] {
      SumTwo(q, r, Occurrences(i));
      assert Get(freq, i) == ItemFreq(Project(b, 9), i);
    }
    assert multiset(q)[1] == multiset(q)[2] == 1 && multiset(q)[3] == 0;
    assert multiset(r)[1] == multiset(r)[2] == multiset(r)[3] == 1;
  }

  lemma PairSorted(freq: map<Item, nat>)
    requires Get(freq, 1) == Get(freq, 2) == 2
    ensures SortPath([1, 2], FreqCmp(freq)) == [1, 2]
  {
    var q: Path, less := [1, 2], FreqCmp(freq);
    assert q[1..] == [2] && q[1..][1..] == [];
    assert SortPath([2], less) == [2];
    assert InsertSorted(1, [2], less) == [1] + [2];
  }

  lemma TurnedRound()
    ensures StandsAbove([1, 2], 1, 2) && StandsAbove([2, 1, 3], 2, 1)
  {
    AboveAt([1, 2], 0, 1);
    AboveAt([2, 1, 3], 0, 1);
  }
}
