/** Item ranks and their distance from the ranks at the last sort (src/SpoTreeFunctor.h). */
module SpoRanking {
  import opened Orders

  function Distance(a: nat, b: nat): nat {
    if a > b then a - b else b - a
  }

  ghost function Total(s: seq<nat>): nat {
    if s == [] then 0 else Total(s[..|s| - 1]) + s[|s| - 1]
  }

  lemma {:induction false} TotalUpdate(s: seq<nat>, k: nat, v: nat)
    requires k < |s|
    ensures Total(s[k := v]) + s[k] == Total(s) + v
  {
    var t, n := s[k := v], |s| - 1;
    if k == n {
      assert t[..n] == s[..n];
    } else {
      TotalUpdate(s[..n], k, v);
      assert t[..n] == s[..n][k := v];
    }
  }

  lemma TotalAppend(s: seq<nat>, v: nat)
    ensures Total(s + [v]) == Total(s) + v
  {
    assert (s + [v])[..|s|] == s;
  }

  lemma {:induction false} TotalAtLeast(s: seq<nat>, j: nat, k: nat)
    requires j < k < |s|
    ensures Total(s) >= s[j] + s[k]
  {
    var n := |s| - 1;
    if k < n {
      TotalAtLeast(s[..n], j, k);
    } else {
      TotalAtLeastOne(s[..n], j);
    }
  }

  lemma {:induction false} TotalAtLeastOne(s: seq<nat>, j: nat)
    requires j < |s|
    ensures Total(s) >= s[j]
  {
    if j < |s| - 1 { TotalAtLeastOne(s[..|s| - 1], j); }
  }

  // ---- the footrule distance of two permutations -----------------------------------------

  ghost predicate Permutation(p: seq<nat>) {
    && (forall k :: 0 <= k < |p| ==> p[k] < |p|)
    && (forall j, k :: 0 <= j < k < |p| ==> p[j] != p[k])
  }

  ghost function Upto(n: nat): seq<nat> {
    seq(n, k requires 0 <= k < n => k)
  }

  ghost function Mapped(p: seq<nat>, f: nat -> nat): seq<nat> {
    seq(|p|, k requires 0 <= k < |p| => f(p[k]))
  }

  /** Some position holds the largest rank. */
  lemma LargestIsThere(p: seq<nat>) returns (j: nat)
    requires Permutation(p) && p != []
    ensures j < |p| && p[j] == |p| - 1
  {
    var n := |p|;
    if forall k :: 0 <= k < n ==> p[k] != n - 1 {
      TooFewRanks(p, n - 1);
      assert false;
    }
    j :| 0 <= j < n && p[j] == n - 1;
  }

  lemma {:induction false} TooFewRanks(p: seq<nat>, bound: nat)
    requires forall k :: 0 <= k < |p| ==> p[k] < bound
    requires forall j, k :: 0 <= j < k < |p| ==> p[j] != p[k]
    ensures |p| <= bound
    decreases bound
  {
    if bound == 0 {
      var first := if p == [] then 0 else p[0];
      assert p != [] ==> first < bound;
    } else if j :| 0 <= j < |p| && p[j] == bound - 1 {
      TooFewRanks(p[..j] + p[j + 1..], bound - 1);
    } else {
      TooFewRanks(p, bound - 1);
    }
  }

  /** Summing over a permutation is summing over 0..n-1. */
  lemma {:induction false} TotalOfPermutation(p: seq<nat>, f: nat -> nat)
    requires Permutation(p)
    ensures Total(Mapped(p, f)) == Total(Mapped(Upto(|p|), f))
    decreases |p|
  {
    hide Permutation, Mapped, Upto, Total, Filled;
    if p == [] {
      MappedNone(p, f);
    } else {
      var n := |p| - 1;
      var j := LargestIsThere(p);
      var q := Filled(p, j);
      FilledIsPermutation(p, j);
      TotalOfPermutation(q, f);
      MappedLast(p, f);
      MappedUpto(n, f);
      FilledTotal(p, j, f);
    }
  }

  lemma MappedNone(p: seq<nat>, f: nat -> nat)
    requires p == []
    ensures Total(Mapped(p, f)) == Total(Mapped(Upto(|p|), f))
  {
  }

  /** p without its largest rank, at j, whose place the last entry takes. */
  ghost function Filled(p: seq<nat>, j: nat): seq<nat>
    requires j < |p|
  {
    var n := |p| - 1;
    if j == n then p[..n] else p[..n][j := p[n]]
  }

  lemma FilledIsPermutation(p: seq<nat>, j: nat)
    requires Permutation(p) && j < |p| && p[j] == |p| - 1
    ensures Permutation(Filled(p, j)) && |Filled(p, j)| == |p| - 1
  {
  }

  lemma MappedLast(p: seq<nat>, f: nat -> nat)
    requires p != []
    ensures Total(Mapped(p, f)) == Total(Mapped(p[..|p| - 1], f)) + f(p[|p| - 1])
  {
    var n := |p| - 1;
    assert Mapped(p, f)[..n] == Mapped(p[..n], f);
  }

  lemma MappedUpto(n: nat, f: nat -> nat)
    ensures |Upto(n)| == n && Total(Mapped(Upto(n + 1), f)) == Total(Mapped(Upto(n), f)) + f(n)
  {
    assert Upto(n + 1)[..n] == Upto(n);
    MappedLast(Upto(n + 1), f);
  }

  lemma FilledTotal(p: seq<nat>, j: nat, f: nat -> nat)
    requires j < |p|
    ensures Total(Mapped(Filled(p, j), f)) + f(p[j]) == Total(Mapped(p[..|p| - 1], f)) + f(p[|p| - 1])
  {
    hide Total;
    var n := |p| - 1;
    if j != n {
      var m := Mapped(p[..n], f);
      assert Mapped(Filled(p, j), f) == m[j := f(p[n])];
      TotalUpdate(m, j, f(p[n]));
    }
  }

  ghost function Distances(p: seq<nat>): seq<nat> {
    seq(|p|, k requires 0 <= k < |p| => Distance(k, p[k]))
  }

  /** A new last entry at its own rank adds no distance. */
  lemma DistancesAppend(p: seq<nat>)
    ensures Total(Distances(p + [|p|])) == Total(Distances(p))
  {
    assert Distances(p + [|p|]) == Distances(p) + [0];
    TotalAppend(Distances(p), 0);
  }

  function Centred(n: nat): nat -> nat {
    (k: nat) => Distance(2 * k + 1, n)
  }

  /** Twice a distance is at most what the two ranks are off the centre together. */
  lemma {:induction false} DistancesOffCentre(p: seq<nat>, n: nat, m: nat)
    requires m <= |p|
    ensures 2 * Total(Distances(p)[..m]) <= Total(Mapped(Upto(|p|), Centred(n))[..m]) + Total(Mapped(p, Centred(n))[..m])
  {
    if m > 0 {
      hide Total;
      DistancesOffCentre(p, n, m - 1);
      TotalOneMore(Distances(p), m);
      TotalOneMore(Mapped(Upto(|p|), Centred(n)), m);
      TotalOneMore(Mapped(p, Centred(n)), m);
    }
  }

  lemma TotalOneMore(s: seq<nat>, m: nat)
    requires 0 < m <= |s|
    ensures Total(s[..m]) == Total(s[..m - 1]) + s[m - 1]
  {
    assert s[..m][..m - 1] == s[..m - 1];
  }

  /** The ranks 0..n-1 are off their centre by floor(n*n/2) halves together. */
  lemma {:induction false} TotalCentred(n: nat)
    ensures Total(Mapped(Upto(n), Centred(n))) == n * n / 2
  {
    if n >= 2 {
      hide Total, Mapped, Upto;
      var t := Mapped(Upto(n - 2), Centred(n - 2));
      TotalCentred(n - 2);
      CentredEnds(n);
      TotalAppend([n - 1] + t, n - 1);
      TotalPrepend(n - 1, t);
      SquareStep(n);
    } else if n == 1 {
      assert Mapped(Upto(1), Centred(1)) == [0];
    }
  }

  lemma CentredEnds(n: nat)
    requires n >= 2
    ensures Mapped(Upto(n), Centred(n)) == [n - 1] + Mapped(Upto(n - 2), Centred(n - 2)) + [n - 1]
  {
  }

  lemma SquareStep(n: nat)
    requires n >= 2
    ensures n * n / 2 == (n - 2) * (n - 2) / 2 + 2 * (n - 1)
  {
    var m := n - 2;
    assert n * n == m * m + 4 * m + 4;
  }

  lemma {:induction false} TotalPrepend(v: nat, s: seq<nat>)
    ensures Total([v] + s) == v + Total(s)
  {
    if s == [] {
      assert [v] + s == [v];
    } else {
      TotalPrepend(v, s[..|s| - 1]);
      assert ([v] + s)[..|s|] == [v] + s[..|s| - 1];
    }
  }

  /** The distance of a permutation from the identity is even ... */
  lemma {:induction false} DistanceIsEven(p: seq<nat>)
    requires Permutation(p)
    ensures Total(Distances(p)) % 2 == 0
  {
    hide Total;
    var id := (k: nat) => k;
    TotalOfPermutation(p, id);
    assert Mapped(Upto(|p|), id) == Upto(|p|) && Mapped(p, id) == p;
    ParityUpTo(p, |p|);
    assert Distances(p)[..|p|] == Distances(p) && Upto(|p|)[..|p|] == Upto(|p|) && p[..|p|] == p;
  }

  lemma {:induction false} ParityUpTo(p: seq<nat>, m: nat)
    requires m <= |p|
    ensures (Total(Distances(p)[..m]) + Total(Upto(|p|)[..m]) + Total(p[..m])) % 2 == 0
  {
    if m > 0 {
      hide Total;
      ParityUpTo(p, m - 1);
      var a, b := Distances(p), Upto(|p|);
      TotalOneMore(a, m);
      TotalOneMore(b, m);
      TotalOneMore(p, m);
      DistanceParity(m - 1, p[m - 1]);
      EvenSum(Total(a[..m - 1]), Total(b[..m - 1]), Total(p[..m - 1]), a[m - 1], b[m - 1], p[m - 1]);
    }
  }

  lemma DistanceParity(a: nat, b: nat)
    ensures (Distance(a, b) + a + b) % 2 == 0
  {
    assert Distance(a, b) + a + b == if a > b then 2 * a else 2 * b;
  }

  lemma EvenSum(x: nat, y: nat, z: nat, a: nat, b: nat, c: nat)
    requires (x + y + z) % 2 == 0 && (a + b + c) % 2 == 0
    ensures ((x + a) + (y + b) + (z + c)) % 2 == 0
  {
  }

  /** ... and at most floor(n*n/2). */
  lemma DistanceIsBounded(p: seq<nat>)
    requires Permutation(p)
    ensures Total(Distances(p)) <= |p| * |p| / 2
  {
    var n := |p|;
    TotalOfPermutation(p, Centred(n));
    TotalCentred(n);
    DistancesOffCentre(p, n, n);
    assert Distances(p)[..n] == Distances(p);
    assert Mapped(p, Centred(n))[..n] == Mapped(p, Centred(n));
    assert Mapped(Upto(n), Centred(n))[..n] == Mapped(Upto(n), Centred(n));
  }

  // ---- the ranks -------------------------------------------------------------------------

  class SpoRanks {
    var diffSum: nat
    var ranking: seq<Item>
    var lookup: map<Item, nat>
    var storedRank: map<Item, nat>

    /** The stored rank of each item, in ranking order. */
    ghost function Stored(): seq<nat>
      requires forall k :: 0 <= k < |ranking| ==> ranking[k] in storedRank
      reads this
    {
      seq(|ranking|, k requires 0 <= k < |ranking| reads this
                       requires ranking[k] in storedRank => storedRank[ranking[k]])
    }

    ghost predicate Ranked()
      reads this
    {
      && (forall k :: 0 <= k < |ranking| ==> ranking[k] in lookup && lookup[ranking[k]] == k)
      && (forall i :: i in lookup ==> lookup[i] < |ranking| && ranking[lookup[i]] == i)
      && storedRank.Keys == lookup.Keys
    }

    ghost predicate Valid()
      reads this
    {
      Ranked() && Permutation(Stored()) && diffSum == Total(Distances(Stored()))
    }

    constructor ()
      ensures Valid() && ranking == [] && diffSum == 0
    {
      diffSum, ranking, lookup, storedRank := 0, [], map[], map[];
    }

    function Delta(item: Item): nat
      requires item in lookup && item in storedRank
      reads this
    {
      Distance(lookup[item], storedRank[item])
    }

    /** An item not seen before comes last, and starts at distance 0. */
    method AddNew(item: Item)
      requires Valid() && item !in lookup
      modifies this
      ensures Valid() && ranking == old(ranking) + [item] && diffSum == old(diffSum)
      ensures lookup.Keys == old(lookup.Keys) + {item}
      ensures storedRank == old(storedRank)[item := |old(ranking)|]
    {
      hide Total, Distances;
      var index := |ranking|;
      ranking := ranking + [item];
      lookup := lookup[item := index];
      storedRank := storedRank[item := index];
      assert Stored() == old(Stored()) + [index];
      DistancesAppend(old(Stored()));
    }

    method Exchange(r: nat)
      requires Ranked() && 0 < r < |ranking|
      modifies `ranking, `lookup
      ensures Ranked() && lookup.Keys == old(lookup.Keys)
      ensures ranking == Swapped(old(ranking), r)
      ensures Stored() == Swapped(old(Stored()), r)
      ensures lookup[ranking[r]] == r && lookup[ranking[r - 1]] == r - 1
    {
      var item, prev := ranking[r], ranking[r - 1];
      ranking := ranking[r - 1 := item];
      ranking := ranking[r := prev];
      lookup := lookup[prev := r];
      lookup := lookup[item := r - 1];
    }

    /** The item at rank r changes places with the one before it; the sum of distances follows. */
    method SwapUp(r: nat)
      requires Valid() && 0 < r < |ranking|
      modifies `ranking, `lookup, `diffSum
      ensures Valid() && lookup.Keys == old(lookup.Keys)
      ensures ranking == Swapped(old(ranking), r)
    {
      hide Permutation, Total, Distances;
      ghost var before := Stored();
      var item, prev := ranking[r], ranking[r - 1];
      assert storedRank[item] == before[r] && storedRank[prev] == before[r - 1];
      SwapDistances(before, r);
      diffSum := diffSum - Delta(item);
      diffSum := diffSum - Delta(prev);
      Exchange(r);
      assert Stored() == Swapped(before, r);
      diffSum := diffSum + Delta(item);
      diffSum := diffSum + Delta(prev);
      assert Stored() == Swapped(before, r);
    }

    /** The inner loop of Adjust: the item overtakes everyone it belongs before, one by one. */
    method BubbleUp(item: Item, freq: map<Item, nat>)
      requires Valid() && item in lookup
      modifies `ranking, `lookup, `diffSum
      ensures Valid() && lookup.Keys == old(lookup.Keys)
      ensures var r, r0 := lookup[item], old(lookup[item]);
        && r <= r0 < |old(ranking)|
        && ranking == MovedUp(old(ranking), r0, r)
        && (forall k :: r <= k < r0 ==> Overtakes(freq, item, old(ranking)[k]))
        && (r > 0 ==> !Overtakes(freq, item, ranking[r - 1]))
    {
      hide Permutation, Total, Distances, Overtakes, MovedUp, Swapped;
      var r: int := lookup[item];
      ghost var r0, ranks: seq<Item> := r, ranking;
      MovedUpParts(ranks, r, r);
      while r > 0
        invariant Valid() && lookup.Keys == old(lookup.Keys) && 0 <= r <= r0 < |ranks|
        invariant ranking == MovedUp(ranks, r0, r)
        invariant item in lookup && lookup[item] == r && ranking[r] == item
        invariant forall k :: r <= k < r0 ==> Overtakes(freq, item, ranks[k])
      {
        MovedUpParts(ranks, r0, r);
        if !Overtakes(freq, item, ranking[r - 1]) {
          break;
        }
        SwapUp(r);
        r := r - 1;
        assert ranking[r] == item;
      }
    }

    method AdjustItem(item: Item, freq: map<Item, nat>)
      requires Valid()
      modifies this
      ensures Valid() && lookup.Keys == old(lookup.Keys) + {item}
      ensures KeepsRanks(old(storedRank), storedRank)
      ensures lookup[item] > 0 ==> !Overtakes(freq, item, ranking[lookup[item] - 1])
    {
      hide Permutation, Total, Distances, Overtakes, MovedUp;
      if item !in lookup {
        AddNew(item);
      }
      BubbleUp(item, freq);
    }

    /** An item of a transaction just inserted may have to move up. */
    method Adjust(txn: Path, freq: map<Item, nat>)
      requires Valid()
      modifies this
      ensures Valid() && lookup.Keys == old(lookup.Keys) + Items(txn)
      ensures KeepsRanks(old(storedRank), storedRank)
      ensures txn != [] ==>
        var item := txn[|txn| - 1];
        item in lookup && (0 < lookup[item] <= |ranking| ==> !Overtakes(freq, item, ranking[lookup[item] - 1]))
    {
      hide Ranked, Permutation, Total, Distances, Overtakes, Items;
      ItemsNone(txn);
      for i := 0 to |txn|
        invariant Valid() && lookup.Keys == old(lookup.Keys) + Items(txn[..i])
        invariant KeepsRanks(old(storedRank), storedRank)
        invariant i > 0 ==>
          var item := txn[i - 1];
          item in lookup && (0 < lookup[item] <= |ranking| ==> !Overtakes(freq, item, ranking[lookup[item] - 1]))
      {
        ItemsStep(txn, i);
        AdjustItem(txn[i], freq);
      }
      assert txn[..|txn|] == txn;
    }

    method ResetEntropy()
      requires Valid()
      modifies `storedRank, `diffSum
      ensures Valid() && diffSum == 0 && storedRank == lookup
    {
      for i := 0 to |ranking|
        invariant Ranked()
        invariant forall k :: 0 <= k < i ==> storedRank[ranking[k]] == k
      {
        storedRank := storedRank[ranking[i] := i];
      }
      diffSum := 0;
      assert forall i :: i in lookup ==> ranking[lookup[i]] == i;
      NoDistance(Stored());
    }

    /** diffSum over its largest conceivable value; None is the NaN of 0/0. */
    function GetRankEntropy(): (e: Option)
      requires Valid()
      reads this
      ensures e.None? <==> |ranking| < 2
      ensures e.Some? ==> 0.0 <= e.value <= 1.0
    {
      var n := |ranking|;
      var most := n * (n - 1) + n * n / 4;
      assert n >= 2 ==> most > 0 && n * n / 2 <= most by {
        MostIsEnough(n);
      }
      assert diffSum <= n * n / 2 by {
        DistanceIsBounded(Stored());
      }
      if most == 0 then None
      else
        FractionInUnit(diffSum, most);
        Some(diffSum as real / most as real)
    }
  }

  /** Ranks were only added. */
  ghost predicate KeepsRanks(before: map<Item, nat>, after: map<Item, nat>) {
    forall i :: i in before ==> i in after && after[i] == before[i]
  }

  datatype Option = None | Some(value: real)

  /** The item belongs before prev. */
  predicate Overtakes(freq: map<Item, nat>, item: Item, prev: Item) {
    var count, prevCount := Get(freq, item), Get(freq, prev);
    !(prevCount > count) && !(prevCount == count && prev < item)
  }

  lemma FractionInUnit(a: nat, b: nat)
    requires a <= b && b > 0
    ensures 0.0 <= a as real / b as real <= 1.0
  {
    var x, y := a as real, b as real;
    var z := x / y;
    assert z * y == x;
    assert z > 1.0 ==> z * y > 1.0 * y;
    assert z < 0.0 ==> z * y < 0.0 * y;
  }

  lemma MostIsEnough(n: nat)
    ensures n >= 2 ==> n * (n - 1) + n * n / 4 > 0 && n * n / 2 <= n * (n - 1) + n * n / 4
    ensures n < 2 ==> n * (n - 1) + n * n / 4 == 0
  {
    if n >= 2 {
      TwiceAtMostSquare(n);
      HalfIsEnough(n, n * n, n * (n - 1));
    } else {
      assert n == 0 || n == 1;
    }
  }

  lemma TwiceAtMostSquare(n: nat)
    requires n >= 2
    ensures n * n >= 2 * n && n * (n - 1) == n * n - n
  {
  }

  lemma HalfIsEnough(n: nat, square: nat, pairs: nat)
    requires n >= 2 && square >= 2 * n && pairs == square - n
    ensures pairs + square / 4 > 0 && square / 2 <= pairs + square / 4
  {
  }

  lemma {:induction false} NoDistance(p: seq<nat>)
    requires forall k :: 0 <= k < |p| ==> p[k] == k
    ensures Permutation(p) && Total(Distances(p)) == 0
  {
    if p != [] {
      var n := |p| - 1;
      NoDistance(p[..n]);
      assert Distances(p)[..n] == Distances(p[..n]);
    }
  }

  function Swapped<T>(p: seq<T>, r: nat): seq<T>
    requires 0 < r < |p|
  {
    p[r - 1 := p[r]][r := p[r - 1]]
  }

  /** The entry at `from` moved to `to`, those between them moved down by one. */
  function MovedUp<T>(s: seq<T>, from: nat, to: nat): seq<T>
    requires to <= from < |s|
  {
    s[..to] + [s[from]] + s[to..from] + s[from + 1..]
  }

  lemma MovedUpParts<T>(s: seq<T>, from: nat, to: nat)
    requires to <= from < |s|
    ensures |MovedUp(s, from, to)| == |s| && MovedUp(s, from, to)[to] == s[from]
    ensures MovedUp(s, from, from) == s
    ensures to > 0 ==> MovedUp(s, from, to)[to - 1] == s[to - 1]
    ensures to > 0 ==> Swapped(MovedUp(s, from, to), to) == MovedUp(s, from, to - 1)
    ensures to > 0 ==> |MovedUp(s, from, to - 1)| == |s| && MovedUp(s, from, to - 1)[to - 1] == s[from]
  {
    if to > 0 {
      assert s[to - 1..from] == [s[to - 1]] + s[to..from];
    }
  }

  lemma SwapDistances(p: seq<nat>, r: nat)
    requires Permutation(p) && 0 < r < |p|
    ensures Permutation(Swapped(p, r))
    ensures Total(Distances(p)) >= Distance(r, p[r]) + Distance(r - 1, p[r - 1])
    ensures Total(Distances(Swapped(p, r))) ==
      Total(Distances(p)) - Distance(r, p[r]) - Distance(r - 1, p[r - 1]) + Distance(r - 1, p[r]) + Distance(r, p[r - 1])
  {
    hide Distances, Distance, Permutation, Swapped, Total;
    var d, x, y := Distances(p), Distance(r - 1, p[r]), Distance(r, p[r - 1]);
    SwappedDistances(p, r);
    TotalAtLeast(d, r - 1, r);
    TotalUpdate(d, r - 1, x);
    TotalUpdate(d[r - 1 := x], r, y);
  }

  lemma SwappedDistances(p: seq<nat>, r: nat)
    requires Permutation(p) && 0 < r < |p|
    ensures Permutation(Swapped(p, r))
    ensures var d := Distances(p);
      && |d| == |p| && d[r - 1] == Distance(r - 1, p[r - 1]) && d[r] == Distance(r, p[r])
      && Distances(Swapped(p, r)) == d[r - 1 := Distance(r - 1, p[r])][r := Distance(r, p[r - 1])]
  {
    hide Distance;
  }
}
