/** Lists of patterns that write each itemset of a family exactly once. */
module Patterns {
  import opened Orders
  import opened Bags
  import opened Projection

  type Family = set<Item> -> bool

  /** rs writes every itemset of the family once, and nothing else. */
  ghost predicate Enumerates(rs: seq<Path>, family: Family) {
    && (forall k :: 0 <= k < |rs| ==> NoDuplicates(rs[k]) && family(Items(rs[k])))
    && (forall s :: family(s) ==> Writes(rs, s))
    && (forall j, k :: 0 <= j < k < |rs| ==> Items(rs[j]) != Items(rs[k]))
  }

  ghost predicate Writes(rs: seq<Path>, s: set<Item>) {
    exists k :: 0 <= k < |rs| && Items(rs[k]) == s
  }

  function Prepend(p: Path, rs: seq<Path>): (out: seq<Path>)
    ensures |out| == |rs| && forall k :: 0 <= k < |rs| ==> out[k] == p + rs[k]
  {
    if rs == [] then [] else [p + rs[0]] + Prepend(p, rs[1..])
  }

  lemma EnumeratesNothing(family: Family)
    requires forall s :: !family(s)
    ensures Enumerates([], family)
  {
  }

  lemma EnumeratesSame(rs: seq<Path>, family: Family, same: Family)
    requires Enumerates(rs, family) && forall s :: family(s) <==> same(s)
    ensures Enumerates(rs, same)
  {
  }

  lemma EnumeratesOne(x: Item, family: Family)
    requires forall s :: family(s) <==> s == {x}
    ensures Enumerates([[x]], family)
  {
    assert Items([x]) == {x};
    forall s | family(s) ensures Writes([[x]], s) {
      assert Items([[x]][0]) == s;
    }
  }

  lemma EnumeratesUnion(rs: seq<Path>, one: Family, more: seq<Path>, other: Family, both: Family)
    requires Enumerates(rs, one) && Enumerates(more, other)
    requires forall s :: both(s) <==> one(s) || other(s)
    requires forall s :: !(one(s) && other(s))
    ensures Enumerates(rs + more, both)
  {
    var all := rs + more;
    forall s | both(s) ensures Writes(all, s) {
      if one(s) {
        var k :| 0 <= k < |rs| && Items(rs[k]) == s;
        assert Items(all[k]) == s;
      } else {
        var k :| 0 <= k < |more| && Items(more[k]) == s;
        assert Items(all[|rs| + k]) == s;
      }
    }
    forall k | 0 <= k < |all| ensures NoDuplicates(all[k]) && both(Items(all[k])) {
      assert all[k] == if k < |rs| then rs[k] else more[k - |rs|];
    }
    forall j, k | 0 <= j < k < |all| ensures Items(all[j]) != Items(all[k]) {
      if k < |rs| {
        assert all[j] == rs[j] && all[k] == rs[k];
      } else if j < |rs| {
        assert one(Items(rs[j])) && other(Items(more[k - |rs|]));
      } else {
        assert all[j] == more[j - |rs|] && all[k] == more[k - |rs|];
      }
    }
  }

  lemma ItemsPrepend(x: Item, r: Path)
    ensures Items([x] + r) == {x} + Items(r)
    ensures x !in r && NoDuplicates(r) ==> NoDuplicates([x] + r)
  {
  }

  /** Putting x in front of every pattern of a family that does not know x. */
  lemma EnumeratesPrepend(x: Item, rs: seq<Path>, family: Family, longer: Family)
    requires Enumerates(rs, family) && forall s :: family(s) ==> x !in s
    requires forall s :: longer(s) <==> x in s && family(s - {x})
    ensures Enumerates(Prepend([x], rs), longer)
  {
    hide NoDuplicates, Items, Prepend;
    var out := Prepend([x], rs);
    PrependedItems(x, rs, family);
    forall s | longer(s) ensures Writes(out, s) {
      assert Writes(rs, s - {x});
      var k :| 0 <= k < |rs| && Items(rs[k]) == s - {x};
      assert Items(out[k]) == s;
    }
  }

  lemma PrependedItems(x: Item, rs: seq<Path>, family: Family)
    requires Enumerates(rs, family) && forall s :: family(s) ==> x !in s
    ensures var out := Prepend([x], rs);
      && (forall k :: 0 <= k < |out| ==>
           NoDuplicates(out[k]) && x in Items(out[k]) && Items(out[k]) - {x} == Items(rs[k]) && Items(out[k]) == Items(rs[k]) + {x})
      && (forall j, k :: 0 <= j < k < |out| ==> Items(out[j]) != Items(out[k]))
  {
    hide NoDuplicates;
    var out := Prepend([x], rs);
    forall k | 0 <= k < |rs|
      ensures NoDuplicates(out[k]) && x in Items(out[k]) && Items(out[k]) - {x} == Items(rs[k]) && Items(out[k]) == Items(rs[k]) + {x}
    {
      assert family(Items(rs[k]));
      assert x !in rs[k];
      ItemsPrepend(x, rs[k]);
    }
  }

  lemma PrependTwice(p: Path, x: Item, rs: seq<Path>)
    ensures Prepend(p + [x], rs) == Prepend(p, Prepend([x], rs))
  {
    forall k | 0 <= k < |rs| ensures p + [x] + rs[k] == p + ([x] + rs[k]) {}
  }

  lemma PrependConcat(p: Path, rs: seq<Path>, more: seq<Path>)
    ensures Prepend(p, rs + more) == Prepend(p, rs) + Prepend(p, more)
  {
  }

  // ---- families --------------------------------------------------------------------------

  ghost function FrequentFamily(b: Bag, minCount: nat): Family {
    (s: set<Item>) => Frequent(b, minCount, s)
  }

  /** All non-empty sub-paths of a path. */
  ghost function SubsetFamily(c: Path): Family {
    (s: set<Item>) => s != {} && s <= Items(c)
  }

  /** The itemsets that mining finds under item x. */
  ghost function DeepestFamily(b: Bag, minCount: nat, x: Item): Family {
    (s: set<Item>) => FoundUnder(b, minCount, x, s)
  }

  /** The itemsets that mining finds under one of the given items. */
  ghost function DoneFamily(b: Bag, minCount: nat, done: set<Item>): Family {
    (s: set<Item>) => exists x :: x in done && FoundUnder(b, minCount, x, s)
  }

  lemma FoundOnce(b: Bag, minCount: nat, x: Item, y: Item, s: set<Item>)
    requires Agree(b) && minCount > 0 && FoundUnder(b, minCount, x, s) && FoundUnder(b, minCount, y, s)
    ensures x == y
  {
    FoundIsFrequent(b, minCount, x, s);
    var z := DeepestItem(b, s);
  }

  /** With x's patterns added, one more deepest item is done. */
  lemma DoneWith(rs: seq<Path>, more: seq<Path>, b: Bag, minCount: nat, done: set<Item>, x: Item)
    requires Agree(b) && minCount > 0 && x !in done
    requires Enumerates(rs, DoneFamily(b, minCount, done))
    requires Enumerates(more, DeepestFamily(b, minCount, x))
    ensures Enumerates(rs + more, DoneFamily(b, minCount, done + {x}))
  {
    hide FoundUnder, Agree, Enumerates;
    var one, other, both := DoneFamily(b, minCount, done), DeepestFamily(b, minCount, x), DoneFamily(b, minCount, done + {x});
    forall s ensures !(one(s) && other(s)) {
      if one(s) && other(s) {
        var y :| y in done && FoundUnder(b, minCount, y, s);
        FoundOnce(b, minCount, x, y, s);
      }
    }
    forall s ensures both(s) <==> one(s) || other(s) {
      if one(s) {
        var y :| y in done && FoundUnder(b, minCount, y, s);
        assert y in done + {x};
      }
      if other(s) {
        assert x in done + {x};
      }
    }
    EnumeratesUnion(rs, one, more, other, both);
  }

  /** Once all items of the bag are done, all frequent itemsets are. */
  lemma DoneWithAll(rs: seq<Path>, b: Bag, minCount: nat, done: set<Item>)
    requires Agree(b) && minCount > 0
    requires forall i: Item :: ItemFreq(b, i) > 0 ==> i in done
    requires Enumerates(rs, DoneFamily(b, minCount, done))
    ensures Enumerates(rs, FrequentFamily(b, minCount))
  {
    hide Agree, Enumerates;
    forall s ensures DoneFamily(b, minCount, done)(s) <==> FrequentFamily(b, minCount)(s) {
      if Frequent(b, minCount, s) {
        var x := DeepestItem(b, s);
        FreqAtLeastSupport(b, s, x);
        assert x in done && FoundUnder(b, minCount, x, s);
      }
      if x :| x in done && FoundUnder(b, minCount, x, s) {
        FoundIsFrequent(b, minCount, x, s);
      }
    }
    EnumeratesSame(rs, DoneFamily(b, minCount, done), FrequentFamily(b, minCount));
  }

  lemma InfrequentItem(b: Bag, minCount: nat, x: Item)
    requires ItemFreq(b, x) < minCount
    ensures Enumerates([], DeepestFamily(b, minCount, x))
  {
    forall s ensures !DeepestFamily(b, minCount, x)(s) {
      if FoundUnder(b, minCount, x, s) {
        FoundIsFrequent(b, minCount, x, s);
        FreqAtLeastSupport(b, s, x);
      }
    }
    EnumeratesNothing(DeepestFamily(b, minCount, x));
  }

  /** The patterns of one frequent item: itself, and what its conditional bag has, each with x in front. */
  lemma ConditionalPatterns(b: Bag, minCount: nat, x: Item, freq: map<Item, nat>, sort: Sorting, rs: seq<Path>)
    requires Rearranges(sort) && AllDistinct(b) && minCount > 0
    requires FreqOk(freq, Project(b, x)) && ItemFreq(b, x) >= minCount
    requires Enumerates(rs, FrequentFamily(MapBag(Project(b, x), Conditioner(freq, minCount, sort)), minCount))
    ensures Enumerates([[x]] + Prepend([x], rs), DeepestFamily(b, minCount, x))
  {
    hide Rearranges, AllDistinct, Enumerates, FreqOk, Project, Prepend, FoundUnder;
    var c := MapBag(Project(b, x), Conditioner(freq, minCount, sort));
    var alone: Family := (s: set<Item>) => s == {x};
    var longer: Family := (s: set<Item>) => x in s && FrequentFamily(c, minCount)(s - {x});
    forall s ensures FrequentFamily(c, minCount)(s) ==> x !in s {
      ProjectionIsExact(b, x, s, freq, minCount, sort);
      if x in s { NeverAboveItself(b, x, s); }
    }
    EnumeratesOne(x, alone);
    EnumeratesPrepend(x, rs, FrequentFamily(c, minCount), longer);
    forall s ensures DeepestFamily(b, minCount, x)(s) <==> alone(s) || longer(s) {
      DeepestSplit(b, minCount, x, freq, sort, s);
    }
    EnumeratesUnion([[x]], alone, Prepend([x], rs), longer, DeepestFamily(b, minCount, x));
  }

  lemma DeepestSplit(b: Bag, minCount: nat, x: Item, freq: map<Item, nat>, sort: Sorting, s: set<Item>)
    requires Rearranges(sort) && AllDistinct(b) && minCount > 0
    requires FreqOk(freq, Project(b, x)) && ItemFreq(b, x) >= minCount
    ensures var c := MapBag(Project(b, x), Conditioner(freq, minCount, sort));
      FoundUnder(b, minCount, x, s) <==> s == {x} || (x in s && Frequent(c, minCount, s - {x}))
  {
    hide Rearranges, AllDistinct, FreqOk, Project;
    if x in s {
      ProjectionIsExact(b, x, s - {x}, freq, minCount, sort);
      if s - {x} == {} {
        assert s == {x};
        AloneIsFreq(b, x);
      }
    }
  }

  lemma FirstApart(c: Path)
    requires c != [] && NoDuplicates(c)
    ensures Items(c) == {c[0]} + Items(c[1..]) && c[0] !in Items(c[1..])
  {
    assert c == [c[0]] + c[1..];
  }

  /** The single-path shortcut: with and without the first item, all sub-paths of the rest. */
  lemma SubPathPatterns(c: Path, rs: seq<Path>, more: seq<Path>)
    requires c != [] && NoDuplicates(c)
    requires Enumerates(rs, SubsetFamily(c[1..])) && Enumerates(more, SubsetFamily(c[1..]))
    ensures Enumerates([[c[0]]] + rs + Prepend([c[0]], more), SubsetFamily(c))
  {
    hide Enumerates, NoDuplicates, Prepend, Items;
    var x, rest := c[0], SubsetFamily(c[1..]);
    FirstApart(c);
    var alone: Family := (s: set<Item>) => s == {x};
    var without: Family := (s: set<Item>) => s == {x} || rest(s);
    var longer: Family := (s: set<Item>) => x in s && rest(s - {x});
    EnumeratesOne(x, alone);
    EnumeratesUnion([[x]], alone, rs, rest, without);
    EnumeratesPrepend(x, more, rest, longer);
    forall s ensures SubsetFamily(c)(s) <==> without(s) || longer(s) {
      if x in s && s - {x} == {} { assert s == {x}; }
    }
    EnumeratesUnion([[x]] + rs, without, Prepend([x], more), longer, SubsetFamily(c));
  }
}
