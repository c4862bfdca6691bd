/** Items, transactions as item sequences, item comparators and sorting (src/Item.h, src/FPNode.h). */
module Orders {

  /** Item ids start at 1; 0 is the null item, carried only by a tree's root. */
  type Item = i: int | 0 < i witness 1
  type Path = seq<Item>
  type Order = (Item, Item) -> bool

  ghost predicate StrictTotal(less: Order) {
    && (forall a: Item :: !less(a, a))
    && (forall a: Item, b: Item, c: Item :: less(a, b) && less(b, c) ==> less(a, c))
    && (forall a: Item, b: Item :: a != b ==> less(a, b) || less(b, a))
  }

  ghost predicate Sorted(s: Path, less: Order) {
    forall i, j :: 0 <= i < j < |s| ==> !less(s[j], s[i])
  }

  ghost predicate NoDuplicates(s: Path) {
    forall i, j :: 0 <= i < j < |s| ==> s[i] != s[j]
  }

  /** Sorted without repeats: each item strictly precedes all later ones. */
  ghost predicate Ascending(s: Path, less: Order) {
    forall i, j :: 0 <= i < j < |s| ==> less(s[i], s[j])
  }

  ghost function Items(s: Path): set<Item> {
    set i | i in s
  }

  lemma ItemsNone(p: Path)
    ensures Items(p[..0]) == {}
  {
  }

  lemma ItemsFrom(p: Path, k: nat)
    requires k <= |p|
    ensures Items(p[k..]) <= Items(p)
  {
  }

  lemma ItemsStep(p: Path, k: nat)
    requires k < |p|
    ensures Items(p[..k + 1]) == Items(p[..k]) + {p[k]}
  {
    assert p[..k + 1] == p[..k] + [p[k]];
  }

  /** ItemMapCmp: items known to the table first, higher counts first, ties by item id. */
  function TableLess(freq: map<Item, nat>, a: Item, b: Item): bool {
    if a !in freq && b in freq then false
    else if a in freq && b !in freq then true
    else if (a !in freq && b !in freq) || freq[a] == freq[b] then a < b
    else freq[a] > freq[b]
  }

  function TableOrder(freq: map<Item, nat>): Order {
    (a: Item, b: Item) => TableLess(freq, a, b)
  }

  /** ItemMap::Get with fallback 0. */
  function Get(freq: map<Item, nat>, i: Item): nat {
    if i in freq then freq[i] else 0
  }

  /** AppearanceCmp: ids are handed out in order of first appearance. */
  function AppearanceOrder(): Order {
    (a: Item, b: Item) => a < b
  }

  lemma TableOrderIsStrictTotal(freq: map<Item, nat>)
    ensures StrictTotal(TableOrder(freq))
  {
  }

  lemma AppearanceOrderIsStrictTotal()
    ensures StrictTotal(AppearanceOrder())
  {
  }

  // ---- sorting -------------------------------------------------------------------------

  function InsertSorted(x: Item, s: Path, less: Order): Path {
    if s == [] then [x]
    else if less(s[0], x) then [s[0]] + InsertSorted(x, s[1..], less)
    else [x] + s
  }

  /** The call of std::sort. SortUnique shows that any other sorting routine agrees with it. */
  function SortPath(s: Path, less: Order): Path {
    if s == [] then [] else InsertSorted(s[0], SortPath(s[1..], less), less)
  }

  lemma {:induction false} InsertSortedSpec(x: Item, s: Path, less: Order)
    requires StrictTotal(less) && Sorted(s, less)
    ensures Sorted(InsertSorted(x, s, less), less)
    ensures multiset(InsertSorted(x, s, less)) == multiset(s) + multiset{x}
  {
    if s == [] {
    } else {
      assert s == [s[0]] + s[1..];
      if less(s[0], x) {
        InsertSortedSpec(x, s[1..], less);
        var r := InsertSorted(x, s[1..], less);
        forall j | 0 <= j < |r| ensures !less(r[j], s[0]) {
          assert r[j] in multiset(r);
          assert r[j] == x || r[j] in s[1..];
        }
      } else {
        forall j | 0 <= j < |s| ensures !less(s[j], x) {
          if j > 0 { assert !less(s[j], s[0]); }
        }
      }
    }
  }

  lemma {:induction false} SortPathSpec(s: Path, less: Order)
    requires StrictTotal(less)
    ensures Sorted(SortPath(s, less), less)
    ensures multiset(SortPath(s, less)) == multiset(s)
    ensures |SortPath(s, less)| == |s|
  {
    if s == [] {
    } else {
      SortPathSpec(s[1..], less);
      InsertSortedSpec(s[0], SortPath(s[1..], less), less);
      assert s == [s[0]] + s[1..];
    }
    assert |multiset(SortPath(s, less))| == |multiset(s)|;
  }

  lemma TailItems(s: Path)
    requires s != []
    ensures s == [s[0]] + s[1..]
    ensures multiset(s[1..]) == multiset(s) - multiset{s[0]}
  {
    assert s == [s[0]] + s[1..];
  }

  lemma SameLeast(s: Path, t: Path, less: Order)
    requires StrictTotal(less) && Sorted(s, less) && Sorted(t, less) && s != []
    requires multiset(s) == multiset(t)
    ensures t != [] && s[0] == t[0]
  {
    assert |multiset(s)| == |multiset(t)|;
    assert s[0] in multiset(t) && t[0] in multiset(s);
    var i :| 0 <= i < |t| && t[i] == s[0];
    var j :| 0 <= j < |s| && s[j] == t[0];
    assert i == 0 || !less(t[i], t[0]);
    assert j == 0 || !less(s[j], s[0]);
  }

  /** A sorted arrangement of given items is unique, so std::sort's choice does not matter. */
  lemma {:induction false} SortUnique(s: Path, t: Path, less: Order)
    requires StrictTotal(less) && Sorted(s, less) && Sorted(t, less)
    requires multiset(s) == multiset(t)
    ensures s == t
  {
    assert |multiset(s)| == |multiset(t)|;
    if s != [] {
      SameLeast(s, t, less);
      TailItems(s);
      TailItems(t);
      SortUnique(s[1..], t[1..], less);
    }
  }

  /** Sorting by one order and then another is sorting by the other. */
  lemma ResortPath(s: Path, first: Order, second: Order)
    requires StrictTotal(first) && StrictTotal(second)
    ensures SortPath(SortPath(s, first), second) == SortPath(s, second)
  {
    SortPathSpec(s, first);
    SortPathSpec(s, second);
    SortPathSpec(SortPath(s, first), second);
    SortUnique(SortPath(SortPath(s, first), second), SortPath(s, second), second);
  }

  lemma SortFixpoint(s: Path, less: Order)
    requires StrictTotal(less)
    ensures Sorted(s, less) <==> SortPath(s, less) == s
  {
    SortPathSpec(s, less);
    if Sorted(s, less) { SortUnique(SortPath(s, less), s, less); }
  }

  lemma SamePermutation(s: Path, t: Path)
    requires multiset(s) == multiset(t)
    ensures |s| == |t|
    ensures NoDuplicates(s) ==> NoDuplicates(t)
    ensures forall x :: x in s <==> x in t
  {
    assert |multiset(s)| == |multiset(t)|;
    forall x ensures x in s <==> x in t {
      assert x in s <==> x in multiset(s);
      assert x in t <==> x in multiset(t);
    }
    if NoDuplicates(s) && !NoDuplicates(t) {
      var i, j :| 0 <= i < j < |t| && t[i] == t[j];
      TwiceInMultiset(t, i, j);
      var k :| 0 <= k < |s| && s[k] == t[i];
      OnceInMultiset(s, k);
      assert false;
    }
  }

  lemma TwiceInMultiset(s: Path, i: nat, j: nat)
    requires i < j < |s| && s[i] == s[j]
    ensures multiset(s)[s[i]] >= 2
  {
    assert s == s[..i] + [s[i]] + s[i + 1..];
    assert s[j] in s[i + 1..];
    assert multiset(s) == multiset(s[..i]) + multiset{s[i]} + multiset(s[i + 1..]);
  }

  lemma OnceInMultiset(s: Path, k: nat)
    requires NoDuplicates(s) && k < |s|
    ensures multiset(s)[s[k]] == 1
  {
    assert s == s[..k] + [s[k]] + s[k + 1..];
    assert s[k] !in s[..k] && s[k] !in s[k + 1..];
    assert multiset(s) == multiset(s[..k]) + multiset{s[k]} + multiset(s[k + 1..]);
  }

  lemma AscendingIffSortedDistinct(s: Path, less: Order)
    requires StrictTotal(less)
    ensures Ascending(s, less) <==> Sorted(s, less) && NoDuplicates(s)
  {
  }
}
