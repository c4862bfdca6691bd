/** Bags of transactions: the abstract contents of a tree, and how counts are read off them. */
module Bags {
  import opened Orders

  type Bag = multiset<Path>

  /** `count` copies of one transaction. */
  function Copies(t: Path, count: nat): Bag {
    multiset{}[t := count]
  }

  ghost function Sum(b: Bag, f: Path -> nat): nat
    decreases |b|
  {
    if b == multiset{} then 0
    else var t :| t in b; f(t) + Sum(b - multiset{t}, f)
  }

  ghost function MapBag(b: Bag, f: Path -> Path): Bag
    decreases |b|
  {
    if b == multiset{} then multiset{}
    else var t :| t in b; MapBag(b - multiset{t}, f) + multiset{f(t)}
  }

  lemma {:induction false} SumPick(b: Bag, f: Path -> nat, t: Path)
    requires t in b
    ensures Sum(b, f) == f(t) + Sum(b - multiset{t}, f)
    decreases |b|
  {
    var u :| u in b && Sum(b, f) == f(u) + Sum(b - multiset{u}, f);
    if u != t {
      SumPick(b - multiset{u}, f, t);
      SumPick(b - multiset{t}, f, u);
      RemoveSwap(b, t, u);
    }
  }

  lemma RemoveSwap(b: Bag, t: Path, u: Path)
    ensures b - multiset{u} - multiset{t} == b - multiset{t} - multiset{u}
  {
  }

  lemma SumTwo(s: Path, t: Path, f: Path -> nat)
    ensures Sum(multiset{s, t}, f) == f(s) + f(t)
  {
    SumPick(multiset{s, t}, f, s);
    assert multiset{s, t} - multiset{s} == multiset{t};
    SumPick(multiset{t}, f, t);
    assert multiset{t} - multiset{t} == multiset{};
  }

  lemma AddSwap(b: Bag, t: Path, u: Path)
    ensures b + multiset{u} + multiset{t} == b + multiset{t} + multiset{u}
  {
  }

  lemma {:induction false} MapPick(b: Bag, f: Path -> Path, t: Path)
    requires t in b
    ensures MapBag(b, f) == MapBag(b - multiset{t}, f) + multiset{f(t)}
    decreases |b|
  {
    var u :| u in b && MapBag(b, f) == MapBag(b - multiset{u}, f) + multiset{f(u)};
    if u != t {
      MapPick(b - multiset{u}, f, t);
      MapPick(b - multiset{t}, f, u);
      RemoveSwap(b, t, u);
      AddSwap(MapBag(b - multiset{u} - multiset{t}, f), f(t), f(u));
    }
  }

  lemma SumAdd(b: Bag, f: Path -> nat, t: Path)
    ensures Sum(b + multiset{t}, f) == Sum(b, f) + f(t)
  {
    SumPick(b + multiset{t}, f, t);
    assert b + multiset{t} - multiset{t} == b;
  }

  lemma MapAdd(b: Bag, f: Path -> Path, t: Path)
    ensures MapBag(b + multiset{t}, f) == MapBag(b, f) + multiset{f(t)}
  {
    MapPick(b + multiset{t}, f, t);
    assert b + multiset{t} - multiset{t} == b;
  }

  lemma CopiesStep(b: Bag, t: Path, count: nat)
    requires count > 0
    ensures b + Copies(t, count) == b + Copies(t, count - 1) + multiset{t}
  {
  }

  lemma CopiesNone(b: Bag, t: Path)
    ensures b + Copies(t, 0) == b
  {
  }

  lemma OneMore(count: nat, x: nat)
    requires count > 0
    ensures count * x == (count - 1) * x + x
  {
  }

  lemma {:induction false} SumCopies(b: Bag, f: Path -> nat, t: Path, count: nat)
    ensures Sum(b + Copies(t, count), f) == Sum(b, f) + count * f(t)
  {
    hide Sum, Copies;
    if count == 0 {
      CopiesNone(b, t);
    } else {
      SumCopies(b, f, t, count - 1);
      CopiesStep(b, t, count);
      SumAdd(b + Copies(t, count - 1), f, t);
      OneMore(count, f(t));
    }
  }

  lemma {:induction false} MapCopies(b: Bag, f: Path -> Path, t: Path, count: nat)
    ensures MapBag(b + Copies(t, count), f) == MapBag(b, f) + Copies(f(t), count)
  {
    hide MapBag, Copies;
    if count == 0 {
      CopiesNone(b, t);
      CopiesNone(MapBag(b, f), f(t));
    } else {
      MapCopies(b, f, t, count - 1);
      CopiesStep(b, t, count);
      CopiesStep(MapBag(b, f), f(t), count);
      MapAdd(b + Copies(t, count - 1), f, t);
    }
  }

  lemma {:induction false} SumUnion(b: Bag, c: Bag, f: Path -> nat)
    ensures Sum(b + c, f) == Sum(b, f) + Sum(c, f)
    decreases |c|
  {
    if c == multiset{} {
      assert b + c == b;
    } else {
      var t :| t in c;
      SumUnion(b, c - multiset{t}, f);
      SumPick(c, f, t);
      SumAdd(b + (c - multiset{t}), f, t);
      assert b + (c - multiset{t}) + multiset{t} == b + c;
    }
  }

  lemma {:induction false} SumCongruence(b: Bag, f: Path -> nat, g: Path -> nat)
    requires forall t :: t in b ==> f(t) == g(t)
    ensures Sum(b, f) == Sum(b, g)
    decreases |b|
  {
    if b == multiset{} {
    } else {
      var t :| t in b;
      SumPick(b, f, t);
      SumPick(b, g, t);
      SumCongruence(b - multiset{t}, f, g);
    }
  }

  lemma {:induction false} SumPositive(b: Bag, f: Path -> nat)
    ensures Sum(b, f) > 0 <==> exists t :: t in b && f(t) > 0
    decreases |b|
  {
    if b == multiset{} {
    } else {
      var t :| t in b;
      SumPick(b, f, t);
      SumPositive(b - multiset{t}, f);
      if exists u :: u in b && f(u) > 0 {
        var u :| u in b && f(u) > 0;
        if u != t { assert u in b - multiset{t}; }
      }
    }
  }

  lemma {:induction false} SumPlus(b: Bag, f: Path -> nat, g: Path -> nat, h: Path -> nat)
    requires forall t :: t in b ==> h(t) == f(t) + g(t)
    ensures Sum(b, h) == Sum(b, f) + Sum(b, g)
    decreases |b|
  {
    if b == multiset{} {
    } else {
      var t :| t in b;
      SumPick(b, f, t);
      SumPick(b, g, t);
      SumPick(b, h, t);
      SumPlus(b - multiset{t}, f, g, h);
    }
  }

  lemma {:induction false} SumBound(b: Bag, f: Path -> nat, g: Path -> nat)
    requires forall t :: t in b ==> f(t) <= g(t)
    ensures Sum(b, f) <= Sum(b, g)
    decreases |b|
  {
    if b == multiset{} {
    } else {
      var t :| t in b;
      SumPick(b, f, t);
      SumPick(b, g, t);
      SumBound(b - multiset{t}, f, g);
    }
  }

  lemma {:induction false} MapMembers(b: Bag, f: Path -> Path, u: Path)
    ensures u in MapBag(b, f) <==> exists t :: t in b && f(t) == u
    decreases |b|
  {
    if b == multiset{} {
    } else {
      var t :| t in b;
      MapPick(b, f, t);
      MapMembers(b - multiset{t}, f, u);
      if exists v :: v in b && f(v) == u {
        var v :| v in b && f(v) == u;
        if v != t { assert v in b - multiset{t}; }
      }
    }
  }

  lemma {:induction false} SumMap(b: Bag, f: Path -> Path, g: Path -> nat, h: Path -> nat)
    requires forall t :: t in b ==> g(f(t)) == h(t)
    ensures Sum(MapBag(b, f), g) == Sum(b, h)
    decreases |b|
  {
    if b == multiset{} {
    } else {
      var t :| t in b;
      MapPick(b, f, t);
      SumPick(b, h, t);
      SumMap(b - multiset{t}, f, g, h);
      SumAdd(MapBag(b - multiset{t}, f), g, f(t));
    }
  }

  lemma {:induction false} MapCompose(b: Bag, f: Path -> Path, g: Path -> Path, h: Path -> Path)
    requires forall t :: t in b ==> g(f(t)) == h(t)
    ensures MapBag(MapBag(b, f), g) == MapBag(b, h)
    decreases |b|
  {
    if b == multiset{} {
    } else {
      var t :| t in b;
      MapPick(b, f, t);
      MapPick(b, h, t);
      MapCompose(b - multiset{t}, f, g, h);
      MapAdd(MapBag(b - multiset{t}, f), g, f(t));
    }
  }

  lemma {:induction false} MapIdentity(b: Bag, f: Path -> Path)
    requires forall t :: t in b ==> f(t) == t
    ensures MapBag(b, f) == b
    decreases |b|
  {
    if b == multiset{} {
    } else {
      var t :| t in b;
      MapPick(b, f, t);
      MapIdentity(b - multiset{t}, f);
    }
  }

  // ---- readings ------------------------------------------------------------------------

  ghost function PrefixIndicator(p: Path): Path -> nat {
    (t: Path) => if p <= t then 1 else 0
  }

  /** Number of transactions of the bag that start with p: the count of tree node p. */
  ghost function Cnt(b: Bag, p: Path): nat {
    Sum(b, PrefixIndicator(p))
  }

  ghost function Occurrences(i: Item): Path -> nat {
    (t: Path) => multiset(t)[i]
  }

  /** Total number of occurrences of item i: the frequency table's entry. */
  ghost function ItemFreq(b: Bag, i: Item): nat {
    Sum(b, Occurrences(i))
  }

  ghost function Contains(s: set<Item>): Path -> nat {
    (t: Path) => if forall i :: i in s ==> i in t then 1 else 0
  }

  /** Number of transactions that contain every item of s. */
  ghost function Support(b: Bag, s: set<Item>): nat {
    Sum(b, Contains(s))
  }

  ghost function Sorter(less: Order): Path -> Path {
    (t: Path) => SortPath(t, less)
  }

  ghost function SortAll(b: Bag, less: Order): Bag {
    MapBag(b, Sorter(less))
  }

  /** The table holds every item's number of occurrences. */
  ghost predicate FreqOk(freq: map<Item, nat>, b: Bag) {
    forall i: Item :: Get(freq, i) == ItemFreq(b, i)
  }

  lemma CntPositive(b: Bag, p: Path)
    ensures Cnt(b, p) > 0 <==> exists t :: t in b && p <= t
  {
    SumPositive(b, PrefixIndicator(p));
    if Cnt(b, p) > 0 {
      var t :| t in b && PrefixIndicator(p)(t) > 0;
      assert p <= t;
    }
    if t: Path :| t in b && p <= t {
      assert PrefixIndicator(p)(t) > 0;
    }
  }

  lemma CntMonotone(b: Bag, p: Path, q: Path)
    requires p <= q
    ensures Cnt(b, p) >= Cnt(b, q)
  {
    forall t | t in b ensures PrefixIndicator(q)(t) <= PrefixIndicator(p)(t) {
      if q <= t { assert p <= t; }
    }
    SumBound(b, PrefixIndicator(q), PrefixIndicator(p));
  }

  lemma CntCopies(b: Bag, t: Path, count: nat, p: Path)
    ensures Cnt(b + Copies(t, count), p) == Cnt(b, p) + (if p <= t then count else 0)
  {
    SumCopies(b, PrefixIndicator(p), t, count);
  }

  lemma FreqCopies(b: Bag, t: Path, count: nat, i: Item)
    ensures ItemFreq(b + Copies(t, count), i) == ItemFreq(b, i) + count * multiset(t)[i]
  {
    SumCopies(b, Occurrences(i), t, count);
  }

  /** The bag after `count` transactions equal to p became q. */
  function Moved(b: Bag, p: Path, q: Path, count: nat): Bag {
    b - Copies(p, count) + Copies(q, count)
  }

  lemma MovedNowhere(b: Bag, p: Path, count: nat)
    requires b[p] >= count
    ensures Moved(b, p, p, count) == b
  {
  }

  lemma MovedArrives(b: Bag, p: Path, q: Path, count: nat)
    ensures Moved(b, p, q, count)[q] >= count
  {
  }

  lemma MovedTwice(b: Bag, p: Path, q: Path, r: Path, count: nat)
    ensures Moved(b, p, r, count)[r] >= count
    ensures Moved(Moved(b, p, q, count), q, r, count) == Moved(b, p, r, count)
  {
  }

  lemma SplitCopies(b: Bag, p: Path, count: nat)
    requires b[p] >= count
    ensures b - Copies(p, count) + Copies(p, count) == b
  {
  }

  /** Letting transactions that end at p go on to item i changes one count ... */
  lemma ExtendedCnt(b: Bag, p: Path, i: Item, count: nat, q: Path)
    requires b[p] >= count
    ensures Cnt(Moved(b, p, p + [i], count), q) == Cnt(b, q) + if q == p + [i] then count else 0
  {
    SplitCopies(b, p, count);
    CntCopies(b - Copies(p, count), p, count, q);
    CntCopies(b - Copies(p, count), p + [i], count, q);
    PrefixOfLonger(q, p, i);
  }

  /** ... and one frequency. */
  lemma ExtendedFreq(b: Bag, p: Path, i: Item, count: nat, j: Item)
    requires b[p] >= count
    ensures ItemFreq(Moved(b, p, p + [i], count), j) == ItemFreq(b, j) + if j == i then count else 0
  {
    SplitCopies(b, p, count);
    FreqCopies(b - Copies(p, count), p, count, j);
    FreqCopies(b - Copies(p, count), p + [i], count, j);
    OneMoreOccurrence(p, i, j, count);
  }

  lemma FirstOccurrence(p: Path, j: Item, count: nat)
    requires p != []
    ensures count * multiset(p)[j] == count * multiset(p[1..])[j] + if j == p[0] then count else 0
  {
    TailItems(p);
    var k := multiset(p[1..])[j];
    assert multiset(p)[j] == if j == p[0] then k + 1 else k;
    Distribute(count, k, 1);
  }

  lemma OneMoreOccurrence(p: Path, i: Item, j: Item, count: nat)
    ensures count * multiset(p + [i])[j] == count * multiset(p)[j] + if j == i then count else 0
  {
    var k := multiset(p)[j];
    assert multiset(p + [i]) == multiset(p) + multiset{i};
    if j == i {
      OneMore(k + 1, count);
      assert multiset(p + [i])[j] == k + 1;
      assert count * (k + 1) == count * k + count;
    }
  }

  lemma PrefixOfLonger(q: Path, p: Path, i: Item)
    ensures q <= p + [i] <==> q <= p || q == p + [i]
  {
    if q <= p + [i] && |q| <= |p| {
      assert q == (p + [i])[..|q|] == p[..|q|];
    }
    if q <= p {
      assert q == p[..|q|] == (p + [i])[..|q|];
    }
  }

  /** Cutting transactions base + items back to base lowers the counts strictly below base on that path. */
  lemma ShortenedCnt(b: Bag, base: Path, items: Path, count: nat, q: Path)
    requires b[base + items] >= count
    ensures Cnt(b, q) == Cnt(Moved(b, base + items, base, count), q) +
                         if |q| > |base| && q <= base + items then count else 0
  {
    var full := base + items;
    SplitCopies(b, full, count);
    CntCopies(b - Copies(full, count), full, count, q);
    CntCopies(b - Copies(full, count), base, count, q);
    PrefixOfBase(q, base, items);
  }

  lemma PrefixOfBase(q: Path, base: Path, items: Path)
    ensures q <= base <==> q <= base + items && |q| <= |base|
  {
    var full := base + items;
    assert base == full[..|base|];
    if q <= full && |q| <= |base| {
      assert q == full[..|q|] == base[..|q|];
    }
    if q <= base {
      assert q == base[..|q|] == full[..|q|];
    }
  }

  lemma ShortenedFreq(b: Bag, base: Path, items: Path, count: nat, j: Item)
    requires b[base + items] >= count
    ensures ItemFreq(b, j) == ItemFreq(Moved(b, base + items, base, count) + Copies(items, count), j)
  {
    var full := base + items;
    SplitCopies(b, full, count);
    FreqCopies(b - Copies(full, count), full, count, j);
    FreqCopies(b - Copies(full, count), base, count, j);
    FreqCopies(Moved(b, full, base, count), items, count, j);
    assert multiset(full) == multiset(base) + multiset(items);
    Distribute(count, multiset(base)[j], multiset(items)[j]);
  }

  lemma Distribute(c: nat, x: nat, y: nat)
    ensures c * (x + y) == c * x + c * y
  {
  }

  /** Transactions that start with p but do not end there. */
  lemma CntSplit(b: Bag, p: Path)
    ensures Cnt(b, p) >= b[p]
    ensures Cnt(b, p) > b[p] ==> exists t :: t in b && p <= t && t != p
  {
    var rest := b - Copies(p, b[p]);
    SplitCopies(b, p, b[p]);
    CntCopies(rest, p, b[p], p);
    CntPositive(rest, p);
  }

  ghost function Unsorted(less: Order): Path -> nat {
    (t: Path) => if SortPath(t, less) == t then 0 else 1
  }

  /** Number of transactions of the bag that are out of order. */
  ghost function UnsortedIn(b: Bag, less: Order): nat {
    Sum(b, Unsorted(less))
  }

  lemma ReplaceUnsorted(b: Bag, p: Path, less: Order, count: nat)
    requires StrictTotal(less) && b[p] >= count > 0 && SortPath(p, less) != p
    ensures var c := Moved(b, p, SortPath(p, less), count);
      UnsortedIn(c, less) == UnsortedIn(b, less) - count && SortAll(c, less) == SortAll(b, less)
  {
    var q := SortPath(p, less);
    ResortPath(p, less, less);
    SplitCopies(b, p, count);
    SumCopies(b - Copies(p, count), Unsorted(less), p, count);
    SumCopies(b - Copies(p, count), Unsorted(less), q, count);
    MapCopies(b - Copies(p, count), Sorter(less), p, count);
    MapCopies(b - Copies(p, count), Sorter(less), q, count);
  }

  lemma MovedFreq(b: Bag, p: Path, q: Path, count: nat, j: Item)
    requires b[p] >= count && multiset(p) == multiset(q)
    ensures ItemFreq(Moved(b, p, q, count), j) == ItemFreq(b, j)
  {
    SplitCopies(b, p, count);
    FreqCopies(b - Copies(p, count), p, count, j);
    FreqCopies(b - Copies(p, count), q, count, j);
  }

  /** The empty transaction passes through no data node. */
  lemma EmptyTransactions(b: Bag, count: nat, p: Path, j: Item)
    ensures p != [] ==> Cnt(b + Copies([], count), p) == Cnt(b, p)
    ensures ItemFreq(b + Copies([], count), j) == ItemFreq(b, j)
  {
    CntCopies(b, [], count, p);
    FreqCopies(b, [], count, j);
  }
}
