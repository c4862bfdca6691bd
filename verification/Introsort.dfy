/** Quicksort that gives way to heapsort and insertion sort (src/dlib/sort.h). */
module Introsort {

  type Compare<!T> = (T, T) -> bool

  /** A strict weak order: incomparable elements count as equal. */
  ghost predicate StrictWeak<T(!new)>(comp: Compare<T>) {
    && (forall a :: !comp(a, a))
    && (forall a, b, c :: comp(a, b) && comp(b, c) ==> comp(a, c))
    && (forall a, b, c :: comp(a, c) ==> comp(a, b) || comp(b, c))
  }

  /** Sorted from position lo up to hi - 1. */
  ghost predicate Sorted<T>(s: seq<T>, lo: int, hi: int, comp: Compare<T>) {
    forall j, k :: 0 <= lo <= j < k < hi <= |s| ==> !comp(s[k], s[j])
  }

  /** Only positions lo up to hi - 1 were rearranged. */
  ghost predicate Rearranged<T>(s: seq<T>, t: seq<T>, lo: int, hi: int) {
    && |s| == |t| && multiset(s) == multiset(t)
    && forall k :: 0 <= k < |s| && !(lo <= k < hi) ==> s[k] == t[k]
  }

  function Exchanged<T>(s: seq<T>, i: nat, j: nat): seq<T>
    requires i < |s| && j < |s|
  {
    s[i := s[j]][j := s[i]]
  }

  lemma RearrangedSelf<T>(s: seq<T>, lo: int, hi: int)
    ensures Rearranged(s, s, lo, hi)
  {
  }

  lemma RearrangedThen<T>(s: seq<T>, t: seq<T>, u: seq<T>, lo: int, hi: int, lo1: int, hi1: int)
    requires Rearranged(s, t, lo, hi) && Rearranged(t, u, lo1, hi1) && lo <= lo1 && hi1 <= hi
    ensures Rearranged(s, u, lo, hi)
  {
  }

  lemma ExchangeRearranges<T>(s: seq<T>, i: nat, j: nat, lo: int, hi: int)
    requires lo <= i < hi && lo <= j < hi && i < |s| && j < |s|
    ensures Rearranged(s, Exchanged(s, i, j), lo, hi)
  {
    assert multiset(Exchanged(s, i, j)) == multiset(s);
  }

  lemma ThreeParts<T>(s: seq<T>, lo: nat, hi: nat)
    requires lo <= hi <= |s|
    ensures multiset(s) == multiset(s[..lo]) + multiset(s[lo..hi]) + multiset(s[hi..])
  {
    assert s == s[..lo] + s[lo..hi] + s[hi..];
  }

  lemma CancelAround<T>(a: multiset<T>, b: multiset<T>, c: multiset<T>, d: multiset<T>)
    requires a + b + d == a + c + d
    ensures b == c
  {
    forall x: T | x in b || x in c ensures b[x] == c[x] {
      assert (a + b + d)[x] == a[x] + b[x] + d[x] && (a + c + d)[x] == a[x] + c[x] + d[x];
    }
  }

  /** What held of all elements of the range still does. */
  lemma RearrangedMember<T>(s: seq<T>, t: seq<T>, lo: nat, hi: nat, k: nat) returns (j: nat)
    requires Rearranged(s, t, lo, hi) && lo <= k < hi <= |s|
    ensures lo <= j < hi && s[j] == t[k]
  {
    ThreeParts(s, lo, hi);
    ThreeParts(t, lo, hi);
    assert s[..lo] == t[..lo] && s[hi..] == t[hi..];
    CancelAround(multiset(s[..lo]), multiset(s[lo..hi]), multiset(t[lo..hi]), multiset(s[hi..]));
    assert t[lo..hi][k - lo] in multiset(t[lo..hi]);
    assert t[k] in multiset(s[lo..hi]);
    var i :| 0 <= i < hi - lo && s[lo..hi][i] == t[k];
    j := lo + i;
  }

  /** Everything in lo..hi-1 is at most everything in lo1..hi1-1. */
  ghost predicate AllBelow<T>(s: seq<T>, lo: int, hi: int, lo1: int, hi1: int, comp: Compare<T>) {
    forall j, k :: 0 <= lo <= j < hi <= |s| && 0 <= lo1 <= k < hi1 <= |s| ==> !comp(s[k], s[j])
  }

  lemma RearrangeLower<T>(s: seq<T>, t: seq<T>, lo: nat, hi: nat, lo1: nat, hi1: nat, comp: Compare<T>)
    requires Rearranged(s, t, lo, hi) && hi <= lo1 && hi <= |s| && AllBelow(s, lo, hi, lo1, hi1, comp)
    ensures AllBelow(t, lo, hi, lo1, hi1, comp)
  {
    forall j, k | 0 <= lo <= j < hi <= |t| && 0 <= lo1 <= k < hi1 <= |t| ensures !comp(t[k], t[j]) {
      var i := RearrangedMember(s, t, lo, hi, j);
    }
  }

  lemma RearrangeUpper<T>(s: seq<T>, t: seq<T>, lo: nat, hi: nat, lo1: nat, hi1: nat, comp: Compare<T>)
    requires Rearranged(s, t, lo1, hi1) && hi <= lo1 && hi1 <= |s| && AllBelow(s, lo, hi, lo1, hi1, comp)
    ensures AllBelow(t, lo, hi, lo1, hi1, comp)
  {
    forall j, k | 0 <= lo <= j < hi <= |t| && 0 <= lo1 <= k < hi1 <= |t| ensures !comp(t[k], t[j]) {
      var i := RearrangedMember(s, t, lo1, hi1, k);
    }
  }

  /** swap and exchange, inside a range that has only been rearranged since s. */
  method ExchangeWithin<T>(a: array<T>, i: nat, j: nat, ghost s: seq<T>, ghost lo: nat, ghost hi: nat)
    requires lo <= i < hi <= a.Length && lo <= j < hi && Rearranged(s, a[..], lo, hi)
    modifies a
    ensures a[..] == Exchanged(old(a[..]), i, j) && Rearranged(s, a[..], lo, hi)
  {
    hide Rearranged;
    ExchangeRearranges(a[..], i, j, lo, hi);
    RearrangedThen(s, a[..], Exchanged(a[..], i, j), lo, hi, lo, hi);
    a[i], a[j] := a[j], a[i];
    assert a[..] == Exchanged(old(a[..]), i, j);
  }

  // ---- insertion sort ----------------------------------------------------------------------

  /** Sorted up to position i except for the element at pos, which belongs before everything behind it. */
  ghost predicate Sinking<T>(s: seq<T>, left: nat, pos: nat, i: nat, comp: Compare<T>) {
    && left <= pos <= i < |s|
    && (forall j, k :: left <= j < k <= i && j != pos && k != pos ==> !comp(s[k], s[j]))
    && (forall k :: pos < k <= i ==> comp(s[pos], s[k]))
  }

  lemma SinkOne<T(!new)>(s: seq<T>, left: nat, pos: nat, i: nat, comp: Compare<T>)
    requires StrictWeak(comp) && Sinking(s, left, pos, i, comp) && left < pos && comp(s[pos], s[pos - 1])
    ensures Sinking(Exchanged(s, pos, pos - 1), left, pos - 1, i, comp)
  {
  }

  lemma SinkDone<T(!new)>(s: seq<T>, left: nat, pos: nat, i: nat, comp: Compare<T>)
    requires StrictWeak(comp) && Sinking(s, left, pos, i, comp) && (pos == left || !comp(s[pos], s[pos - 1]))
    ensures Sorted(s, left, i + 1, comp)
  {
    forall j, k | left <= j < k <= i ensures !comp(s[k], s[j]) {
      if k == pos && j < pos - 1 {
        assert !comp(s[pos - 1], s[j]);
      }
    }
  }

  lemma SinkStart<T>(s: seq<T>, left: nat, i: nat, comp: Compare<T>)
    requires Sorted(s, left, i, comp) && left <= i < |s|
    ensures Sinking(s, left, i, i, comp)
  {
  }

  /** The inner loop: element i sinks to its place among those before it. */
  method InsertOne<T(!new)>(a: array<T>, left: nat, i: nat, comp: Compare<T>)
    requires left < i < a.Length && StrictWeak(comp) && Sorted(a[..], left, i, comp)
    modifies a
    ensures Sorted(a[..], left, i + 1, comp) && Rearranged(old(a[..]), a[..], left, i + 1)
  {
    hide StrictWeak, Sorted, Rearranged, Sinking;
    ghost var s := a[..];
    RearrangedSelf(s, left, i + 1);
    SinkStart(s, left, i, comp);
    var pos, j := i, i - 1;
    while comp(a[pos], a[j])
      invariant left <= j && pos == j + 1 && pos <= i
      invariant Sinking(a[..], left, pos, i, comp) && Rearranged(s, a[..], left, i + 1)
      decreases j
    {
      SinkOne(a[..], left, pos, i, comp);
      ExchangeWithin(a, pos, j, s, left, i + 1);
      pos := j;
      if j == left {
        break;
      }
      j := j - 1;
    }
    SinkDone(a[..], left, pos, i, comp);
  }

  method IsortArray<T(!new)>(a: array<T>, left: nat, right: nat, comp: Compare<T>)
    requires left <= right < a.Length && StrictWeak(comp)
    modifies a
    ensures Sorted(a[..], left, right + 1, comp) && Rearranged(old(a[..]), a[..], left, right + 1)
  {
    hide StrictWeak, Sorted, Rearranged;
    ghost var s := a[..];
    RearrangedSelf(s, left, right + 1);
    OneIsSorted(s, left, comp);
    for i := left + 1 to right + 1
      invariant Sorted(a[..], left, i, comp) && Rearranged(s, a[..], left, right + 1)
    {
      ghost var t := a[..];
      InsertOne(a, left, i, comp);
      RearrangedThen(s, t, a[..], left, right + 1, left, i + 1);
    }
  }

  lemma OneIsSorted<T>(s: seq<T>, left: nat, comp: Compare<T>)
    ensures Sorted(s, left, left + 1, comp)
  {
  }

  // ---- heapsort --------------------------------------------------------------------------

  /** Children of node p in the heap that starts at position start. */
  function LeftChild(p: nat, start: nat): nat
    requires start <= p
  {
    2 * p + 1 - start
  }

  ghost predicate ChildOf(c: nat, p: nat, start: nat) {
    start <= p && (c == LeftChild(p, start) || c == LeftChild(p, start) + 1)
  }

  /** No node from `from` on is smaller than one of its children up to end; node `but` is not looked at. */
  ghost predicate HeapBut<T>(s: seq<T>, start: nat, end: nat, from: nat, but: int, comp: Compare<T>) {
    start <= from && end < |s| &&
    forall p: nat, c: nat :: from <= p && p != but && c <= end && ChildOf(c, p, start) ==> !comp(s[p], s[c])
  }

  ghost predicate Heap<T>(s: seq<T>, start: nat, end: nat, from: nat, comp: Compare<T>) {
    HeapBut(s, start, end, from, -1, comp)
  }

  /** The children of node i are at most the parent of i, as far as the heap reaches. */
  ghost predicate UnderParent<T>(s: seq<T>, start: nat, end: nat, from: nat, i: nat, comp: Compare<T>) {
    end < |s| && forall p: nat, c: nat :: from <= p && ChildOf(i, p, start) && ChildOf(c, i, start) && c <= end && i <= end ==> !comp(s[p], s[c])
  }

  /** The choice of the largest of a node and its children. */
  ghost predicate Largest<T>(s: seq<T>, start: nat, end: nat, i: nat, m: nat, comp: Compare<T>) {
    && i <= end < |s| && m <= end && (m == i || ChildOf(m, i, start))
    && (forall c: nat :: ChildOf(c, i, start) && c <= end ==> !comp(s[m], s[c]))
    && (m != i ==> comp(s[i], s[m]))
  }

  lemma SiftDown<T(!new)>(s: seq<T>, start: nat, end: nat, from: nat, i: nat, m: nat, comp: Compare<T>)
    requires StrictWeak(comp) && start <= from <= i && Largest(s, start, end, i, m, comp) && m != i
    requires HeapBut(s, start, end, from, i, comp) && UnderParent(s, start, end, from, i, comp)
    ensures i < m && HeapBut(Exchanged(s, i, m), start, end, from, m, comp)
    ensures UnderParent(Exchanged(s, i, m), start, end, from, m, comp)
  {
    var t := Exchanged(s, i, m);
    forall p: nat, c: nat | from <= p && p != m && c <= end && ChildOf(c, p, start) ensures !comp(t[p], t[c]) {
      if p != i {
        assert !comp(s[p], s[c]);
        if c == i { assert !comp(s[p], s[m]); }
      }
    }
    forall p: nat, c: nat | from <= p && ChildOf(m, p, start) && ChildOf(c, m, start) && c <= end ensures !comp(t[p], t[c]) {
      assert p == i;
      assert !comp(s[m], s[c]);
    }
  }

  lemma SiftDone<T>(s: seq<T>, start: nat, end: nat, from: nat, i: nat, comp: Compare<T>)
    requires Largest(s, start, end, i, i, comp) && HeapBut(s, start, end, from, i, comp)
    ensures Heap(s, start, end, from, comp)
  {
  }

  lemma SiftStart<T>(s: seq<T>, start: nat, end: nat, i: nat, comp: Compare<T>)
    requires Heap(s, start, end, i + 1, comp) && start <= i
    ensures HeapBut(s, start, end, i, i, comp) && UnderParent(s, start, end, i, i, comp)
  {
  }

  /** Which of a node and its children is the largest. */
  method LargestOf<T(!new)>(a: array<T>, start: nat, end: nat, i: nat, comp: Compare<T>) returns (largest: nat)
    requires start <= i <= end < a.Length && StrictWeak(comp)
    ensures Largest(a[..], start, end, i, largest, comp)
  {
    var left := 2 * i + 1 - start;
    var right := left + 1;
    if left <= end && comp(a[i], a[left]) {
      largest := left;
    } else {
      largest := i;
    }
    if right <= end && comp(a[largest], a[right]) {
      largest := right;
    }
  }

  method Heapify<T(!new)>(a: array<T>, start: nat, end: nat, from: nat, comp: Compare<T>)
    requires start <= from <= end < a.Length && StrictWeak(comp) && Heap(a[..], start, end, from + 1, comp)
    modifies a
    ensures Heap(a[..], start, end, from, comp) && Rearranged(old(a[..]), a[..], from, end + 1)
  {
    hide StrictWeak, Heap, HeapBut, UnderParent, Largest, Rearranged;
    ghost var s := a[..];
    RearrangedSelf(s, from, end + 1);
    SiftStart(s, start, end, from, comp);
    var i, keepGoing := from, true;
    while keepGoing
      invariant from <= i <= end && Rearranged(s, a[..], from, end + 1)
      invariant keepGoing ==> HeapBut(a[..], start, end, from, i, comp) && UnderParent(a[..], start, end, from, i, comp)
      invariant !keepGoing ==> Heap(a[..], start, end, from, comp)
      decreases end - i, keepGoing
    {
      keepGoing := false;
      var largest := LargestOf(a, start, end, i, comp);
      LargestInRange(a[..], start, end, i, largest, comp);
      if largest != i {
        SiftDown(a[..], start, end, from, i, largest, comp);
        ExchangeWithin(a, i, largest, s, from, end + 1);
        i := largest;
        keepGoing := true;
      } else {
        SiftDone(a[..], start, end, from, i, comp);
      }
    }
  }

  lemma LargestInRange<T>(s: seq<T>, start: nat, end: nat, i: nat, m: nat, comp: Compare<T>)
    requires Largest(s, start, end, i, m, comp) && start <= i
    ensures i <= m <= end
  {
  }

  /** The lower half of the positions has all the children. */
  lemma LeavesAreHeaps<T>(s: seq<T>, left: nat, right: nat, comp: Compare<T>)
    requires left <= right < |s|
    ensures Heap(s, left, right, left + (right - left) / 2 + 1, comp)
  {
  }

  lemma {:induction false} TopIsLargest<T(!new)>(s: seq<T>, left: nat, end: nat, k: nat, comp: Compare<T>)
    requires StrictWeak(comp) && Heap(s, left, end, left, comp) && left <= k <= end
    ensures !comp(s[left], s[k])
    decreases k
  {
    if k > left {
      var p := left + (k - left - 1) / 2;
      TopIsLargest(s, left, end, p, comp);
      assert ChildOf(k, p, left);
      assert !comp(s[p], s[k]);
    }
  }

  /** The largest element leaves the heap for the sorted part behind it. */
  lemma TakeTop<T(!new)>(s: seq<T>, left: nat, i: nat, right: nat, comp: Compare<T>)
    requires StrictWeak(comp) && left < i <= right < |s| && Heap(s, left, i, left, comp)
    requires Sorted(s, i + 1, right + 1, comp) && AllBelow(s, left, i + 1, i + 1, right + 1, comp)
    ensures Heap(Exchanged(s, i, left), left, i - 1, left + 1, comp)
    ensures Sorted(Exchanged(s, i, left), i, right + 1, comp)
    ensures AllBelow(Exchanged(s, i, left), left, i, i, right + 1, comp)
  {
    forall k | left <= k <= i ensures !comp(s[left], s[k]) {
      TopIsLargest(s, left, i, k, comp);
    }
  }

  /** Rearranging the heap leaves the sorted part sorted and above it. */
  lemma HeapRestored<T>(s: seq<T>, t: seq<T>, left: nat, i: nat, right: nat, comp: Compare<T>)
    requires left < i <= right < |s| && Rearranged(s, t, left, i)
    requires Sorted(s, i, right + 1, comp) && AllBelow(s, left, i, i, right + 1, comp)
    ensures Sorted(t, i, right + 1, comp) && AllBelow(t, left, i, i, right + 1, comp)
  {
    RearrangeLower(s, t, left, i, i, right + 1, comp);
  }

  method BuildHeap<T(!new)>(a: array<T>, left: nat, right: nat, comp: Compare<T>)
    requires left <= right < a.Length && StrictWeak(comp)
    modifies a
    ensures Heap(a[..], left, right, left, comp) && Rearranged(old(a[..]), a[..], left, right + 1)
  {
    hide StrictWeak, Heap, Rearranged;
    ghost var s := a[..];
    RearrangedSelf(s, left, right + 1);
    LeavesAreHeaps(s, left, right, comp);
    var i := left + (right - left) / 2;
    while true
      invariant left <= i <= right && Heap(a[..], left, right, i + 1, comp) && Rearranged(s, a[..], left, right + 1)
      decreases i
    {
      ghost var t := a[..];
      Heapify(a, left, right, i, comp);
      RearrangedThen(s, t, a[..], left, right + 1, i, right + 1);
      if i == left {
        break;
      }
      i := i - 1;
    }
  }

  /** One round of the sorting loop. */
  method MoveTop<T(!new)>(a: array<T>, left: nat, i: nat, right: nat, comp: Compare<T>, ghost s: seq<T>) returns (next: nat)
    requires left < i <= right < a.Length && StrictWeak(comp)
    requires Heap(a[..], left, i, left, comp) && Rearranged(s, a[..], left, right + 1)
    requires Sorted(a[..], i + 1, right + 1, comp) && AllBelow(a[..], left, i + 1, i + 1, right + 1, comp)
    modifies a
    ensures next == i - 1 && Heap(a[..], left, next, left, comp) && Rearranged(s, a[..], left, right + 1)
    ensures Sorted(a[..], i, right + 1, comp) && AllBelow(a[..], left, i, i, right + 1, comp)
  {
    hide StrictWeak, Heap, Rearranged, Sorted, AllBelow, Exchanged;
    TakeTop(a[..], left, i, right, comp);
    ExchangeWithin(a, i, left, s, left, right + 1);
    ghost var t := a[..];
    next := i - 1;
    Heapify(a, left, next, left, comp);
    HeapRestored(t, a[..], left, i, right, comp);
    RearrangedThen(s, t, a[..], left, right + 1, left, i);
  }

  method HsortArray<T(!new)>(a: array<T>, left: nat, right: nat, comp: Compare<T>)
    requires left <= right < a.Length && StrictWeak(comp)
    modifies a
    ensures Sorted(a[..], left, right + 1, comp) && Rearranged(old(a[..]), a[..], left, right + 1)
  {
    hide StrictWeak, Heap, Rearranged, Sorted, AllBelow;
    if right - left < 30 {
      IsortArray(a, left, right, comp);
      return;
    }
    ghost var s := a[..];
    BuildHeap(a, left, right, comp);
    var i := right;
    NothingSorted(a[..], left, right, comp);
    while i > left
      invariant left <= i <= right && Heap(a[..], left, i, left, comp) && Rearranged(s, a[..], left, right + 1)
      invariant Sorted(a[..], i + 1, right + 1, comp) && AllBelow(a[..], left, i + 1, i + 1, right + 1, comp)
    {
      i := MoveTop(a, left, i, right, comp, s);
    }
    AllSorted(a[..], left, right, comp);
  }

  lemma NothingSorted<T>(s: seq<T>, left: nat, right: nat, comp: Compare<T>)
    ensures Sorted(s, right + 1, right + 1, comp) && AllBelow(s, left, right + 1, right + 1, right + 1, comp)
  {
  }

  lemma AllSorted<T>(s: seq<T>, left: nat, right: nat, comp: Compare<T>)
    requires left <= right < |s| && Sorted(s, left + 1, right + 1, comp) && AllBelow(s, left, left + 1, left + 1, right + 1, comp)
    ensures Sorted(s, left, right + 1, comp)
  {
  }

  // ---- quicksort -------------------------------------------------------------------------

  /** Smaller elements before position i, the others from there up to j - 1. */
  ghost predicate PartlySplit<T>(s: seq<T>, left: nat, i: nat, j: nat, right: nat, comp: Compare<T>) {
    && left <= i <= j <= right < |s|
    && (forall k :: left <= k < i ==> comp(s[k], s[right]))
    && (forall k :: i <= k < j ==> !comp(s[k], s[right]))
  }

  /** The pivot at p is above what lies before it and not above what lies behind it. */
  ghost predicate Split<T>(s: seq<T>, left: nat, p: nat, right: nat, comp: Compare<T>) {
    && left <= p <= right < |s|
    && (forall k :: left <= k < p ==> comp(s[k], s[p]))
    && (forall k :: p < k <= right ==> !comp(s[k], s[p]))
  }

  lemma SplitMore<T>(s: seq<T>, left: nat, i: nat, j: nat, right: nat, comp: Compare<T>)
    requires PartlySplit(s, left, i, j, right, comp) && j < right
    ensures comp(s[j], s[right]) ==> PartlySplit(Exchanged(s, i, j), left, i + 1, j + 1, right, comp)
    ensures !comp(s[j], s[right]) ==> PartlySplit(s, left, i, j + 1, right, comp)
  {
  }

  lemma SplitEnds<T(!new)>(s: seq<T>, left: nat, i: nat, right: nat, comp: Compare<T>)
    requires StrictWeak(comp) && PartlySplit(s, left, i, right, right, comp)
    ensures Split(Exchanged(s, i, right), left, i, right, comp)
  {
  }

  method QsortPartition<T(!new)>(a: array<T>, left: nat, right: nat, comp: Compare<T>) returns (i: nat)
    requires left < right < a.Length && StrictWeak(comp)
    modifies a
    ensures Split(a[..], left, i, right, comp) && Rearranged(old(a[..]), a[..], left, right + 1)
  {
    hide StrictWeak, Rearranged, PartlySplit, Split;
    ghost var s := a[..];
    var middle := (right - left) / 2 + left;
    RearrangedSelf(s, left, right + 1);
    ExchangeWithin(a, middle, right, s, left, right + 1);
    i := left;
    StartSplit(a[..], left, right, comp);
    for j := left to right
      invariant left <= i <= j && PartlySplit(a[..], left, i, j, right, comp) && Rearranged(s, a[..], left, right + 1)
    {
      SplitMore(a[..], left, i, j, right, comp);
      if comp(a[j], a[right]) {
        ExchangeWithin(a, i, j, s, left, right + 1);
        i := i + 1;
      }
    }
    SplitEnds(a[..], left, i, right, comp);
    ExchangeWithin(a, i, right, s, left, right + 1);
  }

  lemma StartSplit<T>(s: seq<T>, left: nat, right: nat, comp: Compare<T>)
    requires left <= right < |s|
    ensures PartlySplit(s, left, left, left, right, comp)
  {
  }

  lemma SplitIsBelow<T(!new)>(s: seq<T>, left: nat, p: nat, right: nat, comp: Compare<T>)
    requires StrictWeak(comp) && Split(s, left, p, right, comp)
    ensures left <= p <= right < |s|
    ensures AllBelow(s, left, p, p, right + 1, comp) && AllBelow(s, p, p + 1, p + 1, right + 1, comp)
  {
  }

  /** Sorting what lies before the pivot ... */
  lemma LowerSorted<T>(s: seq<T>, t: seq<T>, left: nat, p: nat, right: nat, comp: Compare<T>)
    requires left <= p <= right < |s| && Rearranged(s, t, left, p)
    requires AllBelow(s, left, p, p, right + 1, comp) && AllBelow(s, p, p + 1, p + 1, right + 1, comp)
    ensures AllBelow(t, left, p, p, right + 1, comp) && AllBelow(t, p, p + 1, p + 1, right + 1, comp)
  {
    RearrangeLower(s, t, left, p, p, right + 1, comp);
  }

  /** ... and behind it sorts the whole. */
  lemma UpperSorted<T>(s: seq<T>, t: seq<T>, left: nat, p: nat, right: nat, comp: Compare<T>)
    requires left <= p <= right < |s| && Rearranged(s, t, p + 1, right + 1)
    requires AllBelow(s, left, p, p, right + 1, comp) && AllBelow(s, p, p + 1, p + 1, right + 1, comp)
    requires Sorted(s, left, p, comp) && Sorted(t, p + 1, right + 1, comp)
    ensures Sorted(t, left, right + 1, comp)
  {
    assert Rearranged(s, t, p, right + 1);
    RearrangeUpper(s, t, left, p, p, right + 1, comp);
    RearrangeUpper(s, t, p, p + 1, p + 1, right + 1, comp);
  }

  /** For any depth budget. */
  method QsortArrayMain<T(!new)>(a: array<T>, left: nat, right: nat, depthCheck: nat, comp: Compare<T>)
    requires left <= right + 1 && right < a.Length && StrictWeak(comp)
    modifies a
    ensures Sorted(a[..], left, right + 1, comp) && Rearranged(old(a[..]), a[..], left, right + 1)
    decreases right + 1 - left
  {
    hide StrictWeak, Rearranged, Sorted, AllBelow, Split;
    if left < right {
      if right - left < 30 || depthCheck == 0 {
        HsortArray(a, left, right, comp);
      } else {
        var depth := depthCheck / 2;
        depth := depth + depth / 16;
        ghost var s := a[..];
        var p := QsortPartition(a, left, right, comp);
        ghost var t := a[..];
        SplitIsBelow(t, left, p, right, comp);
        SortBefore(a, left, p, depth, comp, right);
        ghost var u := a[..];
        LowerSorted(t, u, left, p, right, comp);
        QsortArrayMain(a, p + 1, right, depth, comp);
        UpperSorted(u, a[..], left, p, right, comp);
        RearrangedThen(s, t, u, left, right + 1, left, p);
        RearrangedThen(s, u, a[..], left, right + 1, p + 1, right + 1);
      }
    } else {
      AtMostOne(a[..], left, right, comp);
    }
  }

  /** The part before the pivot, unless the pivot is the array's very first element. */
  method SortBefore<T(!new)>(a: array<T>, left: nat, p: nat, depth: nat, comp: Compare<T>, ghost right: nat)
    requires left <= p <= right < a.Length && StrictWeak(comp)
    modifies a
    ensures Sorted(a[..], left, p, comp) && Rearranged(old(a[..]), a[..], left, p)
    decreases right + 1 - left, 0
  {
    hide StrictWeak;
    if p > 0 {
      QsortArrayMain(a, left, p - 1, depth, comp);
    }
  }

  lemma AtMostOne<T>(s: seq<T>, left: nat, right: nat, comp: Compare<T>)
    requires left >= right
    ensures Sorted(s, left, right + 1, comp) && Rearranged(s, s, left, right + 1)
  {
  }

  method QsortArray<T(!new)>(a: array<T>, left: nat, right: nat, comp: Compare<T>)
    requires left <= right < a.Length && StrictWeak(comp)
    modifies a
    ensures Sorted(a[..], left, right + 1, comp) && Rearranged(old(a[..]), a[..], left, right + 1)
  {
    QsortArrayMain(a, left, right, right - left, comp);
  }
}
