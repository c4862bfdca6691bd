/** The vector-backed map every other part relies on (src/ItemMap.h). */
module ItemMaps {
  import opened Orders

  class ItemMap<T> {
    /** What growing the vector puts into the gaps. */
    const blank: T
    var v: seq<T>
    var valid: seq<bool>

    ghost predicate Valid()
      reads this
    {
      |v| == |valid|
    }

    /** The map that the two vectors stand for: item i sits at index i - 1. */
    ghost function View(): map<Item, T>
      requires Valid()
      reads this
    {
      map i: Item | i <= |valid| && Held(i) :: v[i - 1]
    }

    predicate Held(i: Item)
      reads this
    {
      i <= |valid| && valid[i - 1]
    }

    constructor (default: T)
      ensures Valid() && View() == map[] && IsEmpty()
    {
      blank, v, valid := default, [], [];
    }

    predicate IsEmpty()
      reads this
    {
      v == [] && valid == []
    }

    /** 0 is the null item. */
    predicate Contains(item: nat)
      requires Valid()
      reads this
      ensures Contains(item) <==> item > 0 && item in View()
    {
      if item == 0 then false
      else if item > |valid| then false
      else valid[item - 1]
    }

    method Set(key: Item, value: T)
      requires Valid()
      modifies this
      ensures Valid() && View() == old(View())[key := value]
      ensures |v| >= |old(v)| && (key <= |old(v)| ==> |v| == |old(v)|)
    {
      var index := key - 1;
      if index >= |v| {
        v := v + seq(index + 1 - |v|, _ => blank);
        valid := valid + seq(index + 1 - |valid|, _ => false);
      }
      v := v[index := value];
      valid := valid[index := true];
    }

    function Get(key: Item): (value: T)
      requires Valid() && Contains(key)
      reads this
      ensures value == View()[key]
    {
      v[key - 1]
    }

    function GetOr(key: Item, fallback: T): (value: T)
      requires Valid()
      reads this
      ensures value == if key in View() then View()[key] else fallback
    {
      if !Contains(key) then fallback else v[key - 1]
    }

    method Erase(key: Item)
      requires Valid() && Contains(key)
      modifies `valid
      ensures Valid() && View() == old(View()) - {key}
    {
      valid := valid[key - 1 := false];
    }

    method Clear()
      requires Valid()
      modifies this
      ensures Valid() && View() == map[] && IsEmpty()
    {
      v, valid := [], [];
    }

    /** An erased map is not empty for IsEmpty, which looks at the vectors. */
    lemma EmptyHasNoItems()
      requires Valid()
      ensures IsEmpty() ==> View() == map[]
      ensures View() == map[] && !IsEmpty() <==> |valid| > 0 && forall k :: 0 <= k < |valid| ==> !valid[k]
    {
      if View() == map[] {
        forall k | 0 <= k < |valid| ensures !valid[k] {
          var i: Item := k + 1;
          assert i !in View();
        }
      }
    }
  }

  /** Walks the items in ascending order. */
  class ItemMapIterator<T> {
    const of: ItemMap<T>
    var index: nat

    constructor (m: ItemMap<T>)
      ensures of == m && index == 0
    {
      of, index := m, 0;
    }

    method HasNext() returns (more: bool)
      requires of.Valid()
      modifies this
      ensures old(index) <= index && (index <= |of.valid| || index == old(index))
      ensures forall k :: old(index) <= k < index && k < |of.valid| ==> !of.valid[k]
      ensures more <==> index < |of.valid| && of.valid[index]
      ensures !more ==> index >= |of.valid|
    {
      while index < |of.v| && !of.valid[index]
        invariant old(index) <= index && (index <= |of.valid| || index == old(index))
        invariant forall k :: old(index) <= k < index && k < |of.valid| ==> !of.valid[k]
        decreases |of.v| - index
      {
        index := index + 1;
      }
      more := index < |of.v|;
    }

    method Next()
      requires of.Valid()
      modifies this
      ensures old(index) < |of.valid| ==> old(index) < index <= |of.valid| && (index < |of.valid| ==> of.valid[index])
      ensures old(index) >= |of.valid| ==> index == old(index)
      ensures forall k :: old(index) < k < index ==> k < |of.valid| && !of.valid[k]
    {
      if index >= |of.v| {
        return;
      }
      index := index + 1;
      while index < |of.v| && !of.valid[index]
        invariant old(index) < index <= |of.valid|
        invariant forall k :: old(index) < k < index ==> !of.valid[k]
      {
        index := index + 1;
      }
    }

    function GetKey(): Item
      reads this
    {
      index + 1
    }

    function GetValue(): T
      requires of.Valid() && index < |of.v|
      reads this, of
    {
      of.v[index]
    }
  }

  /** The usual loop over a map meets every item once, in ascending order. */
  method Keys<T>(m: ItemMap<T>) returns (keys: seq<Item>)
    requires m.Valid()
    ensures forall j, k :: 0 <= j < k < |keys| ==> keys[j] < keys[k]
    ensures forall i: Item :: i in keys <==> i in m.View()
  {
    keys := [];
    var itr := new ItemMapIterator(m);
    var more := itr.HasNext();
    while more
      invariant itr.of == m && fresh(itr) && (more <==> itr.index < |m.valid| && m.valid[itr.index])
      invariant !more ==> itr.index >= |m.valid|
      invariant forall j, k :: 0 <= j < k < |keys| ==> keys[j] < keys[k]
      invariant forall i: Item :: i in keys <==> i in m.View() && i <= itr.index
      decreases |m.valid| - itr.index, more
    {
      assert forall j :: 0 <= j < |keys| ==> keys[j] in keys;
      assert m.Held(itr.index + 1);
      keys := keys + [itr.GetKey()];
      itr.Next();
      more := itr.HasNext();
    }
  }

  // ---- tables of counts --------------------------------------------------------------------

  method Increment(m: ItemMap<nat>, key: Item, value: nat)
    requires m.Valid()
    modifies m
    ensures m.Valid() && m.View() == old(m.View())[key := Get(old(m.View()), key) + value]
  {
    m.Set(key, m.GetOr(key, 0) + value);
  }

  method Decrement(m: ItemMap<nat>, key: Item, value: nat)
    requires m.Valid() && m.Contains(key) && m.Get(key) >= value
    modifies m
    ensures m.Valid() && m.View() == old(m.View())[key := old(m.View())[key] - value]
  {
    m.Set(key, m.Get(key) - value);
  }

  /** The entries of items up to k have been added (sign 1) or taken away (sign -1). */
  ghost predicate DoneUpTo(before: map<Item, nat>, other: map<Item, nat>, now: map<Item, nat>, k: nat, sign: int) {
    && (forall i: Item :: i in now <==> i in before || (i in other && i <= k))
    && (forall i: Item :: Get(now, i) == Get(before, i) + if i <= k then sign * Get(other, i) else 0)
  }

  lemma DoneNothing(before: map<Item, nat>, other: map<Item, nat>, sign: int)
    ensures DoneUpTo(before, other, before, 0, sign)
  {
  }

  /** One more entry; the items between k and the key have none. */
  lemma DoneOneMore(before: map<Item, nat>, other: map<Item, nat>, now: map<Item, nat>, k: nat, key: Item, value: nat, sign: int)
    requires DoneUpTo(before, other, now, k, sign) && key in other && k < key && (sign == 1 || sign == -1)
    requires forall i: Item :: k < i < key ==> i !in other
    requires value == Get(now, key) + sign * other[key]
    ensures DoneUpTo(before, other, now[key := value], key, sign)
  {
  }

  lemma DoneFurther(before: map<Item, nat>, other: map<Item, nat>, now: map<Item, nat>, k: nat, k1: nat, sign: int)
    requires DoneUpTo(before, other, now, k, sign) && k <= k1
    requires forall i: Item :: k < i <= k1 ==> i !in other
    ensures DoneUpTo(before, other, now, k1, sign)
  {
  }

  lemma DoneAll(before: map<Item, nat>, other: map<Item, nat>, now: map<Item, nat>, k: nat, sign: int)
    requires DoneUpTo(before, other, now, k, sign) && forall i :: i in other ==> i <= k
    ensures now.Keys == before.Keys + other.Keys
    ensures forall i: Item :: Get(now, i) == Get(before, i) + sign * Get(other, i)
  {
  }

  /** The iterator's step from one entry to the next, past positions without one. */
  method Advance(itr: ItemMapIterator<nat>, ghost keys: set<Item>) returns (more: bool)
    requires itr.of.Valid() && keys == itr.of.View().Keys && itr.index < |itr.of.valid|
    modifies itr
    ensures itr.index > old(itr.index)
    ensures forall i: Item :: old(itr.index) + 1 < i <= itr.index ==> i !in keys
    ensures more <==> itr.index < |itr.of.valid| && itr.of.valid[itr.index]
    ensures !more ==> itr.index >= |itr.of.valid|
  {
    itr.Next();
    more := itr.HasNext();
  }

  method First(itr: ItemMapIterator<nat>, ghost keys: set<Item>) returns (more: bool)
    requires itr.of.Valid() && keys == itr.of.View().Keys && itr.index == 0
    modifies itr
    ensures forall i: Item :: i <= itr.index ==> i !in keys
    ensures more <==> itr.index < |itr.of.valid| && itr.of.valid[itr.index]
    ensures !more ==> itr.index >= |itr.of.valid|
  {
    more := itr.HasNext();
  }

  /** What the loop has still to read of the other table, which may be the one it writes to. */
  ghost predicate StillThere(entries: map<Item, nat>, now: map<Item, nat>, k: nat) {
    now.Keys == entries.Keys && forall i: Item :: i in entries && i > k ==> now[i] == entries[i]
  }

  lemma SetBehind(entries: map<Item, nat>, now: map<Item, nat>, k: nat, key: Item, value: nat, k1: nat)
    requires StillThere(entries, now, k) && key in entries && k <= key <= k1
    ensures StillThere(entries, now, k1) && StillThere(entries, now[key := value], k1)
  {
  }

  /** Adding one table into another adds up every count; added to itself, it doubles. */
  method Add(m: ItemMap<nat>, other: ItemMap<nat>)
    requires m.Valid() && other.Valid()
    modifies m
    ensures m.Valid() && m.View().Keys == old(m.View()).Keys + old(other.View()).Keys
    ensures forall i: Item :: Get(m.View(), i) == Get(old(m.View()), i) + Get(old(other.View()), i)
  {
    hide DoneUpTo, StillThere;
    ghost var before, entries := m.View(), other.View();
    var itr := new ItemMapIterator(other);
    var more := First(itr, entries.Keys);
    DoneNothing(before, entries, 1);
    DoneFurther(before, entries, before, 0, itr.index, 1);
    AllThere(entries, itr.index);
    while more
      invariant itr.of == other && fresh(itr) && m.Valid() && other.Valid()
      invariant |other.valid| == old(|other.valid|) && (more <==> itr.index < |other.valid| && other.valid[itr.index])
      invariant !more ==> itr.index >= |other.valid|
      invariant DoneUpTo(before, entries, m.View(), itr.index, 1) && StillThere(entries, other.View(), itr.index)
      decreases |other.valid| - itr.index, more
    {
      ghost var k := itr.index;
      var key := itr.GetKey();
      assert other.Held(key) && key in other.View() && other.View()[key] == itr.GetValue();
      ReadEntry(entries, other.View(), k, key);
      DoneOneMore(before, entries, m.View(), k, key, Get(m.View(), key) + entries[key], 1);
      SetBehind(entries, other.View(), k, key, Get(m.View(), key) + entries[key], key);
      m.Set(key, m.GetOr(key, 0) + itr.GetValue());
      more := Advance(itr, entries.Keys);
      DoneFurther(before, entries, m.View(), key, itr.index, 1);
      SetBehind(entries, other.View(), key, key, 0, itr.index);
    }
    DoneAll(before, entries, m.View(), itr.index, 1);
  }

  lemma AllThere(entries: map<Item, nat>, k: nat)
    ensures StillThere(entries, entries, k)
  {
  }

  lemma ReadEntry(entries: map<Item, nat>, now: map<Item, nat>, k: nat, key: Item)
    requires StillThere(entries, now, k) && key in now && key > k
    ensures key in entries && now[key] == entries[key]
  {
  }

  /** Removing a table takes every count away again. */
  method Remove(m: ItemMap<nat>, other: ItemMap<nat>)
    requires m.Valid() && other.Valid()
    requires forall i: Item :: Get(m.View(), i) >= Get(other.View(), i)
    modifies m
    ensures m.Valid() && m.View().Keys == old(m.View()).Keys + old(other.View()).Keys
    ensures forall i: Item :: Get(m.View(), i) == Get(old(m.View()), i) - Get(old(other.View()), i)
  {
    hide DoneUpTo, StillThere;
    ghost var before, entries := m.View(), other.View();
    var itr := new ItemMapIterator(other);
    var more := First(itr, entries.Keys);
    DoneNothing(before, entries, -1);
    DoneFurther(before, entries, before, 0, itr.index, -1);
    AllThere(entries, itr.index);
    while more
      invariant itr.of == other && fresh(itr) && m.Valid() && other.Valid()
      invariant |other.valid| == old(|other.valid|) && (more <==> itr.index < |other.valid| && other.valid[itr.index])
      invariant !more ==> itr.index >= |other.valid|
      invariant DoneUpTo(before, entries, m.View(), itr.index, -1) && StillThere(entries, other.View(), itr.index)
      decreases |other.valid| - itr.index, more
    {
      ghost var k := itr.index;
      var key := itr.GetKey();
      var val := m.GetOr(key, 0);
      assert other.Held(key) && key in other.View() && other.View()[key] == itr.GetValue();
      ReadEntry(entries, other.View(), k, key);
      StillEnough(before, entries, m.View(), k, key);
      DoneOneMore(before, entries, m.View(), k, key, val - entries[key], -1);
      SetBehind(entries, other.View(), k, key, val - entries[key], key);
      m.Set(key, val - itr.GetValue());
      more := Advance(itr, entries.Keys);
      DoneFurther(before, entries, m.View(), key, itr.index, -1);
      SetBehind(entries, other.View(), key, key, 0, itr.index);
    }
    DoneAll(before, entries, m.View(), itr.index, -1);
  }

  lemma StillEnough(before: map<Item, nat>, other: map<Item, nat>, now: map<Item, nat>, k: nat, key: Item)
    requires DoneUpTo(before, other, now, k, -1) && k < key && key in other
    requires forall i: Item :: Get(before, i) >= Get(other, i)
    ensures Get(now, key) >= other[key]
  {
  }

  /** Add and then Remove of another table leaves every count as it was; of the table itself, none. */
  method RemoveUndoesAdd(m: ItemMap<nat>, other: ItemMap<nat>)
    requires m.Valid() && other.Valid()
    modifies m
    ensures m.Valid() && forall i: Item :: Get(m.View(), i) == if m == other then 0 else Get(old(m.View()), i)
  {
    Add(m, other);
    Remove(m, other);
  }
}
