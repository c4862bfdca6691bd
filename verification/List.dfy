/** The doubly linked list whose iterators survive mutation (src/List.h). */
module Lists {

  class ListNode<T> {
    var next: ListNode?<T>
    var prev: ListNode?<T>
    const val: T

    constructor (v: T, n: ListNode?<T>, p: ListNode?<T>)
      ensures val == v && next == n && prev == p
    {
      val := v;
      next := n;
      prev := p;
    }
  }

  /** A forward iterator: the node it will return next, or null at the end. */
  class ListIterator<T> {
    var node: ListNode?<T>

    constructor (n: ListNode?<T>)
      ensures node == n
    {
      node := n;
    }
  }

  /** s without x. */
  ghost function Without<A>(s: seq<A>, x: A): seq<A> {
    if s == [] then []
    else if s[0] == x then Without(s[1..], x)
    else [s[0]] + Without(s[1..], x)
  }

  lemma {:induction false} WithoutMembers<A>(s: seq<A>, x: A, y: A)
    ensures y in Without(s, x) <==> y in s && y != x
  {
    if s != [] {
      WithoutMembers(s[1..], x, y);
      assert s == [s[0]] + s[1..];
    }
  }

  lemma {:induction false} WithoutAbsent<A>(s: seq<A>, x: A)
    requires x !in s
    ensures Without(s, x) == s
  {
    if s != [] {
      WithoutAbsent(s[1..], x);
      assert s == [s[0]] + s[1..];
    }
  }

  lemma {:induction false} WithoutAt<A>(s: seq<A>, k: nat)
    requires k < |s|
    requires s[k] !in s[..k] && s[k] !in s[k + 1..]
    ensures Without(s, s[k]) == s[..k] + s[k + 1..]
  {
    if k == 0 {
      WithoutAbsent(s[1..], s[0]);
    } else {
      assert s[0] == s[..k][0];
      assert s[1..][..k - 1] == s[..k][1..];
      assert s[1..][k..] == s[k + 1..];
      WithoutAt(s[1..], k - 1);
    }
  }

  ghost predicate Distinct<A>(s: seq<A>) {
    forall i, j :: 0 <= i < j < |s| ==> s[i] != s[j]
  }

  ghost function IndexOf<A>(s: seq<A>, x: A): (k: nat)
    requires x in s
    ensures k < |s| && s[k] == x
  {
    var k :| 0 <= k < |s| && s[k] == x;
    k
  }

  ghost function SuffixFrom<A>(s: seq<A>, x: A): seq<A>
    requires x in s
  {
    s[IndexOf(s, x)..]
  }

  lemma SuffixAt<A>(s: seq<A>, k: nat)
    requires Distinct(s) && k < |s|
    ensures SuffixFrom(s, s[k]) == s[k..]
  {
  }

  lemma DistinctRemove<A>(s: seq<A>, k: nat)
    requires Distinct(s) && k < |s|
    ensures Distinct(s[..k] + s[k + 1..])
    ensures s[k] !in s[..k] && s[k] !in s[k + 1..]
    ensures Without(s, s[k]) == s[..k] + s[k + 1..]
  {
    WithoutAt(s, k);
  }

  /** What erasing node k leaves of the suffix starting at j. */
  lemma SuffixWithout<A>(s: seq<A>, j: nat, k: nat)
    requires j <= |s| && k < |s|
    requires s[k] !in s[..k] && s[k] !in s[k + 1..]
    ensures Without(s[j..], s[k]) == if j <= k then s[j..k] + s[k + 1..] else s[j..]
  {
    var t := s[j..];
    if j <= k {
      assert t[k - j] == s[k] && t[..k - j] == s[j..k] && t[k - j + 1..] == s[k + 1..];
      WithoutAt(t, k - j);
    } else {
      assert t == s[k + 1..][j - k - 1..];
      WithoutAbsent(t, s[k]);
    }
  }

  /** What an iterator standing at n has ahead. */
  ghost function Ahead<T>(nodes: seq<ListNode<T>>, n: ListNode?<T>): seq<ListNode<T>>
    requires n == null || n in nodes
  {
    if n == null then [] else var m: ListNode<T> := n; SuffixFrom(nodes, m)
  }

  class List<T> {
    var head: ListNode?<T>
    var tail: ListNode?<T>
    var size: nat
    var iterators: set<ListIterator<T>>

    ghost var Nodes: seq<ListNode<T>>

    ghost predicate Valid()
      reads this, Nodes, iterators
    {
      && Linked()
      && Distinct(Nodes)
      && (forall it :: it in iterators ==> it.node == null || it.node in Nodes)
    }

    ghost predicate Linked()
      reads this, Nodes
    {
      && size == |Nodes|
      && head == (if Nodes == [] then null else Nodes[0])
      && tail == (if Nodes == [] then null else Nodes[|Nodes| - 1])
      && (forall i {:trigger Nodes[i].prev} :: 0 <= i < |Nodes| ==>
            Nodes[i].prev == if i == 0 then null else Nodes[i - 1])
      && (forall i {:trigger Nodes[i].next} :: 0 <= i < |Nodes| ==>
            Nodes[i].next == if i == |Nodes| - 1 then null else Nodes[i + 1])
    }

    /** The nodes an iterator has yet to return, in order. */
    ghost function Pending(it: ListIterator<T>): seq<ListNode<T>>
      requires it in iterators && Valid()
      reads this, Nodes, iterators
    {
      Ahead(Nodes, it.node)
    }

    constructor ()
      ensures Valid() && Nodes == [] && iterators == {}
    {
      head, tail, size, iterators := null, null, 0, {};
      Nodes := [];
    }

    method Append(val: T) returns (token: ListNode<T>)
      requires Valid()
      modifies this, Nodes, iterators
      ensures Valid() && fresh(token) && token.val == val
      ensures Nodes == old(Nodes) + [token] && iterators == old(iterators)
      ensures forall it :: it in iterators ==> Pending(it) == old(Pending(it)) + [token]
    {
      token := LinkLast(val);
      NotifyAppended(token);
      forall it | it in iterators
        ensures it.node in Nodes
        ensures Ahead(Nodes, it.node) == old(Pending(it)) + [token]
      {
        AppendedPending(old(Nodes), token, old(it.node), it.node);
      }
    }

    method LinkLast(val: T) returns (token: ListNode<T>)
      requires Linked() && Distinct(Nodes)
      modifies this, Nodes
      ensures Linked() && Distinct(Nodes) && fresh(token) && token.val == val
      ensures Nodes == old(Nodes) + [token] && iterators == old(iterators)
    {
      token := new ListNode(val, null, tail);
      if tail == null {
        head := token;
      } else {
        tail.next := token;
      }
      tail := token;
      Nodes := Nodes + [token];
      size := size + 1;
    }

    /** Iterators at the end move to the node just appended. */
    method NotifyAppended(n: ListNode<T>)
      modifies iterators
      ensures forall it :: it in iterators ==> it.node == if old(it.node) == null then n else old(it.node)
    {
      var rest := iterators;
      while rest != {}
        invariant rest <= iterators
        invariant forall it :: it in iterators - rest ==> it.node == if old(it.node) == null then n else old(it.node)
        invariant forall it :: it in rest ==> it.node == old(it.node)
        decreases |rest|
      {
        var it :| it in rest;
        if it.node == null {
          it.node := n;
        }
        rest := rest - {it};
      }
    }

    method Prepend(val: T) returns (token: ListNode<T>)
      requires Valid()
      modifies this, Nodes
      ensures Valid() && fresh(token) && token.val == val
      ensures Nodes == [token] + old(Nodes) && iterators == old(iterators)
      ensures forall it :: it in iterators ==> Pending(it) == old(Pending(it))
    {
      token := LinkFirst(val);
      forall it | it in iterators
        ensures it.node == null || it.node in Nodes
        ensures Ahead(Nodes, it.node) == old(Pending(it))
      {
        if it.node != null {
          ghost var k := IndexOf(old(Nodes), it.node);
          assert Nodes[k + 1] == it.node;
          SuffixAt(Nodes, k + 1);
        }
      }
    }

    method LinkFirst(val: T) returns (token: ListNode<T>)
      requires Linked() && Distinct(Nodes)
      modifies this, Nodes
      ensures Linked() && Distinct(Nodes) && fresh(token) && token.val == val
      ensures Nodes == [token] + old(Nodes) && iterators == old(iterators)
    {
      token := new ListNode(val, head, null);
      if head == null {
        tail := token;
      } else {
        head.prev := token;
      }
      head := token;
      Nodes := [token] + Nodes;
      size := size + 1;
    }

    /** Iterators about to return the node step over it. */
    method NotifyDeleted(n: ListNode<T>)
      modifies iterators
      ensures forall it :: it in iterators ==> it.node == if old(it.node) == n then n.next else old(it.node)
    {
      var rest := iterators;
      while rest != {}
        invariant rest <= iterators
        invariant forall it :: it in iterators - rest ==> it.node == if old(it.node) == n then n.next else old(it.node)
        invariant forall it :: it in rest ==> it.node == old(it.node)
        decreases |rest|
      {
        var it :| it in rest;
        if it.node == n {
          it.node := n.next;
        }
        rest := rest - {it};
      }
    }

    /** The pointer surgery of Erase. */
    method Unlink(node: ListNode<T>, ghost k: nat)
      requires Linked() && Distinct(Nodes) && k < |Nodes| && node == Nodes[k]
      modifies this, Nodes
      ensures Linked() && iterators == old(iterators)
      ensures Nodes == old(Nodes)[..k] + old(Nodes)[k + 1..]
    {
      var next := node.next;
      var prev := node.prev;
      if prev != null {
        prev.next := next;
      } else {
        head := next;
      }
      if next != null {
        next.prev := prev;
      } else {
        tail := prev;
      }
      size := size - 1;
      Nodes := Nodes[..k] + Nodes[k + 1..];
      forall i | 0 <= i < |Nodes|
        ensures Nodes[i].prev == if i == 0 then null else Nodes[i - 1]
        ensures Nodes[i].next == if i == |Nodes| - 1 then null else Nodes[i + 1]
      {
        assert Nodes[i] == old(Nodes)[if i < k then i else i + 1];
      }
    }

    /** Erasing through a token; an empty token is ignored. */
    method Erase(token: ListNode?<T>)
      requires Valid()
      requires token == null || token in Nodes
      modifies this, Nodes, iterators
      ensures Valid() && iterators == old(iterators)
      ensures token == null ==> unchanged(this, old(Nodes), old(iterators))
      ensures token != null ==> var node: ListNode<T> := token;
        && Nodes == Without(old(Nodes), node)
        && (forall it :: it in iterators ==> Pending(it) == Without(old(Pending(it)), node))
    {
      if token == null {
        return;
      }
      EraseNode(token);
    }

    method EraseNode(node: ListNode<T>)
      requires Valid() && node in Nodes
      modifies this, Nodes, iterators
      ensures Valid() && iterators == old(iterators)
      ensures Nodes == Without(old(Nodes), node)
      ensures forall it :: it in iterators ==> Pending(it) == Without(old(Pending(it)), node)
    {
      ghost var k := IndexOf(Nodes, node);
      NotifyDeleted(node);
      Unlink(node, k);
      DistinctRemove(old(Nodes), k);
      forall it | it in iterators
        ensures it.node == null || it.node in Nodes
        ensures Ahead(Nodes, it.node) == Without(old(Pending(it)), node)
      {
        ErasedPending(old(Nodes), k, old(it.node), it.node);
      }
    }

    method Begin() returns (it: ListIterator<T>)
      requires Valid()
      modifies `iterators
      ensures Valid() && fresh(it) && iterators == old(iterators) + {it}
      ensures Pending(it) == Nodes
    {
      it := new ListIterator(head);
      iterators := iterators + {it};
      if Nodes != [] {
        SuffixAt(Nodes, 0);
      }
    }

    /** The iterator's destructor. */
    method Release(it: ListIterator<T>)
      requires Valid() && it in iterators
      modifies `iterators
      ensures Valid() && iterators == old(iterators) - {it}
    {
      iterators := iterators - {it};
    }

    method Next(it: ListIterator<T>) returns (val: T)
      requires Valid() && it in iterators && it.node != null
      modifies it
      ensures Valid()
      ensures old(Pending(it)) != [] && val == old(Pending(it))[0].val
      ensures Pending(it) == old(Pending(it))[1..]
      ensures forall other :: other in iterators && other != it ==> other.node == old(other.node)
    {
      ghost var k := IndexOf(Nodes, it.node);
      val := it.node.val;
      it.node := it.node.next;
      if k + 1 < |Nodes| {
        SuffixAt(Nodes, k + 1);
      }
    }
  }

  /** Where an iterator stands after a node was appended. */
  lemma AppendedPending<T>(nodes: seq<ListNode<T>>, token: ListNode<T>, before: ListNode?<T>, after: ListNode?<T>)
    requires Distinct(nodes) && token !in nodes && (before == null || before in nodes)
    requires after == if before == null then token else before
    ensures after in nodes + [token]
    ensures Ahead(nodes + [token], after) == Ahead(nodes, before) + [token]
  {
    var grown := nodes + [token];
    if before == null {
      SuffixAt(grown, |nodes|);
    } else {
      SuffixAt(grown, IndexOf(nodes, before));
    }
  }

  /** Where an iterator stands after node k of the list was unlinked. */
  lemma ErasedPending<T>(nodes: seq<ListNode<T>>, k: nat, before: ListNode?<T>, after: ListNode?<T>)
    requires k < |nodes| && Distinct(nodes)
    requires before == null || before in nodes
    requires after == if before != nodes[k] then before else if k == |nodes| - 1 then null else nodes[k + 1]
    ensures after == null || after in nodes[..k] + nodes[k + 1..]
    ensures Ahead(nodes[..k] + nodes[k + 1..], after) == Without(Ahead(nodes, before), nodes[k])
  {
    hide Distinct, Ahead, Without, SuffixFrom;
    DistinctRemove(nodes, k);
    AheadOfNone(nodes, nodes[..k] + nodes[k + 1..], nodes[k]);
    if before != null {
      ErasedSuffix(nodes, k, before, after);
    }
  }

  lemma AheadOfNone<T>(nodes: seq<ListNode<T>>, rest: seq<ListNode<T>>, x: ListNode<T>)
    ensures Ahead(nodes, null) == Ahead(rest, null) == Without(Ahead(nodes, null), x) == []
  {
  }

  lemma ErasedSuffix<T>(nodes: seq<ListNode<T>>, k: nat, n: ListNode<T>, after: ListNode?<T>)
    requires k < |nodes| && Distinct(nodes) && n in nodes
    requires after == if n != nodes[k] then n else if k == |nodes| - 1 then null else nodes[k + 1]
    ensures after == null || after in nodes[..k] + nodes[k + 1..]
    ensures Ahead(nodes[..k] + nodes[k + 1..], after) == Without(Ahead(nodes, n), nodes[k])
  {
    hide Distinct, Ahead, Without, SuffixFrom;
    var rest, j := nodes[..k] + nodes[k + 1..], IndexOf(nodes, n);
    DistinctRemove(nodes, k);
    SuffixWithout(nodes, j, k);
    AheadAt(nodes, j);
    if after == null {
      SameIndex(nodes, j, k);
      AheadOfNone(nodes, rest, nodes[k]);
    } else if j <= k {
      if j == k { assert rest[j] == nodes[k + 1]; } else { SameIndex(nodes, j, k); }
      AheadAt(rest, j);
      assert rest[j..] == nodes[j..k] + nodes[k + 1..];
    } else {
      SameIndex(nodes, j, k);
      AheadAt(rest, j - 1);
      assert rest[j - 1..] == nodes[j..];
    }
  }

  lemma SameIndex<A>(s: seq<A>, j: nat, k: nat)
    requires Distinct(s) && j < |s| && k < |s|
    ensures s[j] == s[k] <==> j == k
  {
  }

  lemma AheadAt<T>(nodes: seq<ListNode<T>>, j: nat)
    requires Distinct(nodes) && j < |nodes|
    ensures Ahead(nodes, nodes[j]) == nodes[j..]
  {
    SuffixAt(nodes, j);
  }
}
