/** Iterating over a list while it is changed: whole runs (src/List.h). */
module ListRuns {
  import opened Lists

  /** What can happen to a list with an iterator on it; Erase takes one of the tokens at hand. */
  datatype Command<T> = Append(val: T) | Prepend(val: T) | Erase(which: nat) | Next

  /** s without the members of x. */
  ghost function Keep<A>(s: seq<A>, x: set<A>): seq<A> {
    if s == [] then []
    else if s[0] in x then Keep(s[1..], x)
    else [s[0]] + Keep(s[1..], x)
  }

  lemma {:induction false} KeepAll<A>(s: seq<A>)
    ensures Keep(s, {}) == s
  {
    if s != [] {
      KeepAll(s[1..]);
      assert s == [s[0]] + s[1..];
    }
  }

  lemma {:induction false} KeepMembers<A>(s: seq<A>, x: set<A>, y: A)
    ensures y in Keep(s, x) <==> y in s && y !in x
  {
    if s != [] {
      KeepMembers(s[1..], x, y);
      assert s == [s[0]] + s[1..];
    }
  }

  lemma {:induction false} KeepOneMore<A>(s: seq<A>, x: set<A>, y: A)
    requires y !in x
    ensures Keep(s + [y], x) == Keep(s, x) + [y]
  {
    if s == [] {
      assert s + [y] == [y];
    } else {
      KeepOneMore(s[1..], x, y);
      assert (s + [y])[1..] == s[1..] + [y];
    }
  }

  lemma {:induction false} KeepOneLess<A>(s: seq<A>, x: set<A>, y: A)
    ensures Keep(s, x + {y}) == Without(Keep(s, x), y)
  {
    if s != [] {
      KeepOneLess(s[1..], x, y);
      assert s[0] !in x ==> ([s[0]] + Keep(s[1..], x))[1..] == Keep(s[1..], x);
    }
  }

  lemma {:induction false} WithoutJoin<A>(a: seq<A>, b: seq<A>, y: A)
    ensures Without(a + b, y) == Without(a, y) + Without(b, y)
  {
    if a == [] {
      assert a + b == b;
    } else {
      assert (a + b)[1..] == a[1..] + b;
      WithoutJoin(a[1..], b, y);
    }
  }

  lemma {:induction false} KeepDistinct<A>(s: seq<A>, x: set<A>)
    requires Distinct(s)
    ensures Distinct(Keep(s, x))
  {
    if s != [] {
      assert Distinct(s[1..]);
      KeepDistinct(s[1..], x);
      KeepMembers(s[1..], x, s[0]);
      var r := Keep(s[1..], x);
      assert s[0] !in r;
    }
  }

  /** The run so far: reached and pending elements are what was offered, less what was erased in time. */
  ghost predicate InStep<A>(offered: seq<A>, skipped: set<A>, reached: seq<A>, pending: seq<A>) {
    Distinct(offered) && reached + pending == Keep(offered, skipped) && forall x :: x in skipped ==> x in offered
  }

  lemma Offer<A>(offered: seq<A>, skipped: set<A>, reached: seq<A>, pending: seq<A>, x: A)
    requires InStep(offered, skipped, reached, pending) && x !in offered
    ensures InStep(offered + [x], skipped, reached, pending + [x])
  {
    KeepOneMore(offered, skipped, x);
    assert reached + (pending + [x]) == (reached + pending) + [x];
  }

  lemma Reach<A>(offered: seq<A>, skipped: set<A>, reached: seq<A>, pending: seq<A>)
    requires InStep(offered, skipped, reached, pending) && pending != []
    ensures InStep(offered, skipped, reached + [pending[0]], pending[1..])
  {
    assert reached + [pending[0]] + pending[1..] == reached + pending;
  }

  lemma Drop<A>(offered: seq<A>, skipped: set<A>, reached: seq<A>, pending: seq<A>, x: A)
    requires InStep(offered, skipped, reached, pending)
    ensures if x in pending then InStep(offered, skipped + {x}, reached, Without(pending, x))
            else InStep(offered, skipped, reached, Without(pending, x))
  {
    KeepDistinct(offered, skipped);
    if x in pending {
      KeepOneLess(offered, skipped, x);
      WithoutJoin(reached, pending, x);
      KeepMembers(offered, skipped, x);
      NotBefore(reached, pending, x);
      WithoutAbsent(reached, x);
    } else {
      WithoutAbsent(pending, x);
    }
  }

  lemma NotBefore<A>(a: seq<A>, b: seq<A>, x: A)
    requires Distinct(a + b) && x in b
    ensures x !in a && x in a + b
  {
    var k :| 0 <= k < |b| && b[k] == x;
    assert (a + b)[|a| + k] == x;
    assert forall j :: 0 <= j < |a| ==> (a + b)[j] == a[j];
  }

  function Values<T>(nodes: seq<ListNode<T>>): seq<T> {
    if nodes == [] then [] else Values(nodes[..|nodes| - 1]) + [nodes[|nodes| - 1].val]
  }

  lemma ValuesMore<T>(nodes: seq<ListNode<T>>, n: ListNode<T>)
    ensures Values(nodes + [n]) == Values(nodes) + [n.val]
  {
    assert (nodes + [n])[..|nodes|] == nodes;
  }

  /** What one command does to the run. */
  ghost predicate RunOk<T>(list: List<T>, it: ListIterator<T>, offered: seq<ListNode<T>>, skipped: set<ListNode<T>>, reached: seq<ListNode<T>>)
    reads list, list.Nodes, list.iterators
  {
    list.Valid() && it in list.iterators && InStep(offered, skipped, reached, list.Pending(it))
    && (forall x :: x in skipped ==> x !in list.Nodes)
  }

  method DoAppend<T>(list: List<T>, it: ListIterator<T>, val: T,
                     ghost offered: seq<ListNode<T>>, ghost skipped: set<ListNode<T>>, ghost reached: seq<ListNode<T>>)
    returns (token: ListNode<T>)
    requires RunOk(list, it, offered, skipped, reached)
    modifies list, list.Nodes, list.iterators
    ensures fresh(token) && token.val == val && RunOk(list, it, offered + [token], skipped, reached)
    ensures list.Nodes == old(list.Nodes) + [token] && list.iterators == old(list.iterators)
  {
    hide InStep, List.Valid;
    Offered(offered, skipped, reached, list.Pending(it));
    token := list.Append(val);
    Offer(offered, skipped, reached, old(list.Pending(it)), token);
  }

  /** Everything offered is a node that exists. */
  lemma Offered<A>(offered: seq<A>, skipped: set<A>, reached: seq<A>, pending: seq<A>)
    requires InStep(offered, skipped, reached, pending)
    ensures Distinct(offered)
  {
  }

  method DoPrepend<T>(list: List<T>, it: ListIterator<T>, val: T,
                      ghost offered: seq<ListNode<T>>, ghost skipped: set<ListNode<T>>, ghost reached: seq<ListNode<T>>)
    returns (token: ListNode<T>)
    requires RunOk(list, it, offered, skipped, reached)
    modifies list, list.Nodes, list.iterators
    ensures fresh(token) && RunOk(list, it, offered, skipped, reached)
    ensures list.Nodes == [token] + old(list.Nodes) && list.iterators == old(list.iterators)
  {
    hide InStep, List.Valid;
    token := list.Prepend(val);
  }

  method DoErase<T>(list: List<T>, it: ListIterator<T>, token: ListNode<T>,
                    ghost offered: seq<ListNode<T>>, ghost skipped: set<ListNode<T>>, ghost reached: seq<ListNode<T>>)
    returns (ghost after: set<ListNode<T>>)
    requires RunOk(list, it, offered, skipped, reached) && token in list.Nodes
    modifies list, list.Nodes, list.iterators
    ensures after == if token in old(list.Pending(it)) then skipped + {token} else skipped
    ensures RunOk(list, it, offered, after, reached)
    ensures list.Nodes == Without(old(list.Nodes), token) && list.iterators == old(list.iterators)
  {
    hide InStep, List.Valid, Without;
    ghost var pending := list.Pending(it);
    after := if token in pending then skipped + {token} else skipped;
    Drop(offered, skipped, reached, pending, token);
    StillGone(list.Nodes, skipped, token);
    list.Erase(token);
  }

  lemma StillGone<A>(nodes: seq<A>, skipped: set<A>, x: A)
    requires forall y :: y in skipped ==> y !in nodes
    ensures forall y :: y in skipped + {x} ==> y !in Without(nodes, x)
  {
    forall y | y in skipped + {x} ensures y !in Without(nodes, x) {
      WithoutMembers(nodes, x, y);
    }
  }

  method DoNext<T>(list: List<T>, it: ListIterator<T>,
                   ghost offered: seq<ListNode<T>>, ghost skipped: set<ListNode<T>>, ghost reached: seq<ListNode<T>>)
    returns (val: T, ghost node: ListNode<T>)
    requires RunOk(list, it, offered, skipped, reached) && it.node != null
    modifies it
    ensures node == old(it.node) && val == node.val && RunOk(list, it, offered, skipped, reached + [node])
  {
    hide InStep;
    ghost var pending := list.Pending(it);
    node := it.node;
    SuffixHead(list.Nodes, node);
    Reach(offered, skipped, reached, pending);
    val := list.Next(it);
  }

  lemma SuffixHead<T>(nodes: seq<ListNode<T>>, n: ListNode<T>)
    requires n in nodes
    ensures Ahead(nodes, n) != [] && Ahead(nodes, n)[0] == n
  {
  }

  // ---- any interleaving --------------------------------------------------------------------

  /** The values appended by the commands, in order. */
  function AppendedBy<T>(commands: seq<Command<T>>): seq<T> {
    if commands == [] then []
    else
      var last := commands[|commands| - 1];
      AppendedBy(commands[..|commands| - 1]) + if last.Append? then [last.val] else []
  }

  lemma AppendedMore<T>(commands: seq<Command<T>>, n: nat)
    requires n < |commands|
    ensures AppendedBy(commands[..n + 1]) ==
      if commands[n].Append? then AppendedBy(commands[..n]) + [commands[n].val] else AppendedBy(commands[..n])
  {
    assert commands[..n + 1][..n] == commands[..n];
  }

  /** Distinct tokens of nodes that are in the list. */
  ghost predicate Tokens<T>(nodes: seq<ListNode<T>>, tokens: seq<ListNode<T>>) {
    Distinct(tokens) && forall k :: 0 <= k < |tokens| ==> tokens[k] in nodes
  }

  lemma TokenAdded<T>(nodes: seq<ListNode<T>>, tokens: seq<ListNode<T>>, token: ListNode<T>, after: seq<ListNode<T>>)
    requires Tokens(nodes, tokens) && token !in nodes && (after == nodes + [token] || after == [token] + nodes)
    ensures Tokens(after, tokens + [token])
  {
  }

  lemma TokenSpent<T>(nodes: seq<ListNode<T>>, tokens: seq<ListNode<T>>, k: nat)
    requires Tokens(nodes, tokens) && k < |tokens|
    ensures Tokens(Without(nodes, tokens[k]), tokens[..k] + tokens[k + 1..])
  {
    DistinctRemove(tokens, k);
    forall x | x in tokens[..k] + tokens[k + 1..] ensures x in Without(nodes, tokens[k]) {
      WithoutMembers(nodes, tokens[k], x);
    }
  }

  ghost predicate Extends<T>(before: seq<ListNode<T>>, offered: seq<ListNode<T>>, appended: seq<T>) {
    |before| <= |offered| && offered[..|before|] == before && Values(offered[|before|..]) == appended
  }

  lemma ExtendsMore<T>(before: seq<ListNode<T>>, offered: seq<ListNode<T>>, appended: seq<T>, n: ListNode<T>)
    requires Extends(before, offered, appended)
    ensures Extends(before, offered + [n], appended + [n.val])
  {
    assert (offered + [n])[|before|..] == offered[|before|..] + [n];
    ValuesMore(offered[|before|..], n);
  }

  lemma ExtendsNone<T>(before: seq<ListNode<T>>)
    ensures Extends(before, before, [])
  {
    assert before[|before|..] == [];
  }

  /** Nodes known before or made since. */
  lemma StartRun<T>(pending: seq<ListNode<T>>)
    requires Distinct(pending)
    ensures InStep(pending, {}, [], pending)
  {
    KeepAll(pending);
    assert [] + pending == pending;
  }

  lemma PendingDistinct<T>(list: List<T>, it: ListIterator<T>)
    requires list.Valid() && it in list.iterators
    ensures Distinct(list.Pending(it))
  {
  }

  /**
   * Over any sequence of commands the iterator yields, in order and once each, exactly the elements
   * that were ahead of it or appended later, except those erased before it reached them; what was
   * prepended is not among them.
   */
  method Drive<T>(list: List<T>, it: ListIterator<T>, start: seq<ListNode<T>>, commands: seq<Command<T>>)
    returns (yielded: seq<T>, ghost offered: seq<ListNode<T>>, ghost skipped: set<ListNode<T>>, ghost reached: seq<ListNode<T>>)
    requires list.Valid() && it in list.iterators && Tokens(list.Nodes, start)
    modifies list, list.Nodes, list.iterators
    ensures RunOk(list, it, offered, skipped, reached) && yielded == Values(reached)
    ensures Extends(old(list.Pending(it)), offered, AppendedBy(commands))
  {
    hide InStep, List.Valid, Tokens, Extends, Values, AppendedBy, Distinct;
    ghost var ahead := list.Pending(it);
    PendingDistinct(list, it);
    StartRun(ahead);
    ExtendsNone(ahead);
    var tokens := start;
    yielded, offered, skipped, reached := [], ahead, {}, [];
    NoneYet(commands);
    for n := 0 to |commands|
      invariant RunOk(list, it, offered, skipped, reached) && yielded == Values(reached) && Tokens(list.Nodes, tokens)
      invariant Extends(ahead, offered, AppendedBy(commands[..n]))
      invariant list.iterators == old(list.iterators)
      invariant forall k {:trigger list.Nodes[k]} :: 0 <= k < |list.Nodes| ==>
        list.Nodes[k] in old(list.Nodes) || fresh(list.Nodes[k])
    {
      AppendedMore(commands, n);
      ghost var before := list.Nodes;
      match commands[n]
      case Append(val) =>
        var token := DoAppend(list, it, val, offered, skipped, reached);
        TokenAdded(before, tokens, token, list.Nodes);
        ExtendsMore(ahead, offered, AppendedBy(commands[..n]), token);
        offered := offered + [token];
        tokens := tokens + [token];
      case Prepend(val) =>
        var token := DoPrepend(list, it, val, offered, skipped, reached);
        TokenAdded(before, tokens, token, list.Nodes);
        tokens := tokens + [token];
      case Erase(which) =>
        if which < |tokens| {
          TokenSpent(before, tokens, which);
          TokenListed(before, tokens, which);
          skipped := DoErase(list, it, tokens[which], offered, skipped, reached);
          FromBefore(before, tokens[which]);
          tokens := tokens[..which] + tokens[which + 1..];
        }
      case Next =>
        if it.node != null {
          var val;
          ghost var node;
          val, node := DoNext(list, it, offered, skipped, reached);
          ValuesMore(reached, node);
          yielded := yielded + [val];
          reached := reached + [node];
        }
    }
    assert commands[..|commands|] == commands;
  }

  lemma NoneYet<T>(commands: seq<Command<T>>)
    ensures AppendedBy(commands[..0]) == [] && Values<T>([]) == []
  {
  }

  lemma TokenListed<T>(nodes: seq<ListNode<T>>, tokens: seq<ListNode<T>>, k: nat)
    requires Tokens(nodes, tokens) && k < |tokens|
    ensures tokens[k] in nodes
  {
  }

  lemma FromBefore<A>(nodes: seq<A>, x: A)
    ensures forall k {:trigger Without(nodes, x)[k]} :: 0 <= k < |Without(nodes, x)| ==> Without(nodes, x)[k] in nodes
  {
    forall k | 0 <= k < |Without(nodes, x)| ensures Without(nodes, x)[k] in nodes {
      WithoutMembers(nodes, x, Without(nodes, x)[k]);
    }
  }

  /** The same once more in plain words: order, no repeats, nothing erased in time, nothing else. */
  lemma WhatIsYielded<A>(offered: seq<A>, skipped: set<A>, reached: seq<A>, pending: seq<A>)
    requires InStep(offered, skipped, reached, pending)
    ensures Distinct(reached + pending)
    ensures forall x :: x in reached + pending <==> x in offered && x !in skipped
  {
    KeepDistinct(offered, skipped);
    forall x ensures x in reached + pending <==> x in offered && x !in skipped {
      KeepMembers(offered, skipped, x);
    }
  }
}
