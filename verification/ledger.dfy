/**
 The operations of `BlockchainLedger`. Each requires the ledger (arena and
 genesis) to hold a chain; the ghost parameter `order` is that chain.
 `AddBlock`, `DeleteBlock` and `SortByType` return the new ledger, and their
 contracts state that `IsChain` holds of the new chain order and that its
 blocks are the corresponding function of module `Chain` applied to the old
 blocks. The lookups and printouts return their result, stated against the
 blocks of the unchanged ledger.
 */
module BlockchainLedger {
  import opened Chain
  import opened Arena

  /** A new ledger: genesis is null, and it holds the empty chain. */
  function NewLedger(): (L: Ledger)
    ensures IsChain(L.arena, L.genesis, [])
    ensures L.genesis.None?
  {
    Ledger([], None)
  }

  /**
   Walk from genesis while the current node's id differs from `id`; the node
   reached is the first one carrying `id`, or null when none does.
   */
  method Seek(L: Ledger, ghost order: seq<Ref>, id: string) returns (cur: Option<Ref>)
    requires IsChain(L.arena, L.genesis, order)
    ensures FirstMatch(View(L.arena, order), id).None? ==> cur.None?
    ensures FirstMatch(View(L.arena, order), id).Some? ==>
      cur == Some(order[FirstMatch(View(L.arena, order), id).value])
  {
    var a := L.arena;
    cur := L.genesis;
    ghost var k := 0;
    while cur.Some? && a[cur.value].block.id != id
      invariant 0 <= k <= |order|
      invariant cur == if k < |order| then Some(order[k]) else None
      invariant forall j :: 0 <= j < k ==> a[order[j]].block.id != id
      decreases |order| - k
    {
      LinkAt(a, order, k);
      cur := a[cur.value].next;
      k := k + 1;
    }
    ghost var s := View(a, order);
    if cur.Some? {
      assert s[k].id == id;
      assert forall j :: 0 <= j < k ==> s[j].id != id;
      assert FirstMatch(s, id) == Some(k);
    } else {
      assert forall j :: 0 <= j < |s| ==> s[j].id != id;
    }
  }

  /** Walk from genesis while there is a next node; the node reached is the last of the chain. */
  method SeekLast(L: Ledger, ghost order: seq<Ref>) returns (last: Ref)
    requires IsChain(L.arena, L.genesis, order) && L.genesis.Some?
    ensures order != [] && last == order[|order| - 1]
    ensures last < |L.arena| && L.arena[last].next.None?
  {
    var a := L.arena;
    last := L.genesis.value;
    ghost var k := 0;
    while a[last].next.Some?
      invariant 0 <= k < |order| && last == order[k]
      decreases |order| - k
    {
      LinkAt(a, order, k);
      LinkAt(a, order, k + 1);
      k := k + 1;
      last := a[last].next.value;
    }
    LinkAt(a, order, k);
  }

  /** `addBlock`: a new node for (id, data, kind) becomes genesis, or is linked after the last node. */
  method AddBlock(L: Ledger, ghost order: seq<Ref>, id: string, data: string, kind: string) returns (L2: Ledger)
    requires IsChain(L.arena, L.genesis, order)
    ensures IsChain(L2.arena, L2.genesis, order + [|L.arena|])
    ensures View(L2.arena, order + [|L.arena|]) == View(L.arena, order) + [Block(id, data, kind)]
    ensures L.genesis.None? ==> L2.genesis == Some(|L.arena|)
    ensures L.genesis.Some? ==> L2.genesis == L.genesis
    ensures |L2.arena| == |L.arena| + 1
    ensures forall r :: 0 <= r < |L.arena| ==> L2.arena[r].block == L.arena[r].block
  {
    var n := |L.arena|;
    var b := Block(id, data, kind);
    var a := L.arena + [Node(b, None, None)];
    AllocLinked(L.arena, order, b);
    if L.genesis.None? {
      L2 := Ledger(a, Some(n));
    } else {
      var last := SeekLast(Ledger(a, L.genesis), order);
      JoinLinked(a, order, [n]);
      a := Join(a, last, n);
      L2 := Ledger(a, L.genesis);
    }
    ViewConcat(L.arena + [Node(b, None, None)], order, [n]);
    ViewSameBlocks(L.arena + [Node(b, None, None)], L2.arena, order + [n]);
  }

  /** `deleteBlock`: unlink the first node carrying `id`; report whether there was one. */
  method DeleteBlock(L: Ledger, ghost order: seq<Ref>, id: string) returns (L2: Ledger, removed: bool)
    requires IsChain(L.arena, L.genesis, order)
    ensures removed <==> exists j :: 0 <= j < |order| && L.arena[order[j]].block.id == id
    ensures removed <==> FirstMatch(View(L.arena, order), id).Some?
    ensures !removed ==> L2 == L
    ensures removed ==>
      var k := FirstMatch(View(L.arena, order), id).value;
      && IsChain(L2.arena, L2.genesis, order[..k] + order[k + 1..])
      && View(L2.arena, order[..k] + order[k + 1..]) == DeleteFirst(View(L.arena, order), id)
    ensures SameBlocks(L.arena, L2.arena)
  {
    var cur := Seek(L, order, id);
    ghost var s := View(L.arena, order);
    if cur.None? {
      forall j | 0 <= j < |order|
        ensures L.arena[order[j]].block.id != id
      {
        assert s[j] == L.arena[order[j]].block;
      }
      return L, false;
    }
    ghost var k := FirstMatch(s, id).value;
    assert s[k] == L.arena[order[k]].block;
    assert exists j :: 0 <= j < |order| && L.arena[order[j]].block.id == id by {
      LinkAt(L.arena, order, k);
    }
    UnlinkChain(L, order, k);
    L2 := Unlink(L, cur.value);
    removed := true;
    ViewDelete(L.arena, order, k);
    ViewSameBlocks(L.arena, L2.arena, order[..k] + order[k + 1..]);
  }

  /** `findBlock`: the block of the first node carrying `id`, if any. */
  method FindBlock(L: Ledger, ghost order: seq<Ref>, id: string) returns (r: Option<Block>)
    requires IsChain(L.arena, L.genesis, order)
    ensures r == Find(View(L.arena, order), id)
  {
    var cur := Seek(L, order, id);
    if cur.Some? {
      LinkAt(L.arena, order, FirstMatch(View(L.arena, order), id).value);
      r := Some(L.arena[cur.value].block);
    } else {
      r := None;
    }
  }

  /** `printChain`: the blocks met following `next` from genesis. */
  method PrintChain(L: Ledger, ghost order: seq<Ref>) returns (p: Printout)
    requires IsChain(L.arena, L.genesis, order)
    ensures p == Listing(View(L.arena, order))
    ensures p.EmptyChain? <==> L.genesis.None?
  {
    if L.genesis.None? {
      return EmptyChain;
    }
    var a := L.arena;
    var rows: seq<Block> := [];
    var cur := L.genesis;
    ghost var k := 0;
    while cur.Some?
      invariant 0 <= k <= |order|
      invariant cur == if k < |order| then Some(order[k]) else None
      invariant InArena(a, order[..k]) && rows == View(a, order[..k])
      decreases |order| - k
    {
      LinkAt(a, order, k);
      ViewPrefixStep(a, order, k);
      rows := rows + [a[cur.value].block];
      cur := a[cur.value].next;
      k := k + 1;
    }
    assert order[..k] == order;
    p := Rows(rows);
  }

  /** `printInReverse`: walk to the last node, then the blocks met following `prev`. */
  method PrintInReverse(L: Ledger, ghost order: seq<Ref>) returns (p: Printout)
    requires IsChain(L.arena, L.genesis, order)
    ensures p == Listing(Reverse(View(L.arena, order)))
    ensures p.EmptyChain? <==> L.genesis.None?
  {
    if L.genesis.None? {
      return EmptyChain;
    }
    var a := L.arena;
    var last := SeekLast(L, order);
    LinkAt(a, order, |order| - 1);
    var rows: seq<Block> := [];
    var cur := Some(last);
    ghost var m := |order|;
    while cur.Some?
      invariant 0 <= m <= |order|
      invariant cur == if 0 < m then Some(order[m - 1]) else None
      invariant InArena(a, order[m..]) && rows == Reverse(View(a, order[m..]))
      decreases m
    {
      LinkAt(a, order, m - 1);
      ViewSuffixStep(a, order, m);
      ReverseCons(a[order[m - 1]].block, View(a, order[m..]));
      rows := rows + [a[cur.value].block];
      cur := a[cur.value].prev;
      m := m - 1;
    }
    assert order[m..] == order;
    p := Rows(rows);
  }

  /**
   Append the detached node `c` to the list with ends `head` and `tail`: it
   becomes head and tail of an empty list, and is linked after `tail`
   otherwise. `sortByType` does this for either of its two lists.
   */
  method Enqueue(a: seq<Node>, ghost list: seq<Ref>, head: Option<Ref>, tail: Option<Ref>, c: Ref)
    returns (a2: seq<Node>, head2: Option<Ref>, tail2: Option<Ref>)
    requires Linked(a, list) && Linked(a, [c]) && c !in list
    requires head == Head(list) && tail == Last(list)
    ensures Linked(a2, list + [c])
    ensures head2 == Head(list + [c]) && tail2 == Last(list + [c])
    ensures SameBlocks(a, a2)
    ensures forall r :: 0 <= r < |a| && r != c && Some(r) != tail ==> a2[r] == a[r]
  {
    if head.None? {
      assert list + [c] == [c];
      a2, head2, tail2 := a, Some(c), Some(c);
    } else {
      assert forall i, j :: 0 <= i < |list| && 0 <= j < |[c]| ==> list[i] != [c][j];
      JoinLinked(a, list, [c]);
      a2 := Join(a, tail.value, c);
      head2, tail2 := head, Some(c);
    }
  }

  /**
   `sortByType`: detach every node in turn and append it to the list of nodes
   of kind `t` or to the list of the others, then link the first list to the
   second.
   */
  method SortByType(L: Ledger, ghost order: seq<Ref>, t: string) returns (L2: Ledger)
    requires IsChain(L.arena, L.genesis, order)
    ensures IsChain(L2.arena, L2.genesis, PartitionRefs(L.arena, order, t))
    ensures View(L2.arena, PartitionRefs(L.arena, order, t)) == Partition(View(L.arena, order), t)
    ensures SameBlocks(L.arena, L2.arena)
    ensures L.genesis.None? ==> L2 == L
  {
    if L.genesis.None? {
      return L;
    }
    var a, sortedHead, sortedTail, otherHead := Distribute(L, order, t);
    ghost var sorted, other := SelectRefs(L.arena, order, t, true), SelectRefs(L.arena, order, t, false);
    SelectRefsKinds(L.arena, order, t, true);
    SelectRefsKinds(L.arena, order, t, false);
    var g;
    a, g := Splice(a, sorted, other, sortedHead, sortedTail, otherHead);
    L2 := Ledger(a, g);
    ViewSameBlocks(L.arena, L2.arena, sorted + other);
  }

  /**
   What the loop of `sortByType` maintains after handling the first `i` nodes
   of the chain `order` of arena `a0`: those nodes now form the two lists
   `sorted` (kind `t`) and `other`, each in chain order and linked, and the
   nodes not yet handled are untouched.
   */
  ghost predicate Distributed(a0: seq<Node>, order: seq<Ref>, t: string, i: nat, a: seq<Node>,
                              sorted: seq<Ref>, other: seq<Ref>,
                              sortedHead: Option<Ref>, sortedTail: Option<Ref>,
                              otherHead: Option<Ref>, otherTail: Option<Ref>)
  {
    && Pending(a0, order, i, a, sorted, other)
    && Selected(a0, order, t, i, sorted, other)
    && Ends(a, sorted, other, sortedHead, sortedTail, otherHead, otherTail)
  }

  /** The nodes from position `i` on are unchanged and in neither list. */
  ghost predicate Pending(a0: seq<Node>, order: seq<Ref>, i: nat, a: seq<Node>, sorted: seq<Ref>, other: seq<Ref>)
  {
    && i <= |order| && Linked(a0, order) && Distinct(order)
    && SameBlocks(a0, a)
    && (forall j :: i <= j < |order| ==> a[order[j]] == a0[order[j]])
    && (forall j :: i <= j < |order| ==> order[j] !in sorted && order[j] !in other)
  }

  /** The two lists hold the nodes before position `i` of kind `t` and of the other kinds, in chain order. */
  ghost predicate Selected(a0: seq<Node>, order: seq<Ref>, t: string, i: nat, sorted: seq<Ref>, other: seq<Ref>)
  {
    && i <= |order| && InArena(a0, order[..i])
    && sorted == SelectRefs(a0, order[..i], t, true)
    && other == SelectRefs(a0, order[..i], t, false)
  }

  /** Both lists are linked, and the head and tail variables point at their ends. */
  ghost predicate Ends(a: seq<Node>, sorted: seq<Ref>, other: seq<Ref>,
                       sortedHead: Option<Ref>, sortedTail: Option<Ref>,
                       otherHead: Option<Ref>, otherTail: Option<Ref>)
  {
    && Linked(a, sorted) && Linked(a, other)
    && sortedHead == Head(sorted) && sortedTail == Last(sorted)
    && otherHead == Head(other) && otherTail == Last(other)
  }

  /**
   The loop of `sortByType`: every node of the chain, in order, is detached
   and appended to the list of nodes of kind `t` or to the list of the others.
   */
  method Distribute(L: Ledger, ghost order: seq<Ref>, t: string)
    returns (a: seq<Node>, sortedHead: Option<Ref>, sortedTail: Option<Ref>, otherHead: Option<Ref>)
    requires IsChain(L.arena, L.genesis, order)
    ensures SameBlocks(L.arena, a)
    ensures Linked(a, SelectRefs(L.arena, order, t, true))
    ensures Linked(a, SelectRefs(L.arena, order, t, false))
    ensures sortedHead == Head(SelectRefs(L.arena, order, t, true))
    ensures sortedTail == Last(SelectRefs(L.arena, order, t, true))
    ensures otherHead == Head(SelectRefs(L.arena, order, t, false))
  {
    LinkedDistinct(L.arena, order);
    a := L.arena;
    sortedHead, sortedTail, otherHead := None, None, None;
    var otherTail: Option<Ref> := None;
    ghost var sorted, other: seq<Ref> := [], [];
    var cur := L.genesis;
    ghost var i: nat := 0;
    while cur.Some?
      invariant Distributed(L.arena, order, t, i, a, sorted, other, sortedHead, sortedTail, otherHead, otherTail)
      invariant cur == if i < |order| then Some(order[i]) else None
      decreases |order| - i
    {
      LinkAt(L.arena, order, i);
      var nextNode := a[cur.value].next;
      a, sortedHead, sortedTail, otherHead, otherTail, sorted, other :=
        Place(L.arena, order, t, i, a, sorted, other, sortedHead, sortedTail, otherHead, otherTail, cur.value);
      cur := nextNode;
      i := i + 1;
    }
    assert order[..i] == order;
  }

  /**
   One turn of the loop of `sortByType` on the node `order[i]`: clear its
   links and append it to the list its kind belongs to.
   */
  method Place(ghost a0: seq<Node>, ghost order: seq<Ref>, t: string, ghost i: nat, a: seq<Node>,
               ghost sorted: seq<Ref>, ghost other: seq<Ref>,
               sortedHead: Option<Ref>, sortedTail: Option<Ref>,
               otherHead: Option<Ref>, otherTail: Option<Ref>, c: Ref)
    returns (a2: seq<Node>, sortedHead2: Option<Ref>, sortedTail2: Option<Ref>,
             otherHead2: Option<Ref>, otherTail2: Option<Ref>,
             ghost sorted2: seq<Ref>, ghost other2: seq<Ref>)
    requires Distributed(a0, order, t, i, a, sorted, other, sortedHead, sortedTail, otherHead, otherTail)
    requires i < |order| && c == order[i]
    ensures Distributed(a0, order, t, i + 1, a2, sorted2, other2, sortedHead2, sortedTail2, otherHead2, otherTail2)
    ensures SameBlocks(a, a2)
    ensures a[c].block.kind == t ==> sortedTail2 == Some(c) && otherHead2 == otherHead && otherTail2 == otherTail
    ensures a[c].block.kind != t ==> otherTail2 == Some(c) && sortedHead2 == sortedHead && sortedTail2 == sortedTail
  {
    LinkAt(a0, order, i);
    TailOnItsSide(a0, order[..i], t, true);
    TailOnItsSide(a0, order[..i], t, false);
    sortedHead2, sortedTail2, otherHead2, otherTail2 := sortedHead, sortedTail, otherHead, otherTail;
    if a[c].block.kind == t {
      a2, sortedHead2, sortedTail2 := Route(a, sorted, other, sortedHead, sortedTail, c);
      sorted2, other2 := sorted + [c], other;
    } else {
      a2, otherHead2, otherTail2 := Route(a, other, sorted, otherHead, otherTail, c);
      sorted2, other2 := sorted, other + [c];
    }
    DistributedStep(a0, order, t, i, a, sorted, other, sortedHead, sortedTail, otherHead, otherTail,
                    a2, sorted2, other2, sortedHead2, sortedTail2, otherHead2, otherTail2);
  }

  /**
   The body of the loop of `sortByType` for a node `c` that belongs to the
   list `mine`: clear its links, then append it to `mine`. The other list,
   `theirs`, stays linked.
   */
  method Route(a: seq<Node>, ghost mine: seq<Ref>, ghost theirs: seq<Ref>, head: Option<Ref>, tail: Option<Ref>, c: Ref)
    returns (a2: seq<Node>, head2: Option<Ref>, tail2: Option<Ref>)
    requires Linked(a, mine) && Linked(a, theirs) && c < |a| && c !in mine && c !in theirs
    requires head == Head(mine) && tail == Last(mine)
    requires tail.Some? ==> tail.value !in theirs
    ensures Linked(a2, mine + [c]) && Linked(a2, theirs)
    ensures head2 == Head(mine + [c]) && tail2 == Last(mine + [c]) && tail2 == Some(c)
    ensures SameBlocks(a, a2)
    ensures forall r :: 0 <= r < |a| && r != c && Some(r) != tail ==> a2[r] == a[r]
  {
    DetachLinked(a, mine, c);
    DetachLinked(a, theirs, c);
    var a1 := Detach(a, c);
    a2, head2, tail2 := Enqueue(a1, mine, head, tail, c);
    LinkedUntouched(a1, a2, theirs, c, tail);
  }

  /** The bookkeeping of one turn of the loop of `sortByType`, given what `Place` did to the arena. */
  lemma DistributedStep(a0: seq<Node>, order: seq<Ref>, t: string, i: nat, a: seq<Node>,
                        sorted: seq<Ref>, other: seq<Ref>,
                        sortedHead: Option<Ref>, sortedTail: Option<Ref>,
                        otherHead: Option<Ref>, otherTail: Option<Ref>,
                        a2: seq<Node>, sorted2: seq<Ref>, other2: seq<Ref>,
                        sortedHead2: Option<Ref>, sortedTail2: Option<Ref>,
                        otherHead2: Option<Ref>, otherTail2: Option<Ref>)
    requires Distributed(a0, order, t, i, a, sorted, other, sortedHead, sortedTail, otherHead, otherTail)
    requires i < |order|
    requires SameBlocks(a, a2)
    requires forall r :: 0 <= r < |a| && r != order[i] && Some(r) != sortedTail && Some(r) != otherTail ==> a2[r] == a[r]
    requires Linked(a2, sorted2) && Linked(a2, other2)
    requires a0[order[i]].block.kind == t ==> sorted2 == sorted + [order[i]] && other2 == other
    requires a0[order[i]].block.kind != t ==> sorted2 == sorted && other2 == other + [order[i]]
    requires sortedHead2 == Head(sorted2) && sortedTail2 == Last(sorted2)
    requires otherHead2 == Head(other2) && otherTail2 == Last(other2)
    ensures Distributed(a0, order, t, i + 1, a2, sorted2, other2, sortedHead2, sortedTail2, otherHead2, otherTail2)
  {
    assert Pending(a0, order, i + 1, a2, sorted2, other2) by {
      Untouched(a0, order, i, a, a2, sorted, other, sorted2, other2, sortedTail, otherTail);
    }
    assert Selected(a0, order, t, i + 1, sorted2, other2) by {
      SelectRefsExtend(a0, order, t, i);
    }
  }

  /** The nodes after position `i` are neither changed nor placed by the turn on `order[i]`. */
  lemma Untouched(a0: seq<Node>, order: seq<Ref>, i: nat, a: seq<Node>, a2: seq<Node>,
                  sorted: seq<Ref>, other: seq<Ref>, sorted2: seq<Ref>, other2: seq<Ref>,
                  sortedTail: Option<Ref>, otherTail: Option<Ref>)
    requires Linked(a0, order) && Distinct(order) && i < |order| && |a0| == |a| == |a2|
    requires forall j :: i <= j < |order| ==> a[order[j]] == a0[order[j]]
    requires forall j :: i <= j < |order| ==> order[j] !in sorted && order[j] !in other
    requires sortedTail == Last(sorted) && otherTail == Last(other)
    requires forall r :: 0 <= r < |a| && r != order[i] && Some(r) != sortedTail && Some(r) != otherTail ==> a2[r] == a[r]
    requires sorted2 == sorted || sorted2 == sorted + [order[i]]
    requires other2 == other || other2 == other + [order[i]]
    ensures forall j :: i + 1 <= j < |order| ==> a2[order[j]] == a0[order[j]]
    ensures forall j :: i + 1 <= j < |order| ==> order[j] !in sorted2 && order[j] !in other2
  {
    forall j | i + 1 <= j < |order|
      ensures a2[order[j]] == a0[order[j]]
      ensures order[j] !in sorted2 && order[j] !in other2
    {
      var x := order[j];
      LinkAt(a0, order, j);
      assert x != order[i];
      LastNotIn(sorted, x);
      LastNotIn(other, x);
    }
  }

  /**
   The end of `sortByType`: genesis becomes the head of the first list when it
   is not empty, with the second list linked after its tail; otherwise genesis
   becomes the head of the second list.
   */
  method Splice(a: seq<Node>, ghost first: seq<Ref>, ghost second: seq<Ref>,
                firstHead: Option<Ref>, firstTail: Option<Ref>, secondHead: Option<Ref>)
    returns (a2: seq<Node>, genesis: Option<Ref>)
    requires Linked(a, first) && Linked(a, second)
    requires forall i, j :: 0 <= i < |first| && 0 <= j < |second| ==> first[i] != second[j]
    requires firstHead == Head(first) && firstTail == Last(first) && secondHead == Head(second)
    ensures IsChain(a2, genesis, first + second)
    ensures SameBlocks(a, a2)
  {
    if firstHead.None? {
      assert first + second == second;
      a2, genesis := a, secondHead;
    } else {
      a2, genesis := a, firstHead;
      if secondHead.Some? {
        JoinLinked(a, first, second);
        a2 := Join(a, firstTail.value, secondHead.value);
      } else {
        assert first + second == first;
      }
    }
  }
}
