/**
 The heap of the ledger. Java's `BlockNode` objects live in an arena: a
 sequence of nodes where a reference is an index and `null` is `None`.
 Allocation appends to the arena; a node unlinked from the chain stays in the
 arena, unreachable from `genesis`.

 The chain a ledger holds is described by a sequence of references `o`: the
 nodes met from `genesis` following `next`. `Linked(a, o)` says the links of
 those nodes are exactly the ones such a chain has: symmetric, with the first
 node's `prev` and the last node's `next` null.
 */
module Arena {
  import opened Chain

  /** A reference to a node: its index in the arena. */
  type Ref = nat

  /** A block together with its `prev` and `next` links. */
  datatype Node = Node(block: Block, prev: Option<Ref>, next: Option<Ref>)

  /** Every node ever allocated, and the head pointer. */
  datatype Ledger = Ledger(arena: seq<Node>, genesis: Option<Ref>)

  function Head(o: seq<Ref>): Option<Ref>
  {
    if o == [] then None else Some(o[0])
  }

  function Last(o: seq<Ref>): Option<Ref>
  {
    if o == [] then None else Some(o[|o| - 1])
  }

  /** A reference outside `o` is not its last element. */
  lemma LastNotIn(o: seq<Ref>, x: Ref)
    requires x !in o
    ensures Last(o) != Some(x)
  {
    if o != [] {
      assert o[|o| - 1] in o;
    }
  }

  ghost predicate InArena(a: seq<Node>, o: seq<Ref>)
  {
    forall i :: 0 <= i < |o| ==> o[i] < |a|
  }

  ghost predicate Linked(a: seq<Node>, o: seq<Ref>)
  {
    && InArena(a, o)
    && (forall i :: 0 <= i < |o| ==> a[o[i]].next == (if i + 1 < |o| then Some(o[i + 1]) else None))
    && (forall i :: 0 <= i < |o| ==> a[o[i]].prev == (if 0 < i then Some(o[i - 1]) else None))
  }

  /** `o` is the chain reached from `g`. */
  ghost predicate IsChain(a: seq<Node>, g: Option<Ref>, o: seq<Ref>)
  {
    Linked(a, o) && g == Head(o)
  }

  ghost predicate Distinct(o: seq<Ref>)
  {
    forall i, j :: 0 <= i < j < |o| ==> o[i] != o[j]
  }

  /** The blocks held by the nodes of `o`, in that order. */
  function View(a: seq<Node>, o: seq<Ref>): (s: seq<Block>)
    requires InArena(a, o)
  {
    seq(|o|, i requires 0 <= i < |o| => a[o[i]].block)
  }

  lemma ViewConcat(a: seq<Node>, x: seq<Ref>, y: seq<Ref>)
    requires InArena(a, x) && InArena(a, y)
    ensures InArena(a, x + y)
    ensures View(a, x + y) == View(a, x) + View(a, y)
  {
    assert InArena(a, x + y) by {
      forall i | 0 <= i < |x + y|
        ensures (x + y)[i] < |a|
      {
        if i < |x| { assert (x + y)[i] == x[i]; } else { assert (x + y)[i] == y[i - |x|]; }
      }
    }
  }

  lemma SplitLast(o: seq<Ref>)
    requires o != []
    ensures o == o[..|o| - 1] + [o[|o| - 1]]
  {
  }

  /** The links of the node at position `i` of a linked chain. */
  lemma LinkAt(a: seq<Node>, o: seq<Ref>, i: int)
    requires Linked(a, o) && 0 <= i < |o|
    ensures o[i] < |a|
    ensures a[o[i]].next == (if i + 1 < |o| then Some(o[i + 1]) else None)
    ensures a[o[i]].prev == (if 0 < i then Some(o[i - 1]) else None)
  {
  }

  /** The payloads of the arena are the same: only links differ. */
  ghost predicate SameBlocks(a: seq<Node>, b: seq<Node>)
  {
    |a| == |b| && forall r :: 0 <= r < |a| ==> a[r].block == b[r].block
  }

  lemma ViewSameBlocks(a: seq<Node>, b: seq<Node>, o: seq<Ref>)
    requires SameBlocks(a, b) && InArena(a, o)
    ensures InArena(b, o) && View(b, o) == View(a, o)
  {
  }

  lemma ViewPrefixStep(a: seq<Node>, o: seq<Ref>, k: nat)
    requires InArena(a, o) && k < |o|
    ensures InArena(a, o[..k]) && InArena(a, o[..k + 1])
    ensures View(a, o[..k + 1]) == View(a, o[..k]) + [a[o[k]].block]
  {
  }

  lemma ViewSuffixStep(a: seq<Node>, o: seq<Ref>, m: nat)
    requires InArena(a, o) && 0 < m <= |o|
    ensures InArena(a, o[m..]) && InArena(a, o[m - 1..])
    ensures View(a, o[m - 1..]) == [a[o[m - 1]].block] + View(a, o[m..])
  {
  }

  /** Dropping position `k` of the chain drops position `k` of its view. */
  lemma ViewDelete(a: seq<Node>, o: seq<Ref>, k: nat)
    requires InArena(a, o) && k < |o|
    ensures InArena(a, o[..k] + o[k + 1..])
    ensures View(a, o[..k] + o[k + 1..]) == View(a, o)[..k] + View(a, o)[k + 1..]
  {
    ViewConcat(a, o[..k], o[k + 1..]);
  }

  /** A chain stays linked in any arena that gives its nodes the same links. */
  lemma LinkedFrame(a: seq<Node>, b: seq<Node>, o: seq<Ref>)
    requires Linked(a, o) && |a| <= |b|
    requires forall i :: 0 <= i < |o| ==> b[o[i]].prev == a[o[i]].prev && b[o[i]].next == a[o[i]].next
    ensures Linked(b, o)
  {
  }

  /** The nodes of `o` whose block has kind `t` (want) or another kind (!want), in order. */
  function SelectRefs(a: seq<Node>, o: seq<Ref>, t: string, want: bool): (r: seq<Ref>)
    requires InArena(a, o)
    ensures InArena(a, r)
    ensures View(a, r) == Select(View(a, o), t, want)
  {
    if o == [] then []
    else
      var init, x := o[..|o| - 1], o[|o| - 1];
      var r0 := SelectRefs(a, init, t, want);
      var tail := if (a[x].block.kind == t) == want then [x] else [];
      SelectRefsStep(a, o, t, want, r0, tail);
      r0 + tail
  }

  lemma SelectRefsStep(a: seq<Node>, o: seq<Ref>, t: string, want: bool, r0: seq<Ref>, tail: seq<Ref>)
    requires InArena(a, o) && o != []
    requires InArena(a, o[..|o| - 1]) && InArena(a, r0) && InArena(a, tail)
    requires View(a, r0) == Select(View(a, o[..|o| - 1]), t, want)
    requires tail == if (a[o[|o| - 1]].block.kind == t) == want then [o[|o| - 1]] else []
    ensures InArena(a, r0 + tail)
    ensures View(a, r0 + tail) == Select(View(a, o), t, want)
  {
    var init, x := o[..|o| - 1], o[|o| - 1];
    SplitLast(o);
    ViewConcat(a, init, [x]);
    ViewConcat(a, r0, tail);
    var vi, vx := View(a, init), View(a, [x]);
    assert vx == [a[x].block];
    assert View(a, o) == vi + vx;
    SelectConcat(vi, vx, t, want);
    SelectSingle(a[x].block, t, want);
    assert View(a, tail) == Select(vx, t, want);
  }

  lemma SelectSingle(b: Block, t: string, want: bool)
    ensures Select([b], t, want) == if (b.kind == t) == want then [b] else []
  {
    assert [b][1..] == [];
  }

  /** Extending a prefix of `o` by one node extends the selection on that node's side. */
  lemma SelectRefsExtend(a: seq<Node>, o: seq<Ref>, t: string, i: nat)
    requires InArena(a, o) && i < |o|
    ensures InArena(a, o[..i]) && InArena(a, o[..i + 1])
    ensures a[o[i]].block.kind == t ==>
      && SelectRefs(a, o[..i + 1], t, true) == SelectRefs(a, o[..i], t, true) + [o[i]]
      && SelectRefs(a, o[..i + 1], t, false) == SelectRefs(a, o[..i], t, false)
    ensures a[o[i]].block.kind != t ==>
      && SelectRefs(a, o[..i + 1], t, true) == SelectRefs(a, o[..i], t, true)
      && SelectRefs(a, o[..i + 1], t, false) == SelectRefs(a, o[..i], t, false) + [o[i]]
  {
    assert o[..i + 1][..i] == o[..i];
  }

  /** Every selected node is on the requested side of `t`. */
  lemma SelectRefsKinds(a: seq<Node>, o: seq<Ref>, t: string, want: bool)
    requires InArena(a, o)
    ensures forall i :: 0 <= i < |SelectRefs(a, o, t, want)| ==>
      (a[SelectRefs(a, o, t, want)[i]].block.kind == t) == want
  {
    var r := SelectRefs(a, o, t, want);
    forall i | 0 <= i < |r|
      ensures (a[r[i]].block.kind == t) == want
    {
      assert View(a, r)[i] == a[r[i]].block;
    }
  }

  /** The last node selected on one side of `t` is not among the nodes selected on the other side. */
  lemma TailOnItsSide(a: seq<Node>, o: seq<Ref>, t: string, want: bool)
    requires InArena(a, o)
    ensures Last(SelectRefs(a, o, t, want)).Some? ==>
      Last(SelectRefs(a, o, t, want)).value !in SelectRefs(a, o, t, !want)
  {
    SelectRefsKinds(a, o, t, want);
    SelectRefsKinds(a, o, t, !want);
  }

  /** The chain order after partitioning by kind `t`: matching nodes, then the others. */
  function PartitionRefs(a: seq<Node>, o: seq<Ref>, t: string): (r: seq<Ref>)
    requires InArena(a, o)
    ensures InArena(a, r)
    ensures View(a, r) == Partition(View(a, o), t)
  {
    var m, n := SelectRefs(a, o, t, true), SelectRefs(a, o, t, false);
    ViewConcat(a, m, n);
    m + n
  }

  /** Link `x` to `y`: `x.next = y; y.prev = x`. */
  function Join(a: seq<Node>, x: Ref, y: Ref): (b: seq<Node>)
    requires x < |a| && y < |a|
    ensures SameBlocks(a, b)
    ensures b[x].next == Some(y) && b[y].prev == Some(x)
    ensures forall r :: 0 <= r < |a| && r != x && r != y ==> b[r] == a[r]
  {
    var a1 := a[x := a[x].(next := Some(y))];
    a1[y := a1[y].(prev := Some(x))]
  }

  /** Clear both links of `c`: `c.next = null; c.prev = null`. */
  function Detach(a: seq<Node>, c: Ref): (b: seq<Node>)
    requires c < |a|
    ensures SameBlocks(a, b)
    ensures b[c].prev.None? && b[c].next.None?
    ensures forall r :: 0 <= r < |a| && r != c ==> b[r] == a[r]
  {
    a[c := a[c].(prev := None, next := None)]
  }

  /** Acyclicity: a linked chain never visits a node twice. */
  lemma LinkedDistinct(a: seq<Node>, o: seq<Ref>)
    requires Linked(a, o)
    ensures Distinct(o)
  {
    forall i, j | 0 <= i < j < |o|
      ensures o[i] != o[j]
    {
      NoRepeat(a, o, i, j);
    }
  }

  lemma {:induction false} NoRepeat(a: seq<Node>, o: seq<Ref>, i: nat, j: nat)
    requires Linked(a, o)
    requires i < j < |o|
    ensures o[i] != o[j]
    decreases |o| - j
  {
    LinkAt(a, o, i);
    LinkAt(a, o, j);
    if j + 1 < |o| {
      NoRepeat(a, o, i + 1, j + 1);
    }
  }

  /** The links determine the chain: two orders reached from the same head are equal. */
  lemma ChainUnique(a: seq<Node>, g: Option<Ref>, o1: seq<Ref>, o2: seq<Ref>)
    requires IsChain(a, g, o1) && IsChain(a, g, o2)
    ensures o1 == o2
  {
    if |o1| <= |o2| {
      ChainPrefix(a, o1, o2, |o1|);
    } else {
      ChainPrefix(a, o2, o1, |o2|);
    }
  }

  lemma {:induction false} ChainPrefix(a: seq<Node>, o1: seq<Ref>, o2: seq<Ref>, n: nat)
    requires Linked(a, o1) && Linked(a, o2) && Head(o1) == Head(o2)
    requires n == |o1| <= |o2|
    ensures o1 == o2
  {
    forall i | 0 <= i < |o1|
      ensures o1[i] == o2[i]
    {
      SamePosition(a, o1, o2, i);
    }
    if o1 != [] && |o1| < |o2| {
      LinkAt(a, o1, |o1| - 1);
      LinkAt(a, o2, |o1| - 1);
    }
  }

  lemma {:induction false} SamePosition(a: seq<Node>, o1: seq<Ref>, o2: seq<Ref>, i: nat)
    requires Linked(a, o1) && Linked(a, o2) && Head(o1) == Head(o2)
    requires i < |o1| && i < |o2|
    ensures o1[i] == o2[i]
  {
    if 0 < i {
      SamePosition(a, o1, o2, i - 1);
      LinkAt(a, o1, i - 1);
      LinkAt(a, o2, i - 1);
    }
  }

  /**
   Link symmetry: in a chain, following `next` then `prev` (or `prev` then
   `next`) returns to the same node, and the head has no predecessor.
   */
  lemma ChainSymmetric(a: seq<Node>, g: Option<Ref>, o: seq<Ref>)
    requires IsChain(a, g, o)
    ensures g.Some? ==> g.value < |a| && a[g.value].prev == None
    ensures forall x, y :: x in o && y < |a| && a[x].next == Some(y) ==> y in o && a[y].prev == Some(x)
    ensures forall x, y :: x in o && y < |a| && a[x].prev == Some(y) ==> y in o && a[y].next == Some(x)
  {
    if g.Some? {
      LinkAt(a, o, 0);
    }
    forall x, y | x in o && y < |a| && a[x].next == Some(y)
      ensures y in o && a[y].prev == Some(x)
    {
      var i :| 0 <= i < |o| && o[i] == x;
      LinkAt(a, o, i);
      LinkAt(a, o, i + 1);
    }
    forall x, y | x in o && y < |a| && a[x].prev == Some(y)
      ensures y in o && a[y].next == Some(x)
    {
      var i :| 0 <= i < |o| && o[i] == x;
      LinkAt(a, o, i);
      LinkAt(a, o, i - 1);
    }
  }

  /** Joining the last node of one chain to the first node of a disjoint chain links the concatenation. */
  lemma JoinLinked(a: seq<Node>, l: seq<Ref>, r: seq<Ref>)
    requires Linked(a, l) && Linked(a, r) && l != [] && r != []
    requires forall i, j :: 0 <= i < |l| && 0 <= j < |r| ==> l[i] != r[j]
    ensures Linked(Join(a, l[|l| - 1], r[0]), l + r)
    ensures SameBlocks(a, Join(a, l[|l| - 1], r[0]))
  {
    var x, y := l[|l| - 1], r[0];
    var b := Join(a, x, y);
    var o := l + r;
    LinkedDistinct(a, l);
    LinkedDistinct(a, r);
    ViewConcat(a, l, r);
    forall i | 0 <= i < |o|
      ensures b[o[i]].next == (if i + 1 < |o| then Some(o[i + 1]) else None)
      ensures b[o[i]].prev == (if 0 < i then Some(o[i - 1]) else None)
    {
      if i < |l| {
        LinkAt(a, l, i);
        assert o[i] == l[i] && o[i] != y;
        if i + 1 < |l| {
          assert o[i] != x;
        }
      } else {
        LinkAt(a, r, i - |l|);
        assert o[i] == r[i - |l|] && o[i] != x;
        if i > |l| {
          assert o[i] != y;
        }
      }
    }
    assert InArena(b, o);
    assert Linked(b, o);
  }

  /** A chain stays linked when only a node outside it and possibly one more outside node change. */
  lemma LinkedUntouched(a: seq<Node>, b: seq<Node>, o: seq<Ref>, x: Ref, y: Option<Ref>)
    requires Linked(a, o) && |a| == |b| && x !in o && (y.Some? ==> y.value !in o)
    requires forall r :: 0 <= r < |a| && r != x && Some(r) != y ==> b[r] == a[r]
    ensures Linked(b, o)
  {
    forall i | 0 <= i < |o|
      ensures b[o[i]] == a[o[i]]
    {
      assert o[i] in o;
      LinkAt(a, o, i);
    }
    LinkedFrame(a, b, o);
  }

  /** Clearing the links of a node outside a chain leaves the chain linked and makes the node a chain of one. */
  lemma DetachLinked(a: seq<Node>, o: seq<Ref>, c: Ref)
    requires Linked(a, o) && c < |a| && c !in o
    ensures Linked(Detach(a, c), o)
    ensures Linked(Detach(a, c), [c])
    ensures SameBlocks(a, Detach(a, c))
  {
    var b := Detach(a, c);
    forall i | 0 <= i < |o|
      ensures b[o[i]] == a[o[i]]
    {
      assert o[i] in o;
    }
    LinkedFrame(a, b, o);
  }

  /** A freshly allocated node with null links is a chain of one, and allocation disturbs no chain. */
  lemma AllocLinked(a: seq<Node>, o: seq<Ref>, b: Block)
    requires Linked(a, o)
    ensures Linked(a + [Node(b, None, None)], o)
    ensures Linked(a + [Node(b, None, None)], [|a|])
    ensures |a| !in o
  {
    var a' := a + [Node(b, None, None)];
    forall i | 0 <= i < |o|
      ensures a'[o[i]] == a[o[i]]
    {
      LinkAt(a, o, i);
    }
    LinkedFrame(a, a', o);
  }

  /**
   Java's unlinking of `c` (`c.prev.next = c.next`, or `genesis = c.next` when
   `c` is first; then `c.next.prev = c.prev` when `c` is not last).
   */
  function Unlink(L: Ledger, c: Ref): (L2: Ledger)
    requires c < |L.arena|
    requires L.arena[c].prev.Some? ==> L.arena[c].prev.value < |L.arena|
    requires L.arena[c].next.Some? ==> L.arena[c].next.value < |L.arena|
    ensures SameBlocks(L.arena, L2.arena)
    ensures L.arena[c].prev.None? ==> L2.genesis == L.arena[c].next
    ensures L.arena[c].prev.Some? ==> L2.genesis == L.genesis && L2.arena[L.arena[c].prev.value].next == L.arena[c].next
    ensures L.arena[c].next.Some? ==> L2.arena[L.arena[c].next.value].prev == L.arena[c].prev
    ensures forall r :: 0 <= r < |L.arena| && Some(r) != L.arena[c].prev && Some(r) != L.arena[c].next ==> L2.arena[r] == L.arena[r]
  {
    var n := L.arena[c];
    var a1 := if n.prev.Some? then L.arena[n.prev.value := L.arena[n.prev.value].(next := n.next)] else L.arena;
    var g := if n.prev.Some? then L.genesis else n.next;
    var a2 := if n.next.Some? then a1[n.next.value := a1[n.next.value].(prev := n.prev)] else a1;
    Ledger(a2, g)
  }

  /** Unlinking the node at position `k` of a chain leaves the chain without that position. */
  lemma UnlinkChain(L: Ledger, o: seq<Ref>, k: nat)
    requires IsChain(L.arena, L.genesis, o) && k < |o|
    ensures o[k] < |L.arena|
    ensures L.arena[o[k]].prev.Some? ==> L.arena[o[k]].prev.value < |L.arena|
    ensures L.arena[o[k]].next.Some? ==> L.arena[o[k]].next.value < |L.arena|
    ensures IsChain(Unlink(L, o[k]).arena, Unlink(L, o[k]).genesis, o[..k] + o[k + 1..])
    ensures SameBlocks(L.arena, Unlink(L, o[k]).arena)
  {
    var a := L.arena;
    LinkAt(a, o, k);
    if k > 0 { LinkAt(a, o, k - 1); }
    if k + 1 < |o| { LinkAt(a, o, k + 1); }
    var L2 := Unlink(L, o[k]);
    var b := L2.arena;
    var o' := o[..k] + o[k + 1..];
    ViewDelete(a, o, k);
    forall i | 0 <= i < |o'|
      ensures b[o'[i]].next == (if i + 1 < |o'| then Some(o'[i + 1]) else None)
      ensures b[o'[i]].prev == (if 0 < i then Some(o'[i - 1]) else None)
    {
      UnlinkAt(L, o, k, i);
    }
    assert Linked(b, o');
  }

  /** After unlinking position `k`, position `i` of the shortened chain points at its new neighbours. */
  lemma UnlinkAt(L: Ledger, o: seq<Ref>, k: nat, i: nat)
    requires Linked(L.arena, o) && k < |o| && i + 1 < |o|
    ensures o[k] < |L.arena|
    ensures L.arena[o[k]].prev.Some? ==> L.arena[o[k]].prev.value < |L.arena|
    ensures L.arena[o[k]].next.Some? ==> L.arena[o[k]].next.value < |L.arena|
    ensures var b, o' := Unlink(L, o[k]).arena, o[..k] + o[k + 1..];
      && |b| == |L.arena| && o'[i] < |b|
      && b[o'[i]].next == (if i + 1 < |o'| then Some(o'[i + 1]) else None)
      && b[o'[i]].prev == (if 0 < i then Some(o'[i - 1]) else None)
  {
    var a := L.arena;
    LinkAt(a, o, k);
    if k > 0 { LinkAt(a, o, k - 1); }
    if k + 1 < |o| { LinkAt(a, o, k + 1); }
    LinkedDistinct(a, o);
    var o' := o[..k] + o[k + 1..];
    if i < k {
      assert o'[i] == o[i];
      LinkAt(a, o, i);
      if i + 1 < k {
        assert o'[i + 1] == o[i + 1];
      }
    } else {
      assert o'[i] == o[i + 1];
      LinkAt(a, o, i + 1);
      if i > k {
        assert o'[i - 1] == o[i];
      }
    }
  }
}
