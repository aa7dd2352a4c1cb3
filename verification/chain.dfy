/**
 The abstract ledger: the sequence of blocks visited from genesis to the end.
 Every pointer operation of the ledger is specified against the functions of
 this module, which know nothing of links.
 */
module Chain {

  datatype Option<T> = None | Some(value: T)

  /** One record of the ledger: the payload of a node, without its links. */
  datatype Block = Block(id: string, data: string, kind: string)

  /** What a print command reports: the "empty" message, or the rows in the order visited. */
  datatype Printout = EmptyChain | Rows(rows: seq<Block>)

  /** The printout of a traversal that visited `s`. */
  function Listing(s: seq<Block>): Printout
  {
    if s == [] then EmptyChain else Rows(s)
  }

  /** Position of the first block whose id is `id`, scanning from genesis. */
  function FirstMatch(s: seq<Block>, id: string): (r: Option<nat>)
    ensures r.Some? ==> r.value < |s| && s[r.value].id == id
    ensures r.Some? ==> forall j :: 0 <= j < r.value ==> s[j].id != id
    ensures r.None? <==> forall j :: 0 <= j < |s| ==> s[j].id != id
  {
    if s == [] then None
    else if s[0].id == id then Some(0)
    else match FirstMatch(s[1..], id)
      case None => None
      case Some(k) => Some(k + 1)
  }

  /** The block a lookup by id reports: the first one carrying that id, if any. */
  function Find(s: seq<Block>, id: string): (r: Option<Block>)
    ensures r.None? <==> forall j :: 0 <= j < |s| ==> s[j].id != id
    ensures r.Some? ==> r.value.id == id
    ensures r.Some? ==> exists k :: 0 <= k < |s| && s[k] == r.value && forall j :: 0 <= j < k ==> s[j].id != id
  {
    match FirstMatch(s, id)
    case None => None
    case Some(k) => Some(s[k])
  }

  /** The ledger after removing the first block whose id is `id`; unchanged when there is none. */
  function DeleteFirst(s: seq<Block>, id: string): (r: seq<Block>)
    ensures FirstMatch(s, id).None? ==> r == s
    ensures FirstMatch(s, id).Some? ==> |r| == |s| - 1
    ensures FirstMatch(s, id).Some? ==>
      var k := FirstMatch(s, id).value; r == s[..k] + s[k + 1..]
  {
    if s == [] then []
    else if s[0].id == id then s[1..]
    else
      var rest := DeleteFirst(s[1..], id);
      if FirstMatch(s[1..], id).Some? then
        ConsSplice(s, FirstMatch(s[1..], id).value);
        [s[0]] + rest
      else
        [s[0]] + rest
  }

  /** Cutting position `k` out of the tail, then restoring the head, cuts position `k + 1` out of `s`. */
  lemma ConsSplice(s: seq<Block>, k: nat)
    requires k + 1 < |s|
    ensures [s[0]] + (s[1..][..k] + s[1..][k + 1..]) == s[..k + 1] + s[k + 2..]
  {
    assert s[1..][..k] == s[1..k + 1];
    assert s[1..][k + 1..] == s[k + 2..];
    assert [s[0]] + s[1..k + 1] == s[..k + 1];
  }

  /** The blocks of `s` whose kind is `t` (want) or is not `t` (!want), in their original order. */
  function Select(s: seq<Block>, t: string, want: bool): (r: seq<Block>)
    ensures |r| <= |s|
    ensures forall i :: 0 <= i < |r| ==> (r[i].kind == t) == want
  {
    if s == [] then []
    else
      assert s == [s[0]] + s[1..];
      (if (s[0].kind == t) == want then [s[0]] else []) + Select(s[1..], t, want)
  }

  /** The stable two-way partition: blocks of kind `t` first, then the rest. */
  function Partition(s: seq<Block>, t: string): (r: seq<Block>)
    ensures |r| == |s|
    ensures multiset(r) == multiset(s)
    ensures IsPartitioned(r, t)
  {
    SelectSplit(s, t);
    Select(s, t, true) + Select(s, t, false)
  }

  /** No block of kind `t` comes after a block of another kind. */
  predicate IsPartitioned(r: seq<Block>, t: string)
  {
    forall i, j :: 0 <= i < j < |r| && r[j].kind == t ==> r[i].kind == t
  }

  /** `s` read from the end to the beginning. */
  function Reverse(s: seq<Block>): (r: seq<Block>)
    ensures |r| == |s|
    ensures forall i :: 0 <= i < |s| ==> r[i] == s[|s| - 1 - i]
  {
    if s == [] then [] else Reverse(s[1..]) + [s[0]]
  }

  lemma ReverseCons(b: Block, s: seq<Block>)
    ensures Reverse([b] + s) == Reverse(s) + [b]
  {
    assert ([b] + s)[1..] == s;
  }

  /** Reading a sequence backwards twice gives it back. */
  lemma ReverseReverse(s: seq<Block>)
    ensures Reverse(Reverse(s)) == s
  {
    var r := Reverse(Reverse(s));
    forall i | 0 <= i < |s|
      ensures r[i] == s[i]
    {
      assert r[i] == Reverse(s)[|s| - 1 - i];
    }
  }

  /**
   The backward printout reports "empty" exactly when the forward one does,
   and otherwise holds the forward rows read backwards.
   */
  lemma PrintoutsAgree(s: seq<Block>)
    ensures Listing(Reverse(s)).EmptyChain? <==> Listing(s).EmptyChain?
    ensures Listing(s).Rows? ==> Listing(Reverse(s)) == Rows(Reverse(Listing(s).rows))
    ensures Listing(Reverse(s)).Rows? ==> Reverse(Listing(Reverse(s)).rows) == Listing(s).rows
  {
    ReverseReverse(s);
  }

  /** Appending a block does not change the first match of an id already present, and is the match otherwise. */
  lemma FirstMatchAppend(s: seq<Block>, b: Block, id: string)
    ensures FirstMatch(s, id).Some? ==> FirstMatch(s + [b], id) == FirstMatch(s, id)
    ensures FirstMatch(s, id).None? && b.id == id ==> FirstMatch(s + [b], id) == Some(|s|)
    ensures FirstMatch(s, id).None? && b.id != id ==> FirstMatch(s + [b], id).None?
  {
    var u := s + [b];
    match FirstMatch(s, id)
    case Some(k) =>
      assert u[k] == s[k];
      assert forall j :: 0 <= j < k ==> u[j] == s[j];
      FirstMatchIs(u, id, k);
    case None =>
      assert forall j :: 0 <= j < |s| ==> u[j] == s[j];
      if b.id == id {
        FirstMatchIs(u, id, |s|);
      } else {
        assert forall j :: 0 <= j < |u| ==> u[j].id != id by {
          forall j | 0 <= j < |u| ensures u[j].id != id {
            if j < |s| { assert u[j] == s[j]; }
          }
        }
      }
  }

  /** Any position that carries `id` with no earlier one carrying it is the first match. */
  lemma FirstMatchIs(s: seq<Block>, id: string, k: nat)
    requires k < |s| && s[k].id == id
    requires forall j :: 0 <= j < k ==> s[j].id != id
    ensures FirstMatch(s, id) == Some(k)
  {
  }

  /** After appending a block, a lookup of its id finds it, unless an earlier block already carries that id. */
  lemma FindAfterAppend(s: seq<Block>, b: Block)
    ensures Find(s, b.id).Some? ==> Find(s + [b], b.id) == Find(s, b.id)
    ensures Find(s, b.id).None? ==> Find(s + [b], b.id) == Some(b)
  {
    FirstMatchAppend(s, b, b.id);
    if FirstMatch(s, b.id).Some? {
      assert (s + [b])[FirstMatch(s, b.id).value] == s[FirstMatch(s, b.id).value];
    }
  }

  lemma {:induction false} SelectConcat(s: seq<Block>, u: seq<Block>, t: string, want: bool)
    ensures Select(s + u, t, want) == Select(s, t, want) + Select(u, t, want)
  {
    if s == [] {
      assert s + u == u;
    } else {
      assert (s + u)[1..] == s[1..] + u;
      SelectConcat(s[1..], u, t, want);
    }
  }

  /** The two selections together hold every block of `s` exactly once. */
  lemma {:induction false} SelectSplit(s: seq<Block>, t: string)
    ensures multiset(Select(s, t, true)) + multiset(Select(s, t, false)) == multiset(s)
    ensures |Select(s, t, true)| + |Select(s, t, false)| == |s|
  {
    if s != [] {
      var m, o := Select(s[1..], t, true), Select(s[1..], t, false);
      SelectSplit(s[1..], t);
      assert s == [s[0]] + s[1..];
      SelectHead(s, t);
      assert multiset(s) == multiset{s[0]} + multiset(s[1..]);
      if s[0].kind == t {
        assert multiset(Select(s, t, true)) == multiset{s[0]} + multiset(m);
      } else {
        assert multiset(Select(s, t, false)) == multiset{s[0]} + multiset(o);
      }
    }
  }

  /** The first block of `s` goes to exactly one of the two selections. */
  lemma SelectHead(s: seq<Block>, t: string)
    requires s != []
    ensures s[0].kind == t ==> Select(s, t, true) == [s[0]] + Select(s[1..], t, true) && Select(s, t, false) == Select(s[1..], t, false)
    ensures s[0].kind != t ==> Select(s, t, true) == Select(s[1..], t, true) && Select(s, t, false) == [s[0]] + Select(s[1..], t, false)
  {
  }

  /** Selecting the side every block is on keeps everything; the other side is empty. */
  lemma {:induction false} SelectUniform(s: seq<Block>, t: string, want: bool)
    requires forall i :: 0 <= i < |s| ==> (s[i].kind == t) == want
    ensures Select(s, t, want) == s
    ensures Select(s, t, !want) == []
  {
    if s != [] {
      SelectUniform(s[1..], t, want);
    }
  }

  /** A partitioned sequence is its matching blocks followed by its other blocks. */
  lemma {:induction false} PartitionedSplits(r: seq<Block>, t: string)
    requires IsPartitioned(r, t)
    ensures r == Select(r, t, true) + Select(r, t, false)
  {
    if r != [] {
      if r[0].kind == t {
        assert IsPartitioned(r[1..], t);
        PartitionedSplits(r[1..], t);
      } else {
        SelectUniform(r, t, false);
      }
    }
  }

  /**
   A sequence is the stable partition of `s` exactly when it is partitioned and
   keeps the relative order of the matching blocks and of the other blocks.
   */
  lemma PartitionCharacterization(s: seq<Block>, r: seq<Block>, t: string)
    ensures r == Partition(s, t) <==>
      IsPartitioned(r, t) && Select(r, t, true) == Select(s, t, true) && Select(r, t, false) == Select(s, t, false)
  {
    if r == Partition(s, t) {
      PartitionKeepsOrder(s, t);
    }
    if IsPartitioned(r, t) && Select(r, t, true) == Select(s, t, true) && Select(r, t, false) == Select(s, t, false) {
      PartitionedSplits(r, t);
    }
  }

  /** The partition keeps the relative order of the matching blocks and of the other blocks. */
  lemma PartitionKeepsOrder(s: seq<Block>, t: string)
    ensures Select(Partition(s, t), t, true) == Select(s, t, true)
    ensures Select(Partition(s, t), t, false) == Select(s, t, false)
  {
    var m, o := Select(s, t, true), Select(s, t, false);
    SelectConcat(m, o, t, true);
    SelectConcat(m, o, t, false);
    SelectUniform(m, t, true);
    SelectUniform(o, t, false);
  }

  /** Partitioning twice by the same kind gives the same ledger as partitioning once. */
  lemma PartitionIdempotent(s: seq<Block>, t: string)
    ensures Partition(Partition(s, t), t) == Partition(s, t)
  {
    var p := Partition(s, t);
    PartitionCharacterization(s, p, t);
    PartitionedSplits(p, t);
  }

  /** Deleting the first block with `id` removes one copy of that block and nothing else. */
  lemma DeleteFirstMultiset(s: seq<Block>, id: string)
    requires FirstMatch(s, id).Some?
    ensures multiset(DeleteFirst(s, id)) + multiset{s[FirstMatch(s, id).value]} == multiset(s)
  {
    var k := FirstMatch(s, id).value;
    CutMultiset(s, k);
  }

  lemma CutMultiset(s: seq<Block>, k: nat)
    requires k < |s|
    ensures multiset(s[..k] + s[k + 1..]) + multiset{s[k]} == multiset(s)
  {
    assert s == s[..k] + [s[k]] + s[k + 1..];
    assert multiset(s) == multiset(s[..k]) + multiset([s[k]]) + multiset(s[k + 1..]);
  }
}
