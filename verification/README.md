# BlockchainLedger in Dafny

A model of the `BlockchainLedger` of the SimpleBlockChainTool program. The
ledger is a doubly linked list of blocks (`BlockNode`: id, data, type, `prev`,
`next`) reached only through its head, `genesis`; there is no tail pointer.
The operations are add at the end, delete by id, find by id, print forwards,
print backwards, and sort by type. Sort by type is a stable two-way partition:
it detaches every node, appends it to a list of nodes of the given type or to
a list of the others, and then links the first list to the second. Duplicate
ids are allowed. Lookups and deletions act on the first node, counting from
genesis, that carries the id.

The model has three modules:

- `Chain` (chain.dfy) is the abstract ledger, a `seq<Block>` read from genesis
  to the end. It holds the first-match lookup, the deletion of the first match,
  the stable partition and the reversal, with their lemmas. It knows nothing of
  links.
- `Arena` (arena.dfy) is the heap. Node objects live in an immutable sequence
  `seq<Node>`, and a reference is an index into it. `Linked(a, o)` says that
  the `next` and `prev` fields of the nodes listed in `o` link exactly that
  sequence. `IsChain(a, genesis, o)` adds that `genesis` is the first of them.
  The module proves that such a chain is acyclic, has symmetric links and is
  determined by its links. It also proves that each pointer surgery the ledger
  performs keeps chains linked.
- `BlockchainLedger` (ledger.dfy) has one method per operation, and the
  function `NewLedger` for the empty ledger. Every operation requires that
  the ledger hold a chain, and a ghost parameter `order` names that chain.
  - The mutating operations (`AddBlock`, `DeleteBlock`, `SortByType`) return
    the new ledger. Their contracts state two things: `IsChain` holds of the
    new chain, and the blocks along it are the corresponding function of
    `Chain` applied to the old blocks.
  - The read-only operations (`FindBlock`, `PrintChain`, `PrintInReverse`,
    and the walks `Seek` and `SeekLast`) return a block, a printout or a
    reference. Their contracts state it against the chain `order` of the
    ledger, which they leave unchanged, and its blocks (`View`).
  - The helpers of `SortByType` (`Distribute`, `Place`, `Route`, `Enqueue`,
    `Splice`) work on the arena and on the two lists the sort builds.

  The Java field `blockType` is called `kind`, because `type` is a Dafny
  keyword.

## Model

| member | source | states |
|---|---|---|
| BlockchainLedger.NewLedger | src/Main.java:47 | a new ledger has a null genesis and holds the empty chain |
| BlockchainLedger.Seek | src/Main.java:71-74 | the walk from genesis stops at the node of the first block carrying the id, and at null exactly when no block carries it |
| BlockchainLedger.SeekLast | src/Main.java:57-60 | the walk from a non-null genesis along `next` stops at the last node of the chain, whose `next` is null |
| BlockchainLedger.AddBlock | src/Main.java:52-63 | the new chain is the old one followed by a fresh node. The blocks read from genesis are the old ones followed by the new (id, data, type). The links stay symmetric and acyclic. Genesis is the new node when the ledger was empty and is unchanged otherwise. No existing block is altered |
| BlockchainLedger.DeleteBlock | src/Main.java:70-90 | the deletion is reported exactly when some node carries the id. If none does, the ledger is returned unchanged. If one does, the node at the first match is unlinked: the chain is the old one without that position, still linked, and its blocks are the old blocks without the first match |
| BlockchainLedger.FindBlock | src/Main.java:96-106 | the result is the block of the first node carrying the id, or none when no node carries it |
| BlockchainLedger.Enqueue | src/Main.java:127-143 | a detached node appended to a list becomes its head and tail when the list is empty. Otherwise it is linked after the old tail. The extended list is linked, and only the node and the old tail change |
| BlockchainLedger.Route | src/Main.java:123-143 | the node being placed has its links cleared and is appended to the list of its side. That list, extended by the node, is linked, and so is the other list. Only the node and the old tail of its list change |
| BlockchainLedger.Place | src/Main.java:122-144 | one turn of the sort loop: after handling the node at position i, the two lists are the matching and the other nodes among the first i + 1, in chain order and linked. Nodes after position i are unchanged. The node becomes the tail of its own list, and the other list's head and tail stay as they were |
| BlockchainLedger.Distribute | src/Main.java:118-145 | after the loop, the two lists are exactly the nodes of the given type and the other nodes, each in chain order and each linked, with the head and tail variables at their ends |
| BlockchainLedger.Splice | src/Main.java:147-155 | genesis becomes the head of the matching list when it is non-empty, and the head of the other list otherwise. The matching tail is linked to the other head, so the result is one chain: the first list followed by the second |
| BlockchainLedger.SortByType | src/Main.java:112-155 | the new chain is linked and holds the old blocks stably partitioned: the blocks of the given type in their old order, then the others in their old order. No block changes, and an empty ledger is returned as it was |
| BlockchainLedger.PrintChain | src/Main.java:162-172 | the printout is the blocks from genesis to the end, and it is the "empty" report exactly when genesis is null |
| BlockchainLedger.PrintInReverse | src/Main.java:177-192 | the printout is the blocks from the last node back to genesis, which is the forward sequence reversed. It is the "empty" report exactly when genesis is null |
| Chain.FirstMatch | src/Main.java:71-74 | the position found carries the id and no earlier position does. There is no position exactly when no block carries the id |
| Chain.Find | src/Main.java:96-106 | nothing is found exactly when no block carries the id. Otherwise the block found carries the id and sits at a position before which no block carries it |
| Chain.DeleteFirst | src/Main.java:70-89 | with no match the sequence is unchanged. Otherwise exactly the block at the first match is cut out, and the length drops by one |
| Chain.DeleteFirstMultiset | src/Main.java:81-89 | deleting removes one copy of the matched block and keeps every other block |
| Chain.FindAfterAppend | src/Main.java:52-63 | after an add, a lookup of the new id finds the new block unless an earlier block already carries that id; in that case the earlier one is still found |
| Chain.Partition | src/Main.java:112-155 | the partition has the same length and the same multiset of blocks as the input, and no block of the given type follows a block of another type |
| Chain.PartitionCharacterization | src/Main.java:112-155 | a sequence is the stable partition of s if and only if it is partitioned and keeps the relative order of the matching blocks and of the other blocks of s |
| Chain.PartitionKeepsOrder | src/Main.java:127-143 | the partition lists the blocks of the given type in the order they had, and the other blocks likewise |
| Chain.PartitionIdempotent | src/Main.java:112-155 | sorting twice by the same type gives the same order as sorting once |
| Chain.Reverse | src/Main.java:182-191 | the reversed sequence has the same length, and its i-th block is the i-th from the end |
| Chain.ReverseReverse | src/Main.java:177-192 | reversing twice gives back the original sequence |
| Chain.PrintoutsAgree | src/Main.java:162-192 | the backward printout is the "empty" report exactly when the forward one is. Otherwise its rows are the forward rows reversed, and reversing them back gives the forward rows |
| Arena.LinkedDistinct | src/Main.java:33-34 | a linked chain visits no node twice (the links are acyclic) |
| Arena.ChainUnique | src/Main.java:47 | the links determine the chain: two chains reached from the same genesis are equal |
| Arena.ChainSymmetric | src/Main.java:33-34 | in a chain, genesis has a null `prev`, and whenever x.next is y, y.prev is x (and conversely) |
| Arena.AllocLinked | src/Main.java:53 | a new node with null links is a chain of one, it is not part of any existing chain, and allocating it disturbs no chain |
| Arena.Join | src/Main.java:61-62 | `x.next = y; y.prev = x`: those two links are set, no block changes, and every node other than x and y is left as it was |
| Arena.Detach | src/Main.java:124-125 | `c.next = null; c.prev = null`: both links of c are null afterwards, no block changes, and every other node is left as it was |
| Arena.Unlink | src/Main.java:81-89 | with a predecessor, its `next` becomes c's successor and genesis stays. Without one, genesis moves to c's successor. With a successor, its `prev` becomes c's predecessor. No block changes, and every node other than the predecessor and the successor is left as it was |
| Arena.JoinLinked | src/Main.java:61-62 | setting `last.next = n; n.prev = last` links two disjoint chains into their concatenation and changes no block |
| Arena.DetachLinked | src/Main.java:124-125 | clearing both links of a node outside a chain leaves that chain linked and makes the node a chain of one |
| Arena.UnlinkChain | src/Main.java:81-89 | unlinking the node at position k (through its predecessor, or by moving genesis when it is first, then fixing its successor's `prev`) leaves the chain without position k, still linked, with no block changed |
| Arena.SelectRefs | src/Main.java:127-143 | the nodes sent to one of the two sort lists, in chain order, hold exactly the blocks the abstract selection keeps |
| Arena.PartitionRefs | src/Main.java:147-155 | the chain the sort builds holds exactly the stable partition of the old blocks |

## Left out

- The command loop, input parsing and its "Invalid input" messages (src/Main.java:197-257) are not modelled. They only dispatch to the operations above.
- Output text is not modelled. Printing returns a `Printout` value: the "empty" report or the rows in the order visited. The printf formatting of rows is not part of the model. Neither are the confirmations printed by add, delete and sort. Delete's "removed"/"not found" outcome is modelled as the returned flag `removed`.
- `String.equals` is modelled as equality of `seq<char>`.
- Object identity and allocation: a node is an index into the arena, and `new` appends to it. A node unlinked by delete stays in the arena unreachable, because garbage collection is not modelled.
- Every operation requires the ledger to hold a chain (`IsChain`). Every operation returns one, and `NewLedger` starts from one, so this covers every state the program can reach. A ledger with cyclic or asymmetric links cannot arise and is not modelled.
- Running time (the O(n) walks) is not modelled.
