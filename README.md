# Bid list with a dummy head node

A Dafny model of the `LinkedList` class of `LinkedList.cpp`: a singly linked list
of `Bid` records (identifier, title, fund, amount) that begins with a permanent
dummy node whose identifier is `"__dummy__"`. The list keeps three fields:
`head` (always the dummy), `tail` (the last real node, or the dummy when the
list is empty) and `size` (the number of real nodes). It supports O(1)
`Append` and `Prepend`, a linear `Search` that returns a bid with an empty
identifier when nothing matches, a linear `Remove` that refuses the dummy's
identifier, `Size`, and the in-order walk of `PrintList`.

Files:

- `bids.dfy` (module `Bids`): the `Bid` record, the dummy's identifier, the
  not-found bid.
- `list_spec.dfy` (module `ListSpec`): the abstract meaning of the list, a
  sequence of bids, with the first-match search and first-match removal as
  functions, and lemmas relating them to appending and prepending.
- `linked_list.dfy` (module `LinkedList`): the class `BidList` over `Node`
  objects. A ghost sequence `Nodes` is the chain from the dummy (`Nodes[0]`),
  and a ghost sequence `Contents` holds the bids after it. `Valid()` states that
  the chain is exactly `Nodes`: distinct nodes, linked in order, ending in
  `null`. It also states that `tail` is the last node, that `size == |Contents|`
  and that the head holds the dummy identifier. Every method keeps `Valid()`
  and states its effect on `Contents`.
- `client.dfy` (module `Client`): what the menu loop does with the list: enter
  a bid only when it is absent, and the append loop of the loader. It also holds
  use cases whose postconditions follow from the class contracts alone.
- `source_defects.dfy` (module `SourceDefects`): `Append` and `Remove` exactly
  as written, over an explicit heap of cells (a map from addresses to cells).
  A list holding given bids is laid out at consecutive addresses. Lemmas there
  exhibit the two defects listed under "## Findings", on concrete lists and on
  every bid sequence laid out at consecutive addresses.

The model departs from the code in `Remove` only: its scan asks whether a
successor exists before reading the successor's identifier, and it moves `tail`
back when the removed node was the tail. `Remove` also returns whether it
removed a node, standing for the two messages the code prints.

`Search` signals "not found" with a bid whose identifier is the empty string
(`LinkedList.cpp:192-193`), not with the dummy's identifier; callers test for
emptiness (`LinkedList.cpp:339`, `LinkedList.cpp:382`). `Bids.NotFound` is that bid.

## Model

| member | source | states |
|---|---|---|
| `Bids.BidWithId` | LinkedList.cpp:33-35 | the one-argument `Bid` constructor sets the identifier and leaves title and fund empty |
| `ListSpec.FirstMatch` | LinkedList.cpp:184-190 | the position found is the first in list order whose identifier matches; there is one exactly when some bid matches |
| `ListSpec.SearchResult` | LinkedList.cpp:180-194 | a search yields the first bid in list order with the identifier, or the empty-identifier bid when none matches |
| `ListSpec.RemoveFirst` | LinkedList.cpp:158-168 | removal takes out exactly the first matching bid and keeps the others in order; with no match the sequence is unchanged |
| `ListSpec.SearchAfterAppend` | LinkedList.cpp:111-118 | after an append, a search finds what it found before, else the appended bid if it matches, else nothing |
| `ListSpec.SearchAfterPrepend` | LinkedList.cpp:123-133 | after a prepend, a search yields the prepended bid if it matches, else what it yielded before |
| `ListSpec.NotFoundIffAbsent` | LinkedList.cpp:192-193 | for a non-empty identifier, the search result has the empty identifier exactly when no bid carries the identifier |
| `ListSpec.RemoveUndoesAppend` | LinkedList.cpp:158-168 | removing the identifier of a just-appended bid whose identifier was absent restores the previous contents |
| `ListSpec.RemoveUndoesPrepend` | LinkedList.cpp:158-168 | removing the identifier of a just-prepended bid restores the previous contents |
| `ListSpec.RemoveKeepsUnique` | LinkedList.cpp:158-168 | removal keeps identifiers unique |
| `ListSpec.SearchAfterRemove` | LinkedList.cpp:180-194 | with unique identifiers, after removing an identifier a search for it finds nothing |
| `ListSpec.RemoveIdempotent` | LinkedList.cpp:153-173 | with unique identifiers, a second removal of the same identifier changes nothing |
| `ListSpec.AppendKeepsUnique` | LinkedList.cpp:338-341 | appending a bid whose identifier is absent keeps identifiers unique |
| `LinkedList.Node.constructor` | LinkedList.cpp:60-63 | a node made from a bid holds that bid and has no successor |
| `LinkedList.BidList.Valid` | LinkedList.cpp:66-68 | the invariant of `head`, `tail` and `size`: the chain from the dummy `head` is finite and acyclic and ends in `null`, `tail` is its last node (the dummy when empty, as the constructor comment at line 85 says), and `size` is the number of real nodes |
| `LinkedList.BidList.EmptyIffHeadIsTail` | LinkedList.cpp:130-131 | in a valid list, `head == tail` exactly when the list is empty, exactly when the dummy has no successor |
| `LinkedList.BidList.constructor` | LinkedList.cpp:84-90 | a new list is valid and empty, with size 0 and head and tail both the dummy node, which has no successor |
| `LinkedList.BidList.Append` | LinkedList.cpp:111-118 | contents become old contents plus the bid; the new node is the tail; size grows by one; existing nodes and their bids are unchanged |
| `LinkedList.BidList.Prepend` | LinkedList.cpp:123-133 | contents become the bid followed by old contents; size grows by one; the new node follows the dummy; tail moves to it only when the list was empty |
| `LinkedList.BidList.Traverse` | LinkedList.cpp:138-146 | the walk from the dummy's successor to `null` visits exactly the contents, in order, and changes nothing |
| `LinkedList.BidList.Search` | LinkedList.cpp:180-194 | returns the search result on the contents and changes nothing |
| `LinkedList.BidList.Remove` | LinkedList.cpp:153-173 | the dummy identifier is a no-op; otherwise the first match is unlinked, size drops by one and the list stays valid (tail included); with no match nothing changes; reports whether it removed |
| `LinkedList.BidList.UnlinkSuccessor` | LinkedList.cpp:166-168 | unlinking the successor of a chain node deletes one position of the chain and contents, and moves the tail back when the tail was unlinked |
| `LinkedList.BidList.Size` | LinkedList.cpp:199-201 | the stored size is the number of bids in the list |
| `Client.EnterBid` | LinkedList.cpp:336-345 | appends exactly when the search reports the empty identifier, which for a non-empty identifier means the identifier is absent; unique identifiers stay unique |
| `Client.LoadBids` | LinkedList.cpp:258-271 | appending the loaded bids one by one leaves the contents as old contents followed by the bids, duplicates included |
| `Client.LoadThenTraverse` | LinkedList.cpp:258-271 | after loading bids into a new list, the size is their number and a traversal yields them in order |
| `Client.AppendThenSearch` | LinkedList.cpp:180-194 | after appending two bids with different identifiers, a search for the second yields it |
| `Client.RemoveFirstOfTwo` | LinkedList.cpp:158-168 | removing the first of two appended bids succeeds and leaves only the second |
| `Client.RemoveTwice` | LinkedList.cpp:153-173 | a second removal of the same identifier reports absence and leaves the list empty |
| `Client.PrependOrder` | LinkedList.cpp:123-133 | two prepends traverse in reverse order of insertion |
| `Client.RemoveFromEmpty` | LinkedList.cpp:160-162 | removing from an empty list with the guarded scan reports absence and leaves size 0 |
| `Client.RemoveTailThenAppend` | LinkedList.cpp:166-168 | after removing the only bid, a new append is in the list |
| `SourceDefects.RawNew` | LinkedList.cpp:84-90 | the written constructor: head and tail are the dummy cell, size 0, nothing reachable |
| `SourceDefects.AppendAsWritten` | LinkedList.cpp:111-118 | the written append hangs a fresh cell off whatever `tail` points at and makes it the tail |
| `SourceDefects.ScanAsWritten` | LinkedList.cpp:160-162 | when the written scan stops, the successor of the stop cell exists and matches; reading a null `next` is a null dereference |
| `SourceDefects.RemoveAsWritten` | LinkedList.cpp:153-173 | the written removal is a no-op on the dummy identifier and never moves `head` or `tail` |
| `SourceDefects.LaidOutHolds` | LinkedList.cpp:138-146 | a list laid out at consecutive addresses is a list holding its bids: the walk from the dummy visits them in order |
| `SourceDefects.ScanLaidOut` | LinkedList.cpp:160-162 | on every bid sequence laid out at consecutive addresses, the written scan stops just before the first match, and dereferences null when no bid matches |
| `SourceDefects.RemoveAbsentAlwaysCrashes` | LinkedList.cpp:161 | on every bid sequence laid out at consecutive addresses, the written removal of an absent identifier other than the dummy's dereferences null |
| `SourceDefects.RemovePresentKeepsTail` | LinkedList.cpp:166-168 | on every bid sequence laid out at consecutive addresses, the written removal of a present identifier shrinks `size` but leaves `tail` on the old last address |
| `SourceDefects.RemoveFromEmptyCrashes` | LinkedList.cpp:161 | on an empty list the written removal dereferences the dummy's null successor |
| `SourceDefects.RemoveAbsentCrashes` | LinkedList.cpp:161 | on a one-bid list the written removal of an absent identifier runs off the tail into null |
| `SourceDefects.RemoveTailLosesNextAppend` | LinkedList.cpp:166-168 | after the written removal of the last bid, tail is a detached cell and a later append is not reachable |

## Left out

- Console output: `PrintList` is modelled by `Traverse`, which returns the bids in visiting order instead of printing them. `Remove` returns a boolean instead of printing its two messages.
- `strToDouble` (currency string to `double` through `atof`): floating-point parsing through a C library call. `amount` is a `real` that the list never inspects.
- `loadBids`: reading the CSV file and its exception handling are I/O. `Client.LoadBids` takes the already parsed bids and models only the append loop.
- `getBid` and `displayBid`: console prompting and printing.
- `main`: the menu loop, argument handling, the one-shot load flag and `clock()` timing. Only the duplicate check of menu choice 1 is modelled, as `Client.EnterBid`.
- The destructor and the missing `delete` in `Remove`: memory release is not expressible in Dafny's garbage-collected heap. An unlinked node is simply no longer in `Nodes`.
- Bids.BidWithId: the C++ one-argument constructor leaves `amount` uninitialised; the model sets it to 0.0.
- LinkedList.BidList.Size: returns an unbounded integer; the source's 32-bit `int` counter would overflow past 2^31 - 1 nodes, which is not modelled.
- Concurrency: the source is single-threaded.

## Findings

| source | as written | input that shows it | evidently intended | confidence | as-written member | corrected member |
|---|---|---|---|---|---|---|
| LinkedList.cpp:161 | the loop reads `curNode->next->bid.bidId` before any check that `curNode->next` exists; the `curNode != nullptr` test comes after the dereference and never stops the loop | `Remove("1")` on an empty list, or `Remove("2")` on a list holding only a bid with identifier `"1"` | check that a successor exists first; stop with "not found" and no change | high, not executed | `SourceDefects.RemoveAbsentAlwaysCrashes` | `LinkedList.BidList.Remove` |
| LinkedList.cpp:166-168 | unlinking the last node leaves `tail` pointing at the detached node | append bid `"1"`, remove `"1"`, append bid `"2"`: the walk from the dummy visits nothing | move `tail` back to the predecessor when the tail is unlinked, so later appends stay reachable | high, not executed | `SourceDefects.RemoveTailLosesNextAppend` | `Client.RemoveTailThenAppend` |
