# Chirp's data structures and protocols, verified

Chirp is a message-passing library on top of libuv. It keeps its connections, replaced connections,
receipts and instances in the intrusive containers of `sglib.h`, and it registers, closes and frees them
from libuv callbacks. This project models those containers and protocols in Dafny and proves what the rest
of the library relies on.

`dafny verify dfyconfig.toml` verifies everything.

## How the model is built

**Trees.** `Nodes.Node` is a structure with the two link fields and the color the library uses, a mutable
key, and an integer address that stands for the pointer sglib breaks ties with. `Trees` holds red-black trees as values
(`Tree`) together with what each step of the library makes of them; `RbTree` holds the methods that relink
nodes in place, each proved to link exactly the tree the value-level function computes. A macro that is
expanded once with `left, right` and once with `right, left` takes a `Side`. The theorems about balance,
order and contents are proved about the values and reach the nodes through `Links.Represents`.

**Walks.** `Walks.Walk` is the recursive definition of the walk in the three orders, with or without a filter.
`Iterators.Iterator` is the explicit-stack iterator and `Traversals.Traversal` the second, independent
non-recursive traversal. Freeing an element havocs all its fields: that the walk goes on as specified all the
same shows that it does not depend on what a freed element holds.

**Sorts.** Quicksort and heap sort work in place on an array and a companion array of any type and return, as a
ghost, the permutation both have undergone. The merge sort relinks list nodes.

**Protocols.** `Registry` keeps the history of registrations and shutdowns as a ghost sequence and proves what
the two connection trees hold after any history in which whoever registers is in neither tree at that moment and
has nobody's address there; those are exactly the histories that keep the trees intact. `Readers` runs the reader's loop on
arbitrary bytes, with arbitrary bytes behind them. `Teardown` and `Closing` are state machines: libuv's
guarantees are the predicates `Possible` and `Enabled` that say which callback may come next, and the theorems
range over all runs these allow. `Lifetimes` joins registration and teardown, with the allocator's promise that memory it hands out is not in use. `Callbacks` updates the fields as the source
does (`ch_connection_t` is `Callbacks.Connection` for its teardown and `Readers.Connection` for its reader); its `Loop` holds an instance, its connections and their registry together with the ghost log of the run,
and its methods establish the laws of all runs for the fields themselves.
The guarantees assumed of libuv: a shutdown request is granted only while the stream is open; each granted
request has exactly one callback, and it comes before the stream's close callback; each `uv_close` has exactly one
callback; an armed timer fires at most once and not after it is stopped or closing; a shutdown request cannot
be cancelled by `uv_cancel`.

## What turned out different from what one would expect

- **The closing semaphore** is meant to count every callback still to come (src/chirp.c:231-238). It does so
  exactly in the runs in which nothing is outstanding when closing begins, no shutdown timer fires afterwards and no
  connection fails to be accepted afterwards (`Closing.CleanIsExact`). In every run it is off by a known amount
  (`Closing.SemaphoreLaw`), and three runs show the consequence: an instance freed while a callback of one of
  its connections is still to come, and a semaphore left at minus two.
- **A refused shutdown request** leaves a connection that is never closed and never freed: when no callback is to
  come any more, an accepted connection has been freed exactly if its first request was granted
  (`Teardown.FreedIffGranted`).
- **A connection that could not be accepted** is freed while its timer handle, initialized with it, is still open
  (`Teardown.FreedWithTimerClosed`).
- **A shutdown deletes by key.** It removes its own connection and nothing else exactly when that connection is
  registered or nobody holds its key (`Registry.ShutdownDropsItself`); a replaced connection takes its
  replacement out of the dictionary and stays in the set of replaced ones itself
  (`Registry.ReplacedTakesTheNewOneAlong`).
- **A freed connection can still be listed.** That is so exactly if another one had taken its key while it was
  registered, or its handshake came after a shutdown had been called for and nothing with its key has happened since
  (`Lifetimes.FreedButListed`, with one run for each: `Lifetimes.FreedInTheSet`, `Lifetimes.FreedInTheDictionary`).
  The walk at closing time comes to those that were replaced and calls for their shutdown once more
  (`Lifetimes.ClosingReaches`). As long as the memory still holds the connection, such a call finds the mark of
  the first and does nothing (`Teardown.ShutdownAfterFree`).
- **A handshake need not conserve connections**, for the memory of a freed connection that is still listed may be
  handed out again. In the runs of the program the registry stays intact exactly if no connection registers at
  the address of such a one (`Lifetimes.IntactExactly`), and there is a run in which one does
  (`Lifetimes.RecycledMemory`). Already its initialization tears the tree that still holds the node, unless the node
  was blank (`Registry.Protocol.Initialize`).
- **The comparator of connections** is an order on 16-bit ports, which is what a handshake delivers, but not on
  all values of its 32-bit field (`Connections.WidePortsRunInACircle`).
- **The reader's test for a complete header** adds the bytes already handled where those left are meant. It is
  wrong exactly for sizes within the bytes handled of a header's size (`Readers.HeaderTest`). A first read of a
  handshake and part of a header passes it (`Readers.PartialHeaderTaken`), and what lies behind the bytes read then decides
  how long a body is expected (`Readers.UnreadBytesDecide`).
- **The reader can go round for ever**: reading a body is a stub that takes nothing. `Readers.NeverReturns` says for
  which states and bytes a call does not return, and `Readers.StuckFromStart` gives bytes with which the first does not.
- **The consistency check** of the tree library looks at parents and children only and so accepts trees that are
  not sorted (`Consistency.SaneNeedNotBeSorted`).

## Model

| member | source | states |
|---|---|---|
| Trees.AddCorrect | src/sglib.h:1723-1727 | Adding a node with a new address to any valid tree gives a valid tree whose in-order cells are the old ones with the new one at its (comparator, address) place, and whose nodes are the old ones and the new one. |
| Trees.AddRecBalance | src/sglib.h:1636-1653 | In every subtree the black height does not change, a red root stays red, and a red-red pair can be left only at a root that was red. |
| Trees.FixInsertionBalance | src/sglib.h:1452-1491 | Under a black node the insertion fix repairs every shape that recursion can hand it, without changing the black height. |
| Trees.FixInsertionInorder | src/sglib.h:1452-1491 | Recoloring, single and double rotation all keep the in-order sequence. |
| Trees.DeleteCorrect | src/sglib.h:1729-1732 | Deleting a member of any valid tree gives a valid tree: the same cells in the same order without that one, the same nodes without that one. |
| Trees.DeleteRecBalance | src/sglib.h:1678-1721 | In every subtree the new black height is the old one less the returned flag, the result is red-black, and a black root never turns red. |
| Trees.DeleteRightmostBalance | src/sglib.h:1655-1676 | The same contract for taking out the rightmost leaf. |
| Trees.FixDeletionBalance | src/sglib.h:1493-1612 | From any node whose one side is one black level short, every case of the fix restores balance, and the flag says whether the whole is one level shorter. |
| Trees.FixRedSiblingBalance | src/sglib.h:1507-1564 | With a red sibling the lost level is always made up and the new root is black. |
| Trees.RedSiblingChildren | src/sglib.h:1508-1518 | Under a red sibling there are two black nodes, so that the branch for a missing inner child is dead and the assertion about its color holds. |
| Trees.SettleBalance | src/sglib.h:1687-1696 | The deletion fix is only ever called on a node whose other side is non-empty and exactly one black level higher, and what it returns meets the recursion's contract. |
| Trees.FixDeletionInorder | src/sglib.h:1493-1612 | Every case of the deletion fix keeps the in-order sequence. |
| Trees.DeleteRecInorder | src/sglib.h:1678-1721 | Deleting a member takes exactly that cell out of the in-order sequence, also when the rightmost leaf of the left subtree takes its place. |
| Trees.HeightLogarithmic | src/sglib.h:1954-1956 | A tree with black root and n nodes is at most 2 * log2(n + 1) high. |
| Trees.StacksSuffice | src/sglib.h:760-761 | Trees of fewer than 2^64 - 1 nodes stay below the 128 slots of the walks' stacks, so that the "too deep" assertion never fires. |
| RbTree.FixInsertionDiscrepancy | src/sglib.h:1452-1491 | The relinking in place links exactly the tree the value-level fix gives, whatever hangs below. |
| RbTree.FixDeletionDiscrepancy | src/sglib.h:1493-1612 | The same for the deletion fix on any node one side of which is a black level short, with its flag; the branches for an empty sibling, an empty inner child and the final `assert(0)` are dead, and the other assertions hold. |
| RbTree.Add | src/sglib.h:1723-1727 | Links the node into the tree in place: valid again, the in-order sequence with the node inserted, no key and no other node changed. |
| RbTree.Delete | src/sglib.h:1729-1732 | Takes the node out in place: valid again, the in-order sequence without it, no key and no other node changed. |
| RbTree.DeleteRightmostLeaf | src/sglib.h:1655-1676 | Unlinks the rightmost node in place and hands it out, with the flag of the value-level function. |
| RbTree.DeleteRecursive | src/sglib.h:1678-1721 | The recursion on linked nodes computes the value-level deletion and its flag; its assertions hold. |
| RbTree.FindMember | src/sglib.h:790-801 | Finds the topmost element equal to the argument, and null exactly if there is none, for every comparator that follows the tree's order. |
| RbTree.IsMember | src/sglib.h:1740-1754 | Decides whether this very node is linked into the tree. |
| RbTree.DeleteIfMember | src/sglib.h:1756-1763 | Deletes and returns an element equal to the argument, or leaves the tree alone exactly if none is equal. |
| RbTree.AddIfNotMember | src/sglib.h:1764-1771 | Adds the node unless an equal element is found, which it returns leaving the tree alone. |
| Search.FocusDecides | src/sglib.h:790-801 | The descent finds an equal element exactly when the tree has one. |
| Search.FocusKeepsEquals | src/sglib.h:790-801 | All elements equal to the argument lie in the subtree whose root the descent stops at. |
| Dictionary.HistoryRefinesDictionary | src/sglib.h:1756-1771 | Any history of add-if-absent and delete-if-present on a valid tree keeps it valid and its elements those of a finite map with one element per key; a node, or another one at its address, may come back with any key once it is out. |
| Dictionary.PutRefines | src/sglib.h:1764-1771 | Add-if-absent adds the cell exactly when its key is new. |
| Dictionary.DropRefines | src/sglib.h:1756-1763 | Delete-if-present removes exactly the elements with that key. |
| Consistency.ConsistencyCheck | src/sglib.h:1876-1900 | The library's self-check passes exactly on red-black trees with a black root in which no child is on the wrong side of its parent. |
| Consistency.ValidIsSane | src/sglib.h:1876-1900 | It passes on every valid tree. |
| Consistency.SaneNeedNotBeSorted | src/sglib.h:1881-1882 | It also passes on a tree that is not sorted. |
| Walks.FilteredWalk | src/sglib.h:1865-1867 | Jumping to the topmost equal element of every subtree visits exactly the in-order subsequence of equal elements, for every comparator that follows the tree's order. |
| Walks.WalkIsPostorder | src/sglib.h:1862-1864 | Order 2 is the postorder sequence. |
| Walks.WalkIsInorder | src/sglib.h:1859-1861 | Order 1 is the in-order sequence. |
| Walks.WalkIsPreorder | src/sglib.h:1856-1858 | Order 0 is the preorder sequence. |
| Walks.AdvancePending | src/sglib.h:1788-1821 | One round of the iterator's loop yields the node that is due and leaves exactly the rest to come. |
| Walks.AdvanceNested | src/sglib.h:1788-1821 | The path stays within the 128 slots, and no round makes the iterator read a node it was done with. |
| Iterators.Iterator.constructor | src/sglib.h:1823-1852 | After initialization the iterator stands at the start of the walk in its order and with its filter. |
| Iterators.Iterator.Next | src/sglib.h:1871-1874 | Each call moves one cell on and returns it, and null for good after the last. |
| Iterators.Iterator.ComputeCurrentElem | src/sglib.h:1781-1822 | The loop stops at the next cell that is due, or empties the path; it terminates. |
| Receipts.FreeReceipts | src/protocol.c:179-195 | The loop may free each receipt before it advances: it frees every node exactly once, in postorder. |
| Walks.WalkOnce | src/sglib.h:1781-1822 | In each of the three orders the walk names every node of the tree, and none twice. |
| Receipts.EachOnce | src/protocol.c:182-194 | So it is with the nodes that are handed out one by one. |
| Traversals.MapOnElements | src/sglib.h:733-776 | The second traversal runs its command on each node exactly once, in the walk's order, also when the command destroys it; the "too deep" assertion holds. |
| Traversals.Len | src/sglib.h:1772-1779 | The count is the number of nodes. |
| QuickSorts.QuickSort | src/sglib.h:94-158 | Every array of up to 2^64 elements ends up ascending; it and its companion have undergone the same permutation; the 64-slot stacks never overflow; it terminates. |
| QuickSorts.Partition | src/sglib.h:107-129 | Afterwards the element at the returned place is at least everything before it and at most everything after it in the segment; nothing outside has moved. |
| QuickSorts.PartitionPass | src/sglib.h:110-128 | A pass brings the indices closer, or moves neither but leaves the next pass able to. |
| QuickSorts.HalvingSplit | src/sglib.h:130-150 | As the larger part is the one pushed, the segment at slot k has at most n / 2^k elements. |
| QuickSorts.RoomToPush | src/sglib.h:96-98 | A segment that is split has room for one more on the stack. |
| HeapSorts.HeapSort | src/sglib.h:56-65 | Every array ends up ascending; it and its companion have undergone the same permutation. |
| HeapSorts.HeapDown | src/sglib.h:67-85 | Sinking the element restores the heap below it, by exchanges within the heap only. |
| HeapSorts.RootIsGreatest | src/sglib.h:61-64 | The root of a heap is at least every element, which is why it may go to the end. |
| Exchanges.RearrangedSameElements | src/sglib.h:1944 | A permuted array holds the same elements as often. |
| ListSorts.ListSort | src/sglib.h:417-455 | Every acyclic list ends up as an acyclic list of exactly the same nodes in comparator order; the sort terminates. |
| ListSorts.SortingSorts | src/sglib.h:422-453 | Passes over doubling run lengths, until one finds no full run, sort any sequence. |
| ListSorts.PassDoublesRuns | src/sglib.h:424-452 | A pass turns sorted runs of length n into sorted runs of length 2n. |
| ListSorts.MergedSorted | src/sglib.h:440-448 | Merging two sorted runs gives a sorted one. |
| ListSorts.Merge | src/sglib.h:440-450 | The merging loop relinks the two runs onto the end of the result and leaves the rest of the list alone. |
| Connections.KeyOrder | src/connection.h:184-199 | Of two keys the one with the smaller protocol comes first; then the one with the smaller byte where the 4 or 16 significant address bytes first differ; then the one with the smaller port. |
| Connections.PeersAreOrdered | src/connection.h:184-199 | On protocol, address and 16-bit port the comparator is antisymmetric and transitive. |
| Connections.SameKey | src/connection.h:184-199 | Two keys compare equal exactly when protocol, port and the 4 or 16 significant address bytes agree. |
| Connections.PortsCompareWhenTheyFit | src/connection.h:197 | For one address the result has the sign of the port difference exactly when that difference fits in 32 bits. |
| Connections.WidePortsRunInACircle | src/connection.h:197 | On all 32-bit ports the comparison runs in a circle. |
| Registry.EnterConserves | src/reader.c:139-168 | The registration of a connection that is in neither tree keeps both trees valid and disjoint, lets their union grow by that connection alone, gives it the key, and moves a previous holder to the replaced ones. |
| Registry.RegistrationExact | src/reader.c:139-168 | A registration keeps the registry exactly if the connection is in neither tree and has nobody's address there. |
| Registry.AdmissibleExactly | src/reader.c:139-168 | The registry is intact after every step of a history exactly if that was so at every registration. |
| Registry.LatestHolds | src/reader.c:139-168 | After any such history the dictionary holds exactly the connections whose registration is the last event with their key, and the set exactly those whose key was next registered by another. |
| Registry.Protocol.Initialize | src/connection.c:683 | Clearing a connection's memory leaves linked trees alone exactly if the connection is in neither of them or was blank already. |
| Registry.WhoMayRegister | src/reader.c:165-168 | A connection may register exactly when no current and no replaced connection has its address, so that the address of one that is in neither tree may be used again. |
| Registry.GoneUnlessDisplaced | src/connection.c:379-386 | After its shutdown a connection that does not register again is out of both trees exactly if it had not been replaced. |
| Registry.ShutdownDropsItself | src/connection.c:379-386 | The blind delete takes out its own connection and nothing else exactly when that is registered or nobody holds its key. |
| Registry.ReplacedTakesTheNewOneAlong | src/connection.c:379-386 | A replaced connection that shuts down takes its replacement out of the dictionary. |
| Registry.Protocol.Register | src/reader.c:139-168 | Find, delete from one tree and add to the other, on linked nodes, for any connection that is in neither: the trees are what the history with this registration makes them, and the previous holder is returned. |
| Registry.Protocol.Withdraw | src/connection.c:379-386 | The blind delete on linked nodes: the trees are what the history with this shutdown makes them. |
| Readers.RegistersOnce | src/reader.c:217-243 | Over any number of reads a connection registers at most once, and exactly when its handshake arrives whole with the first data and its peer is known. |
| Readers.GreetRegisters | src/reader.c:95-168 | A whole handshake from a known peer registers the connection, and does nothing else; its key is then the peer's protocol and address, four bytes of it for IPv4, and the port in the first two bytes in network order. |
| Readers.GreetRefuses | src/reader.c:82-121 | A short handshake and one from an unknown peer mark the connection as shutting down and delete it by its key, unless it was marked already. |
| Readers.CallAnswers | src/reader.c:201-338 | What a whole call does: it registers the connection exactly if it completes the handshake; it is refused exactly for a handshake of less than 20 bytes or an unknown peer, with 1 to 3 bytes behind the handshake, or with less than 44 bytes for a header; a refusal deletes by the connection's key, the first time. |
| Readers.HeaderTaken | src/reader.c:257-279 | A header gives the two lengths in network order and leads to the first part that is not empty, in the order header, actor, data; nothing else changes. |
| Readers.HeaderRefused | src/reader.c:246-256 | A pass that finds no header shuts the connection down and returns. |
| Readers.HeadersTaken | src/reader.c:244-337 | Over several headers the reader goes on while they are empty and bytes are left, and ends with what the last of them says. |
| Readers.FinishAdds | src/reader.c:216-338 | One read registers the connection exactly when it completes the handshake, under the peer's address and the port sent, and never leads back to the handshake. |
| Readers.SamePeerSameKey | src/reader.c:95-138 | Whatever a connection's address bytes were before, two handshakes give it the same key exactly when peer and port are the same. |
| Readers.PortRoundTrip | src/reader.c:95-96 | The port read from a handshake is the one the other side put in, in network order. |
| Readers.HeaderTest | src/reader.c:245-256 | The test for a complete header is right except for sizes within the bytes handled of a header's size, and wrong for all of those. |
| Readers.PartialHeaderTaken | src/reader.c:245-279 | After a first read of 24 to 63 bytes, a handshake and part of a header, the lengths and the state are those of a whole header. |
| Readers.UnreadBytesDecide | src/reader.c:257-266 | For every such read the expected length depends on bytes that have not been read. |
| Readers.NeverReturns | src/reader.c:216-338 | A call goes round for ever exactly if it begins in a body with any bytes, or if the first header that announces a body, counting from behind the handshake where that is due, is followed by more bytes. |
| Readers.StuckFromStart | src/reader.c:216-367 | 65 bytes with which a connection's first call does not return, whatever lies behind them. |
| Readers.BodySpins | src/reader.c:341-367 | With a body announced and bytes left the loop is still running after any number of rounds. |
| Readers.Read | src/reader.c:201-338 | On the fields and the linked trees: the connection's key, mark and registration are what its state and the bytes decide; after a refusal nobody holds its key; whether the call would go on for ever; and whatever other connections do in between, none of those there are registers twice. |
| Readers.GreetPeer | src/reader.c:64-168 | On the fields: a short handshake or an unknown peer leads to a shutdown and no registration; otherwise the connection is registered under the peer's address and the port in network order. |
| Teardown.FreedOnceAtTheEnd | src/connection.c:609-667 | In every run the shutdown semaphore is the number of close callbacks to come, the connection is freed at most once, by the last of them, and no callback comes for it afterwards. |
| Teardown.ShutdownAfterFree | src/connection.c:369-377 | A shutdown called for after the free leaves an accepted connection's memory as it is: nothing becomes owed, counted or freed again. |
| Teardown.FreedWithTimerClosed | src/protocol.c:252-255 | A freed connection's timer handle has been closed exactly if the connection had been accepted. |
| Teardown.FreedInTheEnd | src/connection.c:288-347 | In whatever order shutdown callback, timeout and close callbacks arrive: once no more can come, the connection has been freed. |
| Teardown.StepAccounted | src/connection.c:478-514 | Every call and callback keeps the invariant, leaves less to do, and moves the closing semaphore with the callbacks owed, but for a timeout, which takes two off. |
| Teardown.BoundedCallbacks | src/connection.c:288-347 | Once closing is under way at most as many callbacks come as work was left, never more than four. |
| Teardown.RefusedShutdownLeaks | src/connection.c:414-429 | A connection whose first shutdown request is refused is never freed, whatever happens. |
| Teardown.FreedIffGranted | src/connection.c:414-429 | When no callback is to come any more, an accepted connection has been freed exactly if its first request was granted. |
| Lifetimes.IntactExactly | src/reader.c:139-168 | In every run in which the allocator hands out only memory that is not in use, the registry stays intact at every step exactly if no connection registers at the address of a freed one that is still listed. |
| Lifetimes.HarmlessWhenClear | src/protocol.c:219-221 | A connection may register without harm exactly if no freed one that is still listed had its address. |
| Lifetimes.RecycledMemory | src/protocol.c:219-221 | A run in which the memory of such a one is handed out again and the registration from there breaks the registry. |
| Lifetimes.ListedNodes | src/connection.c:379-386 | The trees hold exactly the nodes of the current and the replaced connections. |
| Lifetimes.FreedButListed | src/connection.c:379-386 | A connection that registered and has been freed is still in one of the trees exactly if another one took its key while it was registered, or its handshake came after its shutdown was called for and nothing with its key has happened since. |
| Lifetimes.FreedInTime | src/connection.c:379-386 | If its handshake came in time, exactly if it was replaced. |
| Lifetimes.ClosingReaches | src/protocol.c:114-123 | The walk over the replaced connections at closing time comes to a connection, freed or not, exactly if it was replaced. |
| Lifetimes.FreedInTheDictionary | src/reader.c:165-168 | A run in which a shutdown is called for before the connection has a key, the handshake arrives after that, and the freed connection stays in the dictionary. |
| Lifetimes.FreedInTheSet | src/protocol.c:114-123 | A run of two registrations and one complete shutdown after which the walk shuts down a freed connection. |
| Closing.SemaphoreLaw | src/chirp.c:231-238 | In every run the closing semaphore is the number of outstanding callbacks less what has slipped: those outstanding when closing began, two for each timeout and one for each failed accept since; and it is watched from the closing of the servers until the teardown. |
| Closing.CleanIsExact | src/chirp.c:231-238 | The semaphore is exact in the runs in which nothing slips, and in no others. |
| Closing.TornDownWhen | src/chirp.c:165-169 | Looking at the semaphore starts the teardown exactly when no more is outstanding than has slipped. |
| Closing.CleanTeardown | src/chirp.c:146-178 | When nothing has slipped, the teardown starts only when no callback of a connection or a server is left. |
| Closing.NeverStuck | src/chirp.c:231-238 | While something is outstanding, one of the callbacks it consists of can come next. |
| Closing.EarlyShutdownIsForgotten | src/connection.c:430-431 | A shutdown begun before closing: the instance is freed while its callback is still to come. |
| Closing.RefusedConnectionMakesForget | src/protocol.c:252-255 | A connection that cannot be accepted while closing makes the instance be freed while the shutdown callback of another one is still to come. |
| Closing.TimeoutTakesTwo | src/connection.c:494-496 | A timeout after the closing callback leaves the semaphore at minus two when all is done. |
| Callbacks.Loop.Deliver | src/connection.c:288-514 | Any call for a shutdown, shutdown callback, timeout or close callback, on the fields: the run stays legal, the closing semaphore is what is outstanding less what has slipped, every connection's semaphore is its close callbacks to come, the connection is freed exactly by its last one, and the registry is told of its first shutdown. |
| Callbacks.Loop.Accept | src/protocol.c:231-256 | The same laws after a connection has been accepted or refused. |
| Callbacks.Loop.Register | src/reader.c:139-168 | A handshake enters the connection into the registry and leaves the laws alone. |
| Callbacks.Loop.CloseSafely | src/chirp.c:268-327 | The first call sets the flag and asks for the closing callback; a second one, and one on a closed instance, leave every field as it is and say so; the laws hold. |
| Callbacks.Loop.CloseCallback | src/chirp.c:195-244 | Shuts down whichever connections the walks come to, closes the servers and the async handle, counts three and starts watching; the same laws; on an instance that is gone it does nothing. |
| Callbacks.Loop.ServerClosedCallback | src/chirp.c:247-264 | The same laws after a server's close callback. |
| Callbacks.Loop.CheckClosing | src/chirp.c:146-178 | The teardown starts exactly when no more is outstanding than has slipped. |
| Callbacks.Connection.CloseCallback | src/connection.c:609-667 | The source's assertion that the semaphore stays above -1 holds in every state a run can reach. |
| Buffers.Msb32 | src/util.h:54-71 | Returns 0 for 0 and otherwise the place of the most significant bit, counted from 1. |
| Buffers.MsbIsLowestFree | src/buffer.h:150-154 | The most significant bit set belongs to the free handler with the lowest number. |
| Buffers.FirstFree | src/buffer.h:149-155 | In a pool with a free handler the search finds the first one. |
| Buffers.ReserveAgrees | src/buffer.h:151-152 | Clearing the bit marks that handler, and no other, as out. |
| Buffers.ReturnAgrees | src/buffer.h:187-189 | Setting the bit marks that handler, and no other, as free. |
| Buffers.Pool.Reserve | src/buffer.h:131-160 | Hands out the lowest-numbered free handler, or null exactly when all are out; bitmap, flags and count agree again. |
| Buffers.Pool.Return | src/buffer.h:166-190 | Takes back a handler that is out; bitmap, flags and count agree again. |
| Buffers.Pool.constructor | src/buffer.h:104-126 | A new pool of 0 to 32 handlers has all of them free, and no bit set for a handler it does not have unless it has none at all. |

## Left out

- RbTree.Add: a `type **` parameter is modelled as a returned root, here and in all tree operations; the caller's assignment is not part of the model.
- QuickSorts.QuickSort: indices are unbounded integers, so that the wrap-around of the source's `int` above 2^31 elements is not modelled; the same goes for `2*i+1` in the heap sort.
- ListSorts.ListSort: the run length doubles without the wrap-around of `int`, which a list of 2^30 nodes would reach.
- Walks.Walk: the `short` and `char` fields of the iterator are unbounded here; they hold at most 128 and 3.
- Buffers.Pool.constructor: the word that C leaves undefined when it is shifted by its full width, for a pool of no handlers, is a parameter; the sign of `1 << 31` is not modelled.
- Connections.MemCmp: the standard promises only the sign of `memcmp`; the model returns the difference of the first differing bytes.
- Readers.Read: stops where the source would go round for ever; what is written to the peer, `max_timeout` and the remote identity are not modelled.
- Teardown.ShutdownAfterFree: memory that has been given back may hold anything by then; what a shutdown does to other contents is not modelled.
- Callbacks.Loop.Deliver: the TLS shutdown message and what sending it may lead to are not modelled; a shutdown here marks the connection, deletes by key, and asks libuv.
- Callbacks.Loop.CloseCallback: which connections the two walks come to, and what libuv answers, are parameters; that the walks visit every connection is not claimed, as they delete from the tree they walk (src/protocol.c:104-124).
- Registry.LatestHolds: the histories end where closing drops the set of replaced connections (src/protocol.c:125).
- Registry.Protocol.Register: what it does to a tree that has been torn, by a connection whose memory a listed one still owns, is not modelled; the same goes for Readers.Read and Readers.GreetPeer.
- Readers.GreetPeer: the peer's address comes from a parameter, as `uv_tcp_getpeername` would give it; like Readers.Read it asks that the connection is in neither tree; `Lifetimes.IntactExactly` says when that is so.
- TLS, BIO and socket I/O, the writer and its acknowledgements, the body of messages: not decided by this code or dependent on OpenSSL.
- The array priority queue, the hash table macros, hashed containers, plain list macros and binary search of `sglib.h`: undocumented or easy.
- The tree of instances and the reference count in `chirp.c`: one more user of the tree operations.
- Configuration, logging, allocation failure, signal handling, random identities and the bindings.
