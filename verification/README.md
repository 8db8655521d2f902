# Verified models of xhnet and the algorithms it carries

xhnet is a C++ server library. This project models the parts of it that carry real algorithms and
proves, with Dafny 4.11, what their headers and documentation promise:

- **Search trees** (`rb_*.dfy`, `splay_*.dfy`): the red-black tree with parent links and the top-down
  splay tree of `tree.h`, as linked nodes on the heap. A ghost `shape` says how the nodes hang
  together; the loops read and write the same link fields as the macros. `splay_balance.dfy` counts the
  turns of the splay loop and bounds them over whole runs, `splay_walk.dfy` the walks of `SPLAY_NEXT`.
- **Hash table** (`hash_*.dfy`): the chained table of `ht-internal.h` as a bucket array and link
  fields, with both ways of growing.
- **Two locks** (`lock2.dfy`): `EVLOCK_LOCK2` and `EVLOCK_UNLOCK2` as a step relation over any number
  of threads.
- **Timer heap** (`min_heap.dfy`): the hole-based heap with back-pointers of `minheap-internal.h`.
- **MD5** (`md5_*.dfy`, `md5.dfy`): a definition that follows RFC 1321, and the streaming code.
  `md5_laws.dfy` says what the auxiliary functions do to bits, `md5_example.dfy` derives a digest of the RFC.
- **Generated serialisers** (`rpc_*.dfy`): schemas, messages and the marshalling code that
  `event_rpcgen.py` emits. `rpc_accept.dfy` says which buffers are accepted, in terms of their frames.
- **Class registry** (`tolua_*.dfy`): flattened superclass tables and the userdata cache of tolua++.
- **Timer life cycle** (`timer.dfy`): `CTimer` under calls from other threads, posted tasks and ticks.

`dafny verify dfyconfig.toml` checks everything.

## Where code and documentation disagree, or the code has a condition

- `ht-internal.h`: the search for the next prime length tests the index only after it has read the
  table, so with a size at or above the last limit it reads one element too many.
  `HashPrimes.SearchStaysInside` gives the exact condition, `HashPrimes.SearchStepsOut` an input;
  growing requires the condition.
- `event_rpcgen.py`: an array that is marked as set but empty is not written at all and comes back
  unset (`RpcCode.RoundTripIff`, `RpcCode.EmptyArrayIsLost`); nothing else changes
  (`RpcPruned.RoundTripPrunes`). The generated add, clear and unmarshal
  code never makes such an array; it takes a caller that writes the public fields.
- `impl_timer.cpp`: if the first call after `Init` is `Fini`, then `real_fini` runs before any
  `real_wait`, "end" is never delivered and the callback never released, although a later
  `Async_Wait` may still return true (`Timer.EndsIffWaitFirst`, `Timer.EndsIffNotDoomed`,
  `Timer.FiniBeforeWait`).
- `md5.cpp`: the loop test in `MD5Update` can wrap for calls of 2^32 - 64 bytes and more, and then the loop
  does not end. `Md5.EndlessIff` gives the exact condition on the length and the number of bytes fed
  before, `Md5.FirstWraps` an input; such calls are excluded.
- `tolua_push.c`: an object that keeps its more derived type is not entered in the root table, even
  when that is asked for (`ToluaRegistry.Registry.PushUserType`).
- `tolua_map.c`: a base that a class gets after others were derived from it does not reach the tables of
  those. `ToluaSuper.BaseAgrees` gives the exact condition under which the tables stay right, and
  `ToluaRegistry.LateBase` a run in which they do not.
- `tolua_map.c`: `tolua_addbase` does not share the userdata cache of the base. One pointer pushed with
  two types gives one userdata exactly if the types have one cache (`ToluaRegistry.PushAll`); with
  `tolua_cclass` alone a class has that of its base (`ToluaRegistry.LineageSharesCache`) if the calls come
  in the right order (`ToluaRegistry.SharingIff`, `ToluaRegistry.LateCache`), with `tolua_addbase` it may
  not (`ToluaRegistry.SeparateCaches`).
- `tree.h`: the header claims the Balance Theorem for all operations. For the turns of the splay loop it
  holds (`SplayBalance.BalanceTheorem`). The walk of `SPLAY_NEXT` down to the successor is not part of
  that loop. It is paid for when the successor is what the next operation is on, as in `SPLAY_FOREACH`
  (`SplayWalk.BalanceWithWalks`, `SplayTree.SplayTree.Foreach`); in any run just the other walks come on
  top (`SplayWalk.WalksPaid`), and `SplayWalk.NextWalks` shows that these are not bounded by the turns.
- `tree.h`: `SPLAY_REMOVE` returns its argument, not the node that was in the tree, and the model does
  the same.

## Model

| member | source | states |
|---|---|---|
| RbTree.RbTree.Insert | dependencies/windows/libevent/include/tree.h:579-606 | On a valid tree the result is a valid red-black tree (order, colours, black heights, parent links) with exactly the new node added; it returns null exactly if no node had that key, and otherwise returns the node that has it and changes nothing; all loops together take at most twice as many turns as the tree was high |
| RbTree.RbTree.Remove | dependencies/windows/libevent/include/tree.h:511-575 | Removing any node of a valid tree leaves a valid red-black tree whose nodes are the old ones minus that one, and returns that node; the fix-up loop ends and takes, with the descent to the successor, at most twice as many turns as the tree was high |
| RbTree.RbTree.InsertColor | dependencies/windows/libevent/include/tree.h:391-432 | From a tree whose only fault is a red node below a red parent, the climbing loop reaches a red-black tree with the same nodes in the same order, and ends because the fault climbs, in at most as many turns as the fault is deep |
| RbTree.RbTree.RemoveColor | dependencies/windows/libevent/include/tree.h:435-508 | From a tree that lacks one black node below one place, the loop reaches a red-black tree with the same in-order sequence, for a child that may be null; each turn lowers a measure, so that there are at most one more than the place is deep |
| RbTree.RbTree.RotateLeft | dependencies/windows/libevent/include/tree.h:335-353 | The pointer surgery of the rotation, including the parent link and the root, relinks the nodes in the rotated shape and nothing else |
| RbTree.RbTree.RotateRight | dependencies/windows/libevent/include/tree.h:355-373 | The mirror image |
| RbTree.RbTree.RemoveFull | dependencies/windows/libevent/include/tree.h:519-557 | Removing a node with two children: the successor is unlinked, takes over place, links and colour, and the order loses just the removed node |
| RbTree.RbTree.Replace | dependencies/windows/libevent/include/tree.h:539-553 | The node that takes over another one's place ends up with all its links, and all its neighbours point to it |
| RbTree.RbTree.Find | dependencies/windows/libevent/include/tree.h:610-624 | Finds the node with the key exactly if there is one, in at most as many turns as the tree is high |
| RbTree.RbTree.Next | dependencies/windows/libevent/include/tree.h:627-645 | The node with the least greater key, through children or parent pointers; null after the last, in at most as many turns as the tree is high |
| RbTree.RbTree.MinMax | dependencies/windows/libevent/include/tree.h:648-661 | The node with the least or the greatest key, null on an empty tree, in at most as many turns as the tree is high |
| RbTree.RbTree.Foreach | dependencies/windows/libevent/include/tree.h:672-675 | The visited nodes are the in-order sequence of the tree: every node once, in strictly increasing key order |
| RbTree.RbTree.HeightOfValid | dependencies/windows/libevent/include/tree.h:46-54 | Every tree that insert and remove can make satisfies 2^height <= (n + 1)^2 for its number n of nodes |
| RbTree.RbTree.constructor | dependencies/windows/libevent/include/tree.h:299-301 | An empty tree is valid |
| RbHeight.HeightBound | dependencies/windows/libevent/include/tree.h:46-54 | The same bound from the colour rules alone |
| RbHeight.OperationBound | dependencies/windows/libevent/include/tree.h:53-54 | Every operation is bounded as O(lg n): turns of at most twice the height are at most 4 lg(n + 1) |
| RbHeight.BlackHeightBounds | dependencies/windows/libevent/include/tree.h:46-54 | Black height h forces 2^h - 1 nodes and allows at most 2h levels (one more below a red root) |
| RbBalance.RedUncleStep | dependencies/windows/libevent/include/tree.h:399-404 | Recolouring parent, uncle and grandparent moves a red-red fault two levels up and keeps every black count |
| RbBalance.OuterStep | dependencies/windows/libevent/include/tree.h:411-412 | Recolouring and rotating at an outer red grandchild ends the fault with unchanged black height |
| RbBalance.SiblingExists | dependencies/windows/libevent/include/tree.h:443-447 | Where one black node is missing, the sibling is never null: its side is higher by one |
| RbBalance.RedSiblingStep | dependencies/windows/libevent/include/tree.h:443-447 | The red-sibling case keeps the missing black node in place, gives it a black sibling and lowers the measure |
| RbBalance.BlackNephewsStep | dependencies/windows/libevent/include/tree.h:448-454 | With two black nephews the missing black node moves up one level |
| RbBalance.NearNephewStep | dependencies/windows/libevent/include/tree.h:456-464 | A red near nephew is turned into a red far nephew |
| RbBalance.FarNephewStep | dependencies/windows/libevent/include/tree.h:465-471 | With a red far nephew the last rotation repairs all black counts |
| RbBalance.RemoveDone | dependencies/windows/libevent/include/tree.h:506-507 | Blackening the node where the loop stops repairs the tree |
| RbOrder.SuccessorInOrder | dependencies/windows/libevent/include/tree.h:520-557 | Moving the leftmost node of the right subtree to the place of the removed node keeps the order and loses only the removed node |
| RbOrder.NotFound | dependencies/windows/libevent/include/tree.h:585-600 | Hanging the new leaf at the null that the descent reaches keeps the order and adds just that node |
| RbShape.PlugGood | dependencies/windows/libevent/include/tree.h:335-373 | A subtree with the right black height and colour fits back under the rest of a red-black tree |
| RbShape.SortedDistinct | dependencies/windows/libevent/include/tree.h:627-645 | A tree in strict order holds no node twice |
| SplayTree.SplayTree.Splay | dependencies/windows/libevent/include/tree.h:203-235 | Keeps the tree valid, its nodes and their in-order sequence; afterwards every smaller node of the tree than the root has a key below that asked for, and every greater one a key above it; shape and number of turns are those whose cost `SplayBalance.SplitCost` bounds |
| SplayTree.SplayTree.TakeApart | dependencies/windows/libevent/include/tree.h:211-233 | The rotate-and-link loop ends with everything smaller than the key in the left tree, everything larger in the right tree, and the whole order unchanged, in the turns counted by the cost analysis |
| SplayTree.SplayTree.Assemble | dependencies/windows/libevent/include/tree.h:105-110 | Closing left, middle and right tree gives one valid tree with their joint order |
| SplayTree.SplayTree.Find | dependencies/windows/libevent/include/tree.h:122-130 | Finds the key exactly if present, keeping nodes and order |
| SplayTree.SplayTree.Insert | dependencies/windows/libevent/include/tree.h:158-179 | Adds exactly the new node unless the key is present, in which case that node is returned and nothing is added |
| SplayTree.SplayTree.Remove | dependencies/windows/libevent/include/tree.h:182-200 | Removes exactly the node with the key and keeps the order of all others; without such a node the order is unchanged |
| SplayTree.SplayTree.JoinSides | dependencies/windows/libevent/include/tree.h:192-195 | After re-splaying the left side its root has no right child, so attaching the right side loses nothing |
| SplayTree.SplayTree.Next | dependencies/windows/libevent/include/tree.h:132-145 | The node with the least greater key, with nodes and order kept; turns and walk are those that the cost analysis counts |
| SplayTree.SplayTree.SplayMinMax | dependencies/windows/libevent/include/tree.h:240-271 | Brings the first or the last node to the root, keeping nodes and order |
| SplayTree.SplayTree.MinMax | dependencies/windows/libevent/include/tree.h:147-151 | Returns the node with the least or the greatest key, null on an empty tree |
| SplayTree.SplayTree.Foreach | dependencies/windows/libevent/include/tree.h:285-288 | Visits every node once, in strictly increasing key order, although every step splays the tree, and costs O(n lg n): its walks are at most twice its turns, and these at most (4n + 3) lg(n + 1) |
| SplayBalance.BalanceTheorem | dependencies/windows/libevent/include/tree.h:42-44 | The Balance Theorem: any run of find, next, min, max, insert and remove on an initially empty tree takes, with n inserts, at most lg(n + 1) turns of the splay loop for each unit of the fees of its operations, 3 each for find, next, min and max, 4 for insert, 7 for remove |
| SplayBalance.AmortisedCost | dependencies/windows/libevent/include/tree.h:42-44 | From any tree of n nodes, a run takes at most that many turns and n more logarithms: the amortised cost is logarithmic |
| SplayWalk.BalanceWithWalks | dependencies/windows/libevent/include/tree.h:42-44 | The Balance Theorem with the walks of SPLAY_NEXT: if every node that it returns is what the next operation is on, turns and walks together are at most lg(n + 1) times three times the fees |
| SplayWalk.WalksPaid | dependencies/windows/libevent/include/tree.h:132-145 | In every run the walks cost at least those to nodes that the next operation is not on, and at most these and twice the turns of the splay loop |
| SplayWalk.SuccessorPays | dependencies/windows/libevent/include/tree.h:132-145 | The walk from the root to its successor is shorter than twice the turns of splaying that successor then |
| SplayWalk.LeastTurns | dependencies/windows/libevent/include/tree.h:211-233 | Splaying by the least key takes half as many turns as there are nodes on the way to it |
| SplayWalk.ServedSorted | dependencies/windows/libevent/include/tree.h:121-235 | The shapes that the cost analysis runs over stay search trees under every operation |
| SplayBalance.RunPaid | dependencies/windows/libevent/include/tree.h:203-235 | In every run the fees and the fall of the potential pay for all turns of the loop |
| SplayBalance.SplitCost | dependencies/windows/libevent/include/tree.h:211-233 | The amortised cost of one splay of any tree by any key: 2^turns times the potentials of both sides is at most the square of the size times the old potential, the potential being the product of the sizes of all subtrees |
| SplayWalk.NextWalks | dependencies/windows/libevent/include/tree.h:132-145 | Without that condition the walks are not bounded by the turns: after n inserts in ascending order, m times SPLAY_NEXT of the least node walk m * (n / 2) nodes, while the turns of the whole run do not depend on m |
| SplayShape.AssembleOrder | dependencies/windows/libevent/include/tree.h:105-110 | Closing the two open edges joins the three orders in sequence and keeps the set of nodes |
| SplayShape.AssembleSeparates | dependencies/windows/libevent/include/tree.h:203-235 | When the loop stops, the assembled root separates the smaller from the larger keys |
| SplayShape.ReSplayed | dependencies/windows/libevent/include/tree.h:192-195 | A tree of keys below k that is splayed by k has its largest node at the root and nothing to its right |
| SplayShape.KeyAtRoot | dependencies/windows/libevent/include/tree.h:122-130 | After splaying, the key is in the tree exactly if it is at the root |
| HashTable.HashTable.Grow | dependencies/windows/libevent/include/ht-internal.h:312-371 | Keeps exactly the entries and puts each into bucket hash mod new length once, whichever branch runs; the new length is the first one behind the present one with a limit above the size; the table, its length and limit stay as they are if the limit is above the size already, the last length is in use, or both allocations fail, and only then it returns -1 |
| HashTable.RehashInPlace | dependencies/windows/libevent/include/ht-internal.h:346-365 | The in-place branch ends with the same entries, each in bucket hash mod new length exactly once; it refines the same placement as the fresh table and terminates |
| HashTable.ScanBucket | dependencies/windows/libevent/include/ht-internal.h:353-363 | Scanning one bucket leaves in it only entries that belong there and may only add entries to other buckets that belong there, even when moved entries are met again |
| HashTable.Rehash | dependencies/windows/libevent/include/ht-internal.h:328-345 | The fresh-table branch ends with the same entries, each in bucket hash mod new length exactly once |
| HashTable.HashTable.Find | dependencies/windows/libevent/include/ht-internal.h:155-163 | Finds an entry with the key exactly if there is one, and leaves the hash in the element it was given |
| HashTable.HashTable.Insert | dependencies/windows/libevent/include/ht-internal.h:166-177 | Adds exactly the new entry and counts it; the table grows exactly if it is missing or full, a longer length is left and an allocation succeeds, and then to the first length with a limit above the new count; as long as it can grow, the entries stay within a nonzero load limit |
| HashTable.HashTable.Remove | dependencies/windows/libevent/include/ht-internal.h:202-215 | Takes out exactly the matching entry, with its link cleared and the count lowered, or changes nothing if there is none |
| HashTable.HashTable.ForeachFn | dependencies/windows/libevent/include/ht-internal.h:220-242 | Calls the function on every entry once in table order, handing its data argument on, and removes exactly those entries for which it says so, even if it frees or relinks them |
| HashTable.HashTable.Start | dependencies/windows/libevent/include/ht-internal.h:246-256 | The address that holds the first entry in the order of visits, null exactly if the table is empty |
| HashTable.HashTable.Next | dependencies/windows/libevent/include/ht-internal.h:262-276 | The address that holds the following entry in the order of visits, null exactly after the last |
| HashTable.HashTable.NextRmv | dependencies/windows/libevent/include/ht-internal.h:277-294 | Takes out exactly the current entry and gives the address of the one that followed it |
| HashTable.HashTable.Foreach | dependencies/windows/libevent/include/ht-internal.h:120-123 | Start and Next visit the whole order of visits |
| HashTable.HashTable.OnceEach | dependencies/windows/libevent/include/ht-internal.h:120-123 | The order of visits contains every entry of the table, each exactly once |
| HashTable.HashTable.Drain | dependencies/windows/libevent/include/ht-internal.h:246-294 | Start and NextRmv reach every entry once and leave an empty table |
| HashTable.HashTable.RepIsBad | dependencies/windows/libevent/include/ht-internal.h:385-417 | Returns 0 exactly if lengths, limit, stored hashes, buckets and count are right; hence 0 on every valid table whose growth has not failed, a freshly initialised one included; any other code names a fault that is there |
| HashPrimes.SearchStaysInside | dependencies/windows/libevent/include/ht-internal.h:322-327 | The search for the next length stays inside the table of primes exactly if the limit of the last prime is above the size, and then finds the first suitable length |
| HashPrimes.SearchStepsOut | dependencies/windows/libevent/include/ht-internal.h:322-327 | An input for which the search steps past the table: a size that the limit of the last prime does not exceed |
| HashShape.AllFit | dependencies/windows/libevent/include/ht-internal.h:352-364 | When all buckets fit, every entry is where its hash says: both ways of rehashing give the same placement |
| HashShape.FlatOnce | dependencies/windows/libevent/include/ht-internal.h:246-276 | The concatenated chains hold every placed entry exactly once |
| HashShape.BucketOfIsMod | dependencies/windows/libevent/include/ht-internal.h:116-118 | The bucket of a hash is its remainder |
| Lock2.SortLocks | dependencies/windows/libevent/include/evthread-internal.h:326-334 | The same two locks come out, in ascending order if neither is null, and as given if one is null |
| Lock2.SortedIsOrdered | dependencies/windows/libevent/include/evthread-internal.h:326-334 | There is only one such order, and it is the one in which the threads of the deadlock proof take their locks |
| Lock2.DeadlockFree | dependencies/windows/libevent/include/evthread-internal.h:336-345 | In every state of every run, with any number of threads and any lock pairs, some unfinished thread can go on |
| Lock2.AtMostOneHolder | dependencies/windows/libevent/include/evthread-internal.h:336-354 | In every state of every run a lock has at most one holder |
| Lock2.EveryRunFinishes | dependencies/windows/libevent/include/evthread-internal.h:336-354 | A run has at most as many steps as there are lock and unlock operations; a shorter one can be continued, one of that length has finished all threads and released all locks |
| Lock2.HoldsBothBetween | dependencies/windows/libevent/include/evthread-internal.h:336-354 | Between LOCK2 and UNLOCK2 a thread holds exactly the locks it asked for, also if one is null or both are equal, and afterwards none |
| Lock2.LowerFirst | dependencies/windows/libevent/include/evthread-internal.h:336-354 | In every state of every run, a thread that holds one of the two locks it asked for holds the one with the lower address: that one is taken first and released last |
| Lock2.FindEnabled | dependencies/windows/libevent/include/evthread-internal.h:336-345 | From a blocked thread, following the holders of the awaited locks leads to a thread that can go on |
| Lock2.StepInv | dependencies/windows/libevent/include/evthread-internal.h:336-354 | Every step keeps that a thread holds what its position says and that no lock is held twice |
| Lock2.UnsortedDeadlocks | dependencies/windows/libevent/include/evthread-internal.h:336-337 | Without the address order two threads with swapped arguments reach a state in which neither can go on |
| MinHeap.MinHeap.Push | dependencies/windows/libevent/include/minheap-internal.h:71-77 | Adds exactly the event, keeping heap order and every back-pointer; fails, changing nothing, exactly if the array is full and realloc fails |
| MinHeap.MinHeap.Pop | dependencies/windows/libevent/include/minheap-internal.h:79-89 | Takes out an event than which no other has fewer seconds, or as many seconds and fewer microseconds, gives it the index -1, and keeps heap order and back-pointers |
| MinHeap.MinHeap.Erase | dependencies/windows/libevent/include/minheap-internal.h:96-115 | Erasing at any position takes out exactly that event, with one shift in one direction; an event with index -1 is refused and nothing changes |
| MinHeap.MinHeap.Refill | dependencies/windows/libevent/include/minheap-internal.h:100-110 | The last event put into the place of the erased one needs to move only up or only down |
| MinHeap.MinHeap.ShiftUp | dependencies/windows/libevent/include/minheap-internal.h:133-143 | Moves the hole up and fills it so that the order holds everywhere, given that it holds below the hole |
| MinHeap.MinHeap.ShiftDown | dependencies/windows/libevent/include/minheap-internal.h:145-158 | Moves the hole down and fills it so that the order holds everywhere, given that it holds above the hole; the rightmost child may be missing |
| MinHeap.MinHeap.Reserve | dependencies/windows/libevent/include/minheap-internal.h:117-131 | Provides the capacity without touching the contents: the present one if it is enough, else twice that (8 if there is none), or the request if that is more; or fails without an effect |
| MinHeap.MinHeap.Top | dependencies/windows/libevent/include/minheap-internal.h:67-69 | An event of least seconds and, among these, least microseconds; null on an empty heap |
| MinHeap.MinHeap.EltIsTop | dependencies/windows/libevent/include/minheap-internal.h:91-94 | True exactly for the event in the first slot, than which no other then has fewer seconds, or as many seconds and fewer microseconds |
| MinHeap.Drain | dependencies/windows/libevent/include/minheap-internal.h:79-89 | Popping until the heap is empty gives every event once, sorted by seconds and then by microseconds |
| MinHeap.EventCount | dependencies/windows/libevent/include/minheap-internal.h:38-42 | With right back-pointers the array holds every event exactly once, so size and number of events agree |
| MinHeap.GoesUp | dependencies/windows/libevent/include/minheap-internal.h:102-108 | If the last event is earlier than the parent of the erased one, it is also not later than its children |
| MinHeap.RootIsLeast | dependencies/windows/libevent/include/minheap-internal.h:69 | The order between parents and children makes the root the earliest by seconds, then microseconds |
| MinHeap.TimeOrder | dependencies/windows/libevent/include/event2/util.h:411-414 | On times with less than a million microseconds, the comparison is the order of seconds times a million plus microseconds |
| Md5.Context.Init | source/md5/md5.cpp:11-19 | A context starts as the description of the empty message |
| Md5.Context.Update | source/md5/md5.cpp:20-43 | The context always describes the bytes fed so far: chaining value of the complete blocks, remaining bytes in the buffer, bit count modulo 2^64; for every call on which the loop test does not wrap |
| Md5.WrapsIff | source/md5/md5.cpp:34-38 | The loop test accepts a position with less than a block left exactly if the number of bytes fed and the length meet the stated condition |
| Md5.EndlessIff | source/md5/md5.cpp:34-35 | The loop of MD5Update does not end, exactly if its test wraps for the number of bytes fed and the length |
| Md5.FirstWraps | source/md5/md5.cpp:34-35 | The first such call: 2^32 - 64 bytes into a fresh context |
| Md5.Context.Final | source/md5/md5.cpp:44-54 | The digest is that of RFC 1321, sections 3.1 to 3.5, for the bytes fed, and no partial block remains |
| Md5.DigestOf | source/md5/md5.cpp:11-54 | For every division of a message into calls on which the loop test does not wrap, Init, Update and Final give its RFC 1321 digest |
| Md5.ChunkingIndependent | source/md5/md5.cpp:20-43 | Contexts fed the same bytes in different chunks agree in state, count and used part of the buffer |
| Md5.Transform | source/md5/md5.cpp:81-163 | The unrolled transform is the four-round form with index, shift and constant schedules |
| Md5Example.DigestOfAlphabet | source/md5/md5.cpp:11-163 | The digest of "abcdefghijklmnopqrstuvwxyz" in section A.5 of RFC 1321, derived operation by operation, which fixes initial state, schedules and constants |
| Md5.Mix | include/md5/md5.h:18-41 | The macro steps, which add in another order, compute the operation of the RFC |
| Md5Laws.FSelects | include/md5/md5.h:13 | F takes each bit from y where x has a 1 and from z elsewhere |
| Md5Laws.GSelects | include/md5/md5.h:14 | G takes each bit from x where z has a 1 and from y elsewhere |
| Md5Laws.HParity | include/md5/md5.h:15 | H is z where x and y agree, and the other bit elsewhere |
| Md5Laws.IDiffers | include/md5/md5.h:16 | Where z has a 1, I says whether x and y differ; elsewhere it is the other bit than y |
| Md5Laws.RotateLeftNumber | include/md5/md5.h:17 | Rotating x by n places is x * 2^n mod 2^32 + x / 2^(32 - n) |
| Md5.Encode | source/md5/md5.cpp:55-67 | Words to bytes, low-order byte first |
| Md5.Decode | source/md5/md5.cpp:68-80 | Bytes to words, low-order byte first |
| Md5.CountAgrees | source/md5/md5.cpp:25-28 | The carry between the two counter words is right: together they count bits modulo 2^64 |
| Md5.PaddingAgrees | source/md5/md5.cpp:48-51 | The padding length lands on 56 modulo 64 for every message length |
| Md5Spec.BytesOfWordAt | source/md5/md5.cpp:55-80 | Encoding a decoded word gives its bytes back |
| Md5Spec.WordAtBytesOf | source/md5/md5.cpp:55-80 | Decoding an encoded word gives it back |
| RpcCode.RoundTripIff | dependencies/linux/libevent/bin/event_rpcgen.py:221-281 | For every schema with distinct tags, marshalling a complete message and unmarshalling into a fresh struct gives the message back exactly if no array at any depth is marked set while empty |
| RpcCode.EmptyArrayIsLost | dependencies/linux/libevent/bin/event_rpcgen.py:221-281 | A complete message with an empty array marked as set, which comes back with the array unset |
| RpcPruned.RoundTripPrunes | dependencies/linux/libevent/bin/event_rpcgen.py:221-281 | Every complete message comes back, with the arrays that are marked set while empty, at any depth, unset and all else unchanged |
| RpcCode.Unmarshal | dependencies/linux/libevent/bin/event_rpcgen.py:242-281 | Whatever bytes it is given, a successful unmarshal yields a well-typed, complete message |
| RpcAccept.AcceptedIff | dependencies/linux/libevent/bin/event_rpcgen.py:242-281 | Unmarshalling into a fresh struct succeeds exactly if the buffer is a sequence of frames, each with a tag of the schema and a payload that can be read for its kind, structs by the same rule, where only arrays come twice and every entry comes that is neither optional nor an array |
| RpcAccept.FillsIff | dependencies/linux/libevent/bin/event_rpcgen.py:242-281 | The same after any accepted frames: what is left of the buffer must also not repeat an entry that is set already |
| RpcAccept.Refused | dependencies/linux/libevent/bin/event_rpcgen.py:255-271 | A frame with an unknown tag, or a second one for an entry that is not an array, anywhere in the buffer, makes unmarshalling fail |
| RpcAccept.ContentsOf | dependencies/linux/libevent/bin/event_rpcgen.py:242-281 | After success every entry is set exactly if it was before or is in the buffer, and its values are those it had and then those of its frames in the order of the buffer |
| RpcCode.AcceptedRoundTrips | dependencies/linux/libevent/bin/event_rpcgen.py:242-281 | A message accepted from any bytes survives another round trip unchanged |
| RpcCode.MarshalInjective | dependencies/linux/libevent/bin/event_rpcgen.py:221-240 | Different complete messages in which no array is marked set while empty have different encodings |
| RpcPruned.SameEncodingIff | dependencies/linux/libevent/bin/event_rpcgen.py:221-240 | Two complete messages have the same encoding exactly if they differ in such arrays only |
| RpcCode.UnmarshalMsg | dependencies/linux/libevent/bin/event_rpcgen.py:242-281 | The emitted loop, with its tag switch, duplicate check and nested unmarshalling, computes Unmarshal |
| RpcCode.MarshalMsg | dependencies/linux/libevent/bin/event_rpcgen.py:221-240 | The emitted sequence of entries computes Marshal |
| RpcAccept.MarshalInOrder | dependencies/linux/libevent/bin/event_rpcgen.py:221-240 | The encoding of a complete message is one frame for each of its values, with the tags in the order of the schema |
| RpcCode.MarshalEntry | dependencies/linux/libevent/bin/event_rpcgen.py:1225-1240 | The emitted array loop writes the elements in order |
| RpcCode.CompleteMsg | dependencies/linux/libevent/bin/event_rpcgen.py:283-302 | The emitted completeness check is 0 exactly on complete messages, those of `RpcAccept.CompleteIff` |
| RpcAccept.CompleteIff | dependencies/linux/libevent/bin/event_rpcgen.py:283-302 | A message is complete exactly if in it, and in every struct inside it at any depth, each entry is set that is neither optional nor an array |
| RpcAccept.UnsetComplete | dependencies/linux/libevent/bin/event_rpcgen.py:283-302 | A complete message with one entry unset is complete exactly if that entry is optional or an array |
| RpcAccept.FreshComplete | dependencies/linux/libevent/bin/event_rpcgen.py:283-302 | A fresh struct is complete exactly if every entry is optional or an array |
| RpcCode.Continue | dependencies/linux/libevent/bin/event_rpcgen.py:242-281 | From any point inside a message, unmarshalling the rest of its encoding completes it |
| RpcTagging.UnaryLawful | dependencies/linux/libevent/include/event2/tag.h:52-115 | The laws assumed of the evtag calls can be met: a simple scheme obeys them |
| RpcSchema.Struct.AddEntry | dependencies/linux/libevent/bin/event_rpcgen.py:53-61 | Adds the entry, or reports the entry that has the tag already and changes nothing; tags stay distinct |
| RpcSchema.Verify | dependencies/linux/libevent/bin/event_rpcgen.py:392-404 | Accepts an entry exactly if it is not both optional and an array, is an array only of a type that allows it, and has a length if it is of fixed size; the missing length is reported first |
| ToluaRegistry.Registry.FastIsa | dependencies/source/tolua/tolua_is.c:23-45 | For registered types the table lookup decides reachability in the inheritance graph |
| ToluaRegistry.Registry.UserType | dependencies/source/tolua/tolua_map.c:468-476 | Registering a class whose names do not collide with those of another adds it and its const form, and keeps all tables equal to reachability; a second call changes nothing |
| ToluaRegistry.Registry.CClass | dependencies/source/tolua/tolua_map.c:611-663 | Declaring a base keeps all tables equal to reachability exactly if the graph admits the base (`ToluaSuper.BaseAgrees`), and keeps every class on the cache of its base exactly if the cache of the new base fits (`ToluaRegistry.SharingIff`); the class gets the cache of its base, or a fresh empty one if there is none |
| ToluaRegistry.Registry.AddBaseClass | dependencies/source/tolua/tolua_map.c:669-678 | A further base keeps all tables equal to reachability exactly if the graph admits it, and changes no cache |
| ToluaRegistry.Registry.MapSuperClass | dependencies/source/tolua/tolua_map.c:49-87 | Adds the base and everything in the table of the base, also if both are the same |
| ToluaRegistry.Registry.MapInheritance | dependencies/source/tolua/tolua_map.c:91-147 | Sets the metatable of the metatable, and shares the cache of the base or creates one that is fresh and empty |
| ToluaRegistry.SharingIff | dependencies/source/tolua/tolua_map.c:91-147 | After tolua_cclass every class still has the cache of its base, exactly if the base has a cache and it is that of the classes below already, or without a base nothing is below or the class had a cache |
| ToluaRegistry.LateCache | dependencies/source/tolua/tolua_map.c:611-663 | A run in which B gets the base A by tolua_cclass before A has been through it: they do not share a cache |
| ToluaRegistry.OrderIndependent | dependencies/source/tolua/tolua_map.c:49-87 | Registries with the same classes and bases give the same answers, whatever the order of the calls |
| ToluaSuper.TableIsReachability | dependencies/source/tolua/tolua_map.c:49-87 | The flattened table of a name holds exactly the names it reaches, pseudo-names of an empty base aside |
| ToluaSuper.BaseAgrees | dependencies/source/tolua/tolua_map.c:611-623 | The two mapsuper calls keep the tables sound, complete and acyclic exactly if the base is another class that does not reach the class, and every class that has the class as a base reaches the new base already |
| ToluaSuper.LeafAdmits | dependencies/source/tolua/tolua_map.c:611-623 | A class from which nothing is derived yet, as in the order the bindings use, admits every other class as its base |
| ToluaSuper.LateBaseIsMissed | dependencies/source/tolua/tolua_map.c:669-678 | A base added to a class that others are derived from is missing in the tables of those that did not reach it before, although they reach it now |
| ToluaRegistry.LateBase | dependencies/source/tolua/tolua_map.c:669-678 | A run of the registry calls after which B reaches C but its table does not have C |
| ToluaSuper.NoCycle | dependencies/source/tolua/tolua_map.c:49-87 | No type is above itself |
| ToluaSuper.ConstCollides | dependencies/source/tolua/tolua_map.c:468-476 | Two names have the same const form exactly if they agree in the first 120 characters |
| ToluaRegistry.Registry.PushUserType | dependencies/source/tolua/tolua_push.c:51-125 | Which userdata is returned, which metatable it has afterwards, and what the cache and the root table hold, in every branch |
| ToluaRegistry.PushAll | dependencies/source/tolua/tolua_push.c:51-125 | Pushing one pointer with any types, those of one cache being related, in any order: two pushes return the same userdata exactly if their types have the same cache, and the type of each userdata ends as the most derived one of its cache |
| ToluaRegistry.LineageSharesCache | dependencies/source/tolua/tolua_map.c:91-147 | Classes that follow each other as bases in tolua_cclass share one cache, their const forms included, and reach each other, so all pushes of one pointer with them return one userdata |
| ToluaRegistry.SeparateCaches | dependencies/source/tolua/tolua_map.c:669-678 | A run in which B gets the base A by tolua_addbase alone: B reaches A, but one pointer pushed as B and as A gives two userdata |
| ToluaRegistry.MostDerivedUnique | dependencies/source/tolua/tolua_push.c:93-118 | There is only one most derived type of a cache |
| Timer.TraceShape | source/net/impl_timer.cpp:129-183 | In every run the callback trace is a beginning of "begin ok* end" or just "end" |
| Timer.NothingAfterEnd | source/net/impl_timer.cpp:129-183 | Every step adds at most one callback, and none after "end" |
| Timer.EveryTickReports | source/net/impl_timer.cpp:129-183 | In every run each firing of the event adds exactly one callback: "end" once the timer has been ended, else "begin" the first time and "ok" from then on; the event is armed again with the same delay, except after "end" |
| Timer.DelayIsAsked | source/net/impl_timer.cpp:81-127 | In every run, when the event is armed, its delay is the one that the first Async_Wait after Init asked for |
| Timer.CallsPost | source/net/impl_timer.cpp:70-92 | In every run Fini posts one task exactly from Init until "end" is delivered, and Async_Wait one with the milliseconds it is given exactly in the init state; each with one reference, and nothing else changes |
| Timer.ReleasedWithEnd | source/net/impl_timer.cpp:54-68 | In every run the timer holds one reference on the callback from Init until exactly when "end" is delivered |
| Timer.TasksOwnReferences | source/net/impl_timer.cpp:70-127 | In every run each queued task owns exactly one reference on the timer |
| Timer.PendingStatus | source/net/impl_timer.cpp:107-183 | In every run the event is armed only in the begin, common and end states, with the delay for the milliseconds that the timer has, and not when it is set up |
| Timer.FiniDelivers | source/net/impl_timer.cpp:70-105 | Once the timer has begun, Fini brings "end" with the first tick after the queue is empty |
| Timer.EndsIffWaitFirst | source/net/impl_timer.cpp:70-127 | As long as "end" has not been reported after Init, it can still be, exactly if the first Fini or Async_Wait after Init was not Fini |
| Timer.EndsIffNotDoomed | source/net/impl_timer.cpp:99-127 | In every run and every live state, "end" can still be reported exactly if the event is armed or `real_fini` is not ahead of what would arm it |
| Timer.FirstCallDecides | source/net/impl_timer.cpp:70-127 | In every run the first of these calls, which the tasks follow in order, decides whether the timer is doomed |
| Timer.FiniBeforeWait | source/net/impl_timer.cpp:70-127 | A run in which real_fini comes before real_wait: the callback stays unreleased |
| Timer.StepKeepsInv | source/net/impl_timer.cpp:54-183 | Every call, task and tick keeps the invariant behind these results |
| Timer.CTimer.Init | source/net/impl_timer.cpp:54-68 | Accepts exactly a fresh timer with a server and a callback, retaining the callback; otherwise changes nothing; the server may have tasks of other timers |
| Timer.CTimer.Fini | source/net/impl_timer.cpp:70-79 | Appends one real_fini task of this timer to the queue, with one reference, unless the timer is null |
| Timer.CTimer.AsyncWait | source/net/impl_timer.cpp:81-92 | Appends one real_wait task of this timer with the milliseconds it is given, with one reference, exactly in the init state, and then returns true |
| Timer.CTimer.DoTask | source/net/impl_timer.cpp:99-127 | Runs the first task of the server and takes just that one from the queue; an event is set up only when it is not pending; the events of other timers stay |
| Timer.CTimer.TimerClock | source/net/impl_timer.cpp:129-183 | One firing of the event adds exactly one notice to the trace, "end" in the end state, else "begin" the first time and "ok" later, and the tasks that the callback posts to the queue; the callback is released with "end" and only then |
| Timer.Delay | source/net/impl_timer.cpp:123-125 | Seconds and microseconds add up to the milliseconds, with less than a million microseconds |

## Left out

- The comparison, equality and hash functions are given by integer keys; `RB_AUGMENT` is the default, which does nothing.
- Allocation is a flag that says whether it succeeds; the memory of an old bucket array, heap array or userdata is not followed.
- Counters and sizes of the hash table and the heap do not wrap at 2^32; the load factor is a monotone function from length to limit.
- `HT_REPLACE`, `HT_CLEAR`, `HT_FIND_OR_INSERT` and the helpers that improve or compute hash values.
- HashTable.HashTable.ForeachFn: the function depends on the entry and its data argument, and does not write to the links of entries that it keeps; what it does to other fields is part of the data.
- HashTable.HashTable.Insert: the element must not be in the table yet, as the header demands, and when it has to grow the table must be below the limit of the last prime; at least one allocation succeeds for the first element.
- SplayTree.SplayTree.MinMax: the value must not be 0, with which the loop of the source would not end.
- Lock2.DeadlockFree: a single lock or unlock is one atomic step; recursive locks, modes, trylock and condition variables are not modelled, and fairness is not needed as every run is finite.
- Timeouts of events in the heap do not change while the event is in the heap; the overflow of array sizes is not modelled.
- Md5.Context.Update: calls on which the loop test wraps, so that the loop reads past the input and does not end, are excluded; the input is a value, so it cannot overlap the buffer of the context; shifts and masks by powers of two are written as division and remainder.
- Md5.DigestOf: the same calls are excluded.
- The sine table of RFC 1321 is given by its constants, not computed.
- RpcCode.RoundTripIff: the evtag calls are functions that read back what they wrote and take bytes away; their wire format is not part of this model, and a string is its sequence of bytes.
- RpcTagging.UnaryLawful: shows that the laws can be met, not that the encoding of libevent, whose source is not part of this model, meets them.
- The text layout of the generated C, the parser of the schema language, getters, setters, assign, clear and free functions, and running out of memory.
- ToluaRegistry.Registry.CClass: the class and its base must be registered, and the tables right before the call; what further calls do to tables that are wrong is not followed.
- ToluaRegistry.Registry.AddBaseClass: the same.
- ToluaRegistry.Registry.UserType: the metatables of different classes must have different names; names are cut at 120 characters in their const form, as in the source.
- ToluaRegistry.PushAll: the pointer has no userdata in the caches of these types yet, and types with one cache are related by inheritance.
- The Lua stack machine, weak tables and garbage collection, collectors, peers, class tables and the backup of overridden methods.
- Timer.CTimer.Init: a timer that is not set up yet has no tasks in the queue of the server.
- Calls of one timer are atomic steps and `Post` only enqueues; CIOServer, CPPRef and the event loop are not part of this model, so what a Release of the last reference does is left open.
- Sockets, address conversion, logging, action statistics, smart_assert, object pools, guards and the other thin wrappers of the library.
