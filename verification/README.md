# Embedded utilities: proofs about the allocator, the scheduler list, the message queue and the timers

This project models four components in Dafny and proves what they promise over every input, every call and
every run.

**The memory manager** (`rtos/src/memory_manager.c`) is a first-fit allocator that keeps its free list in
headers inside the buffer it manages. `MemoryManager.dfy` has the object itself: a buffer of words updated in
place, the list head and the end marker, with a method for each C function and each of its stages. Its state is
tied to an abstract heap (`HeapModel.dfy`: free blocks, live blocks, byte counters); every method is proved to take the
abstract heap to exactly the one that the specification function of the call gives. `HeapTheorems.dfy` proves the
promises about those functions over arbitrary runs. `Spans.dfy` is the theory of address-ordered lists of
blocks that never touch; `MemoryImage.dfy` and `MemorySteps.dfy` relate the words of the buffer to it. The
central invariant, `HeapModel.WellFormed`, says that free and live blocks tile the range, free blocks are
maximal, and the counters are their sums.

**The scheduler list** (`rtos/src/list.c`, `rtos/include/list.h`) is a circular doubly linked list with an end
marker and a roaming cursor. `SchedulerList.dfy` has items and lists as linked objects, `ListPool.dfy` many
lists over one pool of items, and `CursorRing.dfy` the list as a value, where the promises about visiting order,
round robin and stable sorting are proved. `Fairness.dfy` takes round robin further, to runs in which steps of
the cursor, both insertions and removals mix, and gives the turn of an item exactly.

**The message queue** (`linux/src/msgQ.c`) has two halves. `AskAck.dfy` is the request and answer protocol as a
step system in which one server and any clients interleave; a history that only watches numbers the requests and
shows which answer belongs to which. `Jamming.dfy` says exactly when messages can no longer be received, and
`Delivery.dfy` that the payloads received are those sent. `EventRing.dfy` is the ring of registered event clients
as a value. `MsgServer.dfy` has the server and client objects whose methods are proved to make exactly those steps
on the queues of `MessageQueue.dfy`.

**The timers** (`linux/src/timer.c`) are in `Deadlines.dfy`: normalised time stamps, differences cut to 32 bits, and
the timeout predicate with its exact bounds.

## Assumptions

- `size_t`, `long` and addresses have 64 bits, `int` and `unsigned int` 32, and a header takes 16 bytes.
- The buffer does not wrap the address space and holds two headers after alignment, as any buffer of at least 46
  bytes does (`MemoryManager.HeapBounds`).
- Pointers given to `free` came from `allocate`: live, null, or freed before, if no later allocation has reused
  their headers. The application writes only payloads it holds (`MemoryManager.Manager.Write`).
- List items given to an insertion are on no list, the cursor is stepped only on a list that is not empty, and
  an item given to a removal is on one.
- Client process ids are above 2, the larger of the two message types the server reads.
- `msgrcv` takes the first message of the type asked for, and fails without taking anything when that message is
  larger than the limit it is given.
- An interrupted send is interrupted finitely often. What the system makes of each attempt to send, whether memory
  for a client can be had, and what each attempt of a waiting call meets are parameters: the queues as other
  processes have left them, an error of its own, and whether the time is up. Waiting calls return, that is, some
  attempt ends them.

## Where the code and its description disagree

- `rtos/src/list.c:83-85` and `rtos/include/list.h:277-281` promise that an item inserted at the end is returned
  last. That holds exactly when the cursor is on the end marker (`CursorRing.InsertEndIsLast`); a concrete list
  where it fails is in `CursorRing.InsertEndNotLast`.
- `rtos/include/list.h:33-35` speaks of descending order; the code sorts in ascending order
  (`CursorRing.InsertAllSorts`).
- `linux/src/msgQ.c:86` and `linux/src/msgQ.c:480` accept payloads of up to 2040 bytes, but `msgrcv` is given a
  limit of 2040 bytes that includes the 8 bytes of `xid`. A payload of 2033 to 2040 bytes is therefore never
  received and never leaves the queue; once it is the first of its type, every later receive of that type
  fails, for good (`Jamming.JamForever`). Over any run such a message is in the queue, and mere receiving can run
  into it, exactly when some accepted send or answer had one of these lengths (`Jamming.BigExactly`,
  `Jamming.JamsExactly`); with none, a receive fails only for want of a message (`Jamming.ShortReceives`). Safety
  holds all the same, so `AskAck.AskAckSafety` has no bound on payloads. Left over in the queue, such a message also
  keeps a new server clearing it forever (`MessageQueue.ClearEndsExactly`).
- A full server turns away a client that is registered already, although such a request needs no room:
  a registered client is answered exactly while the ring is not full (`EventRing.HeardAgainExactly`). Right after
  ten clients have registered, none of them is answered (`EventRing.FullTurnsAway`), nor anyone else until a
  broadcast or a deletion makes room (`EventRing.FullStaysFull`).
- Initialising a server again leaves its count of clients as it was, while the ring is emptied, so that the two
  agree exactly when the count was zero (`MsgServer.Server.Init`; a run where they do not is
  `MsgServer.InitAgain`).
- An item is not always returned within its place in the visiting order. Its turn is exactly its place, plus the
  insertions that overtake it, less the removals of items that come before it (`Fairness.TurnExactly`), so it is
  returned within its place if and only if no more calls overtake it than clear its way
  (`Fairness.WithinPlaceExactly`). An insertion overtakes exactly the items that then come after the new one: when
  it is sorted in between the cursor and the item, or put in before the cursor while the cursor is on the item
  (`Fairness.PlaceAfterAdd`, `Fairness.AddLastOvertakes`). Items are passed over in `Fairness.SlotPassesOver`,
  `Fairness.CursorPassesOver` and, where a removal first makes the cursor fall back on the item,
  `Fairness.UndercutPassedOver`.
- A timer set for a day or more reports a timeout at once (`Deadlines.LongTimer`). One that expired more than
  2^32 - 86400000 ms ago counts as running again for a day and then as expired once more, and so on with a
  period of 2^32 ms (`Deadlines.RunsAgain`, `Deadlines.RunningExactly`).
- The carry of `tm_add_ns` is missed at a sum of exactly one second, and only one second is ever carried
  (`Deadlines.Timer.AddNs`, `Deadlines.OneSecond`).

## Model

| member | source | states |
|---|---|---|
| `HeapTheorems.FreeListIsGaps` | rtos/src/memory_manager.c:11-61 | in a well-formed heap a span is on the free list if and only if it is a maximal gap between live blocks |
| `HeapTheorems.Fragmentation` | rtos/src/memory_manager.c:18-21 | the free list, and so each walk along it, is at most one longer than the number of live blocks |
| `HeapTheorems.FreeListDetermined` | rtos/src/memory_manager.c:11-61 | heaps with the same range and live blocks have the same free list and byte count |
| `HeapTheorems.RunsAgree` | rtos/src/memory_manager.c:125-318 | two runs of allocations and frees that end with the same live blocks end with the same free list, whatever their histories |
| `HeapTheorems.ReleaseCommutes` | rtos/src/memory_manager.c:273-318 | freeing p then q gives the same heap as q then p |
| `HeapTheorems.AllocateThenRelease` | rtos/src/memory_manager.c:194-225 | freeing what was just allocated restores the whole heap, split or not, but for the low-water mark |
| `HeapTheorems.FullRecovery` | rtos/src/memory_manager.c:101-109 | freeing every live block in any order, with repeats, leaves the one free block of the start |
| `HeapTheorems.FailsExactly` | rtos/src/memory_manager.c:146-186 | allocation fails exactly for zero, a set top bit, or no single block large enough, and then changes nothing |
| `HeapTheorems.UsesLowestFit` | rtos/src/memory_manager.c:172-190 | otherwise the lowest fitting block is used, and the byte-count guard never stands in the way |
| `HeapTheorems.SplitsExactly` | rtos/src/memory_manager.c:196-218 | a block left behind by a grant has more than 32 bytes, and a grant is a whole free block or the request with its 16-byte header rounded up to eight bytes |
| `HeapTheorems.GrantBounds` | rtos/src/memory_manager.c:150-212 | a granted payload is new, aligned, long enough, and its block exceeds the request by at most 55 bytes |
| `HeapTheorems.OwnershipPersists` | rtos/src/memory_manager.c:125-318 | over any run that does not free it, a live block keeps its place and size |
| `HeapTheorems.PayloadIsolated` | rtos/src/memory_manager.c:188-235 | a payload byte lies in the range, in no other live block, no free block and no header |
| `HeapTheorems.Partition` | rtos/src/memory_manager.c:63-113 | every byte of the range lies in exactly one block, free or live |
| `HeapTheorems.BlocksAmple` | rtos/src/memory_manager.c:198-218 | from a range of at least 24 bytes, every block of every reachable state has at least 24, so its header fits |
| `HeapTheorems.Watermark` | rtos/src/memory_manager.c:220-225 | the low-water mark is the minimum of the byte count over the whole run since initialisation, and is reached |
| `HeapTheorems.Conservation` | rtos/src/memory_manager.c:107-109 | in every reachable state the byte count is the sum of the free blocks, and with the live ones makes up the range |
| `HeapModel.FreshWellFormed` | rtos/src/memory_manager.c:101-109 | the initial heap is well formed |
| `HeapModel.AllocateKeeps` | rtos/src/memory_manager.c:125-270 | allocation keeps tiling, separation, alignment and counts |
| `HeapModel.ReleaseKeeps` | rtos/src/memory_manager.c:273-318 | freeing keeps them too, through every way of merging |
| `HeapModel.RunKeeps` | rtos/src/memory_manager.c:125-318 | so does every run |
| `Spans.InsertSeparated` | rtos/src/memory_manager.c:11-61 | insertion with merging leaves no two free blocks touching |
| `Spans.InsertCovers` | rtos/src/memory_manager.c:11-61 | the list after an insertion covers the bytes it covered and those of the block |
| `Spans.Canonical` | rtos/src/memory_manager.c:11-61 | separated lists that cover the same bytes are equal |
| `MemoryImage.JoinSplices` | rtos/src/memory_manager.c:23-60 | the words written in each of the merge cases replace the right stretch of the chain by the merged block |
| `MemorySteps.SplicedUntagged` | rtos/src/memory_manager.c:26-46 | no merge puts the tag into a header, not even a swallowed one |
| `MemorySteps.FreedAll` | rtos/src/memory_manager.c:291-303 | after a free the words represent the released heap and all stale headers are untagged, aligned and clear of live blocks |
| `MemorySteps.GrantedRepresents` | rtos/src/memory_manager.c:188-234 | after an allocation the words represent the new heap and no word of another live block has changed |
| `MemorySteps.SplitUntagged` | rtos/src/memory_manager.c:198-214 | splitting a block tags no stale header it does not reuse |
| `MemoryManager.HeapBounds` | rtos/src/memory_manager.c:78-105 | for any address, aligning keeps heap and end marker inside the buffer and loses at most 30 bytes |
| `MemoryManager.Percent` | rtos/src/memory_manager.c:329-332 | a part of a whole is at most 99 percent |
| `MemoryManager.Manager.StaticInit` | rtos/src/memory_manager.c:334-387 | any buffer gives a manager without a heap yet, good for use if and only if the buffer holds two headers after alignment |
| `MemoryManager.Manager.HeapInit` | rtos/src/memory_manager.c:63-113 | the words written represent that heap |
| `MemoryManager.Manager.Walk` | rtos/src/memory_manager.c:18-21 | the loop stops at the block's only place in the list |
| `MemoryManager.Manager.Join` | rtos/src/memory_manager.c:23-60 | the block ends up joined to whichever neighbours it touches, and no other word changes |
| `MemoryManager.Manager.InsertBlock` | rtos/src/memory_manager.c:11-61 | walk and merge together splice the block into the chain at its place |
| `MemoryManager.Manager.FindFit` | rtos/src/memory_manager.c:176-186 | the search stops at the first block that fits, or at the end marker if none does |
| `MemoryManager.Manager.RoundUp` | rtos/src/memory_manager.c:150-161 | rounding a request below the top bit stays within 64 bits, and only zero gives zero |
| `MemoryManager.Manager.Split` | rtos/src/memory_manager.c:196-218 | a remainder above 32 bytes goes back on the list, and otherwise the whole block is taken; only free words change |
| `MemoryManager.Manager.Allocate` | rtos/src/memory_manager.c:125-270 | new heap and result are those of first fit, a failure changes no word, and live blocks keep every word |
| `MemoryManager.Manager.Free` | rtos/src/memory_manager.c:273-318 | the new heap is the released one; a repeated free changes nothing, also when the block was merged away and other allocations came between; live blocks keep every word |
| `MemoryManager.Manager.Remaining` | rtos/src/memory_manager.c:329-332 | free bytes in percent of the buffer, without wrapping and at most 99 |
| `MemoryManager.Manager.Write` | rtos/src/memory_manager.c:188-190 | writing a word of a payload disturbs no header, live, free or stale |
| `CursorRing.AdvanceRotates` | rtos/include/list.h:294-305 | a step returns the first item of the visiting order and rotates the order by one |
| `CursorRing.RemoveDeletes` | rtos/src/list.c:167-187 | removal deletes exactly that item from the visiting order, also when the cursor is on it |
| `CursorRing.InsertAdds` | rtos/src/list.c:154-163 | insertion at any place adds one item to the visiting order and keeps the rest |
| `CursorRing.InsertEndVisits` | rtos/src/list.c:73-97 | insertion at the end goes last when the cursor is on the end marker and just before the cursor's item otherwise |
| `CursorRing.InsertEndIsLast` | rtos/src/list.c:83-97 | the promise that the new item is visited last holds if and only if the cursor is on the end marker |
| `CursorRing.InsertEndNotLast` | rtos/src/list.c:83-97 | a list where it is visited first |
| `CursorRing.RemoveUndoesInsert` | rtos/src/list.c:167-187 | removing an item just inserted restores the ring and the cursor |
| `CursorRing.RoundRobin` | rtos/include/list.h:294-305 | call k of a round returns item k of the visiting order, never the end marker |
| `CursorRing.VisitsAll` | rtos/include/list.h:277-281 | the visiting order holds each item exactly once |
| `CursorRing.FullRound` | rtos/include/list.h:294-305 | as many calls as there are items end where they began |
| `CursorRing.NewItemTurn` | rtos/src/list.c:83-97 | in a list of n items the new one is returned on call n, or n + 1 when the cursor is on the end marker |
| `Fairness.TurnExactly` | rtos/include/list.h:277-281 | over any mix of steps, both insertions and removals, an item that stays is returned if and only if there are more steps than its turn, which is exactly its place plus what overtakes it less what clears its way |
| `Fairness.WithinPlaceExactly` | rtos/include/list.h:277-281 | it is returned within its place if and only if no more calls overtake it than clear its way |
| `Fairness.PlaceAfterAdd` | rtos/src/list.c:154-163 | an insertion moves back by one exactly the items that then come after the new one, and no others |
| `Fairness.AddLastOvertakes` | rtos/src/list.c:83-97 | insertion before the cursor overtakes exactly the item the cursor is on |
| `Fairness.SlotPassesOver` | rtos/src/list.c:100-164 | a run in which an item sorted in is returned before the one that was next |
| `Fairness.CursorPassesOver` | rtos/src/list.c:73-97 | a run in which one put in before the cursor is |
| `Fairness.UndercutPassedOver` | rtos/src/list.c:177-181 | a run in which the cursor falls back on the item that was next before that happens |
| `CursorRing.InsertAllSorts` | rtos/src/list.c:111-163 | any run of sorted insertions gives the stable sort by value |
| `CursorRing.StableSortUnique` | rtos/src/list.c:111-118 | a list has only one stable sort |
| `SchedulerList.List.Initialise` | rtos/src/list.c:36-58 | a valid empty list with the cursor on the end marker |
| `SchedulerList.List.InsertEnd` | rtos/src/list.c:73-97 | the ring is relinked as insertion before the cursor, with mutual links, count and container kept |
| `SchedulerList.List.FindSlot` | rtos/src/list.c:119-152 | the shortcut and the scan both stop before the first greater value; the scan ends on any ring, sorted or not |
| `SchedulerList.List.Insert` | rtos/src/list.c:100-164 | the item goes after all values up to the first greater one, and the cursor stays on its item |
| `SchedulerList.Remove` | rtos/src/list.c:167-187 | the item leaves the list its container names, the cursor moves back if it was on it, and the count returned is what is left |
| `SchedulerList.InsertEndThenRemove` | rtos/src/list.c:73-187 | inserting an item at the end and removing it restores every link, container and the count, and the cursor |
| `SchedulerList.InsertThenRemove` | rtos/src/list.c:100-187 | so does inserting it in order and removing it |
| `SchedulerList.InsertThenStep` | rtos/src/list.c:100-164 | on the linked list too, an item sorted in ahead of the only one is returned in its place |
| `SchedulerList.List.ModelDecides` | rtos/src/list.c:36-58 | a list's ring and cursor as a value decide every pointer and the count |
| `SchedulerList.List.NextOwner` | rtos/include/list.h:294-305 | the cursor steps over the end marker and the owner of the item it reaches is returned |
| `ListPool.Pool.Membership` | rtos/include/list.h:335-335 | in every valid state an item's container is a list if and only if the item is on that list's ring |
| `ListPool.Pool.Apart` | rtos/include/list.h:157-188 | no node is on two rings |
| `ListPool.Pool.InsertEnd` | rtos/src/list.c:73-97 | insertion keeps every list valid and all other lists as they were |
| `ListPool.Pool.Insert` | rtos/src/list.c:100-164 | so does sorted insertion |
| `ListPool.Pool.Remove` | rtos/src/list.c:167-187 | so does removal |
| `ListPool.Pool.NextOwner` | rtos/include/list.h:294-305 | so does stepping the cursor |
| `AskAck.AskAckSafety` | linux/src/msgQ.c:81-166 | over every interleaving, answers received by a client answer its own requests, in order, none twice, and no request vanishes but by the refusal of its answer |
| `AskAck.FirstComeFirstServed` | linux/src/msgQ.c:512-571 | over every interleaving the requests the server has taken and those still queued are all requests in the order they were made, whoever made them |
| `Delivery.PayloadsArrive` | linux/src/msgQ.c:91-100 | over every interleaving the payload the server takes for a request is the one its client passed, and the payload a client receives is the one passed to the only answer given to its request |
| `AskAck.RunSafe` | linux/src/msgQ.c:475-571 | every run keeps the invariant from which this follows |
| `AskAck.StepMoves` | linux/src/msgQ.c:475-571 | each call moves a client's requests along from queue to server to answer to receiver in order, and touches no other client's |
| `AskAck.RecordAllIsRun` | linux/src/msgQ.c:81-166 | the request numbering only watches: forgetting it gives the protocol's own run |
| `Jamming.BigExactly` | linux/src/msgQ.c:81-114 | in every reachable state a message nobody can receive is queued if and only if some accepted send or answer of the run had 2033 to 2040 bytes |
| `Jamming.ShortReceives` | linux/src/msgQ.c:134-151 | without one, a receive fails only for want of a message of its type |
| `Jamming.JamsExactly` | linux/src/msgQ.c:475-571 | with one, and only then, calls that merely receive and free the slot run into a jammed type |
| `Jamming.RecvExactly` | linux/src/msgQ.c:512-571 | a free server takes a request exactly when the first one queued has at most 2032 bytes |
| `Jamming.JamExactly` | linux/src/msgQ.c:83-100 | in any state, after a request its type is jammed if and only if it was before, or no request was queued and an accepted one has 2033 to 2040 bytes |
| `Jamming.AnswerJamExactly` | linux/src/msgQ.c:475-497 | the same of an answer and the type of its client |
| `Jamming.JamForever` | linux/src/msgQ.c:534-546 | a jammed type is never received again in any run |
| `EventRing.RunProper` | linux/src/msgQ.c:387-440 | over any run of registrations, broadcasts and deletions, at most ten clients and no queue id twice |
| `EventRing.StepProper` | linux/src/msgQ.c:572-711 | each such step keeps that |
| `EventRing.RegisteredExactly` | linux/src/msgQ.c:651-708 | exactly when a registration leaves its client on the ring, with all others kept in order |
| `EventRing.HeardAgainExactly` | linux/src/msgQ.c:651-666 | a client registered already is answered if and only if the ring is not full |
| `EventRing.FullTurnsAway` | linux/src/msgQ.c:651-654 | right after ten clients have registered, none of the ten is answered when it registers again |
| `EventRing.FullStaysFull` | linux/src/msgQ.c:651-654 | over any run of registrations only, a full ring stays as it is and answers none |
| `EventRing.DeliveredTo` | linux/src/msgQ.c:589-607 | a broadcast puts exactly one copy in each accepting queue and nothing anywhere else |
| `EventRing.SurvivesExactly` | linux/src/msgQ.c:593-604 | a client stays registered if and only if its attempt did not fail |
| `EventRing.SurvivorsThin` | linux/src/msgQ.c:589-607 | those that stay keep their order |
| `MessageQueue.ClearEndsExactly` | linux/src/msgQ.c:458-474 | the clearing loop ends if and only if no queued package is too big to be received |
| `MsgServer.Kernel.Receive` | linux/src/msgQ.c:534-534 | a scan that finds the first message of the type agrees with the queue functions; what is taken has the type, at most 2032 bytes and none of its type before it, and the rest keep their order |
| `MsgServer.Kernel.Await` | linux/src/msgQ.c:532-555 | the loop ends at the first attempt that breaks off, runs out of time or meets a message of the type, with the result of that attempt: the first such message of at most 2032 bytes, else a timeout before an error |
| `MsgServer.Kernel.SendRetrying` | linux/src/msgQ.c:98-111 | the loop ends with the first attempt that was not interrupted and sends at most one copy |
| `MsgServer.Kernel.Clear` | linux/src/msgQ.c:458-474 | after any number of rounds the queue is what that many receives leave, and the loop has ended if and only if it is empty |
| `MsgServer.Client.Send` | linux/src/msgQ.c:81-114 | a request of 1 to 2040 bytes that is accepted goes last on the shared queue with its client and payload; otherwise nothing changes; it is the protocol's request step |
| `MsgServer.Client.Recv` | linux/src/msgQ.c:115-166 | the first answer of its type is taken, and the data is the prefix of its payload that fits the buffer; it is the protocol's receive step on the queue met |
| `MsgServer.Client.SendRegistration` | linux/src/msgQ.c:251-272 | exactly the protocol's registration step; when it is refused the private queue is removed |
| `MsgServer.Server.Recv` | linux/src/msgQ.c:512-571 | the first request is taken and its client remembered, and the data is the prefix of its payload that fits the buffer; busy is success without data; it is the protocol's take step on the queue met |
| `MsgServer.Server.Send` | linux/src/msgQ.c:475-511 | an answer of 1 to 2040 bytes frees the slot, and if accepted goes last on the queue with the type of the client remembered; it is the protocol's answer step |
| `MsgServer.Server.Init` | linux/src/msgQ.c:730-752 | once clearing has ended, the protocol's initial state and an empty ring, valid if and only if the client count was zero; before that nothing but the queue has changed |
| `MsgServer.InitAgain` | linux/src/msgQ.c:730-752 | after an addition and a second initialisation the count says one and the ring is empty |
| `MsgServer.Server.Add` | linux/src/msgQ.c:387-407 | the client goes last on a well-linked ring and the count follows |
| `MsgServer.Server.Del` | linux/src/msgQ.c:408-440 | removal succeeds exactly for a registered client, takes out that one only, and keeps the links and the count |
| `MsgServer.Server.SendEvent` | linux/src/msgQ.c:572-610 | each client registered at the start gets one attempt in order; queues and ring end as the broadcast step says |
| `MsgServer.Server.MonitorRequest` | linux/src/msgQ.c:611-711 | the ring ends as the registration step says for the request met, the reply goes to the requester's queue, and the bound and distinctness stay |
| `MsgServer.QidsSurvivors` | linux/src/msgQ.c:589-607 | the queue ids of the clients that stay on the linked ring are those the broadcast step keeps |
| `Deadlines.IntvIsFloor` | linux/src/timer.c:33-44 | on normalised times both branches give the difference rounded down to milliseconds, cut to 32 bits, and uncut if and only if it fits |
| `Deadlines.IntvFits` | linux/src/timer.c:33-44 | under 2147482 s apart nothing is cut |
| `Deadlines.IntvCompose` | linux/src/timer.c:33-63 | adjacent intervals add up to the whole or one millisecond less |
| `Deadlines.SetMs` | linux/src/timer.c:83-105 | the time set is normalised and exactly that many milliseconds after the clock; without a clock nothing changes |
| `Deadlines.ReachedOnce` | linux/src/timer.c:96-102 | there is only one such time stamp |
| `Deadlines.RunningExactly` | linux/src/timer.c:46-59 | for any normalised times, exactly when a timer counts as running |
| `Deadlines.DeadlineExactly` | linux/src/timer.c:46-59 | a timer that was set counts as expired exactly when under 1 ms is left or a day or more |
| `Deadlines.StaysExpired` | linux/src/timer.c:46-105 | one set for under a day expires in its last millisecond and stays expired |
| `Deadlines.LongTimer` | linux/src/timer.c:51-56 | a timer set for a day or more is expired at once |
| `Deadlines.RunsAgain` | linux/src/timer.c:51-58 | one millisecond past the bound, any timer counts as running again |
| `Deadlines.Timer.AddNs` | linux/src/timer.c:16-31 | exactly when adding nanoseconds gives the right time, and when a normalised one |
| `Deadlines.OneSecond` | linux/src/timer.c:16-31 | a sum of exactly one second is not carried |

## Left out

- MemoryManager.Manager.Free: pointers that did not come from `allocate`, and pointers freed earlier whose header a
  later allocation has reused; what is read there is then application data or another block's header.
- MemoryManager.Manager.StaticInit: a null manager.
- MemoryManager.Manager.Allocate: a manager whose buffer is too small for two headers, where the C code writes outside
  the buffer.
- Memory manager: the function-pointer table, the trace and coverage macros, the failed-allocation hook, the value
  `prv_heap_init` never returns, and the alignments other than 8 that `align_byte` never takes.
- Memory manager: single bytes of a payload; the buffer is modelled as eight-byte words at aligned addresses, and
  every access is shown to be aligned.
- SchedulerList.List.NextOwner: stepping the cursor on an empty list, where the C code reads past the end marker.
- ListPool.Pool.NextOwner: the same.
- Scheduler list: integrity-check values, `volatile`, the width of the item count, and the macros that only read
  or set one field.
- MsgServer.Server.SendEvent: the C code reads `client->next` after freeing `client`; the model reads the successor
  before the client is taken off.
- MsgServer.Client.Recv: negative lengths, which the C code lets through to `memcpy`.
- MsgServer.Server.Recv: negative lengths likewise.
- MsgServer.Client.SendRegistration: only the message of a client that knows no server yet; the client's waiting for
  the reply, where an event with `xid` 0 can be taken for it, and its handling of events are not modelled.
- Message queue: keys, `ftok` and `msgget`, destroying a server's or a client's queue, printing and sleeping.
- Deadlines.SetMs: overflow of a 64-bit count of seconds.
- Timers: conversion to and from strings, UTC and system clock setting, and time zones. `tm_remaining` and
  `tm_stopwatch`, which read the clock and return the interval to or from a timer, have no member of their own.
- `linux/src/linklist.c`, a linked list for applications, and `linux/src/mem.c`, a table that tracks up to 200
  allocations by name, are not modelled; the message queue allocates from the latter, which here either finds
  memory or does not.
- The wrappers over threads, semaphores, shared memory, serial ports, sockets and command-line options are not
  modelled.
