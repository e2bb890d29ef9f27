# Verified models of the trading engine's data structures and scheduler

The engine stands on intrusive containers, two lock-free queues, an event bus that schedules a
simulation, and a calendar. This project models these parts in Dafny and proves what they are for.

Structures that the C code updates in place are Dafny classes with the same fields, and the methods do
the same stores in the same order (RbTree, Splay, Heap, Ring, KHash, EventBus, and the printer of
Timestamp). Their invariants are local to a node and its neighbours: a search tree's node carries a ghost
interval that holds every key below it, a heap's nodes are listed in a ghost sequence in level order, a
ring's in a ghost sequence around it. The lock-free queues are transition systems in which every atomic
load, store and exchange is one step. Where a method does the stores of one macro and a lemma or a second
method proves what they amount to, both are in the same file, one above the other.

| module file | models |
|---|---|
| RbTree.dfy | red-black trees with parent pointers (rbtree.h) |
| Splay.dfy | top-down splay trees (rbtree.h) |
| Wrappers.dfy | definitions that several modules share |
| Bits.dfy, KhFlags.dfy, KhProbe.dfy, KhLayout.dfy, KhRehash.dfy, KHash.dfy, KhRun.dfy | the open-addressing hash table (khash.h) |
| Heap.dfy | the pointer heap (heap-inl.h) |
| Mpscq.dfy, Spscq.dfy | the lock-free queues (mpscq.c, spscq.c) |
| EventBus.dfy | the scheduler (event_bus.c, event_queue.c) |
| DateTime.dfy, Timestamp.dfy | calendar arithmetic, ISO 8601 text (datetime.c) |
| Ring.dfy | circular doubly linked lists (queue.h) |

Notes on the model:

- Keys of the trees are integers compared by `<`; `cmp` is taken to be a consistent total order.
- A key type of the hash table is any type with equality, and the hash any function of it. The load bound
  `(khint_t)(n * 0.77 + 0.5)` is `(77 * n + 50) / 100`, its value for the powers of two in question.
  `realloc` and `malloc` succeed. When `kh_put` has to make room for a new key it finds fewer than 2^31 buckets, or
  more than half of them not live.
- `less_than` of the heap is any strict weak order on keys that no heap operation changes.
- The steps of the queues are sequentially consistent. A node may be pushed again once pop has returned it.
- The bus keeps its heaps as sets of members whose minimum is any member that no other precedes, which is
  what `Heap.Heap.MinIsLeast` proves of the heap; push, add and dequeue are atomic steps.
- 16-, 32- and 64-bit unsigned results of the calendar are reduced explicitly.

Where the code falls short of what its comments or names say, the code is modelled and the exact condition
is proved:

- `*empty = true` does not say that no completed push is queued (mpscq.c:61-64): `Mpscq.EmptyMistaken`
  gives a run, `Mpscq.EmptyMeaning` the condition.
- A printed time reads back as itself exactly when it is a whole second printed with offset zero, because
  the printer writes microseconds as nanoseconds and does not add the offset (datetime.c:285, 328, 361-378):
  `Timestamp.PrintParse`, for all times with a four-digit year.
- The length test of the printer allows one character for the zone (datetime.c:275-281). With a non-zero
  offset it lets through buffers that the text does not fit into, writes up to five characters behind them and
  returns a length that is not that of the text: `Timestamp.FormatOverrun` gives the input,
  `Timestamp.FormatFits` the exact condition, and `Timestamp.Format` what is written in every case.
- For an offset that is too short the parser reads up to five characters behind the text before it rejects it
  (datetime.c:216-219): `Timestamp.ReadsPastSign` gives an input, and `Timestamp.FromIso8601` proves that it
  reads behind exactly the texts of `Timestamp.ReadsPast` and that the result does not depend on what is there.
- `kh_put` asks for double the size when at least half of the buckets are live (khash.h:310-318). With 2^31
  buckets that size wraps around to 0 and nothing is resized: `KHash.Table.Wraps`, and the exact condition in
  `KHash.Table.MakeRoom`.

## Model

| member | source | states |
|---|---|---|
| RbTree.Tree.RotateLeft | src/engine/base/rbtree.h:342-360 | a left rotation keeps parent and child links and the search order, and changes only the pointers of the turned nodes |
| RbTree.Tree.RotateRight | src/engine/base/rbtree.h:362-380 | the mirror image |
| RbTree.Tree.InsertColor | src/engine/base/rbtree.h:407-449 | from a tree whose only fault is a red node under a red parent, the fix-up loop ends with all red-black conditions and the same nodes |
| RbTree.Tree.Insert | src/engine/base/rbtree.h:597-626 | returns null exactly when no node has the key, and then the in-order sequence without elm is the old one; otherwise returns the equal node and no link or colour changes; all red-black conditions hold |
| RbTree.Tree.RemoveColor | src/engine/base/rbtree.h:451-528 | from a tree with paths through one place one black node short, the fix-up loop ends with all red-black conditions; the sibling it follows exists |
| RbTree.Tree.RepairStep | src/engine/base/rbtree.h:455-525 | one turn of that loop moves the shortage up or ends it |
| RbTree.Tree.OnlyChild | src/engine/base/rbtree.h:579-593 | the only child of a node is red and the node black, so removing a red node with at most one child leaves no gap |
| RbTree.Tree.Unlink | src/engine/base/rbtree.h:579-590 | unlinking a node with at most one child leaves a valid tree, or one that is one black node short below parent if the node was black |
| RbTree.Tree.ReplaceReduced | src/engine/base/rbtree.h:557-570 | the successor takes over the place, links and colour of the removed node, and the shortage moves with it |
| RbTree.Tree.Remove | src/engine/base/rbtree.h:530-595 | removes exactly the node: the in-order sequence is the old one without it, and all red-black conditions hold |
| RbTree.Tree.Find | src/engine/base/rbtree.h:629-644 | finds a node with the key if and only if there is one |
| RbTree.Tree.NFind | src/engine/base/rbtree.h:647-665 | the least node that is not below the key, or null if all are below it |
| RbTree.Tree.Next | src/engine/base/rbtree.h:668-687 | the next node in key order, or null after the last |
| RbTree.Tree.Successor | src/engine/base/rbtree.h:541-543 | the leftmost node on the right is the next in key order |
| RbTree.Tree.OrderSorted | src/engine/base/rbtree.h:738-741 | the in-order sequence lists every node once, in increasing key order |
| RbTree.Tree.SizeAndHeight | src/engine/base/rbtree.h:51-61 | height is at most twice the black height plus one for a red root, and two to the black height at most the number of nodes plus one |
| RbTree.Tree.HeightBound | src/engine/base/rbtree.h:60-61 | a tree of n nodes has height at most 2 lg(n+1), written without logarithms |
| Splay.SplayTree.RotateRight | src/engine/base/rbtree.h:88-92 | keeps the three parts of a splay in progress well formed |
| Splay.SplayTree.RotateLeft | src/engine/base/rbtree.h:94-98 | the mirror image |
| Splay.SplayTree.LinkLeft | src/engine/base/rbtree.h:100-104 | hands the root and its right subtree to the right tree |
| Splay.SplayTree.LinkRight | src/engine/base/rbtree.h:106-110 | the mirror image |
| Splay.SplayTree.Assemble | src/engine/base/rbtree.h:112-117 | joins the three parts into one search tree with all their nodes |
| Splay.OffSpine | src/engine/base/rbtree.h:216-241 | every node that is on neither spine and not the root lies wholly on one side of it |
| Splay.SplayTree.Splay | src/engine/base/rbtree.h:209-242 | the loop ends, the in-order sequence stays the same, a node with the key comes to the root if there is one, and otherwise the root is a neighbour of the key |
| Splay.SplayTree.MinMax | src/engine/base/rbtree.h:247-278 | brings the least or the greatest node to the root and keeps the in-order sequence |
| Splay.SplayTree.Find | src/engine/base/rbtree.h:128-137 | returns the node with the key if and only if there is one, and keeps the in-order sequence |
| Splay.SplayTree.Insert | src/engine/base/rbtree.h:164-186 | adds elm, as the root, exactly when no node has its key; otherwise returns the equal node and keeps the node set |
| Splay.SplayTree.Remove | src/engine/base/rbtree.h:188-207 | removes exactly the node with the key, or nothing and returns null if there is none |
| Splay.SplayTree.OrderSorted | src/engine/base/rbtree.h:292-295 | the in-order sequence lists every node once, in increasing key order |
| Bits.RoundUpLeast | src/engine/base/khash.h:176 | rounding up gives the least power of two that is not smaller |
| Bits.RoundUpPow2 | src/engine/base/khash.h:176 | the result is a power of two below 2^32, or 0 on wrap-around |
| Bits.AndMask | src/engine/base/khash.h:236-238 | and-ing with a power of two minus one is the remainder |
| KhFlags.Tests | src/engine/base/khash.h:165-167 | the flag tests of a bucket say whether it is empty, deleted or live |
| KhFlags.MarkDeleted | src/engine/base/khash.h:171 | marks one bucket deleted and leaves the two bits of every other bucket alone |
| KhFlags.MarkFilled | src/engine/base/khash.h:169 | marks one bucket filled and leaves the others alone |
| KhFlags.MarkLive | src/engine/base/khash.h:170 | marks one bucket live and leaves the others alone |
| KhFlags.MarkAllEmpty | src/engine/base/khash.h:226 | filling the words with 0xaa makes every bucket empty |
| KhProbe.PosInjective | src/engine/base/khash.h:236-240 | for a power-of-two bucket count the first n probes hit different buckets |
| KhProbe.Covers | src/engine/base/khash.h:236-240 | so they visit every bucket |
| KhLayout.EmptyProbe | src/engine/base/khash.h:281 | while not all buckets are occupied, some probe finds an empty one, so every probe loop ends |
| KhLayout.ProbeEnds | src/engine/base/khash.h:237-241 | probing that ends at an empty bucket shows that the key is absent, and at a live match that this is its bucket |
| KhLayout.OccupiedUpdate | src/engine/base/khash.h:339-344 | the number of occupied buckets after one changes |
| KhRehash.Displaced | src/engine/base/khash.h:283-286 | exchanging the carried pair with an old one in its bucket keeps both layouts and all pairs but the new carried one |
| KhRehash.Landed | src/engine/base/khash.h:287-290 | storing the carried pair in a bucket that holds no old pair completes both layouts |
| KhRehash.SeekEmpty | src/engine/base/khash.h:278-281 | the probe loop ends at an empty bucket with no empty one before it on the path |
| KhRehash.KickOut | src/engine/base/khash.h:277-292 | the kick-out loop ends, on the count of unmoved pairs, with every carried pair in the new layout and no other moved |
| KhRehash.MoveAll | src/engine/base/khash.h:269-293 | afterwards every pair is in the new layout, each key once and reachable by probing |
| KHash.Table.Get | src/engine/base/khash.h:230-243 | returns the bucket of the key exactly when the map holds it, with its value, and n_buckets otherwise; the exit at the first bucket is never taken |
| KHash.Table.Put | src/engine/base/khash.h:307-348 | finds the key, or adds it to the map and nothing else; size, n_occupied, the number of buckets and the code returned are right |
| KHash.Table.Place | src/engine/base/khash.h:319-347 | the part after the resizing: code 2, a deleted bucket, if and only if probing meets one before an empty one |
| KHash.Table.Spot | src/engine/base/khash.h:319-335 | the bucket chosen is that of the key, or the last deleted one on its probe path, or the empty one at its end if there is none; the exit at the first bucket is never taken |
| KHash.Table.Fill | src/engine/base/khash.h:336-347 | fills that bucket |
| KHash.Table.MakeRoom | src/engine/base/khash.h:310-318 | keeps the map, drops the deleted buckets or doubles the table, and leaves room for another occupied bucket if and only if there was room or there are fewer than 2^31 buckets or more than half of them are not live |
| KHash.Table.Del | src/engine/base/khash.h:349-355 | forgets the key of a live bucket and nothing else |
| KHash.Table.Clear | src/engine/base/khash.h:223-229 | empties the map |
| KHash.Table.Resize | src/engine/base/khash.h:244-306 | keeps the map for every size requested, and leaves the table untouched exactly when the keys do not fit |
| KHash.Table.TargetLeast | src/engine/base/khash.h:249-250 | the number of buckets is the least power of two that is at least 4 and at least the request |
| KHash.LoadBound | src/engine/base/khash.h:251 | the load bound is the whole number nearest to 0.77 n |
| KHash.Table.Adopt | src/engine/base/khash.h:299-303 | the new layout becomes the table, with no deleted buckets |
| KHash.Table.RoomTargets | src/engine/base/khash.h:310-318 | the sizes that kh_put asks for hold all keys: the same one if more than half of the buckets are not live, the double below 2^31 buckets |
| KHash.Table.Wraps | src/engine/base/khash.h:310-318 | in that one case kh_resize aims at 4 buckets, which do not hold the keys |
| KHash.Table.SetValue | src/engine/base/khash.h:521 | storing through a bucket index changes the value of its key only |
| KhRun.Run | src/engine/base/khash.h:223-355 | any sequence of put, delete, get, resize and clear however long, gives the answers and the contents that it gives on a finite map, as long as the map has fewer than 2^30 keys when a new key is put |
| Heap.Heap.SwapLinks | src/engine/base/heap-inl.h:72-104 | every pointer is afterwards as if parent and child had exchanged places |
| Heap.Heap.NodeSwap | src/engine/base/heap-inl.h:72-104 | so the tree stays complete and wired, with the two nodes exchanged in level order |
| Heap.Heap.FindSlot | src/engine/base/heap-inl.h:119-134 | the path made of the bits of n leads to the pointer of the node at level-order place n |
| Heap.Heap.Append | src/engine/base/heap-inl.h:113-141 | the new node takes the next place in level order |
| Heap.Heap.SiftUp | src/engine/base/heap-inl.h:146-147 | walking up restores the heap order when one node is too low, and keeps the nodes |
| Heap.Heap.SiftDown | src/engine/base/heap-inl.h:220-229 | walking down leaves at most one node too low, and keeps the nodes |
| Heap.StepUp | src/engine/base/heap-inl.h:146-147 | exchanging a node with its parent moves the one fault in the order to the parent's place |
| Heap.StepDown | src/engine/base/heap-inl.h:221-228 | exchanging a node with its smallest child moves the fault to the child's place |
| Heap.Heap.Insert | src/engine/base/heap-inl.h:106-148 | the heap stays complete, wired and ordered and gains exactly the node |
| Heap.Heap.Unlink | src/engine/base/heap-inl.h:166-185 | takes the last node in level order off the tree |
| Heap.Heap.Replace | src/engine/base/heap-inl.h:195-214 | puts a node in the place of another |
| Heap.ReplacedOrder | src/engine/base/heap-inl.h:231-236 | the last node in the place of the removed one may be too low or too high there, and nothing else is out of order |
| Heap.Heap.Remove | src/engine/base/heap-inl.h:150-237 | for any member, the heap stays complete, wired and ordered and loses exactly that node |
| Heap.Heap.Dequeue | src/engine/base/heap-inl.h:239-241 | loses exactly the minimum |
| Heap.Heap.MinIsLeast | src/engine/base/heap-inl.h:67-69 | min is null exactly for the empty heap, and otherwise a member that none precedes |
| Heap.Heap.DepthBound | src/engine/base/heap-inl.h:33-36 | no node is deeper than log2 of the number of nodes |
| Mpscq.StepInv | src/engine/base/mpscq.c:34-90 | every atomic step of every thread keeps the invariant |
| Mpscq.Fifo | src/engine/base/mpscq.c:34-90 | under every interleaving the nodes popped, followed by those still queued, are the nodes pushed in the order of their exchanges on head |
| Mpscq.OutOfReach | src/engine/base/mpscq.c:34-90 | a node that pop has returned is reachable from nothing in the queue, held by no producer, and written by no step but a new push of it |
| Mpscq.HandOff | src/engine/base/mpscq.c:56-90 | pop returns the oldest node of the queue, never the sentinel, and gives it back to the callers |
| Mpscq.SentinelOnce | src/engine/base/mpscq.c:81-82 | the sentinel is queued at most once, and when it is pushed again it is not in the queue and no producer has still to link to it |
| Mpscq.QuietPop | src/engine/base/mpscq.c:56-90 | with no push overlapping the call pop returns the oldest node, and NULL with *empty set exactly when there is none |
| Mpscq.Drain | src/engine/base/mpscq.c:28-32 | when the pushes are over, pops return everything in order and leave head and tail at the sentinel, as destroy asserts |
| Mpscq.EmptyMeaning | src/engine/base/mpscq.c:47-64 | pop and is_empty say empty exactly when no node is queued or the first node after the sentinel has still to be linked |
| Mpscq.NullMeaning | src/engine/base/mpscq.c:56-90 | of every NULL that pop returns, at whichever step: `*empty` is true if and only if the sentinel is first with no node queued or a link still to come, and when it is false a node is queued |
| Mpscq.EmptyMistaken | src/engine/base/mpscq.c:61-64 | a run in which they say so although a completed push has put a node there |
| Spscq.StepInv | src/engine/base/spscq.c:35-77 | every step of either thread keeps the invariant |
| Spscq.Refines | src/engine/base/spscq.c:35-66 | each step appends the pushed element, takes the oldest, or does nothing to a FIFO of at most capacity - 1 elements |
| Spscq.Fifo | src/engine/base/spscq.c:35-66 | under every interleaving the elements returned, the one taken but not yet read, and those queued are the elements accepted, in order |
| Spscq.NoOverwrite | src/engine/base/spscq.c:42-65 | the producer never writes the slot that the consumer is about to read, although read_pos has passed it |
| Spscq.Oldest | src/engine/base/spscq.c:52-77 | pop and peek return the element that is oldest when they find one |
| Spscq.OwedIsRead | src/engine/base/spscq.c:63-65 | the element taken is still in its slot when pop reads it |
| Spscq.PushFails | src/engine/base/spscq.c:42-49 | push ends at once if and only if it finds capacity - 1 elements, and then it does not report success |
| Spscq.PopFails | src/engine/base/spscq.c:54-58 | pop and peek end at once, with NULL, if and only if they find no element |
| Spscq.PushEnds | src/engine/base/spscq.c:42-49 | when a push ends it reports success if and only if it has just appended its element |
| Spscq.PushCall | src/engine/base/spscq.c:35-50 | a whole push appends its element and reports success, or does neither when the ring is full |
| Spscq.PopCall | src/engine/base/spscq.c:52-66 | a whole pop takes and returns the oldest element, or returns NULL from an empty ring |
| Spscq.PeekCall | src/engine/base/spscq.c:68-77 | a whole peek returns the same and changes nothing else |
| Spscq.Tests | src/engine/base/spscq.c:79-104 | the tests for empty and full and the size, while no other thread runs |
| EventBus.FiresCount | src/engine/core/event_bus.c:143-150 | a timer that repeats fires (ts - timeout) / repeat + 1 times until ts |
| EventBus.FairStep | src/engine/core/event_bus.c:20-45 | the least queue is the one whose turn it is: its event is older than the next events of the other queues, or as old and its queue served longest ago, unserved queues going by their start_id |
| EventBus.MergeUnique | src/engine/core/event_bus.c:90-115 | only one interleaving of the queues of a pipe takes turns like this, so what Merge pops is decided by the queues and their start_id |
| EventBus.HeapOrder | src/engine/core/event_bus.c:20-70 | the two comparisons compare a time and a start_id, by an order that a heap takes |
| EventBus.Bus.PopFromPipe | src/engine/core/event_bus.c:90-115 | takes the first event of the least queue of the category and keeps the accounts |
| EventBus.Bus.PopTimer | src/engine/core/event_bus.c:129-151 | takes the least timer and sets a repeating one to its next time, with a start_id above all others |
| EventBus.Bus.PopTimers | src/engine/core/event_bus.c:129-151 | timers popped one after the other come with timeouts that do not decrease, equal ones in the order in which they were set, before all that are left; each timer fires at its timeout and, if it repeats, at every repeat after it |
| EventBus.FiredOnce | src/engine/core/event_bus.c:129-151 | if the heap runs empty no timer repeats, and each has fired once, at its timeout |
| EventBus.Bus.Merge | src/engine/core/event_bus.c:90-115 | what is popped from a pipe is an interleaving of its queues, each in order; of equally old events that of the queue served longest ago comes first; times do not decrease if they do not in any queue |
| EventBus.Bus.CheckPending | src/engine/core/event_bus.c:309-316 | empties the pending list into the heaps; the queues get the next values of the counter as start_id in the order in which they were announced, and nothing else changes |
| EventBus.AnnouncedFirst | src/engine/core/event_bus.c:309-316 | of two pending queues with equally old first events the one announced first goes first, after those that were in the heap |
| EventBus.Bus.AddQueue | src/engine/core/event_bus.c:363-380 | a new queue is in its heap exactly if it is not empty |
| EventBus.Bus.Push | src/engine/core/event_queue.c:56-69 | appends or fails when full, announces the queue exactly if it was empty, and never changes the first event of a queue in a heap |
| EventBus.Bus.AddTimer | src/engine/core/event_bus.c:392-402 | the timer is in its heap with a start_id above all others |
| EventBus.Bus.Fetch | src/engine/core/event_bus.c:184-208 | pops market events in merge order, ties included, skips exactly the simulator's stop and late plain events, and saves the first other one, made current; if each queue is in order of time, no market event left is earlier than the saved one |
| EventBus.LateMeaning | src/engine/core/event_bus.c:192-206 | passed over are exactly the simulator's stop and what is older than the bus and neither opens or closes a queue nor reports progress |
| EventBus.CurrentMeaning | src/engine/core/event_bus.c:205 | a market event saved keeps all but its time, which is the later one of its own and that of the bus |
| EventBus.Bus.Serve | src/engine/core/event_bus.c:210-258 | the answer is Right: the first local timer if it is due at the time of the saved event, else, for a tick, the first exchange timer if it is due, else the first event of the least queue of the first category in the order execution, service, command that has one, else the saved event, else none; only what is returned is taken |
| EventBus.Bus.Dequeue | src/engine/core/event_bus.c:318-325 | the answer is Right of the queues as they were called with, pending ones included in the order of their announcement, of the timers, and of the market event saved before or fetched now, which is the first one of a fair merge that is not passed over; with an event saved, each call does one piece of the work that goes before it, or returns it when there is none left; a market event returned has no event of another category and no due timer before it, also when it was fetched in the same call; with each market queue in order of time, the event saved or returned as market event is no later than any market event queued, made current, and later calls keep it so |
| EventBus.Bus.Release | src/engine/core/event_bus.c:182-259 | with no new input the saved event is returned after exactly as many further calls as there are queued events of the other categories and due firings; then those pipes are empty, no eligible timer is due and, as when it was saved, no market event queued is earlier |
| DateTime.DateRoundTrip | src/engine/base/datetime.c:47-90 | rdn_to_ymd undoes ymd_to_rdn for every valid date of a 16-bit year, and the day of the year is right |
| DateTime.RdnRoundTrip | src/engine/base/datetime.c:47-90 | every day number in range gives a valid date, and ymd_to_rdn undoes rdn_to_ymd |
| DateTime.RdnMonotone | src/engine/base/datetime.c:73-90 | the day number grows strictly with year, month and day |
| DateTime.MonthCarry | src/engine/base/datetime.c:79-90 | months below 1 or above 12 count on from the neighbouring years |
| DateTime.NoOverflow | src/engine/base/datetime.c:47-71 | no unsigned step of rdn_to_ymd wraps around for a day number in range |
| DateTime.MarchFound | src/engine/base/datetime.c:53-58 | the divisions find the year from March on and the day in it |
| DateTime.DecodeRoundTrip | src/engine/base/datetime.c:92-128 | datetime_decode undoes datetime_from_ymd plus datetime_from_hmsu |
| DateTime.EncodeRoundTrip | src/engine/base/datetime.c:92-128 | and is undone by them |
| Timestamp.FromIso8601 | src/engine/base/datetime.c:154-236 | accepts exactly the texts of the grammar Iso and stores the time they stand for, whatever follows the text in memory; reads behind the text if and only if ReadsPast holds of it |
| Timestamp.FractionMeaning | src/engine/base/datetime.c:154-236 | a civil time, a fraction of one to nine digits and a zone stand for the civil time plus the whole microseconds of the fraction minus what the zone is ahead of UTC |
| Timestamp.NoFractionMeaning | src/engine/base/datetime.c:154-236 | the same without a fraction |
| Timestamp.UtcMeaning | src/engine/base/datetime.c:154-236 | in UTC the time is the civil time plus the whole microseconds, without wrap-around |
| Timestamp.AcceptedForm | src/engine/base/datetime.c:154-236 | no other texts are accepted |
| Timestamp.SameSeparator | src/engine/base/datetime.c:172-174 | T, t and a space between date and time make no difference |
| Timestamp.ParseStamp | src/engine/base/datetime.c:169-180 | accepts exactly 19 well-formed characters that name a valid civil time |
| Timestamp.ParseFraction | src/engine/base/datetime.c:191-197 | reads the run of digits; with at most nine the value has not wrapped |
| Timestamp.ParseZone | src/engine/base/datetime.c:211-230 | accepts exactly Z or an offset that ends the text, and reads behind the text if and only if ZonePast holds: a sign with fewer than five characters after it, unless a wrong colon, hour or first minute digit inside the text ends the parsing |
| Timestamp.SignPast | src/engine/base/datetime.c:211-219 | every four-digit-year time with a bare sign after it is read past |
| Timestamp.ReadsPastSign | src/engine/base/datetime.c:211-219 | such a text in full |
| Timestamp.Format | src/engine/base/datetime.c:264-381 | writes the text and its end and nothing else, or nothing at all if the length offered is at most the length without an offset |
| Timestamp.PrecisionLeast | src/engine/base/datetime.c:401-411 | the fraction gets the fewest digits of 0, 3, 6 and 9 that write it in full |
| Timestamp.FormatFits | src/engine/base/datetime.c:275-281 | text and end stay inside the length offered if and only if the offset is zero or there are five more characters; the length returned is that of the text if and only if the offset is zero |
| Timestamp.FormatOverrun | src/engine/base/datetime.c:275-281 | a whole second printed with an offset into 21 characters takes 26 |
| Timestamp.WriteFraction | src/engine/base/datetime.c:327-359 | writes the point and the digits |
| Timestamp.PrintParse | src/engine/base/datetime.c:264-411 | what a printed time reads back as; it is the time itself if and only if it is a whole second and the offset is zero |
| Timestamp.ParsePrint | src/engine/base/datetime.c:154-236 | every accepted text of 20 characters with T and Z is printed again as it was |
| Ring.Add | src/engine/base/queue.h:52-59 | concatenates any two rings, empty ones included |
| Ring.Split | src/engine/base/queue.h:61-70 | cuts a ring at any link but the head into two rings |
| Ring.SplitThenAdd | src/engine/base/queue.h:52-70 | splitting and adding again restores next and prev of every link |
| Ring.Move | src/engine/base/queue.h:72-81 | all links go to the other head, also from an empty ring |
| Ring.InsertHead | src/engine/base/queue.h:83-90 | puts the link first |
| Ring.InsertTail | src/engine/base/queue.h:92-99 | puts the link last |
| Ring.Remove | src/engine/base/queue.h:101-106 | takes exactly the link out |
| Ring.Foreach | src/engine/base/queue.h:36-37 | visits the links in order |

## Left out

- Weak memory ordering and the platform atomics: the steps of the queues are sequentially consistent.
- The steps of `event_queue_push` interleaved with the bus, `bus_attach` forwarding, `bus_detach`, `bus_clear`, reference counts, realtime mode and the clocks of the operating system.
- Allocation failure in the hash table, and keys compared by anything but equality.
- EventBus.Bus: the heaps are sets, so which nodes their pointers link is the matter of Heap.dfy alone, and `counter` and times do not wrap.
- The value of `*empty` after a call of pop that returns a node: it is not set on one path.
- KHash.Table.Put: a new key in a table with 2^31 buckets, no room under its load bound and at least half of them live, where MakeRoom can do nothing and the load bound is given up.
- KhRun.Run: a new key in a map of 2^30 keys or more, for the same reason.
- SPLAY_NEXT, RB_PREV and RB_MINMAX, which walk as RB_NEXT does, and the FOREACH macros over trees.
- `datetime_to_tm`, `datetime_now`, time zones of the host, `vec.c`, `idarray.h`, `variant.c`, the dispatch table and the context loop: easy members or operating system.
