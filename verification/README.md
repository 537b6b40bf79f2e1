# Verified models of the containers, protocols and simulations

A Dafny project that models the stateful algorithms of this repository and proves what
they are for. Each part follows the form of the code it models: objects that are updated
in place are classes, the loops are loops, and each method is proved against a
specification on values whose own properties are lemmas. The concurrent parts are step
relations in which every lock, unlock, wait and notification is a step of its own, any
thread may be next, and the invariants hold over every run.

* `set/` - the ordered set of `ctl/set.h`: a red-black tree with parent pointers, its five
  insertion and six erasure cases, iteration along the links, erasing while iterating, and
  the set algebra. `RedBlack` has trees and contexts (a tree with a hole) as values,
  `RedBlackLinks` ties them to the linked nodes, `OrderedSet` has the methods, `SetAlgebra`
  the operations on whole sets. The comparison function is taken to be consistent; it need
  not tell all keys apart.
* `maze/` - the maze generator and the solvability check. `shuffle` is any rearrangement.
  The random walk is cut off after any given number of rounds: whenever it has covered
  every room by then, all promises hold.
* `list/` - the doubly linked list of `ctl/lst.h` and its bottom-up merge sort, whose 64
  slots are a binary counter of sorted runs.
* `concurrency/` - the executor, the `when_all` rendezvous and its waiters on a pool of
  workers, the bounded buffer and the epoll reactor. The modules named `History` tell from
  the threads' stages alone what happens in a run, in which order, and prove the order of
  handles, outcomes, items and events about that.
* `life/` - the Game of Life on a grid that grows, against Life on the infinite plane.
* `vector/` - the flat vector of `ctl/vec.h` and the paged deque of `ctl/deq.h`, with the
  quicksort they share.
* `hash/` - the chained hash set of `ctl/ust.h`, and the resizing hash map with a red-black
  tree of linked nodes in every bucket.
* `common/` - what several parts use: orders, filters, powers of two, an option type.

Six results say exactly when the code meets a property that it does not always meet:

* The goal cell of a maze is connected to the start if and only if the number of rows or
  the number of columns is odd (`GoalReachable`); the application uses odd numbers only.
* The hash set has at least as many buckets as keys if and only if it has at most
  1725587117 keys, the last entry of its table of primes.
* A run of the reactor loses a handle if and only if another one is registered for the
  same descriptor and direction while it waits (`Doubles`).
* Calls of `when_all` on a pool of workers can get stuck for good if and only if there are
  at least as many calls with a task that needs a worker as there are workers, since each
  waiter blocks one.
* Reserving buckets in an empty hash set stays inside the new table if and only if that is
  not smaller than the old one.
* The bounded buffer comes to rest with no thread left waiting if and only if the
  producers' quotas cover the consumers' and what is left over fits into the buffer.

## Model

| member | source | states |
|---|---|---|
| OrderedSet.Set.Insert | ctl/set.h:318-352 | a key equal to one in the set changes nothing and the old node is returned; any other key is put in at the one place that keeps the keys ascending, in a new node; the whole red-black invariant, the inverse parent links and the size hold afterwards |
| OrderedSet.Set.Insert1 | ctl/set.h:354-359 | from a red node whose only fault may be a red parent, the insertion cases end in a red-black tree with the same nodes and keys in the same order |
| OrderedSet.Set.Insert3 | ctl/set.h:368-376 | the same promise below a red parent, whatever the uncle: a red one sends the repair two levels up |
| OrderedSet.Set.Insert4 | ctl/set.h:378-387 | the same promise with a black uncle, for inner and outer grandchildren |
| OrderedSet.Set.Insert5 | ctl/set.h:389-396 | the same promise with a black uncle for an outer grandchild, settled by one rotation |
| OrderedSet.Set.EraseNode | ctl/set.h:402-421 | exactly the key at the node's place goes, although its key may be swapped with its predecessor's and the predecessor's node be freed; the node that goes is this one or the one before it, never the next; the invariant holds and the size drops by one |
| OrderedSet.Set.EraseEnd | ctl/set.h:408-415 | a node with at most one child stays in place while the tree around it is rebalanced and is spliced out after that; the result is a red-black tree without exactly that node and key |
| OrderedSet.Set.Erase | ctl/set.h:423-427 | the key equal to the given one goes; without such a key nothing changes |
| OrderedSet.Set.Erase1 | ctl/set.h:429-432 | from a context balanced for a tree one black node higher, the erasure cases end in one balanced for the tree as it is, below which even a red root may be, with the same nodes and keys around it in the same order; they end because each climb leaves fewer black nodes above |
| OrderedSet.Set.Erase2 | ctl/set.h:434-444 | the same promise below any parent, with a sibling of either colour |
| OrderedSet.Set.Erase3 | ctl/set.h:446-454 | the same promise with a black sibling |
| OrderedSet.Set.Erase4 | ctl/set.h:456-464 | the same promise with a black sibling unless parent and nephews are all black |
| OrderedSet.Set.Erase5 | ctl/set.h:466-481 | the same promise with a black sibling and a red nephew on either side |
| OrderedSet.Set.Erase6 | ctl/set.h:483-493 | the same promise with a black sibling and a red far nephew, settled by one rotation |
| OrderedSet.Set.RotateLeft | ctl/set.h:294-302 | the fields of every node the rotation touches, the parent's link included |
| OrderedSet.Set.Rotate | ctl/set.h:294-312 | at any place of a linked tree, a rotation yields the linked form of the rotated tree, parent links inverse to child links |
| OrderedSet.Set.Replace | ctl/set.h:221-231 | the parent's link, or the root, goes to the new node, and that node's parent link back |
| OrderedSet.Set.Find | ctl/set.h:203-215 | finds a node with an equal key exactly if there is one, after at most 2 * log2(size + 1) nodes |
| OrderedSet.Set.LowerBound | ctl/set.h:175-187 | the node with the least key not below the given one, or none if all are below; all nodes before it in order are below |
| OrderedSet.Set.UpperBound | ctl/set.h:189-201 | the node with the least key above the given one, or none; no node before it in order is above |
| OrderedSet.Set.First | ctl/set.h:85-106 | the first node in ascending order, or none in an empty set |
| OrderedSet.Set.Next | ctl/set.h:59-73 | from the i-th node in ascending order, the links lead to the (i+1)-th, from the last one to none |
| OrderedSet.Set.RemoveIf | ctl/set.h:515-523 | removing while iterating keeps exactly the keys that do not match, in their order, and returns how many went |
| OrderedSet.Set.SweepErase | ctl/set.h:402-421 | the node looked up before an erasure is still the next one after it |
| RedBlack.HeightBound | ctl/set.h:203-215 | a red-black tree of n keys has height at most 2 * log2(n + 1) |
| RedBlack.VerifiesIffRedBlack | ctl/set.h:237-290 | the invariant proved of every operation is equivalent to the debugging checks of the source: black root, black children and parent of red nodes, and one running count of black nodes that no path contradicts |
| RedBlack.RaisedBalanced | ctl/set.h:389-396 | the rotation and repainting of the outer insertion case restore the whole tree |
| RedBlack.FarRaisedBalanced | ctl/set.h:483-493 | the last erasure case makes up for the missing black node |
| RedBlack.PlugInOrder | ctl/set.h:59-73 | nodes and keys of a tree in order are those before the hole, in it and after it |
| RedBlackLinks.RotatedFocused | ctl/set.h:294-312 | the pointer assignments of a rotation turn the linked form of a tree, anywhere, into that of the rotated tree |
| RedBlackLinks.Spliced | ctl/set.h:413-415 | unlinking a node with one child leaves the linked form of the rest |
| SetAlgebra.Intersection | ctl/set.h:525-531 | the result has exactly the keys in both sets |
| SetAlgebra.Union | ctl/set.h:533-540 | the result has exactly the keys in one set or the other, and every key of the first set itself, whatever equal key the second has |
| SetAlgebra.Difference | ctl/set.h:542-547 | the result has exactly the keys of the first set that are not in the second |
| SetAlgebra.SymmetricDifference | ctl/set.h:549-556 | the result has exactly the keys in one of the sets and not in the other |
| SetAlgebra.Copy | ctl/set.h:505-513 | exactly the same keys, in nodes of its own |
| MazeGenerator.Generate | maze1/mazegenerator.cpp:36-160 | for every sequence of random choices and all dimensions from 3: every cell is 0 if it is open and 1 if not; the rounds are a walk over neighbouring rooms; once it has covered all rooms, the open cells are interior, 2n for n rooms or 2n - 1 if both dimensions are odd, form a perfect maze exactly if the goal is reachable, and the portals are two different inner cells of a simple path from start to goal, if that has more than four cells |
| MazeGenerator.Carved | maze1/mazegenerator.cpp:55-98 | the walk alone, up to the opening of the goal |
| MazeGenerator.NextRoom | maze1/mazegenerator.cpp:63-82 | as long as a room is unvisited, some shuffled direction stays inside, so the walk is never stuck |
| MazeGenerator.Dfs | maze1/mazegenerator.cpp:103-126 | a path found is simple, open, 4-connected and leads from the goal back to the cell; on failure everything newly marked has all its open neighbours marked |
| MazeGenerator.Decorated | maze1/mazegenerator.cpp:100-158 | the search from the start succeeds exactly if the goal is reachable, and the portals lie on the path it found |
| MazeGenerator.PlacePortals | maze1/mazegenerator.cpp:130-158 | the portals are two different cells of the path, neither its first nor its last, or none if it has at most four cells |
| MazeGenerator.IsSolvable | maze1/mazegenerator.cpp:5-34 | for any maze and any start inside it: true exactly if a walk through open cells leads from the start to the end, the start cell itself never tested |
| MazeGenerator.Fill | maze1/mazegenerator.cpp:39-50 | the open cells are exactly the rooms, and every cell is 0 or 1 |
| MazeWalk.Carve | maze1/mazegenerator.cpp:71-76 | visiting a new room through its wall keeps the open part a perfect maze with one wall carved for each visited room but the first |
| MazeWalk.Finished | maze1/mazegenerator.cpp:96-98 | opening the goal keeps the maze perfect, and reachable from the start, exactly if rows or columns are odd in number; the count of open cells |
| MazeGenerator.FourByFour | maze1/mazegenerator.cpp:36-98 | in a grid of four by four the one room and the goal are open and apart |
| MazeWalk.CanMove | maze1/mazegenerator.cpp:66-82 | a room with another room anywhere has a room two steps away |
| MazePaths.LeafPerfect | maze1/mazegenerator.cpp:71-76 | a cell with one open neighbour added to a perfect maze leaves every two cells joined by exactly one simple path |
| LinkedList.List.Disconnect | ctl/lst.h:141-153 | the i-th node goes and the links of all others, head and tail follow the shorter sequence |
| LinkedList.List.Connect | ctl/lst.h:155-180 | a loose node goes in before or after the i-th one; all links, head and tail follow |
| LinkedList.List.Transfer | ctl/lst.h:194-199 | one list loses exactly the node that the other gains |
| LinkedList.List.Swap | ctl/lst.h:112-117 | the lists exchange their nodes |
| ListSort.Merge | ctl/lst.h:306-320 | relinking while walking yields the stable merge of the two sequences and empties the other list |
| ListSort.AddOne | ctl/lst.h:332-343 | a round keeps the counter: slot i is empty or holds 2^i sorted elements, older than those below, and the fill pointer never passes the 64 slots |
| ListSort.Sort | ctl/lst.h:322-349 | for any strict weak order and any list shorter than 2^64: the same nodes, sorted, equivalent ones in their old order, all links right |
| MergeOrder.MergedSorted | ctl/lst.h:306-320 | merging sorted sequences gives a sorted one |
| MergeOrder.MergedStable | ctl/lst.h:306-320 | a merge rearranges the two sequences and keeps equivalent elements in order, the older list's first |
| BinaryCounter.EndCarry | ctl/lst.h:341-343 | the carry goes into the first empty slot, which then holds its share of sorted elements, older than those below; everything taken so far is still a stable rearrangement |
| BinaryCounter.CarryOver | ctl/lst.h:335-340 | merging a slot into the carry doubles the carry and keeps everything stable |
| BinaryCounter.PowerOfWord | ctl/lst.h:327 | 64 slots are enough for any size a 64-bit word holds |
| ListOps.Reverse | ctl/lst.h:270-283 | turning each node's links around while the iterator walks on reverses the sequence |
| ListOps.RemoveIf | ctl/lst.h:285-295 | erasing while iterating keeps exactly the nodes that do not match, in order, and returns how many went |
| ListOps.Splice | ctl/lst.h:297-304 | all of the other list ends up in front of the position, in order |
| Filter.KeptExactly | ctl/lst.h:285-295 | each element that does not match is kept as often as it was there, no other is kept |
| Filter.KeptInOrder | ctl/lst.h:285-295 | what is kept is found at ascending places of the original |
| Executor.FirstInFirstOut | coroutine_frame/core/executor.cpp:17-78 | in every run the handles recorded as accepted are those recorded as dequeued followed by the queue, and no handle is resumed twice; `ExecutorHistory` ties the records to what the threads do |
| Executor.NoLostWakeup | coroutine_frame/core/executor.cpp:17-78 | with a handle queued or the executor stopped, and a worker not yet returned, a worker is awake or a notification is pending |
| Executor.SleepersMissNothing | coroutine_frame/core/executor.cpp:23-25 | while a worker sleeps, each queued handle has a worker of its own about to look at the queue, or a notification of its own pending |
| Executor.Drained | coroutine_frame/core/executor.cpp:28-40 | when all workers have returned the executor was stopped and every accepted handle has been resumed |
| Executor.NoDeadlock | coroutine_frame/core/executor.cpp:17-78 | a reachable state in which no thread can move has nothing left to do: everything accepted resumed, every call returned, workers asleep or, after a shutdown, gone |
| Executor.Progress | coroutine_frame/core/executor.cpp:47-78 | every step other than a new call or a spurious wakeup uses up some of a bounded amount of work |
| Executor.RunsEnd | coroutine_frame/core/executor.cpp:17-78 | once there are no more new calls and spurious wakeups, a run goes on for at most as many steps as there was work left |
| Executor.StepInv | coroutine_frame/core/executor.cpp:17-78 | every step of every thread keeps mutual exclusion, first in first out, single resumption and the account of wakeups |
| ExecutorHistory.TakenInOrder | coroutine_frame/core/executor.cpp:17-78 | the handles with which callers have left the critical section of `schedule`, in the order in which they left it, are the handles that workers have taken, in the order in which they took them, followed by the queue |
| ExecutorHistory.HistoryGrows | coroutine_frame/core/executor.cpp:17-78 | what has been queued, taken and resumed is a prefix of what will have been at any later state |
| ExecutorHistory.StepQueues | coroutine_frame/core/executor.cpp:23 | a thread that leaves the critical section with its handle appends that handle to queue and record; without such a thread the record stays, and the queue too unless a worker takes from it |
| ExecutorHistory.StepTakes | coroutine_frame/core/executor.cpp:61-64 | a worker that takes a handle takes the front of the queue; without such a worker nothing is dequeued |
| ExecutorHistory.TurnedAway | coroutine_frame/core/executor.cpp:20-22 | a caller that leaves without its handle queued is turned away, and only after a shutdown |
| ExecutorHistory.ResumedIsQueued | coroutine_frame/core/executor.cpp:61-69 | a worker that comes back from resuming the k-th handle has held the very handle that the k-th caller queued, and nobody resumed it before |
| ExecutorHistory.AllHandled | coroutine_frame/core/executor.cpp:28-40 | when all workers have returned, each handle that a caller queued has been resumed, once |
| WhenAll.Finishes | coroutine_frame/core/when_all.h:73-104 | when the waiter leaves its loop every task has posted exactly once, and it returns every task's value in its slot, or raises the exception recorded first |
| WhenAll.NoLostWakeup | coroutine_frame/core/when_all.h:36-54 | a waiter asleep with all tasks counted still has a notification to come |
| WhenAll.NoDeadlock | coroutine_frame/core/when_all.h:90-96 | if nothing can move, the waiter has its result and all tasks are done, provided a running task can always complete; `WaiterPool` says when that is so on a pool of workers |
| WhenAll.Progress | coroutine_frame/core/when_all.h:36-104 | every step other than a spurious wakeup uses up some of a bounded amount of work |
| WhenAll.RunsEnd | coroutine_frame/core/when_all.h:36-104 | a run without spurious wakeups has no more states than the work at its start plus one |
| WhenAll.FirstFailureIsFirst | coroutine_frame/core/when_all.h:45-54 | the exception kept is that of a failed task before which no failed task is recorded |
| WhenAllHistory.Finishes | coroutine_frame/core/when_all.h:73-104 | every task is seen to store its outcome in exactly one step; the waiter raises the error of the task whose step is the first to store a failure, or, if no step does, returns all values in their slots |
| WhenAllHistory.ExceptionIsFirst | coroutine_frame/core/when_all.h:48-50 | in every state of a run the exception is the error stored by the first step that stored a failure, or absent if there was none |
| WhenAllHistory.HistoryGrows | coroutine_frame/core/when_all.h:36-54 | the tasks that have stored stay a prefix of those that will have, and an exception once set never changes |
| WhenAllHistory.StoredIsPosted | coroutine_frame/core/when_all.h:36-54 | the recorded order is the order of the steps in which tasks go from storing to counting; the outcomes of the tasks never change |
| WaiterPool.StuckOutcome | coroutine_frame/core/when_all.h:73-104 | any number of calls on a pool, each waiter blocking a worker until it is done and tasks needing workers any number of times: a stuck run has unfinished calls exactly if every worker is blocked by a sleeping waiter while something still needs one |
| WaiterPool.SafeExactly | coroutine_frame/core/when_all.h:73-104 | no run gets stuck before every call is over if and only if there are more workers than calls with a task that needs a worker |
| WaiterPool.EnoughWorkers | coroutine_frame/core/when_all.h:73-104 | with more workers than such calls, every stuck run is over |
| WaiterPool.TooFewWorkers | coroutine_frame/core/when_all.h:73-104 | otherwise a run leads from the start to a stuck state with unfinished calls |
| WaiterPool.EachCallCorrect | coroutine_frame/core/when_all.h:90-103 | every call that is done on the pool has had each task seen to store exactly once in the course of the run, and raises the error of the first one seen to store a failure, or else returns the values in their slots |
| WaiterPool.RunsEnd | coroutine_frame/core/when_all.h:73-104 | a run without spurious wakeups has no more states than the work at its start plus one |
| BoundedBuffer.Safety | cur/producer_consumer.c:69-153 | in every run, free slots are accounted for by `empty` and the threads on their way, items by `full` and the threads on their way; no overflow or underflow; the items recorded as inserted are those recorded as removed followed by the circular window; `BufferHistory` ties the records to the items the threads hold |
| BoundedBuffer.MutualExclusion | cur/producer_consumer.c:84-103 | only one thread is inside the buffer at a time |
| BoundedBuffer.NoDeadlock | cur/producer_consumer.c:69-153 | for any numbers of threads, quotas and capacity: a state in which no thread can move is a finished one exactly if the quotas agree up to what fits into the buffer |
| BoundedBuffer.Finishes | cur/producer_consumer.c:226-242 | at the joins the totals equal the quotas and the semaphores agree with the count |
| BoundedBuffer.Progress | cur/producer_consumer.c:69-153 | every step uses up some of a bounded amount of work |
| BoundedBuffer.RunsEnd | cur/producer_consumer.c:69-153 | no run has more states than the work at its start plus one |
| BoundedBuffer.MaximalRuns | cur/producer_consumer.c:69-153 | a run that cannot be extended has finished exactly if the quotas agree up to what fits into the buffer |
| BoundedBuffer.LonelyConsumer | cur/producer_consumer.c:119-121 | a consumer with one item to come and no producer waits for ever |
| BoundedBuffer.SharesAddUp | cur/producer_consumer.c:192-217 | quotient plus one for the first remainder threads adds up to the total |
| BoundedBuffer.MainProgram | cur/producer_consumer.c:172-242 | with the quotas of `main` there is no deadlock, and at the joins the buffer is empty and everything recorded as inserted is recorded as removed, in order |
| BufferHistory.ItemsInOrder | cur/producer_consumer.c:69-153 | in every run the items that producers were started with, in the order in which they put them in, are the items that consumers hold after taking them out, in the order in which they do, followed by the circular window |
| BufferHistory.AllObtained | cur/producer_consumer.c:172-242 | at the joins of `main` the consumers have got exactly the items the producers were started with, in that order, as many as the total |
| BufferHistory.CarriesGiven | cur/producer_consumer.c:76-88 | a producer at work carries the item it was started with |
| BufferHistory.ConsumerKeeps | cur/producer_consumer.c:127-148 | from taking an item out until it has posted, a consumer keeps that item |
| BufferHistory.StepMoves | cur/producer_consumer.c:84-132 | a producer's move appends its own item to what was inserted, a consumer's move leaves it with the last item removed, and no other step inserts or removes anything |
| BufferHistory.StepItems | cur/producer_consumer.c:74-88 | the step that sets an idle producer to work gives it the item it then holds; nothing changes the item of a thread at work but a consumer's own move |
| Reactor.EpollReactor.WaitRead | coroutine_frame/core/io_epoll.cpp:63-69 | the reader is in the table, the writer stays, EPOLLIN, EPOLLRDHUP, EPOLLHUP and EPOLLERR are added to the mask and no other bit, and the kernel's interest equals the mask |
| Reactor.EpollReactor.WaitWrite | coroutine_frame/core/io_epoll.cpp:71-77 | the same for a writer, with EPOLLOUT, EPOLLHUP and EPOLLERR |
| Reactor.EpollReactor.TakeWaiters | coroutine_frame/core/io_epoll.cpp:129-137 | the reader is taken out exactly by an event with EPOLLIN, EPOLLRDHUP, EPOLLHUP or EPOLLERR, the writer exactly by one with EPOLLOUT, EPOLLHUP or EPOLLERR; the entry keeps the other and is gone exactly if nobody is left; other entries stay, and masks and interest stay in step |
| Reactor.EpollReactor.DisarmFdIfIdle | coroutine_frame/core/io_epoll.cpp:54-61 | erases the entry and the kernel's interest exactly if nobody waits |
| Reactor.FiredMasked | coroutine_frame/core/io_epoll.cpp:133-134 | every event, even a stale one, leaves a mask that names exactly the remaining waiters, although it clears bits both directions share |
| ReactorRuns.MaskMeansWaiting | coroutine_frame/core/io_epoll.cpp:45-141 | in every run EPOLLIN and EPOLLRDHUP are in a mask exactly if a reader waits, EPOLLOUT exactly if a writer does, and the kernel watches for the mask |
| ReactorRuns.WatchesNothingElse | coroutine_frame/core/io_epoll.cpp:45-141 | the kernel watches the descriptors with waiters and armed timers and no others |
| ReactorRuns.EachHandleOnce | coroutine_frame/core/io_epoll.cpp:63-141 | every registered handle is in exactly one place: waiting where it was registered, in the loop's hands, scheduled, or overwritten; none is scheduled twice |
| ReactorRuns.LosesExactly | coroutine_frame/core/io_epoll.cpp:63-77 | a step loses a handle exactly if it registers one for a direction that has a waiter |
| ReactorRuns.RunLosesExactly | coroutine_frame/core/io_epoll.cpp:63-141 | a run has lost a handle exactly if one of its steps registered one for a direction that had a waiter |
| ReactorRuns.NothingLost | coroutine_frame/core/io_epoll.cpp:63-141 | with at most one waiter a direction no run loses a handle |
| ReactorRuns.TwoReaders | coroutine_frame/core/io_epoll.cpp:63-69 | two readers registered for one descriptor: the first handle is lost |
| ReactorHistory.WakesExactly | coroutine_frame/core/io_epoll.cpp:107-139 | in every step of every run a waiting reader goes into the loop's hands exactly if an event of its descriptor with EPOLLIN, EPOLLRDHUP, EPOLLHUP or EPOLLERR is dispatched, a writer exactly for EPOLLOUT, EPOLLHUP or EPOLLERR, a timer's handle exactly if the loop comes to its descriptor; it is overwritten exactly if another is registered in its place; and what the loop holds can only go to the executor |
| ReactorHistory.WokenIsScheduled | coroutine_frame/core/io_epoll.cpp:107-139 | a handle that an event wakes has been given to the executor by the time the loop takes up the next event or polls again |
| ReactorHistory.EventsInOrder | coroutine_frame/core/io_epoll.cpp:98-140 | the events the loop has come to, followed by those still ahead of it, are the events the kernel has reported, in order |
| ReactorHistory.StepReaches | coroutine_frame/core/io_epoll.cpp:107-137 | the loop comes to one event of the batch at a time, takes the timer if the descriptor is a timer's, and else always looks up its waiters |
| ReactorHistory.StepTakes | coroutine_frame/core/io_epoll.cpp:128-134 | what the dispatch takes out as reader and writer did wait to read and to write that descriptor |
| ReactorHistory.StepSchedules | coroutine_frame/core/io_epoll.cpp:122-139 | the executor is handed the timer's handle, or the reader first and then the writer, each appended once, and nothing else but the handle of a timer without a descriptor |
| ReactorHistory.StepRegisters | coroutine_frame/core/io_epoll.cpp:63-96 | a registration adds one handle, which waits for what it was registered for, and no other step adds any |
| ReactorHistory.TimersWatched | coroutine_frame/core/io_epoll.cpp:33-38 | the kernel watches every armed timer, and the one that ends the loop, for EPOLLIN |
| Life.GameOfLife.Steps | life-cpp/GameOfLifeWidget.cpp:55-69 | n steps from any grid give the n-th generation on the infinite plane |
| Life.GameOfLife.Step | life-cpp/GameOfLifeWidget.cpp:55-69 | one step is one generation of the plane |
| Life.GameOfLife.ExpandIfNeeded | life-cpp/GameOfLifeWidget.cpp:374-418 | every expansion loop ends; afterwards all four borders are dead, both grids have the same dimensions, and the live cells of the plane are the same, the origin having moved |
| Life.GameOfLife.CountNeighbors | life-cpp/GameOfLifeWidget.cpp:40-53 | counts the live ones of the eight cells around, those off the grid included |
| Life.NextOnGrid | life-cpp/GameOfLifeWidget.cpp:55-69 | with dead borders no cell is born off the grid, so the grid's next generation is the plane's |
| Life.GenerationIsRule | life-cpp/GameOfLifeWidget.cpp:61-65 | a cell of the plane is in the next generation exactly if three of the cells at distance one live, or two of them and the cell itself |
| Quicksort.SortsAll | ctl/vec.h:279-301 | for any strict weak order the result is sorted and a rearrangement |
| Quicksort.RangedSortedSorts | ctl/vec.h:279-296 | the range ends up sorted with what it held, and nothing outside it moves |
| Vector.Vector.RangedSort | ctl/vec.h:279-296 | the in-place loop and its two recursive calls compute that function and end |
| Vector.Sort | ctl/vec.h:298-301 | the whole vector is sorted and holds the same elements |
| Vector.Vector.Insert | ctl/vec.h:254-265 | the element goes in at the index, or at 0 into an empty vector |
| Vector.Vector.Erase | ctl/vec.h:267-277 | exactly the index-th element goes |
| Vector.Vector.Fit | ctl/vec.h:168-179 | the same elements in an array of the new capacity; with one-byte elements it has one cell more, and all cells behind the elements are zero |
| Vector.Vector.Reserve | ctl/vec.h:181-204 | room for at least the capacity asked for and no more than twice the old one otherwise; nothing is lost, and only a vector of one-byte elements may shrink |
| Vector.Vector.PushBack | ctl/vec.h:206-212 | the element is appended, whether or not the array had to grow |
| Vector.Vector.RemoveIf | ctl/vec.h:315-330 | erasing while iterating is the order-preserving filter, and the count is right |
| Deque.Deque.At | ctl/deq.h:53-66 | the page and cell computed from the index hold the index-th element |
| Deque.Deque.PushFront | ctl/deq.h:187-211 | the element is in front, the page layout and marks hold, through page and table growth |
| Deque.Deque.PushBack | ctl/deq.h:230-254 | the same at the back |
| Deque.Deque.PopFront | ctl/deq.h:213-228 | the first element goes, and its page if it was the last on it |
| Deque.Deque.PopBack | ctl/deq.h:256-271 | the same at the back |
| Deque.Deque.Alloc | ctl/deq.h:172-185 | growing the table moves the window up with every page in its place, and the marks stay inside |
| Deque.Deque.Insert | ctl/deq.h:294-317 | the element goes in at the index, whichever side is shifted |
| Deque.Deque.Erase | ctl/deq.h:273-292 | exactly the index-th element goes, whichever side is shifted |
| Deque.Deque.RangedSort | ctl/deq.h:366-383 | the quicksort through page addressing computes the same function |
| Deque.Sort | ctl/deq.h:385-388 | the whole deque is sorted and holds the same elements |
| Deque.Deque.RemoveIf | ctl/deq.h:390-402 | erasing while iterating is the order-preserving filter, and the count is right |
| DequePages.ListedAt | ctl/deq.h:53-66 | on full inner pages, division by the page size finds the index-th element |
| DequePages.DropFront | ctl/deq.h:213-228 | taking the first element off leaves the layout and the rest of the sequence |
| DequePages.StoreBack | ctl/deq.h:250-253 | storing behind the last element appends it and keeps the layout |
| Primes.ClosestPrime | ctl/ust.h:144-199 | the least table entry not below the number, or the last entry if there is none |
| UnorderedSet.HashSet.Find | ctl/ust.h:116-124 | finds a node with an equal key exactly if there is one anywhere in the set |
| UnorderedSet.HashSet.Insert | ctl/ust.h:291-303 | adds the key unless an equal one is there; afterwards there are at least as many buckets as keys exactly if there are at most 1725587117 keys |
| UnorderedSet.HashSet.Erase | ctl/ust.h:318-333 | exactly the equal keys go |
| UnorderedSet.HashSet.RemoveIf | ctl/ust.h:335-352 | exactly the matching keys go and their number is returned |
| UnorderedSet.HashSet.Rehash | ctl/ust.h:256-270 | the same nodes, each in the chain of its hash in a table of the closest number of buckets |
| UnorderedSet.HashSet.MoveAll | ctl/ust.h:263-266 | the walk over the old table visits and moves every node once, although each move overwrites the node's link |
| UnorderedSet.HashSet.Step | ctl/ust.h:59-83 | the iterator goes to the next node, or to the head of the next chain that has one, and stops only after all |
| UnorderedSet.HashSet.Reserve | ctl/ust.h:242-254 | the same nodes in the closest number of buckets, unless the set is empty and that number is smaller than the one it has: exactly then the copy of the buckets does not fit |
| UnorderedSet.SizeCountsKeys | ctl/ust.h:208-212 | `size` is the number of keys |
| HashChains.OnlyOnce | ctl/ust.h:291-303 | nodes with equal keys are one node in one place |
| BucketTree.RBTree.Insert | hashmap/RBTree.h:203-227 | the entry goes behind those whose keys are not greater and the tree is a red-black tree with sorted entries and right links again; distinct keys stay distinct exactly if the key is fresh, and then the map they stand for gains the entry |
| BucketTree.RBTree.InsertFixup | hashmap/RBTree.h:77-115 | the repair loop ends in a red-black tree with the same entries in order |
| BucketTree.RBTree.FixupStep | hashmap/RBTree.h:80-112 | one round leaves a red node, at least one level higher, whose parent is its only possible fault |
| BucketTree.RBTree.LeftRotate | hashmap/RBTree.h:43-58 | the fields of every node the rotation touches |
| BucketTree.RBTree.Find | hashmap/RBTree.h:229-243 | finds a value of the key exactly if there is an entry; with distinct keys, what the map holds |
| BucketTree.RBTree.InorderTraversal | hashmap/RBTree.h:293-305 | hands over every entry once, in ascending order of the keys |
| BucketTree.RBTree.Remove | hashmap/RBTree.h:245-291 | whether the key was there; afterwards it is gone from the map and nothing else is, and the tree is valid with distinct keys |
| BucketTree.InsertedContent | hashmap/RBTree.h:203-227 | an insertion updates the map exactly if the key is fresh |
| HashMap.HashMap.Put | hashmap/HashMap.h:60-77 | the map gains or replaces the key; an old entry is removed first, so that the key inserted is new to its bucket; every bucket stays a red-black tree of its own with strictly ascending keys that all belong there; capacity doubles exactly if the map is three quarters full, and stays 16 times a power of two and at least 4/3 of the size |
| HashMap.HashMap.Get | hashmap/HashMap.h:79-87 | the search of the one bucket finds what the map holds for the key |
| HashMap.HashMap.Remove | hashmap/HashMap.h:89-100 | the map loses the key and says whether it was there; the buckets stay valid |
| HashMap.HashMap.Resize | hashmap/HashMap.h:102-116 | twice the buckets, all of them new trees, and the same map: nothing lost, nothing duplicated |
| HashMap.HashMap.MoveBucket | hashmap/HashMap.h:108-113 | the traversal of an old bucket moves exactly its keys, each of which is new to the tree it goes to, and leaves the old trees as they are |
| HashMap.InsertFresh | hashmap/HashMap.h:111 | inserting a key that the tree does not have adds it to that tree's map, and changes no other tree's map |
| Placement.FreshThere | hashmap/HashMap.h:108-113 | a key still to be moved is in none of the new buckets |
| Placement.AllMoved | hashmap/HashMap.h:108-115 | when every bucket has been traversed the new ones hold exactly the map, each key where its hash says |

## Left out

- Memory: `free` and `copy` hooks, failing allocation, reallocation as such. A freed node simply leaves the container.
- Uninitialised memory: page slots outside the deque's window are null, fresh array cells hold arbitrary values.
- MazeGenerator.Generate: the walk ends only with probability one, so termination is replaced by a bound on the rounds; the branch for a walk that is stuck is proved dead by `NextRoom` and not in the model.
- The random generator: every shuffle is an arbitrary rearrangement.
- OrderedSet: `clear`, `free`, `equal` and `swap`.
- Comparison functions: taken to be consistent (a total preorder for the set, a strict weak order for the sorts, a total order for bucket trees, hash and equality in agreement for the hash set).
- Page and bucket tables: the deque's page table and the hash set's bucket array are sequences that are reassigned, not arrays updated in place.
- LinkedList: `assign`, `resize`, `unique`, `find` and `equal`; the value of a node does not change.
- UnorderedSet.HashSet.Reserve: when the old buckets do not fit, the code goes on copying; the model stops there and returns false. `equal` of the same file is left out.
- BucketTree.RBTree.Remove: states what removal is for, with a body that builds the tree anew from the other entries; the steps of `remove` and `deleteFixup` in `hashmap/RBTree.h`, which may take the parent of a null node, are not modelled.
- HashMap: the read-write lock; a traversal collects a bucket's entries first and hands them over one by one afterwards.
- BucketTree.RBTree.FixupStep: the two mirrored branches of the loop body are one method with the side as a parameter.
- Executor: a handle is a token and never null; its coroutine may call `schedule` any number of times while it is resumed, may not call `shutdown`, and exceptions it throws are ignored as the source does.
- Executor.NoDeadlock: assumes that a resumed coroutine returns to its worker; a coroutine that blocks the worker, as a waiter of `when_all` does, is the subject of `WaiterPool`.
- WhenAll.NoDeadlock: assumes that a running task can complete without a worker of its own; `WaiterPool` drops the assumption.
- WaiterPool: a task that itself waits for another call of `when_all`; the order of the executor's queue (any queued coroutine may get a free worker, so the proofs cover all orders). The caller's code after a call returns to its worker.
- WhenAll: `when_all_void`, `when_any`, timeouts and retries; the empty list is the general case with no tasks.
- BoundedBuffer: sleeping, printing and `print_buffer_status`; items are any integers.
- ReactorRuns: descriptors closed or reused behind the reactor's back, waiting on a timer's own descriptor, and failing `epoll_ctl` calls; one registration or one critical section is one step, and the kernel may report any bits on watched descriptors.
- Memory orders weaker than sequential consistency.
- Life: drawing, pattern files, logging and the fixed window; a grid without rows or columns is included.
- Everything else in the repository: other containers of `ctl`, the heap `pqu`, the websocket server, crawler, plugins, reflection and demo programs.
