# filebench and fio cores in Dafny

A model of the in-memory core of filebench and of one part of fio, with proofs.
`dafny verify dfyconfig.toml` checks everything.

**The AVL tree** (`filebench/fb_avl.c`, `fb_avl.h`). `AvlShape` and `AvlRotation`
hold the mathematics: trees with stored balances, contexts (a tree with a hole),
in-order and post-order sequences, and what growing, shrinking and rotating does
to heights and order. `AvlLinks` represents a tree as cells in memory (two child
links, a parent link, a child index, a balance). `AvlTree` is the code: loops that
follow and rewrite links, proved to keep the memory a well-formed tree and stated
through the in-order sequence. `AvlRotationLinks` and `AvlSwapLinks` carry the
pointer-level steps of a rotation and of the swap through the stack copy `tmp`
(address `SPARE`) when a node with two children is removed. `AvlClimb` says where
the climb after a removal stops, `AvlTeardown` is the cookie-driven teardown,
`AvlCost` the height bound, `AvlPacked` the 64-bit word. `Arith` holds numbers
that several modules use.

**Filesets** (`filebench/fileset.c`, grabs in `flowop_library.c`). `Fileset` is the
imperative model: entries with flags, seven AVL trees, idle counters and rotors.
Its methods refine the steps of the state machine in `FilesetSpec`, where the
properties over whole runs are proved. `Populate` is the recursive population and
`PopulateLayout` the shape of the directory tree it builds, `Paralloc` the parallel
preallocation protocol over all interleavings.

**Event generator and limiters** (`filebench/eventgen.c`, `flowop_library.c`) are in
`EventGen`, **the slot allocator** (`filebench/ipc.c`) in `Ipc`, **the byte FIFO**
(`fio/fifo.c`, `fifo.h`) in `Fifo`, and **the blktrace front end and load loop**
(`fio/blktrace.c`) in `Blktrace`.

## How the code is read

- A region under a lock is one step, and a condition wait is a guard on a step.
- Keys are the integers that `fileset_entry_compare` compares, the only comparison
  function the trees get. Writes to several fields of one node in a row are one
  cell update. An address is an integer; `NULL` is 0.
- Random draws, allocation outcomes, clock readings, counter samples and the
  results of `read` are parameters or free choices.
- The generator's count is `(rate * delta)` in 64 bits, divided, and cut to a signed
  32-bit `int`; `5 * rate` wraps at 32 bits; limiter buckets are signed 64-bit.
- The comment of `fileset_populate_subdir` makes a directory a leaf if its drawn depth
  is less than its level; the code also does so if they are equal. Each of its two
  loops counts to the width anew, so a directory that is not a leaf can get twice its
  width of subdirectories. Both are as the code does in `PopulateLayout`.
- A limiter treats `fo_tputlast == 0` as "first time", so its baseline is the first
  non-zero sample, not the first sample.

## Where the code does not do what is promised

- `ipc_malloc`'s comment promises NULL only if all objects are allocated. The scan
  never hands out the last allocated slot, so a pool can return NULL with that slot
  free: `NullWithAFreeSlot` is such a run, `NullAsPromisedIff` the exact condition.
- Closing a file whose open count is not one leaves the idle-file counter one too
  high: `OddClose` is such a run, and `IdleCounters` states the counter is right if
  and only if no close was of that kind.
- `fileset_populate_subdir` counts a directory before it allocates the path, and
  when that fails the directory is not entered, so the idle-directory counter is one
  too high: `DirectoryFails` is such a run, and by `IdleCounters` the counter is
  right if and only if no directory failed in this way.
- The generator's count is exact if and only if fewer than 2^31 events are due
  (`CountExact`, with an input in `NegativeCount`). A negative count that the queue
  does not absorb wraps the unsigned queue past what is due (`PostWithinIff`), and
  then the rate bound fails: `RateBoundIff`.
- The "max of 5 second depth" of the queue does not hold: `DepthOvershot` is an
  input, `DepthIff` the exact condition, and `QueueDepth` bounds the overshoot.
- A trace record whose payload is larger than the 8192-byte FIFO cannot be loaded:
  `LargePayload` is one. When every read returns all it can, a well-formed trace
  loads exactly if and only if no payload is larger (`RoundTrip`).
- A get refills the FIFO once only. When a read comes up short the load can end
  early, and for a header that comes up short it ends without an error: `ShortRead`
  is such a load. For any reads `LoadFate` says which records are loaded,
  `CompleteIff` when all are, and `SilentIff` when some are missing without an error.

## Properties of a function in isolation

- `fileset_createset` resets the shared thread count, so a thread that is still at
  work on entry makes its result wrong in some interleaving: `TrustedIffNoneLeft`
  is exact about this, and `LeavesThreads` shows that a failed call can leave a
  thread behind. The program's only caller, `filebench/parser_gram.y:3374-3376`,
  calls `filebench_shutdown` after a failed call, and that ends the process unless
  `shm_f_abort` is already `FILEBENCH_ABORT_FINI` (`filebench/misc.c:355-376`), as
  it is once an earlier workload has been shut down (`filebench/procflow.c:709`).
  A second call on that path finds filesets that are already populated, which is not
  the start that the model describes, unless the script has deleted them with the
  shutdown-filesets command (`filebench/parser_gram.y:3390-3394`) and defined new
  ones. So this is a property of the function, with no run of the program shown.
- Masking with `size - 1` is the remainder for every counter value if and only if
  the FIFO size is a power of two (`MaskWorksIff`, with a failing counter in
  `MaskFails`). `fifo_alloc` does not check this; its only caller asks for 8192.
- The list-insert functions draw the idle count as the index of a new entry. The
  program inserts only while it populates, before any pick, and then the index is
  fresh. After a pick it need not be (`InsertAfterPick`); `InsertEntry` says exactly
  when the tree then refuses the entry.

## Model

| member | source | states |
|---|---|---|
| `Avl.AvlTree.Remove` | filebench/fb_avl.c:652-804 | removing any node, leaf or interior, keeps the tree well-formed (links, child indexes, balances in -1..1, node count, distinct nodes) and takes exactly that node out of the in-order sequence; a sorted tree stays sorted; the number of levels climbed is logarithmic in the number of nodes |
| `Avl.AvlTree.ClimbAfterRemove` | filebench/fb_avl.c:768-803 | the upward loop, started below a subtree that lost a level, ends with a balanced tree of unchanged order; every position it passed became exactly one level shorter and is found again below the next one; it stops at the top or at the first subtree that is as high as before, and nothing above that is touched |
| `AvlClimb.ClimbMore` | filebench/fb_avl.c:780-803 | a subtree that became one level shorter adds one level to the climb |
| `AvlClimb.ClimbCost` | filebench/fb_avl.h:47-53 | the levels climbed after a removal are logarithmic in the number of nodes |
| `Avl.AvlTree.Detach` | filebench/fb_avl.c:742-803 | a node with at most one child leaves; the rest is balanced and in the same order |
| `Avl.AvlTree.InnerNeighbour` | filebench/fb_avl.c:683-699 | the descent finds the in-order neighbour on the chosen side, and that node has no child towards the removed one |
| `Avl.AvlTree.SwapOut` | filebench/fb_avl.c:683-729 | the swap through the stack copy leaves a well-formed balanced tree in which the copy has at most one child, and dropping the copy drops exactly the removed node |
| `Avl.AvlTree.SwapCells` | filebench/fb_avl.c:705-728 | cell by cell, where every link goes after the swap, also when the two nodes are parent and child |
| `AvlSwapLinks.SwapHolds` | filebench/fb_avl.c:705-728 | the swapped cells represent the old tree with the two addresses renamed |
| `Avl.AvlTree.Insert` | filebench/fb_avl.c:472-560 | a node put into an empty slot appears in the in-order sequence at that slot's position, the tree is well-formed again, with at most one rotation on every path |
| `Avl.AvlTree.ClimbAfterInsert` | filebench/fb_avl.c:525-560 | the upward loop, started below a subtree that gained a level, ends balanced with the order kept and at most one rotation |
| `Avl.AvlTree.Rotation` | filebench/fb_avl.c:293-459 | both rotation cases give a balanced subtree with the same order, and the return value says whether it is one level shorter, which is so exactly if the heavy child was not level |
| `Avl.AvlTree.LiftChild` | filebench/fb_avl.c:336-376 | the links and balances after a single rotation, and the new root |
| `Avl.AvlTree.LiftGrandchild` | filebench/fb_avl.c:411-458 | the links and balances after a double rotation, and the new root |
| `AvlRotation.SingleBalance` | filebench/fb_avl.c:298-326 | a single rotation of a tree leaning by two is balanced, and how its height changed |
| `AvlRotation.DoubleBalance` | filebench/fb_avl.c:378-409 | a double rotation gives a balanced tree one level lower |
| `Avl.AvlTree.Add` | filebench/fb_avl.c:613-627 | refused with nothing changed exactly if the key is present; otherwise the node is at its sorted place |
| `Avl.AvlTree.InsertHere` | filebench/fb_avl.c:574-608 | the new node is directly before or after the given one in order |
| `Avl.AvlTree.SlotBeside` | filebench/fb_avl.c:591-603 | the descent ends at the empty slot next to the given node |
| `Avl.AvlTree.Find` | filebench/fb_avl.c:243-276 | finds the node with the key if there is one; otherwise the index is the empty slot that keeps the keys sorted; the number of comparisons is bounded through Fibonacci numbers and so logarithmic |
| `Avl.AvlTree.FoundHole` | filebench/fb_avl.c:252-275 | where a failed search ends is the sorted slot, and the key is nowhere in the tree |
| `Avl.AvlTree.Nearest` | filebench/fb_avl.c:212-231 | from a failed find's index: the greatest smaller or least greater node |
| `Avl.AvlTree.Walk` | filebench/fb_avl.c:122-163 | the exact predecessor or successor, NULL at the ends; the number of links followed is logarithmic |
| `Avl.AvlTree.First` | filebench/fb_avl.c:169-182 | the first node of the in-order sequence, NULL when empty, in at most as many steps as the tree is high |
| `Avl.AvlTree.Last` | filebench/fb_avl.c:188-201 | the last node of the in-order sequence, NULL when empty, in at most as many steps as the tree is high |
| `AvlShape.StepIsNeighbour` | filebench/fb_avl.c:137-162 | one infix step over the shape is the neighbour in the in-order sequence |
| `AvlCost.HeightBound` | filebench/fb_avl.h:47-49 | a balanced tree of height h has at least Fib(h+2)-1 nodes |
| `AvlCost.SearchCost` | filebench/fb_avl.h:47-49 | comparisons along one path are logarithmic in the number of nodes |
| `Avl.AvlTree.DestroyNodes` | filebench/fb_avl.c:957-1064 | each call hands out the head of what is still to come and the cookie stands for the rest; at the end NULL, with root NULL and count 0 |
| `Avl.AvlTree.StepOn` | filebench/fb_avl.c:1002-1034 | a call with a parent to return to unlinks the last node and finds the next one |
| `Avl.AvlTree.CheckRightSide` | filebench/fb_avl.c:1035-1061 | below a node without a left child the right child, if any, is a leaf and comes first: this uses the balance |
| `Avl.AvlTree.DestroyAll` | filebench/fb_avl.c:945-950 | the documented loop, freeing each node as it comes, hands out the post-order sequence and never touches a freed node; all calls together follow at most three links per node |
| `AvlTeardown.PostOrderOnce` | filebench/fb_avl.c:938-956 | the post-order sequence contains every node exactly once |
| `AvlTeardown.ChildrenFirst` | filebench/fb_avl.c:938-956 | every node comes after both of its children |
| `AvlPacked.RunRefines` | filebench/fb_avl.h:93-134 | after any sequence of parent, child-index and balance stores the getters of the packed word return what the three-field struct holds |
| `AvlPacked.WordLayout` | filebench/fb_avl.h:93-134 | the word is the parent's high bits, bit 2 for the child index and the lowest two bits for the balance plus one |
| `AvlPacked.FreshNode` | filebench/fb_avl.c:503-505 | a new node's three stores overwrite whatever the word held before |
| `AvlPacked.IndexRoundTrip` | filebench/fb_avl.h:147-152 | the index cookie gives back node and direction |
| `Filesets.Fileset.MoveEntry` | filebench/fileset.c:249-255 | the source tree holds the entry, the destination never refuses it, and afterwards it is in the destination only |
| `Filesets.Fileset.UpdateExist` | filebench/fileset.c:848-935 | whatever the flags were, the entry ends in the one tree its new flags name |
| `Filesets.Fileset.Unbusy` | filebench/fileset.c:831-980 | keeps every entry in exactly the tree its flags name, and takes the state machine's step on flags, open count and idle counters; what that step does to the flags over whole runs is `FlagsTellHistory` |
| `Filesets.Fileset.InsertEntry` | filebench/fileset.c:1263-1314 | a new entry goes to its free tree (or the directory tree) with the idle count as index; the tree refuses it exactly if it holds an entry with that index, and then nothing but the count changes; with a fresh index it is the step of the state machine |
| `Filesets.FindEntry` | filebench/fileset.c:611-631 | the least index that is at least the request, wrapping to the least of all |
| `Filesets.ScanIdle` | filebench/fileset.c:783-798 | the circular scan ends; NULL exactly if every entry of the tree is busy, otherwise the first idle entry at or after the start |
| `Filesets.Fileset.Pick` | filebench/fileset.c:648-824 | by the flags of the entries alone: a unique pick returns an unused entry, any other pick of a file or leaf directory a used one that is on disk or, with noexist, is not; NULL exactly if all such entries are busy; the scan starts at the given index (or the draw, or the rotor) and takes the first idle entry; the rotor moves behind the start; the entry becomes busy and its counter drops |
| `Filesets.Fileset.TreeIsWanted` | filebench/fileset.c:671-735 | the tree a pick looks into holds exactly the entries whose flags the pick asks for |
| `Filesets.RotorsApart` | filebench/fileset.c:741-777 | two picks move the same rotor exactly if they are for the same kind and the same of exist and noexist, and for existing files in the same thread |
| `Filesets.Fileset.GrabForDelete` | filebench/flowop_library.c:1776-1788 | takes the state machine's step and keeps the fileset valid |
| `Filesets.Fileset.GrabForClose` | filebench/flowop_library.c:1931-1946 | takes the state machine's step, with the counter dropping only at open count one |
| `FilesetSpec.ExclusiveUse` | filebench/fileset.c:783-818 | over every run, between two takings of one entry by pick, delete or close there is a release of it |
| `FilesetSpec.FlagsTellHistory` | filebench/fileset.c:831-980 | over every run from the start an entry's open count is the sum of what its releases added, it is busy exactly if it was taken and not released since, it is marked as waited for exactly if someone waits since its latest release (and then it is busy), and it is unused until a release says whether it is on disk, and then it is what the latest release said |
| `FilesetSpec.RunIdle` | filebench/flowop_library.c:1939-1953 | over every run the idle counters are off by exactly the number of closes at an open count other than one (files) and of directories whose path allocation failed (directories) |
| `FilesetSpec.IdleCounters` | filebench/fileset.c:940-979 | in every reachable state the counters equal the idle entries of their type: for files if and only if no close was at an open count other than one, for directories if and only if none failed for want of a path, for leaf directories always |
| `FilesetSpec.DirectoryFails` | filebench/fileset.c:1484-1494 | a population run in which the second directory gets no path: two directories are counted and one is there |
| `FilesetSpec.OddClose` | filebench/flowop_library.c:1939-1953 | a run that opens one file twice and closes it once, after which the counter is two and one file is idle |
| `FilesetSpec.InsertAfterPick` | filebench/fileset.c:1360-1367 | after two inserts and a pick the idle count is an index in use |
| `Filesets.Fileset.PickRound` | filebench/fileset.c:741-818 | n rotation picks from a tree of at least n entries with nothing busy at first, and any releases in between, return n entries in cyclic index order from the rotor on |
| `Filesets.Fileset.PickInTurn` | filebench/fileset.c:741-818 | a rotation pick whose start is idle returns that entry and moves the rotor behind it |
| `Filesets.Fileset.ReleaseAll` | filebench/fileset.c:937-979 | releases change no index and make nothing busy, and idle counters that are right stay right |
| `FilesetSpec.NextInTurn` | filebench/fileset.c:741-777 | going round a tree, the next entry in turn is not among those before it |
| `FilesetSpec.RotationIsCyclic` | filebench/fileset.c:741-777 | any series of picks that each start where the rotor points, such as those of `PickRound`, runs through the tree in cyclic index order |
| `FilesetSpec.RotationIsFair` | filebench/fileset.c:741-777 | n picks from an n-entry tree return every entry exactly once |
| `FilesetSpec.IdleStart` | filebench/fileset.c:783-785 | the pick is the entry found at the start exactly if that entry is idle |
| `FilesetSpec.NextStart` | filebench/fileset.c:748-756 | the picked index plus one starts the next pick at the next entry, cyclically |
| `Populate.Populator.PopulateSubdir` | filebench/fileset.c:1463-1576 | ends for bounded depths and non-negative widths; never creates too many; the root call creates exactly the wanted files and leaf directories; every directory it finishes is filled as its drawn depth and width say |
| `Populate.Populator.FillLoop` | filebench/fileset.c:1542-1554 | either loop makes one entry a turn, of the kind the directory's level calls for; below the root it ends after as many turns as the width, or earlier with the wanted number reached; over the root it ends with the wanted number reached |
| `Populate.Populator.Fill` | filebench/fileset.c:1538-1575 | the two loops over a directory leave it finished, with something made wherever something was wanted |
| `PopulateLayout.GoingEntered` | filebench/fileset.c:1542-1573 | a new entry below a directory that may have it keeps all entries placed by drawn depth and all finished directories finished |
| `PopulateLayout.GoingClose` | filebench/fileset.c:1531-1575 | a directory whose loops ended at its width or at the wanted numbers is finished |
| `PopulateLayout.CeilTurns` | filebench/fileset.c:1542-1543 | a loop from 1 while i is below a real width plus one makes as many turns as the least number not below the width |
| `Populate.Populator.PopulateLeaf` | filebench/fileset.c:1345-1434 | exactly one more file or leaf directory, with the next index, on its list and with the given directory as its parent; error paths included |
| `Populate.Populator.PopulateAll` | filebench/fileset.c:1590-1700 | on success exactly the wanted numbers exist, indexes of files and of leaf directories are 0..n-1, and there is one root, the only entry without a parent, at which every chain of parents ends; no file or leaf directory hangs at the root, and below it they hang exactly below directories at or past their drawn depth, subdirectories below the others; such a leaf has as many files as its width, fewer only if no later directory has any, and the same for leaf directories; other directories have at most twice their width of subdirectories, and less than the width only if nothing was made later outside them |
| `Populate.Populator.PopulateDir` | filebench/fileset.c:1476-1500 | the directory is entered below the given one, with its turn's index and no entries yet; out of entries nothing changes; out of paths only the directory count goes up |
| `Populate.Populator.PopulateAndAllocate` | filebench/fileset.c:1083-1144 | population followed by preallocation without threads: on success the wanted number of files was picked, each once, none is free, the tree of free files is empty, and the tree of existing files holds exactly those not skipped |
| `Populate.Completed` | filebench/fileset.c:1360-1367 | counting and distinct bounded indexes give exactly 0..n-1, and all parent chains end at the one root |
| `Populate.ChainEnds` | filebench/fileset.c:1366-1366 | following parents from any entry reaches the root after its depth |
| `Paralloc.ThreadBound` | filebench/fileset.c:1104-1124 | over all interleavings at most 32 allocation threads are outstanding |
| `Paralloc.ErrorSticks` | filebench/fileset.c:430-446 | a reported error keeps the count negative for the rest of the call |
| `Filesets.Fileset.AllocateFiles` | filebench/fileset.c:1083-1144 | the sequential file loop picks free files only, each at most once, and on success exactly all of them, leaving the tree of free files empty; the i-th file picked is on disk exactly if it was not skipped and its allocation succeeded; it fails exactly at the first failed allocation; other entries are untouched |
| `Filesets.Fileset.PickFree` | filebench/fileset.c:1083-1084 | with no file busy, a pick of a free file finds one exactly if there is one |
| `Paralloc.PickGuards` | filebench/fileset.c:659-672 | on a fileset in its trees, all of the free-file tree is busy exactly if no file is open to the protocol, and the pick waits exactly if there are files and the idle counter is zero |
| `Paralloc.ReturnsOk` | filebench/fileset.c:1821-1835 | OK only if every thread has finished, none failed, every file was picked exactly once and none is left free or busy, and a file is on disk exactly if it was not skipped |
| `Paralloc.RunOutcome` | filebench/fileset.c:388-446 | over all interleavings a file that an allocation or a skip settled is used, and on disk exactly as that step said; any other file has the flags it started with |
| `Paralloc.ReturnsError` | filebench/fileset.c:1762-1836 | an error only if an allocation of this call failed, or the population, directory tree or leaf directories of one of its filesets |
| `Paralloc.NoDeadlock` | filebench/fileset.c:1104-1111 | until the call returns the main thread can step unless blocked, and when it is blocked a live thread can step |
| `Paralloc.CreateSetEnds` | filebench/fileset.c:1083-1144 | no run takes more than four steps per file, one per fileset and one more |
| `Paralloc.TrustedIffNoneLeft` | filebench/fileset.c:1767-1771 | in every interleaving the result agrees with whether an allocation or a set-up step of the call failed, if and only if no other thread is alive at the start |
| `Paralloc.LeavesThreads` | filebench/fileset.c:1825-1833 | a call can return an error while one of its threads is still at work |
| `EventGen.RateBound` | filebench/eventgen.c:114-131 | over every run whose wake-ups are safe, events taken by all consumers plus those queued are at most rate times elapsed nanoseconds over 10^9, the time elapsed from the start to the latest wake-up's second clock reading |
| `EventGen.RateBoundIff` | filebench/eventgen.c:114-131 | while fewer than 2^64 - 2^31 events are due in all, the bound holds in every state of a run if and only if every wake-up is safe |
| `EventGen.CallsAreExact` | filebench/flowop_library.c:872-909 | when an enabled call ends, iopslimit and opslimit have taken exactly the limiter's latest sample in the run minus its first non-zero one; bwlimit's bucket is what it paid for minus the bytes between those samples and lies in 0..1MB |
| `EventGen.Throughput` | filebench/flowop_library.c:1036-1075 | the latest sample of a limiter minus its first non-zero one, when a call ends, is within what rate times elapsed time pays for |
| `EventGen.RunSamples` | filebench/flowop_library.c:872-891 | over every run a limiter remembers the latest of its samples, and its baseline is the first non-zero one |
| `EventGen.EventsConserved` | filebench/eventgen.c:123-131 | over every run the events posted are those queued, those taken and those cleared by resets |
| `EventGen.FullQueue` | filebench/eventgen.c:125-127 | nothing is posted to a full queue, and otherwise the whole count |
| `EventGen.QueueDepth` | filebench/eventgen.c:125-127 | for every rate, over every run with safe wake-ups the queue stays below the depth limit plus one wake-up's events |
| `EventGen.DepthIff` | filebench/eventgen.c:125-127 | exactly when one wake-up leaves at most five seconds of events queued |
| `EventGen.DepthOvershot` | filebench/eventgen.c:125-127 | a wake-up that leaves 5009 events queued at a thousand a second |
| `EventGen.CountExact` | filebench/eventgen.c:115-117 | the computed count is the due count if and only if fewer than 2^31 events are due |
| `EventGen.CapExact` | filebench/eventgen.c:126-126 | the depth limit is five times the rate if and only if that fits in a signed 32-bit integer |
| `EventGen.PostWithinIff` | filebench/eventgen.c:115-127 | for every queue, a post adds at most what is due if and only if the queue is full, or it absorbs the count, or so much is due that even the wrapped queue is within it |
| `EventGen.NegativeCount` | filebench/eventgen.c:115-127 | a rate and a sleep for which the count is -2^31 and an empty queue becomes 2^64 - 2^31 |
| `EventGen.DebitExact` | filebench/flowop_library.c:878-880 | the 64-bit debit of a bucket is exact if and only if the resulting debt is at most 2^63 |
| `EventGen.Generator.WakeUp` | filebench/eventgen.c:114-131 | one turn of the generator: the queue grows by at most what is due if and only if the wake-up is safe |
| `EventGen.Bucket.Call` | filebench/flowop_library.c:872-891 | the sample is remembered; the first call only takes the baseline; a later one debits the difference and blocks exactly if it exceeds the bucket; the bucket stays what was paid for minus what was done since the baseline, and a call that need not wait ends with exact accounts |
| `EventGen.Bucket.Attempt` | filebench/flowop_library.c:892-904 | a blocked call takes all the events it needs and ends with exact accounts, or changes nothing |
| `EventGen.Bucket.Limit` | filebench/flowop_library.c:829-909 | a whole call, with wake-ups, other consumers and resets in between, is a run of the system: it ends with exact accounts, and from a fresh start with safe wake-ups the rate bound holds after it |
| `Ipc.NoSharing` | filebench/ipc.c:494-523 | over every run a new object is a slot of the pool and overlaps no object still held |
| `Ipc.FreeRecovers` | filebench/ipc.c:656-660 | over every run the slot number of any held object comes back from its address and is marked used |
| `Ipc.MallocFree` | filebench/ipc.c:522-661 | allocating and freeing leaves the bitmap and the held objects as they were |
| `Ipc.SearchNearest` | filebench/ipc.c:503-520 | the scan finds the nearest free slot ahead, and none if and only if every slot but the last allocated one is used |
| `Ipc.LastIsLatest` | filebench/ipc.c:503-523 | over every run the slot the scan starts from is that of the latest object handed out |
| `Ipc.NullIff` | filebench/ipc.c:516-520 | NULL if and only if every slot other than the last allocated one is held |
| `Ipc.NullAsPromisedIff` | filebench/ipc.c:485-493 | "NULL only if all objects are allocated" holds in a state if and only if the last allocated slot is held or another slot is free |
| `Ipc.NullWithAFreeSlot` | filebench/ipc.c:485-520 | a run after which NULL is returned although a slot is free |
| `Ipc.Pool.Scan` | filebench/ipc.c:506-514 | the do-while loop over the bitmap computes the specified search |
| `Ipc.Pool.Malloc` | filebench/ipc.c:494-523 | marks and returns the slot the search finds, and keeps the bitmap equal to what is held |
| `Ipc.Pool.Free` | filebench/ipc.c:594-662 | clears the bitmap cell of exactly the object freed |
| `Fifo.MaskWorksIff` | fio/fifo.c:56-57 | masking with size - 1 is the remainder for every counter if and only if the size is a power of two |
| `Fifo.MaskFails` | fio/fifo.c:56-57 | a size and a counter for which the mask is not the remainder |
| `Fifo.Advance` | fio/fifo.c:56-67 | a counter advanced modulo 2^32 has its masked offset advanced round the ring |
| `Fifo.Fifo.Put` | fio/fifo.c:49-70 | appends the longest prefix that fits, even when the counter wraps at 2^32 |
| `Fifo.Fifo.Get` | fio/fifo.c:72-97 | removes a prefix and hands it out or drops it; an emptied FIFO starts over with both counters 0 |
| `Fifo.Fifo.Len` | fio/fifo.h:37-40 | the unsigned difference of the counters is the length of the contents |
| `Fifo.Fifo.Room` | fio/fifo.h:42-45 | the unsigned expression is the free space |
| `Blktrace.TraceReader.Refill` | fio/blktrace.c:22-43 | all bytes read from the file are in the FIFO, none is lost; an error changes nothing |
| `Blktrace.TraceReader.TraceGet` | fio/blktrace.c:48-59 | what was delivered or discarded so far followed by the contents is what was read from the trace; the bytes handed out are the next ones of the file, as many as the FIFO holds after at most one refill |
| `Blktrace.TraceReader.DiscardPdu` | fio/blktrace.c:64-72 | with full reads a payload is discarded completely if and only if it fits in the FIFO and the file has it |
| `Blktrace.TraceReader.Load` | fio/blktrace.c:452-501 | for any reads the result is `LoadFrom`; its headers are a prefix of the trace's records, and with full reads it is the parse of the file |
| `Blktrace.SwappedFields` | fio/blktrace.c:357-370 | the fields of a header read with swapping are the plain fields of the header with each field's bytes reversed |
| `Blktrace.RoundTrip` | fio/blktrace.c:452-489 | when every read is full, a well-formed trace loads to exactly its headers if and only if no payload exceeds 8192 bytes |
| `Blktrace.FullLoad` | fio/blktrace.c:452-489 | when every read is full, the result is the parse of the file |
| `Blktrace.LoadFate` | fio/blktrace.c:452-489 | for any reads, loading a well-formed trace handles the records before the first get that does not find its bytes after one refill, and reports an error unless that get is for a header |
| `Blktrace.CompleteIff` | fio/blktrace.c:452-489 | a well-formed trace is loaded completely if and only if every get finds its bytes and no read fails |
| `Blktrace.SilentIff` | fio/blktrace.c:453-462 | records are missing without an error if and only if a header came up short |
| `Blktrace.ShortRead` | fio/blktrace.c:453-462 | a first read of fewer than 48 bytes ends the load of any well-formed trace without an error and without a record |
| `Blktrace.LargePayload` | fio/blktrace.c:477-484 | a well-formed trace with an 8193-byte payload that fails to load |

## Left out

- `fileset_pickreset`: right after population its source trees are empty, so it does nothing there; elsewhere it steps from an entry that it has already moved to another tree.
- Waking up threads that wait for idle files; waits are guards.
- The `AVD` and `RANDDIST` pools of the slot allocator, whose bitmap row or element size does not match the pool, and `ipc_free` of NULL, which only logs.
- `avl_update`, `avl_update_lt`, `avl_update_gt`, `avl_create`, `avl_destroy`, `avl_numnodes`, `avl_is_empty`: they would only add easy members.
- Offset arithmetic between nodes and their data, and alignment checks.
- A node's links are kept per tree; that an entry's one link field serves several trees is modelled only by its being in one tree at a time.
- Wrap-around of file indexes and rotors, which stay below the pool's 2^20 entries.
- The leaf-directory preallocation loop, which is the non-parallel file loop again, and a failed `pthread_create`, which ends the program.
- Filesets that are not preallocated and raw devices in `fileset_createset`; the files of all filesets of a call are there from its start, which no step can notice.
- `fileset_populate` before the recursion: means, gamma draws and the already-populated check.
- File sizes, paths and everything `fileset_alloc_file` does beyond success, failure and the release of the entry.
- `eventgen_reset` is one step, although the source writes the queue without its lock.
- Statistics behind the limiters' samples: samples are arbitrary and do not decrease.
- EventGen.RateBound: excludes unsafe wake-ups, for which it fails; `RateBoundIff` is exact about them.
- EventGen.QueueDepth: excludes unsafe wake-ups, after which the queue is almost 2^64.
- Fifo.Fifo.Put: sizes that are not a power of two are excluded, see `MaskWorksIff`.
- The replay structures that `handle_trace` builds from headers, queue-depth probing and skipped writes.
- The rest of fio and filebench, and the other directories of the repository: file and network I/O, parsing, distributions, statistics and user interface.
