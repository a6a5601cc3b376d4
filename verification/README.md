# Verified core of kvbench

kvbench is the benchmark program of the Samsung key-value SSD software stack. This
project models the parts of it on which the correctness of a run depends and proves
what they promise:

- the intrusive AVL tree of `avltree.cc` and its client, the leak tracker of `memleak.cc`
  (`AvlShape.dfy`, `AvlHeap.dfy`, `AvlTree.dfy`, `TaggedPointer.dfy`, `AvlPacked.dfy`,
  `MemLeak.dfy`);
- slicing-by-8 CRC-32 of `crc32.cc` against section 8 of RFC 1952 (`Crc32.dfy`);
- the fixed-block pool of `memory.cc`, whose free list lives inside the free blocks
  (`MemoryPool.dfy`);
- asynchronous population, in which the threads of `pop_thread` share one `Db` and its
  completion queue (`Completions.dfy`, `AsyncIo.dfy`, `IoLedger.dfy`, `AsyncRuns.dfy`);
- the thread pool of `thpool.cc` (`JobQueue.dfy`, `ThreadPool.dfy`);
- which keys the mixed workers touch, and how documents and files are split among threads
  (`KeyOwnership.dfy`, `WorkSplit.dfy`);
- `MurmurHash64A` and the xorshift generator (`Mixing.dfy`, `Xorshift.dfy`), the hash-slot
  dictionary (`Dictionary.dfy`), the key file scanner (`KeyLoader.dfy`) and the zipfian
  tables (`Zipf.dfy`).

`Sums.dfy`, `Division.dfy` and `Bytes.dfy` hold what several modules use. `dafny verify
dfyconfig.toml` checks everything.

## How the model is built

**AVL tree.** `AvlShape` states what each operation does to a tree value (`Tree`, with a
one-hole context `Ctx` for the path to the root); `AvlHeap` and `AvlTrees` are the in-place
code, each method proved to leave exactly the shape the value function gives. A node of the
model keeps its parent and its balance factor in two fields. The program as built packs
both into one word: `_AVL_SEPARATE_PARENT_BF`, which would keep them apart, is defined
nowhere. The two are the same exactly while every stored factor fits two bits and every
stored parent is aligned (`TaggedPointer.PackedExactly`), and the factors that inserting and
removing store do fit (`AvlPacked.InsertFits`, `AvlPacked.RemoveFits`). `avl_insert` returns
the variable of its rebalancing loop, which for a fresh key need not be the new node.
`height_delta` of a rotation is measured from the child only, so it is the true change of
height exactly under the condition the source demands of its callers.

**Protocols.** `ThreadPool` and `AsyncIo` are state machines. A step is what one thread does
between two points where another can interfere: a section under a mutex is one step unless
the code takes another lock inside it. A signal wakes one sleeper, chosen freely; spurious
wakeups are steps of their own. The device is the environment: it calls back for submitted
operations in any order. A run is any sequence of enabled steps from the initial state.
In `AsyncIo` descriptors and contexts are cells that threads and callbacks share: the
blocks of an operation are written into its descriptors, copied into its context and read
back from there, in separate steps, and the cells start with any contents. `IoLedger` is
the same protocol with each operation carrying its own blocks. It is a proof device:
`AsyncIo.Refines` shows that reading the shared cells gives what the ledger carries. Each
thread also records the documents it has created; `AsyncRuns` says which ones, and that every
run can be completed.

**Known values.** A function that code and specification share is pinned by values it must
give on fixed inputs, stated on what the method returns, and by laws that hold for all inputs:
the CRC check value and residue, results of `MurmurHash64A`, a step and a seeding of the
generator, a hash of the dictionary.

**False as promised, with the exact condition.** The configuration checks do not bound the
operations of all threads by the shared pools (`RunsDryExactly`); asynchronous population with a
batch size above one stores only the first document of each batch (`AllStoredExactly`);
`thpool_wait` can strand a
waiter once two threads wait (`StrandingExactly`); a worker without keys can delete another
worker's key (`RunsStayOwnedExactly`, `DeletesAnothersKey`); `dictionary_get` tests the array
instead of the slot for NULL and so compares with a missing string for keys of hash zero
(`Dict.Get`, `LookupInNew`); index and address of the pool are inverse, and `Allocate`
leaves the blocks it has handed out alone, only while the last block starts within 32 bits
(`AddressesRoundTrip`, `AllocationsApartExactly`); `keyloader_get_key` returns a key exactly
while its length fits 32 bits (`Loader.GetKey`).

## Model

| member | source | states |
|---|---|---|
| `TaggedPointer.ParentRoundTrip` | application/kvbench/utils/avltree.cc:27-31 | a stored parent reads back exactly when it is aligned to four bytes, and storing it then keeps the balance factor |
| `TaggedPointer.BfRoundTrip` | application/kvbench/utils/avltree.cc:48-58 | a stored factor reads back exactly when it is -1, 0, 1 or 2, and storing it then keeps the parent |
| `TaggedPointer.PackedExactly` | application/kvbench/utils/avltree.cc:27-58 | through any run of `avl_set_parent` and `avl_set_bf` the packed word reads as two separate fields would, exactly when every parent stored is aligned and every factor stored is -1, 0, 1 or 2 |
| `TaggedPointer.FreshReads` | application/kvbench/utils/avltree.cc:444-445 | whatever an uninitialised node's word holds, the two stores of `avl_insert` make it read as the given parent and factor zero |
| `AvlShape.RotateLLExact` | application/kvbench/utils/avltree.cc:60-98 | from relative heights alone, for all subtrees, `_rotate_LL` computes the true factors of both nodes, and the true change of height exactly when the parent's factor is not positive |
| `AvlShape.RotateRRExact` | application/kvbench/utils/avltree.cc:100-139 | the mirror image for `_rotate_RR`, the height change being true exactly when the factor is not negative |
| `AvlShape.DoubleLR` | application/kvbench/utils/avltree.cc:141-157 | a left-right rotation of a pending subtree gives a true AVL tree one lower |
| `AvlShape.DoubleRL` | application/kvbench/utils/avltree.cc:159-176 | the mirror image for right-left |
| `AvlShape.BalanceIsAvl` | application/kvbench/utils/avltree.cc:179-213 | `_balance_tree` of any pending subtree is an AVL tree with true factors, whose height is the old one or one less, and says when |
| `AvlShape.BalanceKeepsOrder` | application/kvbench/utils/avltree.cc:179-213 | whatever the factors, `_balance_tree` keeps the in-order sequence |
| `AvlShape.BalanceKeepsNodes` | application/kvbench/utils/avltree.cc:179-213 | and the set of nodes, each once |
| `AvlShape.InsertStopsExactly` | application/kvbench/utils/avltree.cc:493-515 | the insertion loop hands 0 to the parent exactly when the rebalanced subtree is as high as before the insertion, else the true change |
| `AvlShape.RemoveStopsExactly` | application/kvbench/utils/avltree.cc:626-647 | the removal loop hands 0 to the parent exactly when the rebalanced subtree is as high as before the removal, else the true change |
| `AvlShape.FixInsertIsAvl` | application/kvbench/utils/avltree.cc:477-517 | stopping early is sound: the insertion loop leaves an AVL tree from any pending subtree in any context |
| `AvlShape.FixRemoveIsAvl` | application/kvbench/utils/avltree.cc:611-649 | stopping early is sound: the removal loop leaves an AVL tree |
| `AvlShape.InsertEndsAt` | application/kvbench/utils/avltree.cc:477-521 | the insertion loop leaves the tree above the subtree it rebalanced last as it was, and the node it returns is that subtree's new root below a parent, or at the top the node it handed to `_balance_tree` |
| `AvlShape.FixInsertKeepsOrder` | application/kvbench/utils/avltree.cc:477-517 | the insertion loop keeps the in-order sequence |
| `AvlShape.FixRemoveKeepsOrder` | application/kvbench/utils/avltree.cc:611-649 | the removal loop keeps the in-order sequence |
| `AvlShape.InsertAtIsAvl` | application/kvbench/utils/avltree.cc:444-517 | a leaf hung at any hole of an AVL tree and rebalanced gives an AVL tree with that leaf at that place of the sequence |
| `AvlShape.RemoveAtIsAvl` | application/kvbench/utils/avltree.cc:534-649 | removing any node, by splicing in the successor or lifting the left subtree, gives an AVL tree whose sequence lacks just that node |
| `AvlPacked.InsertFits` | application/kvbench/utils/avltree.cc:444-517 | every factor that inserting into an AVL tree hands to `avl_set_bf`, in all rounds of the loop, fits the two bits |
| `AvlPacked.RemoveFits` | application/kvbench/utils/avltree.cc:534-649 | every factor that removing from an AVL tree stores fits the two bits |
| `AvlPacked.InsertCovered` | application/kvbench/utils/avltree.cc:444-517 | no factor of the tree after an insertion is other than before except by one of those stores |
| `AvlPacked.RemoveCovered` | application/kvbench/utils/avltree.cc:534-649 | no factor of the tree after a removal is other than before except by one of those stores |
| `AvlShape.SeekSplits` | application/kvbench/utils/avltree.cc:349-362 | the descent splits the sorted sequence: before its end everything is below the key, after it everything above |
| `AvlShape.SeekSide` | application/kvbench/utils/avltree.cc:429-460 | the last comparison tells on which side of its parent the descent ended |
| `AvlShape.AvlSizeBound` | application/kvbench/utils/avltree.cc:321-336 | an AVL tree of height h has at least fib(h + 2) - 1 nodes |
| `AvlHeap.RotateLLInPlace` | application/kvbench/utils/avltree.cc:60-98 | the writes of `_rotate_LL` leave the nodes linked as the lifted shape, with the returned factor and height change |
| `AvlHeap.RotateRRInPlace` | application/kvbench/utils/avltree.cc:100-139 | the same for `_rotate_RR` |
| `AvlHeap.RotateLRInPlace` | application/kvbench/utils/avltree.cc:141-157 | the writes of `_rotate_LR` realise the double rotation |
| `AvlHeap.RotateRLInPlace` | application/kvbench/utils/avltree.cc:159-176 | the writes of `_rotate_RL` realise the double rotation |
| `AvlHeap.BalanceInPlace` | application/kvbench/utils/avltree.cc:179-213 | the writes of `_balance_tree` realise the balanced shape below the same parent |
| `AvlTrees.InsertStep` | application/kvbench/utils/avltree.cc:480-510 | one round of the insertion loop below a parent: memory holds the rebalanced subtree, and what is handed up is read off the links |
| `AvlTrees.RemoveStep` | application/kvbench/utils/avltree.cc:614-642 | one round of the removal loop below a parent |
| `AvlTrees.AvlTree.constructor` | application/kvbench/utils/avltree.cc:413-417 | a new tree is valid and empty |
| `AvlTrees.AvlTree.Descend` | application/kvbench/utils/avltree.cc:321-336 | the descent stops at the match or below the node it looked at last, after at most as many comparisons as the tree is high |
| `AvlTrees.AvlTree.RebalanceAfterInsert` | application/kvbench/utils/avltree.cc:476-517 | the loop leaves memory linked as the fixed-up tree value and ends at the node `InsertEndsAt` describes |
| `AvlTrees.AvlTree.RebalanceAfterRemove` | application/kvbench/utils/avltree.cc:611-649 | the loop leaves memory linked as the fixed-up tree value |
| `AvlTrees.AvlTree.Insert` | application/kvbench/utils/avltree.cc:419-522 | a fresh key leaves a valid AVL tree, sorted, whose node sequence is the old one with the new node inserted, and the node returned is the one the loop ended at; a key already there, be it the node's own, changes nothing and the node holding it is returned |
| `AvlTrees.AvlTree.UnlinkLast` | application/kvbench/utils/avltree.cc:585-609 | a node without right subtree is replaced by its left one |
| `AvlTrees.AvlTree.UnlinkChild` | application/kvbench/utils/avltree.cc:558-584 | a successor that is the right child takes the node's place, links and factor |
| `AvlTrees.AvlTree.UnlinkDeep` | application/kvbench/utils/avltree.cc:548-584 | a deeper successor is first taken out below its parent and then takes the node's place |
| `AvlTrees.AvlTree.Remove` | application/kvbench/utils/avltree.cc:524-652 | the tree stays a valid AVL tree and its node sequence is the old one without exactly that node; NULL changes nothing |
| `AvlTrees.AvlTree.GetFirst` | application/kvbench/utils/avltree.cc:215-225 | the first node of the sequence, NULL if there is none |
| `AvlTrees.AvlTree.GetLast` | application/kvbench/utils/avltree.cc:227-237 | the last node of the sequence, NULL if there is none |
| `AvlTrees.AvlTree.Next` | application/kvbench/utils/avltree.cc:239-275 | the in-order successor of any node, NULL after the last |
| `AvlTrees.AvlTree.Prev` | application/kvbench/utils/avltree.cc:277-313 | the in-order predecessor of any node, NULL before the first |
| `AvlTrees.AvlTree.Search` | application/kvbench/utils/avltree.cc:315-337 | a node of equal key, found exactly when there is one, with at most as many comparisons as the tree is high |
| `AvlTrees.AvlTree.SearchGreater` | application/kvbench/utils/avltree.cc:339-374 | the first node not below the key in the sorted sequence, NULL exactly when all are below |
| `AvlTrees.AvlTree.SearchSmaller` | application/kvbench/utils/avltree.cc:376-411 | the last node not above the key in the sorted sequence, NULL exactly when all are above |
| `MemLeak.ByAddressIsTotal` | application/kvbench/utils/memleak.cc:111-119 | comparing items by address is a total order |
| `MemLeak.Tracker.constructor` | application/kvbench/utils/memleak.cc:122-127 | tracking starts with nothing tracked |
| `MemLeak.Tracker.Add` | application/kvbench/utils/memleak.cc:200-221 | the item enters the address-ordered list at its place; an address already tracked keeps its old entry |
| `MemLeak.Tracker.Alloc` | application/kvbench/utils/memleak.cc:224-234 | an allocation is tracked exactly when it succeeded, tracking is on and the address is new |
| `MemLeak.Tracker.Free` | application/kvbench/utils/memleak.cc:348-390 | the address is tracked no more, and only its entry has gone |
| `MemLeak.Tracker.Realloc` | application/kvbench/utils/memleak.cc:319-345 | the entry moves to the new address with the new size and its old file and line; if another entry is there already that one stays and the moved one is lost; an untracked address, a failed call or tracking being off changes nothing |
| `MemLeak.Tracker.End` | application/kvbench/utils/memleak.cc:130-198 | the drain, which fetches the successor before removing, reports every tracked item exactly once in address order and empties the index |
| `Crc32.GeneratorStepIsBitStep` | application/kvbench/utils/crc32.cc:22-29 | the generator's multiplication form of a bit step is the conditional form of RFC 1952 |
| `Crc32.GeneratorFillsTables` | application/kvbench/utils/crc32.cc:22-43 | the generator's eight tables of 256 entries satisfy the recurrences the code relies on |
| `Crc32.GeneratedSlices` | application/kvbench/utils/crc32.cc:33-43 | entry i, for every byte i, of table k of any generated tables is i run through k + 1 byte steps |
| `Crc32.RfcChains` | application/kvbench/utils/crc32.cc:311-320 | the checksum of a + b from p is the checksum of b from the checksum of a from p |
| `Crc32.ResidueExactly` | application/kvbench/utils/crc32.cc:311-320 | for all data and seeds the checksum is 0x2144DF1C exactly when the last four bytes are the checksum, lowest byte first, of what comes before them |
| `Crc32.CheckValue` | application/kvbench/utils/crc32.cc:311-320 | the checksum of the nine digits from zero is 0xCBF43926 |
| `Crc32.Crc32Bytewise` | application/kvbench/utils/crc32.cc:311-320 | `crc32_1` is the bit-at-a-time checksum of section 8 of RFC 1952 for every input and seed: on four bytes or more it gives 0x2144DF1C exactly when the data ends with its own checksum, and it gives the check value 0xCBF43926 on the digits |
| `Crc32.BlockLEIsFold` | application/kvbench/utils/crc32.cc:340-351 | eight table lookups on two little-endian words consume eight bytes as eight byte steps would |
| `Crc32.BlockBEIsBlockLE` | application/kvbench/utils/crc32.cc:328-339 | the big-endian branch computes the same |
| `Crc32.Crc32Slicing8` | application/kvbench/utils/crc32.cc:322-361 | `crc32_8` is the same checksum as `crc32_1`, in both branches, for every input and seed, with the same residue law and check value |
| `Crc32.Crc32Last8` | application/kvbench/utils/crc32.cc:363-374 | `crc32_8_last8` is the checksum of the last eight bytes, or of all if fewer |
| `MemoryPool.AddressesRoundTrip` | application/kvbench/utils/memory.cc:126-134 | block index and address are inverse for all blocks exactly when the last block starts below 2^32 |
| `MemoryPool.AllocationsApartExactly` | application/kvbench/utils/memory.cc:136-162 | allocating block after block never stores a link in a block handed out before, exactly when the last block starts below 2^32; beyond, the first address that wraps around lies in the first block |
| `MemoryPool.HandedOut` | application/kvbench/utils/memory.cc:136-162 | in a pool of any size the n-th of a run of allocations returns the n-th 32-bit address and leaves its link there |
| `MemoryPool.Pool.constructor` | application/kvbench/utils/memory.cc:99-109 | every block is free, in order, and none is live |
| `MemoryPool.Pool.LinkNext` | application/kvbench/utils/memory.cc:139-144 | initialising one more block keeps the chain and every live block |
| `MemoryPool.Pool.Allocate` | application/kvbench/utils/memory.cc:136-162 | hands out the head of the free chain, never a live block; NULL exactly when all blocks are live; no live block is written; fields and memory change as in the allocator without size assumptions |
| `MemoryPool.Pool.DeAllocate` | application/kvbench/utils/memory.cc:164-182 | the block goes to the front of the chain; no live block is written; NULL is ignored |
| `MemoryPool.Pool.ClientWrite` | application/kvbench/utils/memory.cc:136-182 | clients overwriting their blocks leave the chain, explicit links followed by the never-initialised tail, intact |
| `Completions.HarvestConserves` | application/kvbench/wrappers/couch_kv.cc:338-355 | `getevents` removes only the caller's completions, all of them if fewer than asked for, and whatever is counted over queue and result is what it was over the queue |
| `Completions.HarvestBounded` | application/kvbench/wrappers/couch_kv.cc:342-352 | it never hands out more than asked for, and falls short only after looking at the whole queue |
| `Completions.Db.AddEvent` | application/kvbench/wrappers/couch_kv.cc:137-141 | the completion becomes the last of the ones its own thread will be handed, and no other thread's change |
| `Completions.Db.GetEvents` | application/kvbench/wrappers/couch_kv.cc:338-355 | the rotating loop, which reads the tid from each context, hands out the own completions of the part it looked at, in order, and leaves the rest followed by the foreign ones of that part |
| `AsyncIo.Refines` | application/kvbench/wrappers/couch_kv.cc:269-309 | what threads and callbacks read from the shared descriptors and contexts, written and copied in separate steps, is what the operation was created with: every step is a step of the ledger in which operations carry their blocks, or leaves the ledger alone |
| `AsyncIo.KeepsInv` | application/kvbench/bench/couch_bench.cc:749-803 | every step keeps the conservation of key blocks, value blocks, descriptors and contexts, no cell being held twice, and the queue-depth count |
| `AsyncIo.DepthAtLoopHead` | application/kvbench/bench/couch_bench.cc:754-796 | in every run, at each loop head, a thread has exactly `cur_qdepth` blocks of each pool out, at most `queue_depth` |
| `AsyncIo.AllocateSucceeds` | application/kvbench/bench/couch_bench.cc:4159-4175 | with pools no smaller than the queue depth no allocation fails in any run |
| `AsyncIo.BlocksGoHome` | application/kvbench/utils/memory.h:73-78 | in every run, the blocks a thread reads from a harvested context and is about to deallocate came from its own pools and are not in them already |
| `AsyncIo.DrainReturnsAll` | application/kvbench/bench/couch_bench.cc:791-803 | a finished thread has every block of both its pools back, each once; `PopulationEnds` shows that threads do finish |
| `AsyncIo.StepSafe` | application/kvbench/wrappers/couch_kv.cc:738-789 | in any state of any run with at most 36000 operations under way no step pops an empty pool or queue |
| `AsyncIo.NothingRunsDry` | application/kvbench/wrappers/couch_kv.cc:439-467 | when the operations the threads can have out at once, for each its queue depth or its documents if fewer, are at most 36000 in sum, no pool or shared queue is ever popped while empty |
| `AsyncIo.Overcommitted` | application/kvbench/wrappers/couch_kv.cc:746-752 | when they are more, some run pops an empty queue |
| `AsyncIo.RunsDryExactly` | application/kvbench/bench/couch_bench.cc:4159-4175 | so any accepted configuration is safe in every run exactly when that sum is at most 36000, which the source does not check |
| `IoLedger.RoomCounts` | application/kvbench/bench/couch_bench.cc:754-770 | the summand of a thread t: as many of the numbers t * batch, t * batch + threads * batch and so on, at most `queue_depth` of them, as are below `ndocs` |
| `AsyncIo.DryExactly` | application/kvbench/wrappers/couch_kv.cc:746-752 | a shared queue is empty exactly when 36000 operations under way hold its elements |
| `AsyncIo.ContextsConserved` | application/kvbench/wrappers/couch_kv.cc:269-309 | idle, in-callback, completed and harvested contexts always total 36000, each context in one place |
| `AsyncRuns.TakesItsDocuments` | application/kvbench/bench/couch_bench.cc:648-770 | in every run the documents thread t has created are the first of t * batch, t * batch + threads * batch and so on, each once, in order and below `ndocs`; a finished thread has created all of them |
| `AsyncRuns.StoredExactly` | application/kvbench/bench/couch_bench.cc:648-770 | once all threads have finished, document d was created as the i-th of thread t exactly when the batch size divides d and batch d / batch is the i-th of thread t when the threads take turns |
| `AsyncRuns.EveryDocumentOnce` | application/kvbench/bench/couch_bench.cc:648-770 | with batches of one every document below `ndocs` was created once, by exactly one thread |
| `AsyncRuns.AllStoredExactly` | application/kvbench/bench/couch_bench.cc:754-770 | every document is created exactly when the batch size is one or there is at most one document |
| `AsyncRuns.HarvestRound` | application/kvbench/bench/couch_bench.cc:773-803 | from a harvest to its settling, whatever the other threads and callbacks do meanwhile, `cur_qdepth` falls by the completions of the thread that were in the queue, at most by itself |
| `AsyncRuns.BusyRunsEnd` | application/kvbench/bench/couch_bench.cc:749-803 | a run without harvests that find nothing has at most `Rank` steps |
| `AsyncRuns.PopulationEnds` | application/kvbench/bench/couch_bench.cc:749-803 | from every state of every run of an accepted configuration within the pools there is such a run to the end: all threads finished, nothing in flight, no completion left |
| `JobQueue.Queue.constructor` | application/kvbench/utils/thpool.cc:405-419 | a new queue is empty |
| `JobQueue.Queue.Push` | application/kvbench/utils/thpool.cc:439-460 | the job goes to the end of the linked list |
| `JobQueue.Queue.Pull` | application/kvbench/utils/thpool.cc:470-496 | the oldest job comes out, and it posts exactly when jobs remain; an empty queue gives NULL |
| `ThreadPool.KeepsInv` | application/kvbench/utils/thpool.cc:354-383 | every step keeps the counters, the order of the queue, each job's whereabouts, the locks and the token |
| `ThreadPool.NoLostWakeup` | application/kvbench/utils/thpool.cc:439-496 | in every run, while jobs are queued the semaphore is up, or a post is about to happen, or a worker has the token; while it is up some worker is awake |
| `ThreadPool.EachJobOnce` | application/kvbench/utils/thpool.cc:359-374 | in every run jobs are pulled in push order, each held by one worker until it has run, and run at most once |
| `ThreadPool.WaitReturnsAfterJobs` | application/kvbench/utils/thpool.cc:201-207 | when `thpool_wait` returns, every job pushed before its last look at the queue, so every job pushed before the call, has run |
| `ThreadPool.RunsEnd` | application/kvbench/utils/thpool.cc:354-383 | without new pushes, calls and spurious wakeups a run has at most `Rank` steps |
| `ThreadPool.PoolComesToRest` | application/kvbench/utils/thpool.cc:354-383 | from every state there is such a run to a state at rest |
| `ThreadPool.PoolDrains` | application/kvbench/utils/thpool.cc:201-207 | at rest every job pushed has run, and a single waiter has returned |
| `ThreadPool.TwoWaitersStrand` | application/kvbench/utils/thpool.cc:376-380 | with two waiters a run leaves one asleep although nothing is queued and nobody works |
| `ThreadPool.StrandingExactly` | application/kvbench/utils/thpool.cc:376-380 | no run strands a waiter exactly when at most one thread waits, or there are no workers |
| `KeyOwnership.InitialCountExact` | application/kvbench/bench/couch_bench.cc:1523-1533 | the initial count is the size of the residue class below `ndocs` |
| `KeyOwnership.Worker.constructor` | application/kvbench/bench/couch_bench.cc:1517-1533 | the keys a worker counts are exactly the documents of its class |
| `KeyOwnership.Worker.Next` | application/kvbench/bench/couch_bench.cc:1668-1694 | the kind the mix asks for at this operation; with r the drawn number and n the count, a read or an update uses index r modulo n, an insert index n, a delete index n - 1, each with the count after it, and a read or delete without keys uses r itself |
| `KeyOwnership.MixExact` | application/kvbench/bench/couch_bench.cc:1671-1681 | any hundred operations in a row have exactly the shares of updates, inserts and reads asked for, the rest being deletes |
| `KeyOwnership.HundredsInOrder` | application/kvbench/bench/couch_bench.cc:1671-1681 | in each hundred the updates come first, then the inserts, the reads and the deletes |
| `KeyOwnership.UsesOwnKey` | application/kvbench/bench/couch_bench.cc:1799-1807 | an insert uses a key of its worker that is not stored; any other operation uses a stored key of its own worker exactly when its range is not empty; and which index of the worker's keys it is |
| `KeyOwnership.OwnedExactly` | application/kvbench/bench/couch_bench.cc:1899-1906 | an operation keeps the live keys the workers' own prefixes, unless it is a delete with an empty range that hits a stored key |
| `KeyOwnership.DeletesAnothersKey` | application/kvbench/bench/couch_bench.cc:1899-1906 | the smallest such case: one document, two workers |
| `KeyOwnership.RunsStayOwnedExactly` | application/kvbench/bench/couch_bench.cc:1684-1694 | from the populated store, after every operation of a run the live keys are the workers' own prefixes exactly when no worker with an empty range deletes a stored key; then each operation uses a key of its worker if there is one |
| `WorkSplit.PopulateSync` | application/kvbench/bench/couch_bench.cc:648-720 | the synchronous loop writes exactly the documents of its strided batches, each once, in order |
| `WorkSplit.DocumentsPartitioned` | application/kvbench/bench/couch_bench.cc:648-720 | every document belongs to exactly one thread |
| `WorkSplit.RangesContiguous` | application/kvbench/bench/couch_bench.cc:586-603 | file ranges follow each other from the first file to the last, sizes differing by one at most |
| `WorkSplit.FilesPartitioned` | application/kvbench/bench/couch_bench.cc:565-604 | every file is in the range of exactly one thread and nothing else is in any |
| `Mixing.MurmurHash64A` | application/kvbench/utils/keygen.cc:74-115 | the loop, the fall-through switch and the final mix compute the hash function the lemmas are about, with known results for the words 0 and 1 and for seven tail bytes with a seed |
| `Mixing.InjectiveInEachWord` | application/kvbench/utils/keygen.cc:84-96 | for every length, seed and tail the hash is injective in each 8-byte word with the others fixed |
| `Mixing.InjectiveInEachTailByte` | application/kvbench/utils/keygen.cc:98-108 | for every length, seed and words the hash is injective in each tail byte with the others fixed |
| `Mixing.InjectiveInSeed` | application/kvbench/utils/keygen.cc:74-115 | for every key the hash is injective in the seed |
| `Mixing.SeedsDistinct` | application/kvbench/utils/keygen.cc:123-123 | distinct document indices give distinct seeds |
| `Xorshift.NextIsBijection` | application/kvbench/utils/adv_random.h:51-58 | the generator step is a bijection on the 192-bit state |
| `Xorshift.DocumentsNeverMeet` | application/kvbench/utils/keygen.cc:123-126 | generators seeded from different documents are in different states after any number of steps |
| `Xorshift.Variables.constructor` | application/kvbench/utils/adv_random.h:43-48 | the macro's assignments leave the seed and its images under one and two shakes, the states `DocumentsNeverMeet` starts from, with known words for a given seed |
| `Xorshift.Variables.Step` | application/kvbench/utils/adv_random.h:51-58 | the macro's assignments are the step, with a known new word for a given state |
| `Xorshift.Variables.StepTwice` | application/kvbench/utils/adv_random.h:61-76 | the pair macro is two steps and keeps the first new word |
| `Dictionary.Dict.constructor` | application/kvbench/utils/iniparser.cc:277-291 | a new dictionary is empty and has at least 128 slots |
| `Dictionary.Dict.Get` | application/kvbench/utils/iniparser.cc:339-357 | the stored value or the default, except that it compares with a missing string exactly when the key hashes to zero and an empty slot comes before the key's own |
| `Dictionary.Dict.Set` | application/kvbench/utils/iniparser.cc:385-437 | the map is updated at the key, keys stay unique, `n` counts the occupied slots; a missing key changes nothing |
| `Dictionary.Dict.Grow` | application/kvbench/utils/iniparser.cc:412-422 | doubling keeps the map and leaves an empty slot |
| `Dictionary.Dict.Add` | application/kvbench/utils/iniparser.cc:424-436 | the first empty slot exists and takes the new key |
| `Dictionary.Dict.Unset` | application/kvbench/utils/iniparser.cc:450-481 | the key leaves the map, nothing else changes |
| `Dictionary.HashOf` | application/kvbench/utils/iniparser.cc:246-262 | the loop computes the hash; the empty key hashes to zero, a given key of two characters to a known number |
| `Dictionary.HashInjectiveInByte` | application/kvbench/utils/iniparser.cc:246-262 | with the other characters fixed the hash of a key is injective in each character, by mixing steps that lose neither the hash so far nor the character |
| `Dictionary.LookupInNew` | application/kvbench/utils/iniparser.cc:339-357 | in a new dictionary a lookup compares with a missing string exactly when `dictionary_hash` of the key is zero, as it is for the empty key, and gives the default otherwise |
| `KeyLoader.Loader.Init` | application/kvbench/utils/keyloader.cc:38-83 | the scan records exactly the maximal runs without CR and LF, in order, or the first `max_nkeys`, always within the grown array; an empty file gives -2 |
| `KeyLoader.Loader.GetKey` | application/kvbench/utils/keyloader.cc:101-114 | nothing beyond the last key; the i-th run exactly when its length fits 32 bits |
| `Zipf.Shuffled` | application/kvbench/utils/zipfian_random.cc:43-58 | after the shuffle the table is a permutation of the ranks, and entry k is k sent back through the drawn exchanges from the last to the first |
| `Zipf.DrawMap` | application/kvbench/utils/zipfian_random.cc:61-74 | over exact reals every draw is mapped to the last rank that begins at or before it |
| `Zipf.ZipfRnd.constructor` | application/kvbench/utils/zipfian_random.cc:29-75 | both tables are as stated for the drawn exchanges and probabilities, and the turn is zero |
| `Zipf.ZipfRnd.Get` | application/kvbench/utils/zipfian_random.cc:77-84 | the table entry of the turned rank, always below n |
| `Zipf.ZipfRnd.Shift` | application/kvbench/utils/zipfian_random.cc:86-90 | the turn advances modulo n and the tables stay |

## Left out

- AVL `prev`/`next` pointers of `_AVL_NEXT_POINTER` builds: the tree is modelled without them.
- The packed parent word inside the tree methods: they use two fields; that the word stands for them is proved apart, and that nodes are aligned to four bytes is taken from the allocator.
- The literal CRC tables: the generator given beside them defines the tables here.
- Pool memory of unit size below four bytes: a link does not fit a block, so `Pool` requires four.
- Asynchronous reads, deletes and iterators of `bench_thread`: a delete completes with a NULL value and iterators bypass `cur_qdepth`, so the conservation laws are stated for population.
- I/O errors and `exit` paths, latency sampling, NUMA and SPDK allocation, CPU affinity, progress output.
- `thpool_destroy`, pause and resume; thread start-up.
- PopulateSync: requires a positive batch size, with zero the source's loop does not end.
- Worker.Next: key indices are unbounded, 64-bit wrap-around of `max_key_index` is not modelled.
- MurmurHash64A: the key is given as whole words and tail bytes, byte order of the machine is not modelled.
- Key text of `keygen_seed2key` beyond its seed, and `get_random`: floating point.
- Zipf tables: `pow` and rounding of doubles are not modelled, the probabilities are given as exact positive reals adding up to one; ranks are not truncated to 32 bits.
- `keyloader_init` average key length; opening and mapping the file.
- `memleak` options for backtraces and checks after free, aligned and zeroed variants of the allocation wrappers.
- RocksDB, LevelDB, ForestDB, WiredTiger, BlobFS and Aerospike wrappers, configuration parsing, and the SNIA API, whose code is not part of this model.
