# SmartFileSystem: a verified model of its core

SmartFileSystem is a journaling file system for AmigaDOS. This project models its six components with
the most state and branching and proves what each of them is for. The model follows the C code
branch by branch: same conditions, same constants, same order of steps.

| module | models | what it is about |
|---|---|---|
| `Words`, `Ranges` | | bytes, words and big-endian longwords; quotients and ranges of numbers |
| `Diff` | FS/support.c | the compressed block difference: greedy encoder, decoder, size bound |
| `Log` | FS/transactions.c | operation records, how they are packed into storage blocks and read back |
| `Journal` | FS/transactions.c | the disk under crashes; flush, recovery, and when both together are atomic |
| `Flush` | FS/transactions.c | the class `Volume`: the procedures that write the log, flush and recover |
| `RBShape`, `RBLinks`, `RBTree` | FS/redblacktree.c | the intrusive red-black tree with parent pointers and a shared sentinel |
| `Transactions` | FS/transactions.c | the operation store with its two nest levels on top of that tree |
| `TreeShape`, `BTree`, `BTreeWalk` | FS/btreenodes.c | the extent B+-tree: insertion, deletion, navigation |
| `CacheLines`, `Cache` | FS/cachedio.c | the write-back block cache with partly valid lines |
| `LongBits` | bitfuncs.c | bits, masks and runs of bits in longwords |
| `Space`, `Fragments`, `Collecting`, `Bitmap` | FS/bitmap.c | free-space search, counting, marking, and allocation in fragments |
| `FlushReady` | FS/transactions.c | from the steps of a transaction to its flush |
| `NodeShape`, `NextNode`, `ObjectNodes` | FS/nodes.c | the object-node radix tree and its full-bits |
| `ExtentShape`, `ExtentChains` | FS/filesystemmain.c | editing the chains of file extents and moving file data |

How things are represented:

- A block of a volume is a sequence of 32-bit longs in the journal, of data values elsewhere. A disk is a sequence
  of blocks. A write goes to a volatile list of pending writes; `flushiocache` is a barrier that
  settles them. A crash keeps any subset of the pending writes. Writes of log blocks and of the
  status block are atomic; a target block may end up with any mixture of old and new longs.
- Code that changes state is a class whose methods change its fields. Each method is proved against
  a function of the old state, and the invariants are predicates that every method keeps. Ghost fields
  hold the mathematical shape (a tree, the levels of the B-tree, the chain of every file).
- Containers of the B-tree and the node tree are values in a map from block numbers, because both
  files reach them through the buffer cache by number. Nodes of the red-black tree are heap objects
  with real links.

The main results:

- **Crash atomicity.** However often the power fails during a flush and the recoveries after it, in the end
  all targets are old or all are new, *if and only if* the job is safe: no long of a block
  behind the end of the log changes, or it is the only long that changes at all. The log ends at the first operation of
  length 0, which is how a deletion is stored (FS/transactions.c:344, 604), so without deletions
  every flush is atomic. `Journal.UnsafeIsNotAtomic` builds the fatal crash for every unsafe job, and
  `FlushReady.FreedBlockBreaksAtomicity` starts from a transaction: it gives up a block that has no operation
  yet (FS/adminspaces.c:181) and changes two longs of a block behind it.
- **Early crashes.** The log goes to blocks that are free by now (FS/transactions.c:242-287). A crash before the
  transaction is committed keeps every block that the disk itself has in use *if and only if* no block of the log is one that
  was freed since; `FlushReady.FreedBlockOverwritten` is a job for which it does not.
- **Two-level view.** Ending a transaction never changes what a block reads as, giving one up restores
  the store from before, and a flush makes the disk equal to the view. Both loops delete from
  the tree that they walk; they still visit every operation once and in block order.
- **Trees.** The red-black tree keeps order, balance and all links through relinking insertions and deletions. The
  B+-tree adds or removes exactly one entry and keeps order, separators, equal depth and
  fill; a deletion repairs just those containers that fall below half of their capacity, rounded up. A full-bit of the node tree is set exactly when no node number below it is unused.
- **Cache.** Any run of reads, writes and flushes is answered as by a disk without a cache, in every mode. A write
  of no blocks at the start of a line is the exception: it marks the whole line, read or not
  (FS/cachedio.c:938-958), and what is read stays right if and only if the blocks that were not valid hold what is on disk
  (`Cache.IOCache.Write`, with an example in `CacheLines.BlindHarms`). The line that makes room is the least recently
  used one.
- **Formats.** The bytes of a log record, of the code of a difference and of the blocks of the protocol are given one by one,
  as numbers (`Log.OperationLayout`, `Diff.CodeBytes`, `Journal.BlockLayout`).
- **Space.** A search returns the first sufficient run in search order or a longest one; this answer is unique. Marking and
  freeing keep the recorded number of free blocks right. Allocation in fragments marks disjoint free
  runs with exactly the number of blocks wanted, unless the list of fragments is full; the call ends under a condition on
  the bitmap that is proved to be exact.
- **Moving data.** Moving an extent leaves the contents of every file as they were. If no two extents could be joined before a
  whole extent moves, none can be afterwards (`ExtentChains.MovedJoins`).

Where code and comments disagree the code was followed:

- The loop that leaves out small fragments only ever looks for sizes up to 0xFFFF (FS/bitmap.c:656-680). So
  smartfindandmarkspace ends if and only if those fragments it collects that are larger than 0xFFFF blocks have fewer than 0xFFFF
  blocks more than are needed (`Bitmap.SmartEnds`). The list collected is a function of the bitmap, the start and
  the number of blocks (`Collecting.Collects`). The call always ends for up to 0x10000 blocks if a bitmap block has at most
  0xFFFF bits. `Collecting.TwoRunsNeverEnd` is a partition with blocks of 512 bytes on which a larger request never
  ends, `Collecting.OneBlockNeverFound` one with blocks of 16384 bytes on which the search for a single block never ends.
- `availablespace` and `allocatedspace` are documented to return -1 if nothing is found
  (FS/bitmap.c:268-272); they return 0.
- A split of a container with an odd capacity leaves a left half below the threshold for deletions
  (FS/btreenodes.c:257-267, 415); containers other than the root therefore hold at least half of
  their capacity rounded down, not up.

## Model

| member | source | states |
|---|---|---|
| `Diff.EncodeReplays` | FS/support.c:225-351 | an encoding rebuilds the new block from every block that agrees with it wherever the encoder took the original to be unchanged |
| `Diff.TornReplay` | FS/support.c:225-351 | a difference turns every half-written mixture of the original and the new block into the new block: round trip, repeated replay and torn targets |
| `Diff.FromZeroReplay` | FS/support.c:355-417 | a block compressed from zero is rebuilt over any contents at all, so the buffer of an OI_EMPTY operation need not be cleared |
| `Diff.DecodeExactly` | FS/support.c:225-351 | a difference gives the new block back if and only if the longs under its keep runs are intact |
| `Diff.EncodeBound` | FS/support.c:271-351 | n longs compress to at most 4n + ceil(n / 64) bytes, and to at least one unless n is 0 |
| `Diff.CompressBufferSuffices` | FS/transactions.c:157 | the compress buffer of bytes_block + bytes_block / 16 bytes always suffices |
| `Diff.Compress` | FS/support.c:271-351 | the in-place loops write exactly the greedy encoding of the change, of which the laws above are proved |
| `Diff.CompressFromZero` | FS/support.c:355-417 | the same for a block without an original |
| `Diff.Uncompress` | FS/support.c:225-266 | the in-place loop makes of the buffer what the decoding function says |
| `Diff.CodeBytes` | FS/support.c:225-266 | what each code byte does: 0 to 63 clears that many longs and one more, 64 to 127 keeps them, 128 to 191 sets all their bits, and the rest of the code goes on behind them |
| `Diff.LiteralBytes` | FS/support.c:256-265 | from 192 on the longs follow the code byte, each with its highest byte first |
| `Diff.GreedyToken` | FS/support.c:279-351 | of the kept, cleared and set runs the encoder takes the longest, the kept one if they are equally long, and none of them could go on |
| `Log.LogRoundTrip` | FS/transactions.c:182-219 | operations packed into blocks of any even capacity read back in order and unchanged, up to the first one of length 0 |
| `Log.LoggedIsPrefix` | FS/transactions.c:344 | what the log keeps is exactly the longest prefix whose operations all have data |
| `Log.LengthFieldWithinBlock` | FS/transactions.c:182-219 | the two bytes of a record's length never lie in different blocks |
| `Log.OperationLayout` | FS/transactions.h:12-17 | where the fields of every operation are in the log: two bytes of length and four of block number, each with the highest first, one byte of bits, the data, and the next operation at the next even place |
| `Log.ParseLayout` | FS/transactions.c:339-352 | the first operation read from a log is made of the bytes at these places, and reading goes on behind it |
| `Log.FillWithOperations` | FS/transactions.c:182-219 | one call fills a block with the next bytes of the stream of records and says what is left |
| `Log.LoadBlock` | FS/transactions.c:305-365 | reading one block parses all records that end in it and keeps the one that does not, wherever it is cut; what parsing gives is `Log.ParseLayout` |
| `Journal.CrashAtomicity` | FS/transactions.c:904-989 | flush and recoveries with any number of crashes leave all targets old or all new, if and only if the job is safe |
| `Journal.NoDeletesIsAtomic` | FS/transactions.c:904-989 | without an operation of length 0 that is so for every job |
| `Journal.UnsafeIsNotAtomic` | FS/transactions.c:344 | for every unsafe job there is a crash after which recovery leaves a mixture |
| `Journal.FlushCrash` | FS/transactions.c:904-989 | a crash at any point of a flush leaves the transaction not started, committed or carried out; which of them follows the barriers passed |
| `Journal.RecoveryCrash` | FS/transactions.c:370-419 | a crash at any point of a recovery leaves it committed still, or all operations in the log carried out |
| `Journal.LogReloaded` | FS/transactions.c:305-365 | the chain found from the status block is the log written, and its operations are those that were saved |
| `Journal.CrashKeepsOthers` | FS/transactions.c:904-989 | no crash changes a block outside of log, targets and status block, and in the end no transaction is marked unfinished |
| `Journal.CompletedFlushIsDurable` | FS/transactions.c:904-989 | after the last barrier all targets are new and recovery has nothing to do |
| `Journal.BlockLayout` | FS/transactions.h:43-66 | the ids TRST, TRFA and TROK as numbers and the places of own block, next block and first block; only TRFA counts as unfinished |
| `Flush.Volume.SaveTransaction` | FS/transactions.c:224-299 | the log goes to distinct free blocks, the first ones round the partition from the roving pointer on, linked in this order; failure leaves no free block unused and means that they are too few |
| `Flush.Volume.WriteOperations` | FS/transactions.c:787-850 | every target is rewritten with its operation applied, in order, and the store is empty |
| `Flush.Volume.RemoveTransactionFailure` | FS/transactions.c:854-891 | the status block says that all is well, between two barriers |
| `Flush.Volume.FlushTransaction` | FS/transactions.c:904-989 | writes exactly the batches between barriers for which crash atomicity is proved, the log to the first free blocks from the roving pointer on; on failure keeps all operations |
| `Flush.Volume.LoadTransaction` | FS/transactions.c:305-365 | loads exactly the operations of the log |
| `Flush.Volume.CheckForTransaction` | FS/transactions.c:370-419 | on any disk that crashes can leave, writes exactly the recovery batches for which crash atomicity is proved |
| `Flush.PlaceNext` | FS/transactions.c:242-287 | each further search from behind the last block found, without marking, gives a new free block and leaves none out |
| `RBShape.DepthIsLogarithmic` | FS/redblacktree.c:65-372 | the height is at most 2 log2(n + 1) |
| `RBShape.GoodPlug` | FS/redblacktree.c:104-161 | a tree is balanced just if a subtree and the path to it are, which is what lets the fixups work locally |
| `RBShape.LiftedSpot` | FS/redblacktree.c:104-161 | a red uncle: recolouring moves the only red-red edge two levels up |
| `RBShape.SiblingExists` | FS/redblacktree.c:310-372 | the sibling in a deletion fixup is never the sentinel, and a red one has two nodes below it |
| `RBShape.ShortFarRed` | FS/redblacktree.c:310-372 | a red far nephew: one rotation restores the balance |
| `RBTree.RedBlackTree.RotateLeft` | FS/redblacktree.c:163-198 | the exact new links around a left rotation |
| `RBTree.RedBlackTree.InsertFixup` | FS/redblacktree.c:104-161 | from a single red-red edge to a balanced tree with the same nodes in the same order |
| `RBTree.RedBlackTree.DeleteFixup` | FS/redblacktree.c:310-372 | from a subtree that is one black node short to a balanced tree with the same nodes in the same order |
| `RBTree.RedBlackTree.InsertNode` | FS/redblacktree.c:65-100 | the node is put behind all nodes with keys up to its own; everything else stays, links and balance included |
| `RBTree.RedBlackTree.DeleteNode` | FS/redblacktree.c:237-308 | exactly this node leaves the order by relinking; links, balance, and the black sentinel stay |
| `RBTree.RedBlackTree.FindNodeFrom` | FS/redblacktree.c:415-430 | finds a node with the key below which all others with that key lie, or there is none |
| `RBTree.RedBlackTree.FindNode` | FS/redblacktree.c:395-411 | finds a node with the key just if there is one |
| `RBTree.RedBlackTree.FirstNode` | FS/redblacktree.c:469-483 | the first node in order |
| `RBTree.RedBlackTree.NextNode` | FS/redblacktree.c:486-508 | the next node in order |
| `RBTree.MovedBalance` | FS/redblacktree.c:237-308 | when the successor takes the place of the node deleted, the balance is off by one black node just if the successor was black |
| `Transactions.CombineKeepsView` | FS/transactions.c:424-508 | ending a transaction leaves what every block reads as unchanged |
| `Transactions.DiscardRestores` | FS/transactions.c:678-750 | giving a transaction up after any steps restores the store from before |
| `Transactions.TransactionView` | FS/transactions.c:557-617 | after any steps and the end of the transaction a block reads as its last step says, or as before |
| `Transactions.DeletionsThatSurvive` | FS/transactions.c:424-508 | a deletion reaches the log just if its block had no operation at the outer level |
| `Transactions.StoreIsFlushable` | FS/transactions.c:904-989 | between transactions the store, read in order, lists its operations in block order, one a block; that they fit the disk is `FlushReady.StoreFitsVolume` |
| `FlushReady.TransactionFits` | FS/transactions.c:514-617 | if every step's operation was made against what is on disk, for a block in use, so was every operation left when the transaction has ended |
| `FlushReady.StoreFitsVolume` | FS/transactions.c:904-989 | such a store, read in order, is exactly what `Flush.Volume.FlushTransaction` requires |
| `FlushReady.DeletionReachesTheLog` | FS/transactions.c:589-617 | giving up a block without an outer operation and changing a block behind it leaves exactly a record of length 0 and one behind it |
| `FlushReady.FatalIsUnsafe` | FS/transactions.c:344 | the flush of those two is a possible job, and not a safe one |
| `FlushReady.EarlyCrash` | FS/transactions.c:242-287 | a crash before the commit keeps all blocks in use on disk if and only if the log writes nothing new to one of them |
| `FlushReady.EarlyCrashJust` | FS/transactions.c:242-287 | that is so if and only if no block of the log was freed since the bitmap on disk was written, when nothing in use looks like a log |
| `FlushReady.FreedBlockOverwritten` | FS/transactions.c:242-287 | a crash-atomic job whose log goes to a block that its transaction freed, and overwrites it too early |
| `FlushReady.FreedBlockBreaksAtomicity` | FS/transactions.c:904-989 | for that transaction there are crashes after which the targets are neither all old nor all new |
| `Transactions.FlushReachesView` | FS/transactions.c:787-850 | a flush makes every block on disk what it read as |
| `Transactions.WalkedAll` | FS/transactions.c:424-508 | the walk that deletes from the list it follows ends with the combined operations, one a block and all at the outer level |
| `Transactions.TransactionStore.GetLatestOperation` | FS/transactions.c:994-1030 | finds the operation at the innermost level among the duplicate keys |
| `Transactions.TransactionStore.RemoveCurrentOperation` | FS/transactions.c:120-140 | removes the operation for the block at the current level, if there is one, and no other |
| `Transactions.TransactionStore.AddOperation` | FS/transactions.c:557-585 | replaces the operation at the current level and keeps one operation a block and level, and the pool size |
| `Transactions.TransactionStore.AddFreeOperation` | FS/transactions.c:589-617 | the same for a deletion |
| `Transactions.TransactionStore.NewTransaction` | FS/transactions.c:631-641 | a transaction starts at the inner level with all operations as they were |
| `Transactions.TransactionStore.CombineOperations` | FS/transactions.c:424-508 | the loop over the tree that it changes gives exactly the combined store |
| `Transactions.TransactionStore.EndTransaction` | FS/transactions.c:645-674 | combines, and asks for a flush exactly when the operations left take more than 32768 bytes |
| `Transactions.TransactionStore.DeleteTransaction` | FS/transactions.c:678-750 | the loop over the tree that it changes drops exactly the inner level |
| `BTree.ExtentTree.CreateBNode` | FS/btreenodes.c:118-158 | one entry more, at its place; every other entry, order, separators, equal depth and fill stay; the search and split loop ends |
| `BTree.ExtentTree.SplitBTreeContainer` | FS/btreenodes.c:162-288 | the entries stay in order through recursive splits and the growth of the root; both halves have room |
| `BTree.ExtentTree.DeleteBNode` | FS/btreenodes.c:606-626 | exactly one entry less, and all the invariants again; every container that is not the root has at least (capacity + 1) / 2 nodes or is one that was not changed; nothing else changes if the leaf keeps so many |
| `BTree.ExtentTree.DeleteInternalNode` | FS/btreenodes.c:396-602 | a container that keeps (capacity + 1) / 2 nodes is left alone; one with fewer settles with the next below its parent, or the previous one if it is the last; a root with one child gives way to it; afterwards every container but the root has (capacity + 1) / 2 nodes or was not changed |
| `BTree.LeftoversFilled` | FS/btreenodes.c:415-552 | whatever leaf holds something of the one that lost a node is the root or has at least (capacity + 1) / 2 nodes |
| `BTree.ExtentTree.UseNext` | FS/btreenodes.c:445-496 | a container and the next one become one if one can hold their nodes, and share them evenly if not; the levels below stay |
| `BTree.ExtentTree.UsePrevious` | FS/btreenodes.c:497-552 | the same with the previous one |
| `BTree.ExtentTree.GetParent` | FS/btreenodes.c:73-114 | finds the container that names this one, or that it is the root |
| `BTree.ExtentTree.FindBNode` | FS/btreenodes.c:292-326 | descends to the leaf whose range has the key |
| `BTree.InsertBNode` | FS/btreenodes.c:357-392 | shifting the array puts the node at its place |
| `TreeShape.MergedWf` | FS/btreenodes.c:396-602 | merging two neighbours keeps order, separators and depth |
| `TreeShape.SplitFilled` | FS/btreenodes.c:162-288 | a split leaves every container at least half full, rounded down |
| `TreeShape.RefilledMerged` | FS/btreenodes.c:481-491 | a merged container has at least (capacity + 1) / 2 nodes although one of the two may lack one, so that only its parent is left to be repaired |
| `BTreeWalk.NextBNode` | FS/btreenodes.c:676-710 | the successor in the whole tree, or that there is none |
| `BTreeWalk.PreviousBNode` | FS/btreenodes.c:714-760 | the predecessor in the whole tree, or that there is none |
| `BTreeWalk.GetBNode` | FS/filesystemmain.c:5880-5899 | the node with the least key from the given block on, or that there is none, although the search below it may end at either neighbour |
| `Cache.Serve` | FS/cachedio.c:729-964 | any run of requests is answered as by a disk without a cache; after a flush, and always without copyback, the disk holds what that disk would |
| `Cache.IOCache.constructor` | FS/cachedio.c:257-335 | line size, number of lines and mode as the settings ask for; nothing is cached yet |
| `Cache.IOCache.Read` | FS/cachedio.c:776-828 | returns what a disk without a cache would hold; up to half a line goes through the lines and the last block stays in one, more goes past them and takes none |
| `Cache.IOCache.Write` | FS/cachedio.c:920-964 | afterwards these blocks read as the data and all others as before; up to a quarter of a line stays dirty in the lines in copyback mode, and anything else changes exactly these blocks of the disk; for no blocks nothing changes, but at the start of a line in copyback mode just if each block of it was valid or holds what is on disk |
| `Cache.IOCache.ReadBytes` | FS/cachedio.c:729-745 | the same for a few bytes of a block |
| `Cache.IOCache.WriteBytes` | FS/cachedio.c:749-772 | changes these bytes of the block and nothing else; in copyback mode the block is dirty then |
| `Cache.IOCache.ValidateIOCache` | FS/cachedio.c:446-503 | reads just if one of the blocks asked for is not valid, and then the whole line; no dirty block is lost, and less than half a line of dirty blocks is copied over what was read, more stays where it is |
| `Cache.IOCache.CopyBackIOCache` | FS/cachedio.c:507-557 | the line is clean afterwards, and so are those that follow one another behind it on the disk as long as they were dirty, and no others; nothing reads differently |
| `Cache.IOCache.FlushIOCache` | FS/cachedio.c:561-586 | all lines are clean and the disk holds everything |
| `Cache.IOCache.LruIOCache` | FS/cachedio.c:407-429 | the line given back is empty and was the least recently used one: every line in front of it in the list is locked; it and those have moved to the end |
| `Cache.IOCache.LocateIOCache` | FS/cachedio.c:394-403 | the line found moves to the end of the list, and the others keep their order |
| `Cache.IOCache.ReadIntoCache` | FS/cachedio.c:632-662 | the line for the block, which is the one there was or else the least recently used one with all its blocks read |
| `Cache.IOCache.ReadOnWriteIntoCache` | FS/cachedio.c:666-700 | the same, but nothing is read into a new line unless lines are always read before they are written |
| `Cache.IOCache.CopyBackOverlapping` | FS/cachedio.c:704-725 | no line for one of the blocks is dirty |
| `Cache.IOCache.WriteOverlapping` | FS/cachedio.c:832-901 | all lines for one of the blocks hold the new data, none of it dirty, and their other blocks stay |
| `Cache.IOCache.WriteThrough` | FS/cachedio.c:905-916 | lines and disk both hold the new data, of which nothing is dirty, and no other block of the disk changes |
| `CacheLines.MarkedBlindly` | FS/cachedio.c:938-958 | marking a whole line, as a write of no blocks at its start does, keeps what is read if and only if every block of it that was not valid holds what is on disk |
| `CacheLines.BlindHarms` | FS/cachedio.c:938-958 | a line for which it does not |
| `CacheLines.MarkedDirty` | FS/cachedio.c:938-958 | data may be dirty in a line and missing on disk without any block reading differently |
| `LongBits.MaskBits` | bitfuncs.c:94-118 | the mask ~((1 << (32 - bits)) - 1) >> offset has exactly the bits from offset up to offset + bits |
| `LongBits.BfFillBits` | bitfuncs.c:94-118 | setting or clearing through the mask changes exactly those bits of a longword |
| `LongBits.BfFirst` | bitfuncs.c:42-75 | the moving mask finds the first bit with the value sought |
| `LongBits.BmFill` | bitfuncs.c:195-287 | filling a longword at a time changes exactly the run of bits, over any number of longwords, and counts them |
| `LongBits.BmFirst` | bitfuncs.c:128-193 | skipping whole longwords finds the first bit with the value sought in the bitmap |
| `LongBits.SameBits` | bitfuncs.c:128-193 | a longword is given by its bits, so comparing it with 0 or with all ones tells whether to look into it |
| `Bitmap.SpaceMap.constructor` | FS/bitmap.c:346-474 | any whole bitmap blocks with clear bits behind the partition make up a map |
| `Space.FoundIsUnique` | FS/bitmap.c:346-474 | the answer that a search has to give is unique |
| `Bitmap.SpaceMap.FindSpace2` | FS/bitmap.c:346-474 | the first free run in search order of the size wanted, or a longest one if there is none, inside the area and never across the end of the partition |
| `Bitmap.SpaceMap.FindSpace` | FS/bitmap.c:500-531 | finds a run just if there is one |
| `Space.SearchBlock` | FS/bitmap.c:396-450 | the search through one bitmap block carries runs over from the block before it |
| `Space.FoundEnough` | FS/bitmap.c:420-437 | the first run that is long enough may end the search |
| `Bitmap.SpaceMap.AvailableSpace` | FS/bitmap.c:258-298 | the blocks counted are free; the count is that of the whole run, or up to the end of the bitmap block in which it is enough, which is less than one bitmap block more |
| `Bitmap.SpaceMap.AllocatedSpace` | FS/bitmap.c:302-342 | the same for used blocks |
| `Bitmap.SpaceMap.MarkSpace` | FS/bitmap.c:109-163 | marks exactly these blocks if all are free, and changes nothing otherwise; the recorded number of free blocks stays right |
| `Bitmap.SpaceMap.FreeSpace` | FS/bitmap.c:167-210 | frees exactly these blocks; the recorded number stays right if and only if all were used |
| `Bitmap.SpaceMap.CollectSpace` | FS/bitmap.c:587-648 | collects disjoint free runs in the order round the partition from the start: the first run that is enough, larger than needed by less than a bitmap block, or all free blocks unless the list is full; the list is `Collecting.Collects` |
| `Collecting.CountFacts` | FS/bitmap.c:258-342 | what a count means: it is right, ends at another bit unless it is enough, and exceeds what is wanted by less than the bits of a bitmap block |
| `Collecting.CollectionSizes` | FS/bitmap.c:587-648 | every fragment collected is smaller than needed, unless it is the only one |
| `Bitmap.SmartEnds` | FS/bitmap.c:557-710 | a call ends if and only if there is not enough space or the fragments collected that are larger than 0xFFFF have fewer than 0xFFFF blocks more than needed; always for up to 0x10000 blocks if a bitmap block has at most 0xFFFF bits |
| `Collecting.EndsJustIf` | FS/bitmap.c:656-680 | the same for a bitmap alone |
| `Collecting.ModestEnds` | FS/bitmap.c:557-710 | a request for up to 0x10000 blocks meets the condition if a bitmap block has at most 0xFFFF bits |
| `Collecting.ShortRunsEnd` | FS/bitmap.c:557-710 | any request meets it if no free run has more than 0xFFFF blocks |
| `Collecting.OneRunEnds` | FS/bitmap.c:589-598 | any request that one run is enough for meets it if a bitmap block has at most 0xFFFF bits |
| `Collecting.FirstRunEnds` | FS/bitmap.c:589-598 | if the run at the start is enough, the call ends just if the count of it is less than 0xFFFF more than needed |
| `Collecting.OneBlockNeverFound` | FS/bitmap.c:557-710 | a partition with bitmap blocks of 16384 bytes on which the search for a single block never ends |
| `Collecting.TwoRunsNeverEnd` | FS/bitmap.c:557-710 | a partition with bitmap blocks of 512 bytes and two free runs on which a search never ends |
| `Bitmap.SpaceMap.SmartFindAndMarkSpace` | FS/bitmap.c:557-710 | succeeds just if beside the blocks reserved and 3 more there are as many free ones as wanted, and any at all; leaves those free then; marks the number wanted in disjoint free runs, or all free blocks, unless the list is full, in the fragments collected without the smallest that could be spared; all but the last are taken whole |
| `Fragments.EliminationEnds` | FS/bitmap.c:656-680 | the elimination ends if and only if the fragments larger than 0xFFFF have fewer than 0xFFFF blocks more than are needed |
| `Fragments.NeverEnds` | FS/bitmap.c:656-680 | two fragments for which it does not end |
| `Fragments.TakeOut` | FS/bitmap.c:664-671 | leaving a fragment out never underflows and never leaves too few blocks |
| `Fragments.Eliminate` | FS/bitmap.c:656-680 | what is left is enough, no fragment of it could be spared, and none that was left out is larger |
| `Fragments.DisjointParts` | FS/bitmap.c:587-648 | fragments whose blocks add up have no block in common, two by two |
| `NodeShape.FullBits` | FS/nodes.c:65-128 | a full-bit is set if and only if every node number under that container is in use |
| `NodeShape.Reaches` | FS/nodes.c:464-496 | every container is reached from the root by each of its node numbers |
| `ObjectNodes.UsedBelow` | FS/nodes.c:132-171 | a container other than the root that is left has a node in use under it |
| `ObjectNodes.NodeTree.ParentNodeContainer` | FS/nodes.c:25-61 | the descent by number finds the one entry that refers to this container |
| `ObjectNodes.NodeTree.FindNode` | FS/nodes.c:464-496 | finds the place of the node with this number, or that it has none |
| `ObjectNodes.NodeTree.MarkParentFull` | FS/nodes.c:81-100 | puts the bit of a container that became full right, and those above as far as needed, and nothing else |
| `ObjectNodes.NodeTree.MarkParentEmpty` | FS/nodes.c:104-128 | the same for a container that is full no more |
| `ObjectNodes.NodeTree.FreeContainer` | FS/nodes.c:132-171 | frees the containers that hold no node in use any more, and no others; every node stays |
| `ObjectNodes.NodeTree.AddNewNodeLevel` | FS/nodes.c:175-228 | a full root gets a level above it without a change to any node, and has room then |
| `ObjectNodes.NodeTree.CreateNode` | FS/nodes.c:292-460 | uses exactly the number `NextNode.NextNumber`, which was unused, and changes no other node; the branch for a damaged full-bit is never reached, and the loop ends |
| `NextNode.NextIsFirst` | FS/nodes.c:306-400 | that number is the least of all unused ones that have a leaf already |
| `NextNode.NextAdded` | FS/nodes.c:401-439 | a new container under the first vacant entry begins with the number that was due, so going on below it gives the same |
| `NextNode.NextGrown` | FS/nodes.c:175-228 | and so does a new level above a full root |
| `ObjectNodes.NodeTree.DeleteNode` | FS/nodes.c:232-262 | clears exactly this node; full-bits stay exact and no empty container is left |
| `ExtentChains.FileStore.MoveExtent` | FS/filesystemmain.c:5765-5822 | every file reads as before, chains and links stay consistent, and the used blocks change by exactly source and destination; which extents there are then and how large, exactly; the extent in front takes the moved blocks if it ends there and has fewer than 65536 blocks with them; if no two extents could be joined before, none can be after moving a whole one |
| `ExtentChains.FileStore.Relocate` | FS/filesystemmain.c:5790-5807 | the extents, their sizes and their order are those of taking the blocks away and putting them in at their new place |
| `ExtentChains.MovedJoins` | FS/filesystemmain.c:5543-5597 | after a move no extent can be joined with its successor that could not be before, but one with the rest of a part that was moved, unless the successor of the moved one could be |
| `ExtentChains.FileStore.InsertExtent` | FS/filesystemmain.c:5543-5597 | the file gets these blocks at this place; a new extent is made just if the one before cannot grow, and the next one is joined just if it touches and they are small enough; the sizes and the order of all extents, exactly |
| `ExtentChains.FileStore.MergeExtent` | FS/filesystemmain.c:5499-5539 | joins with the next extent exactly when they touch and have fewer than 65536 blocks together; no file changes |
| `ExtentChains.FileStore.TruncateExtent` | FS/filesystemmain.c:5601-5673 | takes blocks off the end or the start of an extent, which then has another key; no other extent changes its size; refuses to take all of them |
| `ExtentChains.FileStore.DeleteExtent` | FS/filesystemmain.c:5707-5726 | takes exactly this extent out of the file and relinks its neighbours or the object |
| `ExtentChains.FileStore.Copy` | FS/filesystemmain.c:5677-5703 | copying a buffer at a time copies all blocks and changes no others |
| `ExtentChains.EditKeeps` | FS/filesystemmain.c:5445-5495 | relinking after any edit keeps next and previous inverse, extents disjoint and below 65536 blocks, and other files as they were |
| `ExtentChains.MoveContents` | FS/filesystemmain.c:5765-5822 | with data copied to free blocks and the blocks of one file renamed, all files read the same |

## Left out

- Device I/O, retries, requesters, timers and I/O errors: every transfer succeeds. So does every allocation of memory.
- Checksums: a stored block counts as well-formed, and its checksum long is stored as 0.
- The buffer cache (FS/cachebuffers.c), its LRU list and locks: operations and disks are modelled directly. FS/locks.c, directories, path names, packets and formatting are not part of this model.
- `allocadminspace` and `freeadminspace` (FS/adminspaces.c): an allocation gives some block that is not in use.
- Containers of the B-tree and the node tree are values in a map; that two buffers could be the same memory is not modelled. The array shifts inside a container work on sequences.
- The extents of `ExtentChains` are a map by key; that the B-tree keeps such a map is what `BTree` proves. `makefreespace`, `fillgap` and `step`, which choose the moves, are not modelled.
- The hash table of the cache is a scan over all lines. Its bitmaps are sets; BMFFO, BMFFZ, BMFLO, BMTSTO and BMCNTO are loops over them, with BMFLO including its start bit. The mode of a cache is fixed when it is made; `reuseiocache`, `invalidateiocaches` and `getbuffer` are left out.
- The bitmap of `Bitmap.SpaceMap` is a sequence of bits. `LongBits` proves that the functions of bitfuncs.c do to longwords what `FillBits` and `FirstBit` do to bits; in it, `|` and `&` of longwords are given by their bits. `findspace2_backwards` is left out.
- Fragments.EliminationEnds: additions of block counts do not wrap at 32 bits; subtractions do.
- Bitmap.SpaceMap.SmartFindAndMarkSpace: block 0 is in use, as on every partition, since a block number of 0 ends the list. What it requires of the bitmap is the exact condition under which it ends.
- Bitmap.SpaceMap.FindSpace2: a start behind the end of the partition is allowed only if it falls into the bitmap block the search is to begin with, because that block is computed before the start is brought back (FS/bitmap.c:351, 384).
- Journal.CrashAtomicity: log blocks are disjoint from the targets, those of deletions included. Deletions are recorded only for single blocks inside of admin space (FS/adminspaces.c:181), which stays used in the bitmap, where the log is looked for.
- Flush.Volume.LoadTransaction: `o->new` of a loaded operation is never used and not modelled; the checks of a chain's blocks always succeed on the disks that crashes can leave.
- ObjectNodes.NodeTree.CreateNode: stores the data of the new node, which in the original is done by the caller before anything else. Node numbers and the number of nodes under a container do not wrap at 32 bits. A number behind the last entry of the root is not looked up; the original reads behind its array then.
- BTree.ExtentTree.CreateBNode: keys are greater than 0 and not in the tree yet, as for extents.
- Cache.IOCache.Write: a write of no blocks is not modelled at block 0 or behind the partition, where the block in front of it has no line, nor, in copyback mode, at the start of a last line that is cut short. For no blocks inside a line `bmset` asks `bfset` for 0 bits, which is outside of what bitfuncs.c:97-98 allows: it is taken to set none, as it does where a shift by 32 gives 0. `Cache.Serve` has no requests for no blocks.
- RBTree.RedBlackTree.DeleteNode: the sentinel's parent may change, as in the original.
- Other difference schemes of FS/support.c that are not compiled in, and code under `#if 0`.
