# Verified model of the Reaper-OS core

This project models the self-contained algorithms of the Reaper-OS microkernel and of the
Limine install tool it ships with, and proves what they promise over every input, every run
and every interleaving.

What is modelled, and the main results:

- **BLAKE3 hasher** (`kernel/blake3`). The compression function is a parameter. However a message
  under 2^64 bytes is cut into updates, output at any offset and length is that slice of
  the root output of the recursive tree of sections 2.1 and 2.4 to 2.6 of the BLAKE3
  specification, and the chaining-value stack never outgrows its 55 entries (`Blake3Hasher.HashInPieces`).
- **Buddy allocator** (`kernel/pmm.c`). The free blocks always are the one maximal aligned tiling of the
  clear bitmap bits; an allocation fails exactly when no zone tried has an aligned free run; freeing
  what was allocated restores the same set of free blocks (`Buddy.Pmm`, `BuddyBlocks.TilingUnique`).
- **Page tables** (`kernel/vmm.c`). Four levels of entries refine a flat map from page to entry; contracts
  are all-or-nothing on translations, for every allocation failure, and a MAP succeeds exactly if its pages are unmapped
  and lack no more tables than the allocator has frames for (`PageTables.AddressSpace.Apply`).
- **Capability lineage** (`kernel/capability.c`). Identities stay allocated exactly while a slot holds them
  or a descendant; after a revocation no sequence of operations makes a lookup find what was revoked; authority
  only shrinks along a lineage (`Capabilities.Caps`, `Lineage`).
- **IPC endpoint** (`kernel/syscall.c`). A ring and two wait queues are one first-in first-out queue.
- **Undo log** (`limine/host/limine.c`). Whatever was written, and whatever of it was still in the cache when
  it was lost, undoing restores every byte of the device, in the same session or from the stored log file; and what
  writing back any log at all leaves on the disk is a function of log and disk (`BlockDevice.Device.Uninstall`).
- **Scheduler** (`kernel/scheduler.c`). A bound, reached after any number of periods, on the ticks a process consumes
  under every interleaving of compare-and-swap steps; revocation removes exactly a process's threads from every
  ready queue.
- **Lock primitives** (`kernel/include/utils.h`). Reader-writer lock, sequence lock and read-copy-update as state
  machines over atomic steps of any number of threads; where a counter can wrap, the exact border of what is safe.
- **Slab allocator** (`kernel/slab.c`). Bitmaps, counts and lists agree; live objects never overlap.
- **Mode machine and Fate log** (`kernel/mode.c`). The ring refines an append-only hash-chained log whose replay is
  the current mode, and no run gets from LOCKDOWN or GHOST to CASUAL except through SECURE.

How it is modelled. Code that updates state in place is a class with methods and loops; each method
states its new state against a ghost abstraction, and the laws of that abstraction are lemmas. Pointers are
numbers into maps or sequences, so that links and aliasing are explicit. Lock-protected
operations are single methods; lock-free ones are steps of a state machine, and a run is any sequence
of steps by any threads. Allocation of pages and memory is a parameter that may fail.

Where a promise is false of the code, the model keeps the code, shows an input on which it fails, and states
exactly when it holds:

- `Rcu.GraceExact`: every run keeps the grace period if and only if there are at most 2^32 threads, since the reader
  counter wraps.
- `SeqLock.TornExact`: a reader can keep a copy that is not the snapshot it began on exactly if a positive multiple
  of 2^31 writes were published meanwhile; `SeqLock.KeepsNeverPublished` gives a run whose copy was never published.
- `PageTables.MapReadsBack`: a mapped frame reads back exactly below 2^52; `PageTables.FrameLost` is a contract that is
  accepted and loses its frame.
- `UndoFile.Store`: a log can be stored exactly if no entry is empty; `UndoFile.EmptyWriteCannotBeStored` writes
  such an entry.
- `Budget.RefillFills`: a refill fills the budget exactly if its value plus the 64-bit product reaches the maximum;
  `Budget.RefillFallsShort` is a run in which two periods bring two ticks to a budget of 2^63 + 1.
- `UninstallEffect.OutcomeExact`: writing a log back leaves what its entries say, cut at the last whole block, on every
  image of the size exactly if every byte that an entry smudges is written by that entry or a later one; on every device
  that is not a whole number of blocks, the file of `UndoFile.UninstallCanSmudge` loads and leaves something else.

## Model

| member | source | states |
|---|---|---|
| Bits.PopCount | kernel/blake3/blake3_impl.h:51-58 | clearing the lowest one until none is left counts the ones of every number |
| Bits.RoundDownToPowerOf2 | kernel/blake3/blake3_impl.h:60-68 | smearing the top bit down yields the largest power of two not above the argument |
| Blake3Spec.CvAfterPrefix | kernel/blake3/blake3.c:108-134 | the chaining value after k blocks depends on those blocks only, not on what follows |
| Blake3Spec.LeftLenUnique | kernel/blake3/blake3.c:148-151 | the left subtree is the one power-of-two number of chunks that is less than the input and at least half of it |
| Blake3Spec.TreeJoin | kernel/blake3/blake3.c:218-253 | a full left subtree and a no longer right one join into the tree of their concatenation |
| Blake3Chunk.ChunkState.constructor | kernel/blake3/blake3.c:6-14 | a new chunk state has absorbed nothing |
| Blake3Chunk.ChunkState.Reset | kernel/blake3/blake3.c:16-23 | a reset state has absorbed nothing at the new counter |
| Blake3Chunk.ChunkState.Length | kernel/blake3/blake3.c:25-28 | the length is that of all bytes absorbed |
| Blake3Chunk.ChunkState.FillBuf | kernel/blake3/blake3.c:30-40 | the buffer takes as much input as fits, behind what it holds |
| Blake3Chunk.ChunkState.Update | kernel/blake3/blake3.c:108-134 | after any split of the input into updates the state holds exactly the concatenation, with the last block kept back |
| Blake3Chunk.ChunkState.Final | kernel/blake3/blake3.c:136-141 | the output is that of the chunk of all bytes absorbed |
| Blake3Chunk.HashOne | kernel/blake3/blake3_portable.c:76-92 | the one-shot loop equals the chained block outputs with start and end flags |
| Blake3Chunk.HashWholeChunk | kernel/blake3/blake3_portable.c:76-92 | on a whole chunk the one-shot path equals the chunk-state path |
| Blake3Chunk.HashParent | kernel/blake3/blake3_portable.c:76-92 | on two chaining values it is the parent node |
| Blake3Stack.StandsParent | kernel/blake3/blake3.c:304-313 | replacing the top two equal subtrees by their parent keeps the stack a forest over the same data |
| Blake3Stack.MergeGuard | kernel/blake3/blake3.c:304-313 | the population count of the chunk total tells exactly whether the top two subtrees must still merge |
| Blake3Stack.StrictBound | kernel/blake3/blake3.h:31 | a merged stack over fewer than 2^n chunks has at most n entries |
| Blake3Stack.PushShape | kernel/blake3/blake3.c:315-321 | pushing an aligned subtree keeps the stack merged but for a possible equal pair on top |
| Blake3Stack.FoldStep | kernel/blake3/blake3.c:412-418 | a round of finalization joins the top subtree with everything after it |
| Blake3Stack.FoldStart | kernel/blake3/blake3.c:405-411 | with no chunk begun, finalization starts from the unmerged pair on top |
| Blake3Subtree.CompressChunksParallel | kernel/blake3/blake3.c:153-185 | whole and partial chunks become the chaining values of their trees |
| Blake3Subtree.CompressParentsParallel | kernel/blake3/blake3.c:187-216 | neighbours become parents, an odd last one is carried over |
| Blake3Subtree.LeftSubtreeLen | kernel/blake3/blake3.c:148-151 | it is the left length of the tree rule |
| Blake3Subtree.CompressSubtreeWide | kernel/blake3/blake3.c:218-253 | the wide recursion yields the chaining values of the two children of the subtree, or of a single chunk |
| Blake3Subtree.CompressSubtreeToParentNode | kernel/blake3/blake3.c:255-270 | for a subtree of 2^(e+1) chunks it yields the chaining values of its two halves |
| Blake3Hasher.XofMany | kernel/blake3/blake3_dispatch.c:17-24 | consecutive output blocks are a slice of the root bytes |
| Blake3Hasher.OutputRootBytes | kernel/blake3/blake3.c:79-106 | output at any seek and length, across partial first and last blocks, is that slice of the root bytes |
| Blake3Hasher.ChooseSubtree | kernel/blake3/blake3.c:350-356 | the chosen subtree is the largest power of two of chunks that fits the input and starts aligned to its size |
| Blake3Hasher.Hasher.constructor | kernel/blake3/blake3.c:272-277 | a new hasher has absorbed nothing |
| Blake3Hasher.Hasher.MergeCvStack | kernel/blake3/blake3.c:304-313 | merging ends with strictly falling subtree sizes over the same data |
| Blake3Hasher.Hasher.PushCv | kernel/blake3/blake3.c:315-321 | merge and push add the subtree behind the data on the stack, within its 55 entries |
| Blake3Hasher.Hasher.AbsorbSubtree | kernel/blake3/blake3.c:350-378 | a round of the main loop moves the largest aligned subtree onto the stack |
| Blake3Hasher.Hasher.Update | kernel/blake3/blake3.c:323-384 | an update appends its input to what was absorbed and keeps the invariant |
| Blake3Hasher.Hasher.Reset | kernel/blake3/blake3.c:422-425 | a reset hasher has absorbed nothing |
| Blake3Hasher.Hasher.Root | kernel/blake3/blake3.c:391-418 | finalization computes the root of the recursive tree over everything absorbed |
| Blake3Hasher.Hasher.FinalizeSeek | kernel/blake3/blake3.c:391-420 | finalize_seek returns the slice of the tree's root bytes and changes nothing |
| Blake3Hasher.UpdateAll | kernel/blake3/blake3.c:323-384 | any sequence of updates absorbs the concatenation |
| Blake3Hasher.HashInPieces | kernel/blake3/blake3.c:272-420 | for every way of cutting a message under 2^64 bytes, every offset and length, the output equals the recursive tree's |
| Blake3Hasher.InitDeriveKeyRaw | kernel/blake3/blake3.c:288-298 | the derived key is the 32-byte hash of the context |
| BuddyBlocks.XorIsBuddy | kernel/pmm.c:269 | flipping bit `order` of an aligned index gives the other half of the parent block |
| BuddyBlocks.RunInBlock | kernel/pmm.c:226-281 | every aligned free run lies inside one free block |
| BuddyBlocks.TilingIsMaximal | kernel/pmm.c:184-281 | the free blocks are exactly the maximal aligned free runs of the bitmap |
| BuddyBlocks.TilingUnique | kernel/pmm.c:184-281 | so the set of free blocks is a function of the bitmap alone |
| BuddyBlocks.HoldSplit | kernel/pmm.c:244-249 | splitting a held block and listing its upper half keeps the rest a tiling |
| BuddyBlocks.HoldJoin | kernel/pmm.c:268-278 | merging with a free buddy keeps the rest a tiling |
| BuddyLists.ListedPush | kernel/pmm.c:147-151 | pushing a head keeps every list acyclic and equal to its set of blocks |
| BuddyLists.ListedRemove | kernel/pmm.c:161-182 | unlinking the i-th block removes exactly it from its list |
| Buddy.ZoneOfBlock | kernel/pmm.c:72-76 | a block lies in one zone, so buddies never straddle zones |
| Buddy.NoBlockNoRun | kernel/pmm.c:235-258 | if no free block of the zone is large enough there is no aligned free run either |
| Buddy.ScanDone | kernel/pmm.c:184-224 | a finished scan has listed the one tiling of the free frames |
| Buddy.Pmm.constructor | kernel/pmm.c:184-224 | boot state: the lists tile the free frames of the given bitmap |
| Buddy.Pmm.SetBlockBitmap | kernel/pmm.c:134-145 | exactly the block's bits change |
| Buddy.Pmm.Push | kernel/pmm.c:147-151 | the block becomes the head of its zone's list of its order |
| Buddy.Pmm.Pop | kernel/pmm.c:153-159 | the head of the list is taken off, or the list was empty |
| Buddy.Pmm.Remove | kernel/pmm.c:161-182 | finds and unlinks the target exactly if it is a free block of that list |
| Buddy.Pmm.SplitDown | kernel/pmm.c:244-249 | splitting leaves the lowest part held and lists all upper halves |
| Buddy.Pmm.AllocBlock | kernel/pmm.c:226-260 | fails exactly when no zone tried has an aligned free run; otherwise the block is aligned, was free, overlaps no outstanding block and comes from the first zone that has one |
| Buddy.Pmm.MergeUp | kernel/pmm.c:268-278 | merging stops only at the largest order or at a buddy that is not free |
| Buddy.Pmm.FreeBlock | kernel/pmm.c:262-281 | the block's frames are free again and the free blocks are again the one tiling |
| Buddy.Pmm.AllocEx | kernel/pmm.c:451-506 | adds the order and trust checks; the free-frame count stays the number of clear bits |
| Buddy.Pmm.FreeEx | kernel/pmm.c:528-564 | out-of-range frees change nothing, others free exactly the block |
| Buddy.Pmm.AllocThenFree | kernel/pmm.c:226-281 | allocating and freeing restores bitmap, outstanding blocks and the set of free blocks |
| Buddy.Pmm.RangeIsFree | kernel/pmm.c:205-211 | true exactly when every frame of the range is free |
| Buddy.Pmm.BestOrder | kernel/pmm.c:199-217 | the largest aligned free block at a frame that cannot grow there |
| Buddy.Pmm.InitFromFreeFrames | kernel/pmm.c:184-224 | the scan lists the one tiling of the free frames |
| PageEntries.PresentBit | kernel/vmm.c:38-48 | the parity by which the model tells present entries is the mask test |
| PageEntries.TableEntryMeans | kernel/vmm.c:38-56 | an intermediate entry is present, not huge, and yields its table back |
| PageEntries.LeafPresent | kernel/vmm.c:107-151 | a leaf is present exactly if the flags ask for a present page that is not a demand placeholder |
| PageEntries.LeafReads | kernel/vmm.c:380-387 | a present leaf of a frame reads back as the frame's low 52 bits plus the offset |
| PageTree.PutLeaf | kernel/vmm.c:88-151 | writing one leaf changes the entry of that page and of no other |
| PageTree.GrowLeaf | kernel/vmm.c:38-56 | hanging a new empty table changes no page's entry |
| PageTree.LacksAllCounts | kernel/vmm.c:107-151 | what a range of pages lacks, counted page by page as mapping goes, is the number of places above them without a table |
| PageTables.AddressSpace.constructor | kernel/vmm.c:613-635 | an empty root translates nothing |
| PageTables.AddressSpace.NextLevel | kernel/vmm.c:38-56 | yields the table at the index exactly if there is one or the allocator has a frame, then takes one frame exactly if there was none; changes no page's entry |
| PageTables.AddressSpace.WalkLeaf | kernel/vmm.c:63-86 | finds the leaf table of a page exactly if it exists |
| PageTables.AddressSpace.MapRaw | kernel/vmm.c:107-151 | succeeds exactly if the page lacks no more tables than the allocator has frames; success sets exactly one page's entry and adds exactly the tables lacking; failure changes no entry |
| PageTables.AddressSpace.UnmapLeaf | kernel/vmm.c:88-96 | succeeds exactly on a present page and clears exactly it |
| PageTables.AddressSpace.NonePresent | kernel/vmm.c:258-269 | true exactly when no page of the range translates |
| PageTables.AddressSpace.AllPresent | kernel/vmm.c:271-282 | true exactly when every page of the range translates |
| PageTables.AddressSpace.MapPages | kernel/vmm.c:284-294 | maps a prefix of the range and says how long it is; the whole range exactly if its pages together lack no more tables than there are frames |
| PageTables.AddressSpace.RollBack | kernel/vmm.c:296-309 | clears exactly the pages applied, and reports whether all were present |
| PageTables.AddressSpace.ApplyMap | kernel/vmm.c:258-309 | succeeds exactly if no page was mapped and the tables lacking are no more than the frames; refuses exactly if some page was mapped; any failure leaves every translation as before, and what a failed MAP does to entries is spelled out |
| PageTables.AddressSpace.ApplyUnmap | kernel/vmm.c:271-319 | succeeds exactly if every page was mapped; otherwise nothing changes |
| PageTables.AddressSpace.Apply | kernel/vmm.c:245-343 | a contract takes its full effect on the flat map or changes no translation, and for both operations it is said exactly when which |
| PageTables.AddressSpace.Region | kernel/vmm.c:161-343 | compile and apply: a request that reports failure leaves every translation; an accepted MAP succeeds exactly if its pages are unmapped and the frames suffice |
| PageTables.AddressSpace.VirtToPhys | kernel/vmm.c:380-387 | the walk reads the flat map |
| PageTables.AcceptedRange | kernel/vmm.c:161-243 | an accepted contract is aligned, non-empty, does not wrap, and a user one stays below the kernel |
| PageTables.MappedEntry | kernel/vmm.c:284-294 | a page-by-page MAP sets exactly the range, each page to its own frame |
| PageTables.UnmappedEntry | kernel/vmm.c:310-319 | a page-by-page UNMAP clears exactly the range |
| PageTables.MapReadsBack | kernel/vmm.c:380-387 | after a MAP every address of the range reads as its frame plus offset exactly if the frame is below 2^52, all others as before |
| PageTables.FrameLost | kernel/vmm.c:161-243 | a MAP of the frame at 2^52 is accepted, and its page does not read back as that frame |
| PageTables.UnmapUndoesMap | kernel/vmm.c:245-343 | unmapping what was mapped restores every translation |
| Lineage.LinkChildLinks | kernel/capability.c:441-455 | linking a new first child keeps the sibling lists a well-linked forest |
| Lineage.UnlinkLinks | kernel/capability.c:242-259 | unlinking a childless identity keeps the forest well linked |
| Lineage.AllocatedIffHeld | kernel/capability.c:261-337 | an identity is allocated exactly while some slot holds it or a descendant |
| Lineage.ReleaseOne | kernel/capability.c:261-306 | releasing one unneeded identity keeps every invariant but that its parent may be next |
| Lineage.WalkAgrees | kernel/capability.c:153-180 | the ancestor-epoch walk agrees with the identity's own revocation flag |
| Lineage.MarkReaches | kernel/capability.c:466-488 | a revoked identity's descendants are all marked |
| Lineage.AuthorityBounded | kernel/capability.c:339-464 | rights and modes of an identity are subsets of those of every ancestor |
| Lineage.EvolvesTrans | kernel/capability.c:339-501 | what one operation keeps (marks, bodies, numbering) a sequence of them keeps |
| Lineage.RunEvolves | kernel/capability.c:339-501 | and so does every run |
| Lineage.DeadForever | kernel/capability.c:466-501 | once an identity is revoked, whatever is below it at any later time is revoked and was there before |
| Capabilities.Caps.constructor | kernel/capability.c:123-140 | the empty system satisfies every invariant |
| Capabilities.Caps.IsAlive | kernel/capability.c:153-180 | alive exactly if neither it nor an ancestor has been revoked |
| Capabilities.Caps.Lookup | kernel/capability.c:182-219 | succeeds exactly on a held, live identity allowed in the mode |
| Capabilities.Caps.Insert | kernel/capability.c:221-240 | an empty slot in range takes one more counted reference |
| Capabilities.Caps.Copy | kernel/capability.c:339-353 | succeeds exactly from a usable source into an empty slot; the copy holds the same identity |
| Capabilities.Caps.Mint | kernel/capability.c:405-464 | succeeds exactly with the grant right and no more rights or modes than the parent; the child is new, linked and held once |
| Capabilities.Caps.Retype | kernel/capability.c:355-403 | succeeds exactly from RAM to the kinds allowed; the child keeps the parent's authority |
| Capabilities.Caps.CreateRoot | kernel/capability.c:90-121 | refused exactly on an invalid kind or mode set, a taken slot or no memory, and then changes nothing; otherwise the slot holds a new parentless identity with the given kind, rights and modes, referenced once |
| Capabilities.Caps.IdentityFree | kernel/capability.c:261-306 | the upward cascade terminates and frees exactly the unreferenced childless chain |
| Capabilities.Caps.Delete | kernel/capability.c:312-337 | empties the slot and frees exactly what nothing needs any more |
| Capabilities.Caps.DestroyCNode | kernel/capability.c:142-151 | every slot of the node is emptied, with all invariants kept |
| Capabilities.Caps.RevokeTree | kernel/capability.c:466-488 | gives exactly the identity and all its descendants the new epoch as their mark |
| Capabilities.Caps.Revoke | kernel/capability.c:490-501 | revokes exactly what a lookup of the slot finds, with its descendants |
| Capabilities.Caps.DoAll | kernel/capability.c:90-501 | any sequence of lookups, copies, mints, retypes, creations, deletions, destructions and revocations keeps every invariant, and never clears a mark, renumbers, or gives an old identity a new parent |
| Capabilities.Caps.LookupAfterRevoke | kernel/capability.c:182-219 | after a revocation and then any operations at all, everything at or below the revoked identity is marked and is older than the revocation, and looking up any slot that holds such a thing finds nothing |
| Capabilities.Caps.AllocatedWhileHeld | kernel/capability.c:261-337 | in every valid state an identity is allocated exactly while some slot holds it or a descendant |
| Capabilities.Caps.NoMoreAuthority | kernel/capability.c:339-464 | in every valid state what a slot holds has no right and no mode that any ancestor lacks |
| IntrusiveQueue.QueuePush | kernel/scheduler.c:186-196 | linking behind the tail appends one object |
| IntrusiveQueue.QueuePushHead | kernel/scheduler.c:198-205 | linking before the head prepends one object |
| IntrusiveQueue.QueuePop | kernel/scheduler.c:207-218 | moving the head takes off the first object |
| IntrusiveQueue.QueueUnlink | kernel/scheduler.c:220-238 | bypassing an object takes out exactly it, with the right tail |
| Endpoint.Endpoint.constructor | kernel/include/ipc.h:20-33 | a new endpoint has no messages and nobody waiting |
| Endpoint.Endpoint.DeliveredInOrder | kernel/syscall.c:629-777 | messages delivered are exactly the first min(sends, receives) sent, in order; waiting receivers mean an empty ring and no senders, waiting senders a full ring |
| Endpoint.Endpoint.Send | kernel/syscall.c:656-716 | the message joins the log; a waiting receiver gets its own message in its registers; the sender blocks exactly when 16 messages are already pending |
| Endpoint.Endpoint.Receive | kernel/syscall.c:718-776 | the k-th receive gets the k-th message, at once or when it comes; it blocks exactly when none is pending |
| Endpoint.Endpoint.Refill | kernel/syscall.c:737-754 | moving the first blocked sender's message into the vacated slot keeps the order of everything pending |
| Endpoint.Endpoint.Invoke | kernel/syscall.c:629-777 | operation chosen by option and rights; refused, changing nothing, exactly without the right |
| UndoLog.RestoredSnoc | limine/host/limine.c:439-488 | a later log entry is undone before the earlier ones |
| UndoLog.ReplayReversed | limine/host/limine.c:318-324 | writing the reversed log back leaves at each byte what the oldest entry covering it saved |
| UndoLog.WriteKeepsUndo | limine/host/limine.c:439-488 | a logged write keeps both the disk and the logical bytes undoable, whatever part reached the disk |
| UndoLog.UndoRestores | limine/host/limine.c:490-540 | so replaying the reversed log restores every original byte |
| UndoLog.ReplayAllBelow | limine/host/limine.c:490-540 | if every entry lies below the limit, writing back what lies below it is writing back the log |
| UninstallEffect.OutcomeAt | limine/host/limine.c:277-302 | the outcome byte by byte: what was behind the last whole block where an entry went into a stale cache and nothing was written later, elsewhere what the entries say |
| UninstallEffect.OutcomeIsReplay | limine/host/limine.c:490-540 | if every entry lies on whole blocks the outcome is the log replayed |
| UninstallEffect.OutcomeExact | limine/host/limine.c:490-540 | on every image of the size the outcome is what the entries, cut at the last whole block, say exactly if each byte that an entry smudges is written by it or a later one |
| BlockDevice.UsableBlocks | limine/host/limine.c:277-302 | a byte can be cached exactly if its whole block lies on the device |
| BlockDevice.Device.constructor | limine/host/limine.c:223-254 | an opened device shows its image, with nothing logged |
| BlockDevice.Device.FlushCache | limine/host/limine.c:256-275 | afterwards the disk holds the logical bytes |
| BlockDevice.Device.CacheBlock | limine/host/limine.c:277-302 | succeeds exactly for a whole block; a cached block is left alone, otherwise the cache is flushed and the block comes from the disk; a failed read leaves the flushed disk and a clobbered cache |
| BlockDevice.Device.Read | limine/host/limine.c:417-437 | reads see the logical byte array; they fail exactly past the last whole block |
| BlockDevice.Device.WriteBytes | limine/host/limine.c:462-483 | whatever the cache holds, the block-by-block copy splices the data into what the device shows there, and other disk bytes stay or take that value; past the last whole block it fails, having written exactly what lies below that; if the data began below it the cache is then stale |
| BlockDevice.Device.Write | limine/host/limine.c:439-488 | all or nothing; fails exactly on a full log or past the last whole block; logs the old bytes; the device stays undoable |
| BlockDevice.Device.ReverseLog | limine/host/limine.c:318-324 | the log is reversed in place |
| BlockDevice.Device.PutBack | limine/host/limine.c:500-519 | whatever the cache holds, an entry is written back, with one retry, exactly if it lies on the device; of any other the part below the end of the last whole block is on the disk, and how the cache is left is said |
| BlockDevice.Device.Uninstall | limine/host/limine.c:490-540 | from any cache state and for every log: succeeds exactly if every entry lies on the device, and then the disk is the log replayed over it; in every case the disk is the outcome of the log over what it was |
| BlockDevice.Device.UndoInstall | limine/host/limine.c:1126-1131 | after any run of writes, even a failed one with a lost cache, every byte is restored |
| UndoFile.ValueOfBytes | limine/host/limine.c:332-370 | a 64-bit word survives being written and read |
| UndoFile.Store | limine/host/limine.c:332-370 | storing succeeds exactly when no entry is empty, and writes the format |
| UndoFile.EmptyWriteCannotBeStored | limine/host/limine.c:332-370 | on every device an empty write succeeds and leaves a log that cannot be stored |
| UndoFile.Load | limine/host/limine.c:372-415 | loading yields a log exactly when the file holds one of at most 256 entries, and that one |
| UndoFile.UninstallFrom | limine/host/limine.c:704-724 | a file that holds a log leaves the outcome of that log, and success means that all of it lies on the device; any other file changes nothing |
| UndoFile.RestoreFromFile | limine/host/limine.c:1126-1134 | a log stored reversed and loaded in another session restores every original byte |
| UndoFile.UninstallCanSmudge | limine/host/limine.c:704-724 | on every device that is not a whole number of blocks some file with two entries loads and leaves a disk that is not what its entries, cut at the last whole block, say |
| Budget.Minted | kernel/scheduler.c:756-764 | a freshly minted process satisfies the invariant |
| Budget.StepKeepsInv | kernel/scheduler.c:349-441 | every atomic step of every thread keeps the credit invariant, 64-bit wrap included |
| Budget.ConsumptionBound | kernel/scheduler.c:349-441 | in every run the budget never exceeds its maximum M, and ticks consumed are at most M before the first refill and 2M + M*floor((now - first)/period) after it |
| Budget.BoundReached | kernel/scheduler.c:389-405 | for every M, period and k some run consumes exactly 2M + M*k ticks with k periods elapsed since the first refill |
| Budget.TakesWhatIsThere | kernel/scheduler.c:349-370 | left alone, a consume takes what was asked or all that is left |
| Budget.RefillFills | kernel/scheduler.c:421-429 | a refill raises the budget to the smaller of M and its value plus the 64-bit product; it fills it exactly if that sum reaches M, as it does whenever the product does not wrap |
| Budget.RefillAfter | kernel/scheduler.c:405-441 | for every budget, period and n some run ends in a refill, n periods after the first, of an empty budget, which then is the smaller of the maximum and the 64-bit product |
| Budget.RefillFallsShort | kernel/scheduler.c:421-429 | for every period some run gives a process with a budget of 2^63 + 1, which the mint accepts, two ticks two periods after its first refill |
| ReadyQueues.NotOwnedHolds | kernel/scheduler.c:868-916 | the filtered queue holds exactly the threads of others |
| ReadyQueues.Scheduler.constructor | kernel/scheduler.c:631-653 | the boot state, with empty queues and no current thread, satisfies every invariant |
| ReadyQueues.Scheduler.Enqueue | kernel/scheduler.c:186-196 | appends the thread to one queue and keeps all others |
| ReadyQueues.Scheduler.EnqueueHead | kernel/scheduler.c:198-205 | prepends the thread |
| ReadyQueues.Scheduler.Dequeue | kernel/scheduler.c:207-218 | takes the first thread, if any |
| ReadyQueues.Scheduler.Remove | kernel/scheduler.c:220-238 | takes out exactly the target, if there, and keeps the order of the rest |
| ReadyQueues.Scheduler.RevokeQueue | kernel/scheduler.c:881-904 | the scan leaves the queue filtered and well linked, and stops exactly the threads removed |
| ReadyQueues.Scheduler.RevokeCurrent | kernel/scheduler.c:906-913 | a CPU's current thread of the process loses its authority and no longer runs |
| ReadyQueues.Scheduler.Revoke | kernel/scheduler.c:868-916 | every queue of every CPU and mode is its old sequence without exactly the process's threads; none of them is ready on a queue or running; nothing else changes |
| RwLock.StepKeepsInv | kernel/include/utils.h:126-172 | with any number of threads every atomic step keeps exclusion, the count and that at most 2^31 readers are in |
| RwLock.Safe | kernel/include/utils.h:121-172 | with any number of threads, in every interleaving a writer excludes all others, the word is the writer bit or exactly the number of readers, and that never passes 2^31 |
| RwLock.Admits | kernel/include/utils.h:126-167 | left alone, a waiting reader enters exactly if no writer and fewer than 2^31 readers are in, a waiting writer exactly if nobody is |
| SeqLock.StepKeepsInv | kernel/include/utils.h:174-212 | every atomic step keeps one writer, the parity of the counter, and what each reader knows |
| SeqLock.NoTornReads | kernel/include/utils.h:174-212 | a copy that needed no retry is one complete published snapshot if fewer than 2^31 writes were published meanwhile |
| SeqLock.KeepsNeverPublished | kernel/include/utils.h:174-212 | for every positive multiple of 2^31 writes a run exists in which a reader keeps a copy that was never published |
| SeqLock.TornExact | kernel/include/utils.h:174-212 | a copy other than the snapshot begun on can be kept after so many writes exactly if that is a positive multiple of 2^31 |
| SeqLock.QuietRead | kernel/include/utils.h:180-198 | a reader left alone while nobody writes keeps the current data without a retry |
| Rcu.StepKeepsInv | kernel/include/utils.h:214-242 | with any number of threads every atomic step keeps the reader count modulo 2^32, one synchronizer, and the parity of the epoch |
| Rcu.GracePeriod | kernel/include/utils.h:214-242 | with at most 2^32 threads, in every run rcu_synchronize has returned only after every reader present at its call has left |
| Rcu.GraceExact | kernel/include/utils.h:214-242 | that holds of every run exactly if there are at most 2^32 threads |
| Rcu.Returns | kernel/include/utils.h:233-242 | with no reader inside and the lock free, rcu_synchronize returns |
| SlabLists.ListPush | kernel/slab.c:43-48 | linking at the head keeps both directions consistent |
| SlabLists.ListRemove | kernel/slab.c:50-56 | unlinking keeps both directions consistent |
| SlabLists.UsedUpdate | kernel/slab.c:77-85 | setting or clearing one bit changes the number of used slots by one |
| SlabLists.FindFreeSlot | kernel/slab.c:58-75 | the search from the hint, once around, fails exactly on a full bitmap |
| Slab.Cache.constructor | kernel/slab.c:161-213 | an empty cache whose slots fit a page behind the header |
| Slab.Cache.AllocatePage | kernel/slab.c:105-130 | a fresh page becomes a partial slab of the mode with every slot free |
| Slab.Cache.TakeSlot | kernel/slab.c:255-262 | a partial slab always has a free slot, so the panic is unreachable; exactly that slot is taken |
| Slab.Cache.Alloc | kernel/slab.c:219-281 | returns a new live object of the mode, or nothing exactly if the mode is denied or neither a slot nor a page is there |
| Slab.Cache.ValidatePointer | kernel/slab.c:283-297 | finds the slot exactly if the address is that of a slot |
| Slab.Cache.CountFree | kernel/slab.c:351-357 | counts the free slabs of a mode up to the limit |
| Slab.Cache.Retire | kernel/slab.c:348-373 | an unused slab becomes the head of its mode's free list if that has fewer than the minimum, and leaves the cache otherwise; no other slab changes |
| Slab.Cache.FreeObject | kernel/slab.c:299-377 | frees exactly the live object at the address; any other address is refused and changes nothing |
| Slab.Cache.InPage | kernel/slab.c:270-271 | an object lies inside its page, past the header |
| Slab.Cache.LiveDisjoint | kernel/slab.c:270-271 | no two live objects overlap |
| ModeMachine.EdgesExact | kernel/mode.c:406-573 | a step is open to some request exactly if it is an edge of the mode graph |
| ModeMachine.Guarded | kernel/mode.c:406-573 | CASUAL is regained only with a password or the kernel's automatic authority; LOCKDOWN is left only to SECURE and only with a key, prompt or that authority |
| ModeMachine.LawfulSnoc | kernel/mode.c:97-120 | a record that starts in the current mode and takes an edge keeps the log lawful |
| ModeMachine.PassesSecure | kernel/mode.c:406-646 | in every lawful log, between LOCKDOWN or GHOST and a later CASUAL the mode was SECURE |
| ModeMachine.RingPush | kernel/mode.c:77-95 | writing at head modulo 256 keeps the ring the last 256 records |
| ModeMachine.ModeState.constructor | kernel/mode.c:687-703 | the boot state is VOID with an empty log |
| ModeMachine.ModeState.Append | kernel/mode.c:77-95 | appends one record, chained to the hash of the one before |
| ModeMachine.ModeState.GetHistory | kernel/mode.c:786-803 | a filtered read returns the newest matching of the last min(head, 256) records, newest first |
| ModeMachine.ModeState.LogEvent | kernel/mode.c:122-212 | other events are logged in the current mode and leave it |
| ModeMachine.ModeState.Apply | kernel/mode.c:575-646 | the mode changes and the log says so |
| ModeMachine.ModeState.Request | kernel/mode.c:728-776 | accepted exactly if the rules allow it, logged either way; the replayed log always ends in the current mode; the third failed daemon attempt reboots |

## Left out

- The BLAKE3 round function and the FNV-1a hash of Fate records are uninterpreted parameters; the multi-lane loop of compress_subtree_to_parent_node never runs at the SIMD degree of 1 this build fixes.
- The premise that frame 0 is reserved (address 0 means failure), that there are fewer than 2^32-1 frames, and that frees name an outstanding block with its own order, is part of the buddy model; owner, color, epoch and zeroing of frames are not modelled.
- Page tables: huge pages, the kernel half, demand and copy-on-write faults, table destruction, TLB maintenance, the contract log ring and the metrics.
- Capabilities: object pointers, badges, object disposal, scheduler side effects, metrics, epoch wrap-around; identities are numbered by allocation and an address is never reused.
- Endpoint: the null object pointer, and the scheduler's own queues; the caller is not already waiting.
- Undo log: I/O errors other than reading past the end, and big-endian hosts.
- UndoFile.Load: of a file whose header announces more than 256 entries it says only that no log is loaded, because the source then stores past its array, which is outside the language's semantics.
- Budget: a second mint of the same process, and the per-thread budgets.
- Ready queues: choosing the next thread, zombies, and the reschedule request to other CPUs.
- Locks: memory-order relaxations; atomic steps are sequentially consistent.
- Slab: the slab header is 72 bytes, as on x86-64; not modelled are bulk annihilation, redzones, scrubbing and poisoning of object bytes, metrics and the page count; a page that is not one of the cache's slabs is taken not to look like one; the four bitmap words are one sequence of 256 bits.
- Mode machine: the boot record in CMOS memory, statistics, the security epoch, and hardware effects of a transition; what follows the reboot.
- Everything that drives hardware: registers, interrupts, APIC, IOMMU, console, firmware, and the user daemons.
