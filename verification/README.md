# TextOS in Dafny

A model of the parts of TextOS, a small x64 kernel with its own C library, that keep pointer,
page, scheduling or stream state, and proofs of what those parts are for.
`dafny verify dfyconfig.toml` checks the whole project.

Each component that updates memory in place is a class whose methods follow the C functions; the
classes are proved against value-level definitions, and the theorems are about those. Protocols
are transition systems over their steps, with theorems about every run.

- **Red-black tree** (`RbShape`, `RbTree`, `RbDeficit`, `RbDelete`, `RbRun`): nodes with child and
  parent pointers, against an inductive shape with a hole for the place being worked on. Insertion
  into a red-black tree gives a red-black tree. Deletion skips the repair when the removed node has no
  child, so it keeps the red-black conditions exactly when that node was red, had a child, or was
  the last one. A tree left that way may make a later deletion follow a null sibling; which
  deletions do can be read off the tree beforehand (`RbDeficit.Survives`). Until then every run keeps
  the order of the nodes, a black root and the absence of red-red edges.
- **Kernel heap** (`HeapBlocks`, `KernelHeap`, `HeapRun`): the words of the heap, tags included,
  against a list of blocks that tile it; and whole runs against allocations without addresses.
- **Paging** (`PageWalk`, `PageRights`, `Paging`): physical memory as frames of 512 words, the
  four-level walk of section 4.5 of the Intel SDM Volume 3A as a function of that memory and the access
  rights of section 4.6, and the kernel's edits made through the recursive self-map.
- **Fork's page-table copy** (`Bitmap`, `PageCopy`, `ForkCopy`): the recursion over four levels
  through temporary windows, which are pages mapped with the modelled `vmap_map` and read and written
  as the processor translates them, against a relation between two trees of frames.
- **Lock** (`Lock`): every statement outside the interrupt-free areas is a step of its own.
- **Pipe** (`Fifo`, `Pipe`): the queue with wrapping counters, and one reader and one writer over it.
- **Descriptor tables** (`FileSpec`, `FileTable`): reference counting, against tables without counts
  where a file is open as long as some slot points to it.
- **Block buffer cache** (`BufferBlocks`, `BufferCache`, `BufferRun`, `BufferLocks`): hash chains, free
  list, buffer memory and device bytes; whole runs by several tasks against a device without a cache;
  and how tasks wait for the two kinds of lock.
- **Scheduler** (`Scheduler`): which task each call leaves running, and how many switches and timer
  ticks a prepared task can have to wait; and the **lazy FPU switch** (`Fpu`).
- **Shell parser** (`ShellTokens`, `ShellGrammar`, `ShellSyntax`, `ShellShow`, `ShellSpell`, `Shell`):
  the character-level recursive descent, against a recursive grammar over tokens. That grammar accepts
  exactly what a set of declarative rules derives, and is inverted by a printer to tokens and to
  characters.
- **SHA-256** (`Sha256Spec`, `Sha256Bits`, `Sha256Constants`, `Sha256Answer`, `Sha256`): FIPS 180-4 as
  functions, what they do to each bit, where the constants come from, the example of the standard, and
  the streaming computation.
- **Buffered output** (`Stdio`) and **Internet checksum** (`Checksum`).

What comes from outside is a parameter: the bytes fresh memory happens to hold, the frames the
physical allocator hands out (distinct and unused), the node or error a path lookup gives, the
results of `writev` (an arbitrary sequence of positive counts and errors), and which task moves next.
System calls run with interrupts masked, so pipe calls are atomic between blocking points. Addresses
and counters are mathematical integers, with the wrap-around written out where the code relies on it.

Where the code departs from what one would expect, the model follows the code, the exact condition
is proved, and a concrete input shows the departure: deletion of a black node without children
(`RbDelete.Delete`, `RbDeficit.BlackLeafExample`), and after it of a node beside a missing sibling
(`RbDeficit.RepairSupported`, `RbDeficit.MissingSiblingExample`); capacities that do not divide 2^64
(`Fifo.WhichCapacities`, `Fifo.ThreeFails`); releases of unmarked buffers and mixed block sizes
(`BufferCache.Cache.Brelse`, `BufferBlocks.StoreExact`, `BufferBlocks.UnmarkedRelease`,
`BufferBlocks.MixedSizes`); calls of `bread` by a task that holds a buffer
(`BufferLocks.OnlyByHeldCalls`, `BufferLocks.LockUp`); a character value beyond a byte whose low byte
is a newline (`Stdio.Stream.Fputc`, `Stdio.NewlineSlips`); and `fflush`, which reports success after
a failed write (`Stdio.Stream.Fflush`, `Stdio.FlushLies`).

## Model

| member | source | states |
|---|---|---|
| `RbTree.RbTree.RotateLeft` | src/kernel/klib/rbtree.c:13-29 | the pointers become those of the left-rotated subtree in the same context; the in-order sequence is unchanged |
| `RbTree.RbTree.RotateRight` | src/kernel/klib/rbtree.c:31-47 | the mirror image |
| `RbShape.RecolorStep` | src/kernel/klib/rbtree.c:54-110 | the red-uncle step of fixup: recolouring moves the possible red-red edge two levels up and keeps a balanced tree balanced |
| `RbShape.RotateStep` | src/kernel/klib/rbtree.c:54-110 | the outer-grandchild step: one rotation and two recolourings end the red-red edge and keep a balanced tree balanced |
| `RbShape.StraightenStep` | src/kernel/klib/rbtree.c:54-110 | the inner-grandchild step: one rotation turns it into the outer case, balanced as before |
| `RbTree.RbTree.Fixup` | src/kernel/klib/rbtree.c:54-110 | a red node at any position of a tree with a black root and no other red-red edge, balanced or not: terminates with a black root and no red-red edge, and balanced if it was, on the same nodes in the same order, all parent pointers consistent |
| `RbTree.RbTree.Link` | src/kernel/klib/rbtree.c:208-221 | an empty slot gets a red leaf; an occupied slot has its node replaced, keeping colour and children |
| `RbTree.RbTree.Replace` | src/kernel/klib/rbtree.c:194-206 | the new node stands exactly where the old one stood |
| `RbTree.RbTree.Insert` | src/kernel/klib/rbtree.c:208-226 | for every tree with a black root and no red-red edge, and every empty slot: link and fixup keep both conditions, and equal black heights where they held, and the in-order sequence gets the new node at the place of the slot |
| `RbDelete.Minimum` | src/kernel/klib/rbtree.c:112-117 | the leftmost node of the subtree, with the left spine that leads to it |
| `RbDeficit.RedSibling` | src/kernel/klib/rbtree.c:119-192 | the red-sibling step of fixup_del: still one black short, now with a black sibling |
| `RbDeficit.BlackNephews` | src/kernel/klib/rbtree.c:119-192 | black sibling with black children: painting it red moves the deficit to the parent |
| `RbDeficit.NearNephew` | src/kernel/klib/rbtree.c:119-192 | a red near nephew: one rotation makes the far nephew red |
| `RbDeficit.FarNephew` | src/kernel/klib/rbtree.c:119-192 | a red far nephew: one rotation pays the deficit |
| `RbDeficit.DeficitDone` | src/kernel/klib/rbtree.c:119-192 | blackening a red node, or reaching the root, ends the loop with a red-black tree |
| `RbDeficit.RoundDeficit` | src/kernel/klib/rbtree.c:119-192 | one round from a tree one black short finds every sibling it reads and leaves a tree one black short |
| `RbDeficit.RepairDeficit` | src/kernel/klib/rbtree.c:119-192 | the whole loop from a tree one black short ends at the root with a red-black tree |
| `RbDeficit.RepairSupported` | src/kernel/klib/rbtree.c:119-192 | on any tree the loop gets through if and only if x is red or supported: going up from it past black siblings with black children only, each sibling met is a real node, and below a red one there is the child it needs |
| `RbDeficit.RepairThin` | src/kernel/klib/rbtree.c:119-192 | on a tree with a black root and no red-red edge except at x, balanced or not, a loop that gets through leaves a black root and no red-red edge |
| `RbDelete.FixDelRound` | src/kernel/klib/rbtree.c:119-192 | one round on any tree: it fails exactly where the code follows a null sibling, and otherwise the pointers become those of the round on shapes, in the same order |
| `RbDelete.FixupDel` | src/kernel/klib/rbtree.c:119-192 | on any tree, red-black or not: gets through if and only if x is red or supported by the siblings on its way up, and then the pointers are those of the repaired shape, with the same nodes in the same order |
| `RbDelete.Detach` | src/kernel/klib/rbtree.c:228-286 | any node of any tree: z is out, the order loses exactly z, and what is missing is one node of the recorded colour at x, whose return would give a tree with the colours and the balance of the old one |
| `RbDelete.Delete` | src/kernel/klib/rbtree.c:228-289 | any node of any tree: gets through if and only if the node taken out is red, has no child or a red one, or its place is supported by the siblings on the way up; then the in-order sequence loses exactly z, all pointers are consistent, and a black root and the absence of red-red edges are kept; a red-black tree always gets through, and stays red-black if and only if the node taken out was red or had a child, or z was the only node |
| `RbDeficit.Unrepaired` | src/kernel/klib/rbtree.c:280-289 | without fixup_del a childless node can be taken out of a red-black tree if and only if it is red or the root |
| `RbDeficit.BlackLeafExample` | src/kernel/klib/rbtree.c:280-289 | a concrete tree of distinct nodes with a black leaf whose deletion leaves unequal black heights |
| `RbDeficit.MissingSiblingExample` | src/kernel/klib/rbtree.c:119-192 | three black nodes in a row to the right, with a black root and no red-red edge, where deleting the middle one makes fixup_del follow a null sibling |
| `RbDeficit.SpineComesAbout` | src/kernel/klib/rbtree.c:280-289 | such a row comes about from a red-black tree of seven black nodes by four deletions of black leaves |
| `RbDeficit.SuccessorFirst` | src/kernel/klib/rbtree.c:228-289 | the successor that takes the place of z is the first node of the right subtree in order |
| `RbRun.Do` | src/kernel/klib/rbtree.c:208-289 | one insertion at an empty slot or deletion, in terms of the sequence of nodes; a deletion fails only for lack of support |
| `RbRun.Run` | src/kernel/klib/rbtree.c:208-289 | every run of insertions and deletions from the empty tree: until a deletion lacks support, the tree has a black root and no red-red edge, and its sequence is changed by each insertion right before or behind the node of the slot and by each deletion in the deleted node only; insertions alone never fail and give red-black trees |
| `KernelHeap.KernelHeap.constructor` | src/kernel/mm/heap.c:41-55 | the empty heap is tiled: prologue, epilogue at brk, nothing in between |
| `HeapBlocks.TagRoundTrip` | src/kernel/mm/heap.c:15-31 | a 32-bit tag gives back size and use bit if and only if the size is below 2^29 |
| `KernelHeap.KernelHeap.Sbrk` | src/kernel/mm/heap.c:57-62 | brk grows by the request rounded up to 8 |
| `KernelHeap.KernelHeap.Scan` | src/kernel/mm/heap.c:66-100 | ends at the first block that fits, after extending the heap at most once |
| `KernelHeap.KernelHeap.Take` | src/kernel/mm/heap.c:66-100 | the block is used whole or split in two, all tags rewritten, live payloads untouched |
| `KernelHeap.KernelHeap.Malloc` | src/kernel/mm/heap.c:66-100 | size 0 gives null; any other size gives a block of at least the payload asked for, first fit over the blocks or over the blocks grown once, apart from all blocks in use and the only one more in use; tiling, coalescing and live contents are kept |
| `HeapBlocks.FirstFitIs` | src/kernel/mm/heap.c:66-100 | the index found is the least that fits |
| `HeapBlocks.TakenIsFresh` | src/kernel/mm/heap.c:66-100 | a newly taken block overlaps no block that was in use |
| `HeapBlocks.NeedCoversRequest` | src/kernel/mm/heap.c:66-76 | the rounded size is a multiple of 8, covers both tags, and wastes less than 8 bytes |
| `KernelHeap.KernelHeap.Free` | src/kernel/mm/heap.c:142-160 | null and addresses beyond the heap change nothing; a live payload becomes free, merged with free neighbours on both sides; all other live contents are kept |
| `KernelHeap.KernelHeap.Merge` | src/kernel/mm/heap.c:162-183 | a free block absorbs a free successor and is absorbed by a free predecessor; everything stays tiled |
| `HeapBlocks.MergeTiled` | src/kernel/mm/heap.c:162-183 | the tags written by a merge tile the heap again, and nothing outside the merged block changes |
| `KernelHeap.KernelHeap.ExtendHeap` | src/kernel/mm/heap.c:185-205 | brk and the last block grow, the new epilogue is mapped, live contents are kept |
| `HeapBlocks.EpilogueFits` | src/kernel/mm/heap.c:185-205 | brk is always 4 modulo 8, so after mapping whole pages the epilogue lies strictly below the mapped limit |
| `HeapBlocks.GrownShape` | src/kernel/mm/heap.c:185-205 | growing keeps all block addresses, and the last block now fits |
| `HeapBlocks.PayloadsDisjoint` | src/kernel/mm/heap.c:41-205 | in every tiled heap, payloads are 8-aligned, inside the heap and pairwise disjoint |
| `HeapBlocks.FullyCoalesced` | src/kernel/mm/heap.c:142-183 | with no two adjacent free blocks, a heap with nothing in use is one block or empty |
| `KernelHeap.KernelHeap.Store` | src/kernel/mm/heap.c:41-205 | a store by the owner into its payload never disturbs the tiling |
| `HeapBlocks.MergedInUse` | src/kernel/mm/heap.c:162-183 | merging leaves exactly the same blocks in use |
| `HeapRun.DoAlloc` | src/kernel/mm/heap.c:66-100 | the other allocations keep their blocks and words; the new block is apart from all of them |
| `HeapRun.DoFree` | src/kernel/mm/heap.c:142-183 | the other allocations keep their blocks and words; null changes nothing |
| `HeapRun.Run` | src/kernel/mm/heap.c:41-205 | in every run of malloc, loads, stores and free below 2^29 bytes a load gives what was last stored into that word of that allocation; the blocks in use are those of the live allocations, and with none the heap is one free block or empty |
| `Paging.VrtPath` | src/kernel/mm/map.c:19-42 | the four indices put into an address by VRT are those the walk takes out |
| `Paging.SelfMapReaches` | src/kernel/mm/map.c:47-62 | the hardware walk of the address _vrt_entryget returns ends at exactly the table that a walk of v visits at that level |
| `Paging.AttachSound` | src/kernel/mm/map.c:80-89 | hanging a fresh zeroed table below a missing entry changes no translation, keeps the tables a tree, and takes no right from any address |
| `Paging.FlagSound` | src/kernel/mm/map.c:91-92 | setting PE_US on the way changes no translation and takes no right away |
| `Paging.LeafSound` | src/kernel/mm/map.c:75-79 | writing a last-level entry changes the translation and the rights of that page and of no other ordinary address |
| `Paging.LeafFlags` | src/kernel/mm/map.c:75-76 | the entry written has the lower eleven flags as given |
| `Paging.Mmu.EnsureTable` | src/kernel/mm/map.c:80-94 | the next table exists afterwards, reached through the self-map; no translation has changed, no right is lost, and a new table can be written through |
| `Paging.Mmu.MarkUser` | src/kernel/mm/map.c:91-92 | with PE_US in the flags the entry has PE_US afterwards and is otherwise the same, and so is every other; without it nothing changes |
| `Paging.Mmu.MapWalk` | src/kernel/mm/map.c:70-96 | a 4 KiB mapping of one page: that page translates to phy with the flags, every other address as before; with PE_US every entry on the way has it; every other entry keeps its flags but for PE_US; where its tables exist already, one word is written |
| `Paging.Mmu.VmapMap` | src/kernel/mm/map.c:138-148 | n pages from vrt translate to phy and up, and every other canonical address outside slot 511 as before; in the range user access is granted if and only if flgs has PE_US, and writing if and only if flgs has PE_RW and so have the tables that were there; no other mapped address loses a right or gets one to write; no large page comes about; frames that are no tables and not handed out are untouched; at most three frames per page are used |
| `Paging.Mmu.QryWalk` | src/kernel/mm/map.c:98-114 | the recursion through the self-map returns what the hardware walk finds, or 0 |
| `Paging.Mmu.VmapQuery` | src/kernel/mm/map.c:150-153 | the value for the leaf the hardware walk finds, or 0 if it faults |
| `Paging.RangeQueries` | src/kernel/mm/map.c:138-153 | throughout a mapped range the leaf the processor finds has phy plus the offset as its query value |
| `Paging.Mmu.MapThenQuery` | src/kernel/mm/map.c:138-153 | vmap_map and then vmap_query: phy plus the offset for every address of the range, and what it was before for every other |
| `Paging.FreshMapQuery` | src/kernel/mm/map.c:138-165 | from an empty space: phy plus the offset throughout the range, 0 everywhere else |
| `Paging.BareSound` | src/kernel/mm/map.c:155-165 | a table with only the recursive entry satisfies the invariant the others keep |
| `Paging.BareFaults` | src/kernel/mm/map.c:155-165 | under such a table every ordinary address faults and has no large page and no table without PE_RW |
| `Paging.Mmu.constructor` | src/kernel/mm/map.c:155-165 | a new space is valid and maps nothing below slot 511, and every other frame is empty and no table |
| `PageWalk.AttachTranslate` | src/kernel/mm/map.c:80-89 | no address translates differently after a table is attached |
| `PageWalk.LeafTranslate` | src/kernel/mm/map.c:75-79 | the translation after a leaf entry is written, for every address |
| `PageRights.KeptTable` | src/kernel/mm/map.c:70-96 | steps that only add tables and user flags lead every walk that went on to the same table |
| `PageRights.RightsKept` | src/kernel/mm/map.c:70-96 | after such steps no mapped address has lost user access, and the same ones may be written |
| `PageRights.GrantedRights` | src/kernel/mm/map.c:70-96 | under a last-level entry e with PE_US, if at all, on every level: user access if and only if e has PE_US, writing if and only if e and the tables that were there have PE_RW |
| `Paging.DoneRights` | src/kernel/mm/map.c:138-148 | from what each page of a range got to the rights of every canonical address |
| `Bitmap.PopLow` | src/kernel/klib/bitmap.c:28-32 | the lowest clear bit of a byte that is not full |
| `Bitmap.BitSet.Find` | src/kernel/klib/bitmap.c:38-58 | takes the least free number, and fails if and only if there is none |
| `Bitmap.BitSet.Test` | src/kernel/klib/bitmap.c:60-67 | tells whether the number is taken |
| `Bitmap.BitSet.Set` | src/kernel/klib/bitmap.c:69-75 | takes that number and no other |
| `Bitmap.BitSet.Reset` | src/kernel/klib/bitmap.c:77-83 | frees that number and no other |
| `ForkCopy.Windows.Make` | src/kernel/mm/pvpage.c:9-19 | opens a window that was closed by mapping it with vmap_map, which writes one word of the page table of the windows; fails if and only if all are open |
| `ForkCopy.Windows.Break` | src/kernel/mm/pvpage.c:21-25 | closes that window only, and leaves it mapped |
| `ForkCopy.WindowSees` | src/kernel/mm/pvpage.c:9-19 | the processor translates every word of an open window to that word of its frame |
| `ForkCopy.UnvisitedShowing` | src/kernel/mm/map.c:202-232 | writing to a frame that is no table of the running address space changes no walk, and the open windows show the same frames |
| `ForkCopy.Windows.Store` | src/kernel/mm/map.c:202-232 | a store through a window writes that word of the frame and changes no walk |
| `PageCopy.EntryStep` | src/kernel/mm/map.c:215-225 | copying what is below one entry and storing the new entry keeps the entries done before and finishes this one |
| `ForkCopy.Forker.CopyEntry` | src/kernel/mm/map.c:215-225 | one round of the loop, with its windows released |
| `ForkCopy.Forker.CopyTable` | src/kernel/mm/map.c:213-230 | all entries below the limit, and at the top the recursive slot pointing at the copy |
| `ForkCopy.Forker.CopyPgtd` | src/kernel/mm/map.c:202-232 | through windows only: the new tree is a copy with the same flags and page contents, made only of new frames, none used twice; nothing is written but new frames and the page table of the windows; windows are restored, with at most two open per level |
| `ForkCopy.Forker.CopyAll` | src/kernel/mm/map.c:235-238 | every fork: the copy as above, the upper half shared except slot 511, at most ten windows at once and none left open |
| `ForkCopy.FirstWindow` | src/kernel/mm/pvpage.c:9-19 | in a new address space the first window that is mapped gives the windows their page table |
| `ForkCopy.FirstFork` | src/kernel/mm/map.c:235-238 | the parts fit together from there to a copy |
| `PageCopy.CopyWalk` | src/kernel/mm/map.c:202-232 | the walks of a low address through original and copy go through corresponding tables |
| `PageCopy.CopyTranslate` | src/kernel/mm/map.c:202-232 | a low address is mapped in the copy if and only if it is in the original, with the same flags, onto a page with equal contents |
| `PageCopy.Isolated` | src/kernel/mm/map.c:202-238 | the original translates as before; each low page of the copy is a new frame that the original does not use |
| `Lock.DownKeeps` | src/kernel/lock.c:30-44 | a round of sema_down keeps the invariant: it queues the task if the lock is owned and otherwise makes it the owner; its assertions hold |
| `Lock.UpKeeps` | src/kernel/lock.c:13-28 | sema_up keeps the invariant: the lock is free and the task queued last is on its way; its assertions hold |
| `Lock.LocalStep` | src/kernel/lock.c:53-77 | every other statement of lock_acquire and lock_release keeps the invariant and its assertion |
| `Lock.StepKeeps` | src/kernel/lock.c:7-77 | no step of any task can fail an assertion or break the invariant |
| `Lock.Safety` | src/kernel/lock.c:7-77 | at every point of every interleaving of any number of tasks: at most one task is inside, the value is 0 or 1, the count is the nesting depth of the holder, no assertion can fail |
| `Lock.NoLostWakeup` | src/kernel/lock.c:13-44 | whenever tasks are queued, the owner or a woken task about to test again is not blocked |
| `Lock.LastInFirstOut` | src/kernel/lock.c:13-44 | the task that queued last is woken first, and the others wait as before |
| `Fifo.WhichCapacities` | src/kernel/klib/fifo.c:4-5 | wrapping 64-bit counters can index a buffer of siz bytes if and only if siz divides 2^64 |
| `Fifo.ThreeFails` | src/kernel/klib/fifo.c:24-48 | a capacity of three: two queued bytes share a slot when the counter wraps |
| `Fifo.UsedIs` | src/kernel/klib/fifo.c:24-48 | tail - siz - head in 64-bit arithmetic is the number of queued bytes |
| `Fifo.Fifo.constructor` | src/kernel/klib/fifo.c:7-22 | an empty queue |
| `Fifo.Fifo.Write` | src/kernel/klib/fifo.c:24-35 | appends as many bytes as there is room for, and says how many, also across a wrap |
| `Fifo.Fifo.Read` | src/kernel/klib/fifo.c:37-48 | removes as many bytes as there are, up to the size, from the front |
| `Fifo.Fifo.Empty` | src/kernel/klib/fifo.c:55-58 | true if and only if nothing is queued |
| `Fifo.Fifo.Clear` | src/kernel/klib/fifo.c:60-64 | an empty queue |
| `Pipe.Channel.constructor` | src/kernel/fs/pipe.c:73-88 | no bytes, no waiters, a free lock |
| `Pipe.Channel.ReadSegment` | src/kernel/fs/pipe.c:29-45 | a round of the read loop up to block_as or the return; the lock is free again at the switch and the assertion of block_as holds |
| `Pipe.Channel.WriteSegment` | src/kernel/fs/pipe.c:47-63 | a round of the write loop likewise |
| `Pipe.Channel.CallRead` | src/kernel/fs/pipe.c:29-45 | a call takes one step of the pipe model |
| `Pipe.Channel.WakeRead` | src/kernel/fs/pipe.c:17-27 | resuming after task_block takes one step of the pipe model |
| `Pipe.Channel.CallWrite` | src/kernel/fs/pipe.c:47-63 | a call takes one step of the pipe model |
| `Pipe.Channel.WakeWrite` | src/kernel/fs/pipe.c:17-27 | resuming after task_block takes one step of the pipe model |
| `Pipe.StepKeeps` | src/kernel/fs/pipe.c:17-63 | every step keeps bytes in order: delivered, queued and pending are what was offered |
| `Pipe.Safety` | src/kernel/fs/pipe.c:17-63 | in every interleaving: delivered bytes are a prefix of those offered, the rest is queued or pending; a blocked reader means an empty queue, a blocked writer a full one, never both; a call that has returned moved all its bytes |
| `FileTable.Tables.FdGet` | src/kernel/file.c:10-19 | the lowest free descriptor from min on, or -EMFILE if and only if there is none |
| `FileTable.Tables.FileGet` | src/kernel/file.c:21-30 | the lowest free slot points to the new block |
| `FileTable.Tables.FilePut` | src/kernel/file.c:32-40 | clears the slot and frees its file, or -EMFILE |
| `FileTable.Tables.Open` | src/kernel/file.c:42-89 | a new file with refer 1 on the node of the lookup in the lowest slot, every other slot as before; or nothing changed: the error of the lookup, or -EINVAL for appending without writing |
| `FileTable.Tables.Close` | src/kernel/file.c:401-418 | clears that slot and no other; the file is closed and freed exactly when no slot of any task points to it any more, and nothing else is; -EBADF for an empty slot |
| `FileTable.Tables.Dup2` | src/kernel/file.c:463-480 | the new slot holds the file that the old one held, and no other slot changes; what the new slot held before is closed exactly when that was its last slot; -EBADF, and -EINVAL for equal descriptors |
| `FileTable.Tables.Dup` | src/kernel/file.c:482-489 | the lowest free descriptor holds the file of the old one and no other slot changes; -EMFILE if and only if there is none, otherwise -EBADF for an empty slot |
| `FileTable.Tables.MakePipe` | src/kernel/file.c:491-516 | two files on one node, one for reading and one for writing, in the two lowest free slots, each with refer 1; every other slot as before |
| `FileTable.Tables.ForkFd` | src/kernel/task.c:169-178 | the child holds in every slot the file the parent holds there, no other slot changes, and every refer is raised by the slots that share it |
| `FileTable.RemoveKeeps` | src/kernel/file.c:401-418 | refer reaches zero if and only if no other slot holds the file |
| `FileTable.LiveIffHeld` | src/kernel/file.c:10-89 | the live files are exactly those some slot points to |
| `FileSpec.OpenedSlots` | src/kernel/file.c:42-89 | what opening does to each slot |
| `FileSpec.ClearedSlots` | src/kernel/file.c:401-418 | what closing does to each slot, and which file is closed |
| `FileSpec.DuplicatedSlots` | src/kernel/file.c:463-480 | what dup2 does to each slot, and which file is closed |
| `FileSpec.ForkedSlots` | src/kernel/task.c:169-178 | what fork does to each slot |
| `FileSpec.ClearedKeeps` | src/kernel/file.c:401-418 | clearing a slot keeps: open files are those pointed to, and openings are balanced by closings and open files |
| `FileSpec.DuplicatedKeeps` | src/kernel/file.c:463-489 | sharing a slot keeps it |
| `FileSpec.ForkedKeeps` | src/kernel/task.c:169-178 | forking keeps it |
| `FileSpec.RunInv` | src/kernel/file.c:10-516 | over every run: no slot dangles, no file leaks, and every opening of a node is matched by one closing or one open file |
| `FileSpec.AllClosed` | src/kernel/file.c:10-516 | once every slot is cleared, every node was closed as often as opened |
| `BufferBlocks.Bucket` | src/kernel/dev/disk/buffer.c:21-24 | the bucket of a block is one of 32 |
| `BufferBlocks.OneSize` | src/kernel/dev/disk/buffer.c:100-153 | differently numbered blocks of a device are always disjoint if and only if they have one size |
| `BufferBlocks.SectorOffset` | src/kernel/dev/disk/buffer.c:115-119 | the sector address times the sector size is the block number times the block size |
| `BufferBlocks.LoadKeeps` | src/kernel/dev/disk/buffer.c:109-119 | loading one buffer leaves every buffer with other memory coherent |
| `BufferBlocks.StoreIff` | src/kernel/dev/disk/buffer.c:136-146 | writing b back leaves a coherent c coherent if and only if the two hold the same bytes wherever both cover the device |
| `BufferBlocks.StoreExact` | src/kernel/dev/disk/buffer.c:136-146 | that is so for all contents if and only if the blocks are disjoint |
| `BufferBlocks.MixedSizes` | src/kernel/dev/disk/buffer.c:101-146 | block 1 of 512 bytes and block 0 of 1024 on one device: a write-back of the first spoils the second |
| `BufferBlocks.WriteBackByte` | src/kernel/dev/disk/buffer.c:136-146 | a write-back of a coherent buffer with one byte changed changes exactly that byte of the device |
| `BufferBlocks.ReleaseExact` | src/kernel/dev/disk/buffer.c:149-153 | a release leaves the buffer equal to its block if and only if it was marked dirty or unchanged |
| `BufferBlocks.UnmarkedRelease` | src/kernel/dev/disk/buffer.c:149-153 | a concrete changed buffer that is released unmarked and differs from its block |
| `BufferCache.Cache.constructor` | src/kernel/dev/disk/buffer.c:155-160 | an empty cache |
| `BufferCache.Cache.FindAll` | src/kernel/dev/disk/buffer.c:26-38 | finds the buffer of a block if and only if there is one |
| `BufferCache.Cache.FillFree` | src/kernel/dev/disk/buffer.c:45-65 | the pages are carved into buffers of one size with disjoint memory |
| `BufferCache.Cache.FindFree` | src/kernel/dev/disk/buffer.c:74-98 | a free buffer of the size, off the list and not cached; terminates after at most one fill |
| `BufferCache.AssignKeeps` | src/kernel/dev/disk/buffer.c:107-123 | giving a free buffer a block and chaining it keeps the index exact, one buffer per block and memory disjoint |
| `BufferCache.Cache.Assign` | src/kernel/dev/disk/buffer.c:107-123 | the buffer is filled from the device and indexed; other buffers and their memory are untouched |
| `BufferCache.Cache.Get` | src/kernel/dev/disk/buffer.c:101-123 | the cached buffer of the block whatever its size, since the search ignores the size, or a new one of the size asked for, filled from the device; nothing else changes |
| `BufferCache.Cache.Bread` | src/kernel/dev/disk/buffer.c:101-128 | the only buffer of the block, locked by the task; a cached one keeps the size it was first read with; it equals the device block when first locked, if every unlocked buffer did |
| `BufferCache.Cache.Poke` | src/kernel/dev/disk/buffer.c:100-133 | the holder changing a byte keeps every unlocked buffer equal to its block |
| `BufferCache.Cache.Bdirty` | src/kernel/dev/disk/buffer.c:130-133 | sets the mark and nothing else |
| `BufferCache.Cache.Bwrite` | src/kernel/dev/disk/buffer.c:136-146 | a dirty buffer is written to its block and nowhere else; a clean one is not written |
| `BufferCache.Cache.Brelse` | src/kernel/dev/disk/buffer.c:149-153 | written if dirty, and unlocked; every unlocked buffer equals its block afterwards if and only if this one was dirty or equal or still locked, and a written one agrees with all others that overlap it; the latter always holds with one size per device |
| `BufferCache.StoreSettled` | src/kernel/dev/disk/buffer.c:136-146 | a write-back keeps all unlocked buffers equal to their blocks if and only if it agrees with every one that overlaps it |
| `BufferCache.ReleaseSettled` | src/kernel/dev/disk/buffer.c:149-153 | the same for a release, with the case of the released buffer itself |
| `BufferCache.OneSizedAgrees` | src/kernel/dev/disk/buffer.c:101-146 | with one size per device a buffer agrees with all others |
| `BufferCache.SizeKept` | src/kernel/dev/disk/buffer.c:101-128 | reading with the size in use keeps one size per device, and the buffer has that size |
| `BufferCache.Cache.ReadByte` | src/kernel/dev/disk/buffer.c:101-153 | bread, a load and brelse give the byte of the device and leave the device as it was |
| `BufferCache.Cache.WriteByte` | src/kernel/dev/disk/buffer.c:101-153 | bread, a store, bdirty and brelse change exactly that byte of the device |
| `BufferRun.ReadFits` | src/kernel/dev/disk/buffer.c:101-128 | bread by one of several tasks: the buffer holds what was last stored into the block by anyone |
| `BufferRun.PutFits` | src/kernel/dev/disk/buffer.c:101-133 | a store into a held block reaches no other block |
| `BufferRun.ReleaseSynced` | src/kernel/dev/disk/buffer.c:136-153 | brelse of a marked block brings its stores to the device, of an unmarked one none, and no other block changes |
| `BufferRun.Run` | src/kernel/dev/disk/buffer.c:101-153 | every run of bread, loads, stores, bdirty and brelse by any number of tasks holding any number of blocks, with one block size per device: every load gives what was last stored into that byte, and the device has every byte except in blocks stored into since they were last written |
| `BufferLocks.LockedForever` | src/kernel/dev/disk/buffer.c:101-128 | once the task inside the cache waits for a buffer of a task that waits to get in, no task enters the cache again |
| `BufferLocks.OtherwiseServed` | src/kernel/dev/disk/buffer.c:101-153 | otherwise the way in is free, or the buffer can be taken, or its holder is outside and can release it |
| `BufferLocks.OnlyByHeldCalls` | src/kernel/dev/disk/buffer.c:101-153 | in every run where no task calls bread while it holds a buffer, nobody is locked out |
| `BufferLocks.LockUp` | src/kernel/dev/disk/buffer.c:101-153 | a run of two tasks with one such call that locks up |
| `ShellTokens.LexWords` | src/app/sh.c:261-302 | every word token is a maximal run of word characters |
| `ShellTokens.LexCovers` | src/app/sh.c:261-302 | every word character of the line belongs to a word token |
| `Shell.GetToken` | src/app/sh.c:261-302 | returns the first token of the rest of the line with its bounds, and moves to the tokens after it |
| `Shell.PeekAt` | src/app/sh.c:304-312 | skips white space and tells whether the next token begins with one of the characters |
| `Shell.RedirsAt` | src/app/sh.c:357-377 | takes all redirections that come next, or fails if one lacks its file |
| `Shell.SimpleAt` | src/app/sh.c:391-417 | words and redirections in any order up to a separator, at most nine words, as `ShellSyntax.ArgsSound` says |
| `Shell.ExecAt` | src/app/sh.c:391-417 | a block or a simple command, as the grammar says |
| `Shell.BlockAt` | src/app/sh.c:379-389 | a line in parentheses and the redirections after it |
| `Shell.PipeAt` | src/app/sh.c:346-355 | commands joined by |, to the right |
| `Shell.BacksAt` | src/app/sh.c:331-344 | one Back for every & that follows |
| `Shell.LineAt` | src/app/sh.c:331-344 | terminates with the command the grammar gives for the tokens, and the tokens after it, or fails where the grammar fails |
| `ShellGrammar.LineUses` | src/app/sh.c:331-417 | the command uses every word of the tokens taken exactly as often as it occurs |
| `ShellSyntax.RedirsSound` | src/app/sh.c:357-377 | the redirections taken are those written, in that order |
| `ShellSyntax.ArgsSound` | src/app/sh.c:391-417 | the arguments are the words that are no file names, in the order of the line, and the redirections put around the command are those written, the last outermost |
| `ShellSyntax.LineSound` | src/app/sh.c:331-417 | what parseline takes is derived for its command by rules that speak only of where the separators stand |
| `ShellSyntax.ArgsComplete` | src/app/sh.c:391-417 | every sequence of at most nine words and redirections is taken whole up to a separator |
| `ShellSyntax.LineComplete` | src/app/sh.c:331-417 | whatever the rules derive is parsed to the command they derive it for |
| `ShellSyntax.Accepts` | src/app/sh.c:319-417 | a token sequence parses to a command if and only if the rules derive it for that command |
| `ShellShow.LineProper` | src/app/sh.c:331-417 | no command has more than MAXARGS - 1 arguments, and all arguments and files are words |
| `ShellShow.LineTrip` | src/app/sh.c:331-417 | a command tree written as a token sequence parses back to itself, before the end or a closing parenthesis |
| `ShellShow.RoundTrip` | src/app/sh.c:319-417 | every command tree with at most nine arguments per command has a token sequence that parses to exactly it |
| `ShellSpell.LineWords` | src/app/sh.c:331-417 | the words of a tree stand in its token sequence in the same order |
| `ShellSpell.LexSpell` | src/app/sh.c:261-302 | tokens spelled out with a space after each are found again by the lexer, and each word reads as it was spelled |
| `ShellSpell.Written` | src/app/sh.c:261-417 | for every command tree and every choice of texts for its words there is a line of characters that parses to a tree of that form with those texts |
| `Shell.NulTerminate` | src/app/sh.c:419-462 | writes a 0 at the end of each argument and file name and nowhere else |
| `Shell.ReadBack` | src/app/sh.c:419-462 | no 0 lands inside another word, so each word reads back as its text |
| `Shell.ParseBuffer` | src/app/sh.c:319-329 | succeeds if and only if the grammar accepts the whole line, which by `ShellSyntax.Accepts` is when the rules derive it; then every word of the line is used by the command and stands in the buffer as a string |
| `Fpu.Cpu.Schedule` | src/kernel/task.c:361-391 | a task switch leaves the FPU state of every task as it is |
| `Fpu.Cpu.Enable` | src/kernel/dev/fpu/fpu.c:13-24 | restores the save area, or initialises |
| `Fpu.Cpu.Handler` | src/kernel/dev/fpu/fpu.c:36-53 | the registers belong to the current task, and every task keeps its state |
| `Fpu.Cpu.Execute` | src/kernel/dev/fpu/fpu.c:36-53 | the instruction sees the state of its own task and changes no other |
| `Fpu.Cpu.Run` | src/kernel/dev/fpu/fpu.c:11-53 | in every sequence of switches and instructions each instruction sees exactly what the earlier instructions of its own task left, or the initial state |
| `Fpu.OwnUntouched` | src/kernel/dev/fpu/fpu.c:11-53 | what a task should see does not depend on switches and on instructions of others |
| `Sha256.Expand` | src/app/sha256sum.c:53-56 | the message schedule of section 6.2.2 of FIPS 180-4 |
| `Sha256.Transform` | src/app/sha256sum.c:49-89 | the compression of section 6.2.2, whose functions are pinned bit by bit and by the example of the standard |
| `Sha256.Context.constructor` | src/app/sha256sum.c:35-47 | the initial hash value and an empty message |
| `Sha256.Context.Update` | src/app/sha256sum.c:92-105 | the bytes are appended to the message: whole blocks are hashed, the rest is kept, the bit count is that of the blocks |
| `Sha256.LastBlock` | src/app/sha256sum.c:112-139 | with fewer than 56 bytes left over, the padded message ends in the block that sha256_final builds |
| `Sha256.LastTwoBlocks` | src/app/sha256sum.c:119-139 | otherwise in the two blocks it builds |
| `Sha256.Context.Final` | src/app/sha256sum.c:108-153 | the digest of everything given to Update, for messages under 2^61 bytes |
| `Sha256.Output` | src/app/sha256sum.c:141-152 | the eight words in order, most significant byte first |
| `Sha256.Sum` | src/app/sha256sum.c:155-165 | however the message is split into pieces, the result is the SHA-256 of the whole |
| `Sha256Spec.GapExact` | src/app/sha256sum.c:112-127 | the zeros of the padding are the only number below 64 that fills whole blocks |
| `Sha256Spec.PadWhole` | src/app/sha256sum.c:112-139 | the padded message is whole blocks |
| `Sha256Spec.HashSplit` | src/app/sha256sum.c:92-105 | hashing whole blocks first and the rest later is hashing all |
| `Sha256Constants.InitialHash` | src/app/sha256sum.c:35-47 | the initial words are the first 32 fractional bits of the square roots of 2, 3, 5, 7, 11, 13, 17 and 19 |
| `Sha256Constants.RoundConstants` | src/app/sha256sum.c:8-17 | the 64 constants are the first 32 fractional bits of the cube roots of the numbers of a written-out list of primes, from 2 to 311 |
| `Sha256Bits.ChBit` | src/app/sha256sum.c:28 | bit i of Ch is that of y where x has a one, and that of z elsewhere |
| `Sha256Bits.MajBit` | src/app/sha256sum.c:29 | bit i of Maj is one if and only if at least two of the three have it |
| `Sha256Bits.RotrBit` | src/app/sha256sum.c:27 | turning right by n brings bit i + n modulo 32 to bit i |
| `Sha256Bits.BigSigma0Bit` | src/app/sha256sum.c:30 | bit i is the exclusive or of bits i + 2, i + 13 and i + 22 modulo 32 |
| `Sha256Bits.BigSigma1Bit` | src/app/sha256sum.c:31 | bit i is the exclusive or of bits i + 6, i + 11 and i + 25 modulo 32 |
| `Sha256Bits.SmallSigma0Bit` | src/app/sha256sum.c:32 | bit i is the exclusive or of bits i + 7 and i + 18 modulo 32 and bit i + 3 |
| `Sha256Bits.SmallSigma1Bit` | src/app/sha256sum.c:33 | bit i is the exclusive or of bits i + 17 and i + 19 modulo 32 and bit i + 10 |
| `Sha256Bits.Beyond` | src/app/sha256sum.c:32-33 | there are no ones beyond bit 31, so a shift brings in zeros |
| `Sha256Bits.WordDigits` | src/app/sha256sum.c:53-54 | a word of the schedule has four bytes of the block for its digits to base 256, most significant first |
| `Sha256Bits.ByteDigits` | src/app/sha256sum.c:141-152 | the bytes put out are the digits of the word to base 256, most significant first |
| `Sha256Bits.LengthDigits` | src/app/sha256sum.c:130-138 | the length field holds the eight lowest digits of the bit length to base 256, the last byte the lowest |
| `Sha256Answer.Example` | src/app/sha256sum.c:35-153 | the digest of "abc" is ba7816bf 8f01cfea 414140de 5dae2223 b00361a3 96177a9c b410ff61 f20015ad, as the standard has it |
| `Stdio.Stream.StdioWrite` | src/app/libc/stdio/__stdio_op.c:31-64 | unless a write fails the buffer and the data are sent, in order, in however many partial writes; after a failure, what was sent is a prefix and the result is how much of the data it includes; nothing is sent if the first write fails |
| `Stdio.Stream.ToWrite` | src/app/libc/stdio/__towrite.c:4-19 | an empty write buffer, or the error flag on a read-only stream |
| `Stdio.Stream.Fputc` | src/app/libc/stdio/fputc.c:3-13 | the low byte is accepted, refused by a shut stream, or lost with the buffer to a failed write, and the result and error flag tell; an accepted one leaves the buffer free of newlines if and only if the argument is not another value with the low byte of a newline, put where there is room |
| `Stdio.Stream.Scan` | src/app/libc/stdio/fwrite.c:13-16 | the length up to the last newline, or 0 |
| `Stdio.Stream.Fwritex` | src/app/libc/stdio/fwrite.c:4-31 | also after earlier errors: all data is accepted in order, or none by a shut stream, or a failed write sends a prefix and the result counts the bytes of it; finished lines do not stay in the buffer |
| `Stdio.Stream.Fwrite` | src/app/libc/stdio/fwrite.c:33-40 | all elements if accepted, none if refused, and after a failed write the complete elements sent |
| `Stdio.Stream.Fflush` | src/app/libc/stdio/fflush.c:9-18 | everything accepted has been sent unless a write fails; the result is 0 even then, and the error flag tells |
| `Stdio.FlushLies` | src/app/libc/stdio/fflush.c:9-18 | a concrete stream where fflush returns 0 and the byte is lost |
| `Stdio.NewlineSlips` | src/app/libc/stdio/fputc.c:3-13 | fputc(266) on a line-buffered stream leaves a newline in the buffer |
| `Stdio.Stream.Run` | src/app/libc/stdio/__stdio_op.c:31-64 | over every sequence of fputc, fwrite and fflush without an error, bytes sent and then bytes buffered are the bytes given, in order |
| `Scheduler.Tasks.constructor` | src/kernel/task.c:318-321 | task 0 runs with its ticks, every other slot is free |
| `Scheduler.Tasks.GetNext` | src/kernel/task.c:325-343 | the first prepared task from the current one on, or none if and only if no task is prepared |
| `Scheduler.Tasks.UpdateSleep` | src/kernel/task.c:405-421 | every sleeping task but the current one has one tick less, and is prepared and off the list at zero |
| `Scheduler.Tasks.Dispatch` | src/kernel/task.c:371-391 | a running task with ticks left goes on with one less; otherwise it gets its ticks again and the first prepared task runs in its place; the other tasks keep their states and ticks |
| `Scheduler.Tasks.Schedule` | src/kernel/task.c:361-391 | sleeping tasks have one tick less and those at zero are prepared, and then exactly what Dispatch does: a running task is preempted if and only if its ticks are used up and another is prepared; exactly one task runs afterwards and no task that stays prepared was passed over |
| `Scheduler.Tasks.Sleep` | src/kernel/task.c:423-435 | the caller sleeps with its ticks ahead of it, and the first prepared task runs |
| `Scheduler.Tasks.Block` | src/kernel/task.c:437-442 | the caller is blocked and the first prepared task runs; no other state or tick changes but those of the timer |
| `Scheduler.Tasks.Unblock` | src/kernel/task.c:444-449 | the blocked task is prepared; one that was prepared already stays so |
| `Scheduler.Tasks.Exit` | src/kernel/task.c:256-274 | the caller is dead and the first prepared task runs; a parent blocked in a wait for it or for any child is ready and told which, any other blocked parent stays blocked |
| `Scheduler.Tasks.Depart` | src/kernel/task.c:256-272 | the caller is dead, and its parent is told if it waits for it or for any child |
| `Scheduler.Tasks.Create` | src/kernel/task.c:33-148 | when the table has room: prepared in the lowest free slot with TASK_TICKS ticks |
| `Scheduler.Tasks.GetFree` | src/kernel/task.c:20-27 | the lowest free slot, or -1 if there is none |
| `Scheduler.Tasks.Fork` | src/kernel/task.c:219-254 | the same for a child of the current task, with the ticks of its parent |
| `Scheduler.Tasks.HasChild` | src/kernel/task.c:287-296 | whether the current task has a child that is not dead |
| `Scheduler.Tasks.Wait` | src/kernel/task.c:276-307 | -ECHILD without such a child, or the caller is blocked with the child it waits for recorded, and another task runs |
| `Scheduler.Tasks.Collect` | src/kernel/task.c:309-317 | the slot of the child that ended the wait is free |
| `Scheduler.Nearer` | src/kernel/task.c:325-343 | a switch dispatches a prepared task or brings its turn nearer |
| `Scheduler.Turn` | src/kernel/task.c:325-391 | in every trace of current tasks, a task that stays prepared sees fewer than TASK_MAX - 1 switches |
| `Scheduler.DispatchPays` | src/kernel/task.c:371-391 | every tick that passes while a task stays prepared is paid from the ticks of those before it in turn |
| `Scheduler.InTime` | src/kernel/task.c:325-391 | in every trace, a task that stays prepared sees fewer than (TASK_MAX - 1) * (TASK_TICKS + 1) timer ticks |
| `Scheduler.Tasks.Do` | src/kernel/task.c:219-449 | whatever call is made, exactly one task runs afterwards, no task that stays prepared was passed over, and a timer tick is paid for |
| `Scheduler.Tasks.Perform` | src/kernel/task.c:219-449 | over every sequence of timer ticks, sleeps, blocks, exits, waits, wake-ups, creations and forks, a task that stays prepared sees fewer than TASK_MAX - 1 switches and fewer than (TASK_MAX - 1) * (TASK_TICKS + 1) timer ticks |
| `Checksum.TwoStepIs` | src/kernel/net/icmp.c:17-19 | the two-step fold is the one's-complement value of every 32-bit sum |
| `Checksum.LoopFold` | src/kernel/net/ip.c:15-18 | the loop fold terminates and equals the two-step fold on every 32-bit sum |
| `Checksum.Icmp` | src/kernel/net/icmp.c:5-20 | the complement of the one's-complement sum, odd lengths included |
| `Checksum.Tcp` | src/kernel/net/tcp.c:5-33 | the same over the pseudo-header of section 3.1 of RFC 9293 and the segment |
| `Checksum.PseudoSum` | src/kernel/net/tcp.c:5-28 | in network order that is the sum of the four words of the addresses, the protocol number 6, the length and the words of the segment |
| `Checksum.Ip` | src/kernel/net/ip.c:6-19 | the same over twenty bytes |
| `Checksum.Verifies` | src/kernel/net/icmp.c:5-20 | stored in its zeroed field at an even offset, the checksum makes the packet sum to 0xFFFF |
| `Checksum.OrderFree` | src/kernel/net/icmp.c:5-20 | a receiver adding the words in network order finds 0xFFFF if and only if one adding them low byte first does |

## Left out

- Hardware and firmware access, drivers, network protocols beyond the checksum, file systems, tty, sockets and small applications.
- `rbtree_fixup` on a node that has replaced another: it keeps the other's colour, which may be black.
- KernelHeap.KernelHeap.Free: requires an address that is null, beyond the heap or a live payload; what a comparison of two arbitrary words of the heap catches otherwise is not modelled.
- `realloc` and `calloc`; heaps of 2^29 bytes and more, whose sizes a tag cannot hold.
- Large pages: mappings are 4 KiB and queried addresses have no large page on their path. Entries keep eleven flag bits, so NX is not represented. TLB invalidation has no effect in the model, because every walk reads memory.
- `memset` of a page through the self-map is a single write of 512 words.
- ForkCopy.Windows.constructor: requires that the page table of the windows exists, as it does once a window has been mapped (`ForkCopy.FirstWindow`); the very first mapping also writes the top table.
- The physical page allocator; it appears only as a supply of distinct unused frames.
- Fairness of the lock; callers release only locks they hold, as the assertion in `lock_release` demands.
- `fifo_full`, which does not match the counter encoding; return values of `pipe_read` and `pipe_write`; more than one reader or writer.
- FileTable.Tables.Open: requires a free descriptor, as does FileTable.Tables.MakePipe, because `file_get` does not check the result of `fd_get`; `malloc` does not fail.
- `fcntl` duplication and socket descriptors; descriptors outside the table; exit, which closes no files.
- BufferCache.Cache.Bread: a step that is taken when the block is not locked by another task; how tasks wait for each other is modelled in `BufferLocks`. Sizes are multiples of the sector size, and block numbers times sizes do not overflow.
- Fifo.Fifo.constructor: requires a capacity that divides 2^64, as a page does; `Fifo.WhichCapacities` shows that others do not work.
- The hash function of the cache is a parameter of `BufferCache`, since nothing depends on it; `BufferBlocks.Bucket` is the one the kernel uses.
- FPU instructions before the first task switch; save areas that are not null in a new task, whose page is not cleared.
- Execution of parsed shell commands; nodes of the parse tree are values, so an argument vector is filled before its redirections are put around it.
- Sha256Constants.RoundConstants: does not prove that the numbers of its list are all the primes up to 311.
- `sha256_final` on messages of 2^61 bytes or more, for which SHA-256 is not defined.
- `writev` returning 0 with bytes left, after which the code tries again with nothing changed.
- Reading and seeking streams, flushing of all streams at once, overflow of size times count in `fwrite`.
- Scheduler.Tasks.Create: requires a free slot, as does Scheduler.Tasks.Fork, because the null result of `_task_create` is not checked; Scheduler.Tasks.Exit requires that the parent's slot is not free, because `table[tsk->ppid]` is not checked either.
- Scheduler.Tasks.Collect: requires that the wait was ended by the exit of a child; otherwise the code indexes the table with the number waited for.
- Scheduler.Tasks.Sleep: requires a task other than 0, as do Scheduler.Tasks.Block and Scheduler.Tasks.Exit; without the kernel task nothing may be left to run.
- Scheduler.Tasks.Unblock: requires a blocked or prepared task; the code would also wake a sleeping or dead one, whose entry in the list of sleeping tasks stays.
- Signals, priorities.
