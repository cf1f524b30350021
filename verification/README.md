# Verification of the OS simulator's state machines

A Dafny model of four components of the simulator, with proofs of what they promise. Sockets, logs and files are
plain state: arrays, sequences and maps. `dafny verify dfyconfig.toml` checks everything.

Each component comes in layers: an abstract specification that knows nothing of the implementation, functions and
lemmas about the concrete state as a value, and a class that updates arrays and fields in place, method by method as
the C code does, whose `Run` or `Execute` is proved against the specification.

| component | specification | values and lemmas | class |
|---|---|---|---|
| demand-paged memory | `FlatMemory` | `Bytes`, `Paging`, `ClockReplacement`, `PageFault`, `Capacity`, `Transfers`, `TransferBytes`, `PagedRequests`, `LostPage` | `PagedMemoryModel` |
| DialFS | `FileMap` | `DialFs` | `DialFsDisk` |
| segmented memory | `SegmentSpace` | `FreeList`, `SegmentLayout` | `SegmentedMemoryModel` |
| kernel queues and resources | `KernelState` | `KernelInvariants`, `KernelResources`, `KernelConservation`, `KernelOutcomes` | `KernelQueues` |
| deadlock detectors | `Snapshot`, `Banker.Safe`, `WaitGraph.HasCycle` | `DetectorsAgree`, `KernelDetectors` | methods of `Banker`, `WaitGraph` |

## Main results

* **Paged memory is one flat byte array per process, as long as no eviction loses data.** Over any run of create, write,
  read, grow, shrink and destroy by many processes, with any page accesses by other threads in the unlocked gaps of the
  two chunk loops: every request whose accesses lose no data is a step of the flat memory, in which a successful read
  returns the last bytes written, and zeros where nothing was written. An access loses data under an exact condition on
  the state before it (`AccessInvisible`); none does if the swap file only grows, or if all pages fit in RAM.
* **DialFS is a map from names to bytes**, through deletes, in-place growth, relocation and compaction of the whole
  disk. `truncate` succeeds exactly when it needs no more blocks, the following blocks are free (then it extends in place),
  or the disk has enough free blocks in all.
* **Segmented memory is one byte array per process**, free blocks and segments tile memory whatever sizes are asked for,
  allocation is exactly first fit, and a loaded program is fetched back line by line.
* **The kernel's queues, slots and lines of waiters agree in every reachable state**; every event leaves its process in
  exactly one stated place and moves nobody else; NEW is admitted in order of creation, nobody overtakes in READY, waiters
  are served in order of arrival, each exactly once per returned instance; instances are conserved.
* **The clock's hand is remembered**: every victim is the nearest idle page ahead of the stored hand, and with all use bits
  set successive evictions go round the frames.
* **The detectors are exact**: the banker's simulation decides whether a safe order exists, the depth-first search
  decides whether the wait-for graph has a cycle; in reachable states unsafe implies a cycle or a process waiting
  for what only it holds, and with single instances the two verdicts agree but for the latter.

## Where the code differs from what it promises

The model follows the code, and states exactly when the promise holds.

* `swap.c:38` sets the size of the file on every swap-out, so writing page n drops the stored pages above n, although
  the comment above it only asks for enough room. The constant `growOnly` of `PagedMemory` selects the code's
  behaviour (`false`) or the promised one (`true`). `SwapContractExact`, `EvictionExact` and `AccessInvisible` give the
  exact condition under which no process sees a difference, and `LosesByte` a run of four requests in which a byte is lost.
  `Loses` says of a request, from the state before it, whether some access during it loses data, its own or another
  thread's; `RequestStep` proves the refinement for every request that does not, and `HistoryLossless` that none does
  when `growOnly`, or in a run during whose transfers all pages fit in RAM.
* `paginas_io.c:19` and `:47` look at `presente` without holding the lock. A transfer that fits stops with `false` after a
  prefix exactly when, in some attempt at a chunk, the accesses of other threads between obtaining the page and that
  check evict it (`CutIsEviction`, `PlayExact`); the check under the second lock is enough for the rest. With one frame any
  access to another page does it (`OneFrameCuts`); it cannot happen without interference or while all pages fit in RAM
  (`QuietNeverCut`, `FitNeverCut`). All three unlocked gaps of an attempt are modelled.
* Growing a process again shows pages that swap still stores from before it shrank. Bytes beyond the largest size the
  process has had are zero.
* Compaction skips files whose name contains `.metadata` (`dialfs_bitmap.c:90-91`); `CompactionExact` says that this
  breaks the disk exactly when such a file has blocks.
* A segment of size zero that gives its place back can leave the free list out of order, and then blocks that touch may
  stay apart. `MoveKeepsOrder` gives the exact condition; `EmptyButRefused` is a run after which no process is left and
  a process of the size of the whole memory is refused. No address is lost or given twice even then (`MoveTiled`).
* A line of 64 bytes or more is not fetched back (`LoadThenFetch` is an equivalence).
* A segmentation fault does not release what the process holds (`cpu_handlers.c:36-40`). Finished processes hold nothing
  if and only if no executing holder has faulted (`StepExitExact`, `RunExit`); `FaultyRunLeaks` is such a run.
* A SIGNAL by a process that does not hold the resource adds an instance, in particular that of a process killed
  meanwhile (`KilledWhileSignalling`). `Conserved` counts these.
* While the long-term scheduler waits for a slot it has already taken the token of a process in NEW, so `sem_hay_new` alone
  may be one below the length of the queue (`TokenTaken`); with that token it never is.
* A process that waits for a resource of which it is the only holder is a deadlock the banker sees and the wait-for graph,
  which has no edge from a process to itself, does not.
* With several instances per resource a cycle may be harmless (`CycleMayBeSafe`).

## Model

| member | source | states |
|---|---|---|
| Paging.SwapContractExact | TP_Estructura_Base/memoria/src/swap/swap.c:26-49 | writing page n leaves every other stored page as it was if and only if the file never shrinks or holds only zeros above page n |
| Paging.SwapContractFails | TP_Estructura_Base/memoria/src/swap/swap.c:37-38 | two stored pages where swapping out the lower one loses the upper one |
| Paging.EvictionExact | TP_Estructura_Base/memoria/src/gestion/paginas.c:187-213 | evicting a present page changes no byte any process sees if and only if: when it is written out, the file only grows or every page above it is in RAM or stored as zeros; when it is not, its frame equals its stored copy |
| Paging.EvictionCleanExact | TP_Estructura_Base/memoria/src/gestion/paginas.c:187-213 | where every unmodified page equals its stored copy, evicting a page is invisible and leaves this so if and only if it is not written out, the file only grows, or every page above it is modified in RAM or stored as zeros |
| Paging.EvictFrames | TP_Estructura_Base/memoria/src/gestion/paginas.c:187-213 | after an eviction every frame but the victim's still has exactly one owner, and the victim's has none |
| Paging.LoadFrames | TP_Estructura_Base/memoria/src/gestion/paginas.c:215-233 | after loading a page into a reserved frame, set bits and present pages are again in bijection |
| Paging.LoadView | TP_Estructura_Base/memoria/src/gestion/paginas.c:215-233 | loading changes no byte of any process, and the loaded page is clean |
| Paging.StoreFlat | TP_Estructura_Base/memoria/src/gestion/paginas_io.c:27-29 | a chunk copied into the frame of its page is a splice of the flat bytes at the logical address, and no other process changes |
| Paging.ReadFlat | TP_Estructura_Base/memoria/src/gestion/paginas_io.c:55 | a chunk copied from the frame of its page is the slice of the flat bytes at the logical address |
| Paging.GrownFlat | TP_Estructura_Base/memoria/src/gestion/paginas.c:110-119 | growing keeps all old bytes; the new pages show what swap still stores for them |
| Paging.RestoredZeros | TP_Estructura_Base/memoria/src/gestion/paginas.c:110-119 | regrown bytes are zero beyond the largest number of pages the process has had |
| Paging.ShrunkFlat | TP_Estructura_Base/memoria/src/gestion/paginas.c:120-129 | shrinking keeps exactly the bytes of the remaining pages |
| ClockReplacement.ClearUseKeeps | TP_Estructura_Base/memoria/src/gestion/reemplazo.c:85-86 | clearing use bits changes no owner, no byte and no clean page |
| ClockReplacement.ClockWithinOneTurn | TP_Estructura_Base/memoria/src/gestion/reemplazo.c:61-92 | with every frame taken the sweep ends within one turn plus one step; the extra step is made exactly when all use bits were set, and then the victim is the frame under the hand |
| PageFault.ClockDeterministic | TP_Estructura_Base/memoria/src/gestion/reemplazo.c:61-92 | the description of the sweep has a single outcome |
| PageFault.EvictionEnds | TP_Estructura_Base/memoria/src/gestion/reemplazo.c:10-92 | from the stored hand: the victim is the page nearest ahead of the hand whose use bit is clear, and the one in the frame under the hand when all bits are set; the new page is in its frame, in use and unmodified, and the hand is stored one past it |
| PageFault.EvictionClears | TP_Estructura_Base/memoria/src/gestion/reemplazo.c:75-83 | the use bits of the pages between the hand and the victim are cleared, all of them when every bit was set, and nothing else of any other page changes |
| PageFault.TwoEvictionsDiffer | TP_Estructura_Base/memoria/src/gestion/reemplazo.c:10-11 | two successive evictions with all use bits set take frames hand and hand + 1 (mod their number), whatever hits happen in between: the hand is remembered |
| PageFault.HitEnds | TP_Estructura_Base/memoria/src/gestion/paginas.c:154-159 | a hit sets the use bit and changes nothing else, the hand included |
| PageFault.FreeFaultEnds | TP_Estructura_Base/memoria/src/gestion/paginas.c:164-233 | a fault with a free frame takes the lowest and leaves hand and use bits alone |
| PageFault.AccessServes | TP_Estructura_Base/memoria/src/gestion/paginas.c:135-239 | any access (hit, free frame, eviction) keeps the frame bijection and leaves the page present with its use bit set |
| PageFault.AccessInvisible | TP_Estructura_Base/memoria/src/gestion/paginas.c:135-239 | an access changes no byte any process sees if and only if it does not evict a page whose eviction is visible; the condition is on the state before the access |
| PageFault.GrowOnlyAccess | TP_Estructura_Base/memoria/src/swap/swap.c:26-49 | with a file that only grows, and unmodified pages equal to their stored copies, no access loses data and this stays so |
| PageFault.AccessCanLoseData | TP_Estructura_Base/memoria/src/swap/swap.c:38 | a concrete state, with the use bit set as after any access, in which reading back a page returns zeros in place of the bytes last stored |
| LostPage.LosesByte | TP_Estructura_Base/memoria/src/swap/swap.c:37-38 | a run from the empty memory (create two bytes, write both, read the upper one) in which the answer is 0 and not the byte written; the two writes lose nothing, the eviction during the read does |
| Capacity.MissingMeansRoom | TP_Estructura_Base/memoria/src/gestion/paginas.c:164-213 | as long as all pages of all processes fit in RAM, a missing page finds a free frame, so nothing is evicted |
| Capacity.FitLosesNothing | TP_Estructura_Base/memoria/src/swap/swap.c:37-38 | and then no access loses data, even with the truncating file |
| Transfers.AccessExists | TP_Estructura_Base/memoria/src/gestion/paginas.c:135-239 | with some RAM, every access to an existing page succeeds |
| Transfers.ObtainServes | TP_Estructura_Base/memoria/src/gestion/paginas.c:135-239 | the page is in RAM afterwards and frame ownership is still a bijection |
| Transfers.PlayKeeps | TP_Estructura_Base/memoria/src/gestion/paginas_io.c:9-62 | whatever other threads access, a transfer leaves the frame bijection and the length of every table as they were |
| Transfers.CutIsEviction | TP_Estructura_Base/memoria/src/gestion/paginas_io.c:18-19 | an attempt at a chunk is cut exactly when the accesses of other threads between obtaining the page and the unlocked check evict that page again |
| Transfers.PlayExact | TP_Estructura_Base/memoria/src/gestion/paginas_io.c:12-33 | under any interference a transfer succeeds exactly when it is empty, or fits, there is RAM and no attempt is cut; uncut and not fitting, it stops at the end of the address space |
| Transfers.CopyMarks | TP_Estructura_Base/memoria/src/gestion/paginas_io.c:27-29 | the copy of a chunk sets the use bit, the modified bit exactly for a write, and moves no page |
| Transfers.QuietNeverCut | TP_Estructura_Base/memoria/src/gestion/paginas_io.c:12-33 | without interfering accesses no transfer is cut |
| Transfers.FitNeverCut | TP_Estructura_Base/memoria/src/gestion/paginas_io.c:12-33 | as long as all pages fit in RAM no transfer is cut, whatever other threads access |
| Transfers.OneFrameCuts | TP_Estructura_Base/memoria/src/gestion/paginas_io.c:19 | with one frame, any access to another page in that gap cuts the transfer at its first byte |
| TransferBytes.ObtainExact | TP_Estructura_Base/memoria/src/gestion/paginas.c:135-239 | asking for any page, existing or not, changes no byte any process sees if and only if it does not lose data |
| TransferBytes.BurstLosesExact | TP_Estructura_Base/memoria/src/gestion/paginas_io.c:12-33 | the accesses of other threads in one gap lose data if and only if one of them changes what some process sees |
| TransferBytes.PlayMoves | TP_Estructura_Base/memoria/src/gestion/paginas_io.c:9-62 | under any interference, and however it ends, a transfer none of whose accesses loses data moves exactly the bytes it counts: a write changed those bytes of its process and nothing else of anybody, a read got what they were |
| TransferBytes.PlayLossless | TP_Estructura_Base/memoria/src/gestion/paginas_io.c:9-62 | no access of any transfer loses data while all pages fit in RAM, nor on a file that only grows, and either condition still holds at its end |
| PagedRequests.RequestKeeps | TP_Estructura_Base/memoria/src/gestion/paginas.c:29-239 | every request keeps the frame bijection, only living processes have a swap file, and tables and files stay within the largest size each process has had |
| PagedRequests.RequestStep | TP_Estructura_Base/memoria/src/gestion/paginas.c:29-239 | every request none of whose accesses loses data is a step of the flat memory, cut short exactly when the reference transfer is; from any state, also after earlier losses |
| PagedRequests.GrowOnlyRequest | TP_Estructura_Base/memoria/src/swap/swap.c:26-49 | on a file that only grows no request loses data |
| PagedRequests.HistoryLossless | TP_Estructura_Base/memoria/src/swap/swap.c:26-49 | a run loses nothing on a file that only grows, nor if all pages fit in RAM whenever it reads or writes |
| PageFault.ChunkWritten | TP_Estructura_Base/memoria/src/gestion/paginas_io.c:27-29 | one chunk of a write changes exactly its bytes of its process |
| FlatMemory.ByteKept | TP_Estructura_Base/memoria/src/gestion/paginas.c:135-239 | across any stretch of a run that does not touch it, a byte keeps its value, whatever is evicted or reloaded meanwhile |
| FlatMemory.ReadsLastWrite | TP_Estructura_Base/memoria/src/gestion/paginas_io.c:9-62 | a successful read returns at each address the last byte written there |
| FlatMemory.ReadsZeroIfUntouched | TP_Estructura_Base/memoria/src/gestion/paginas_io.c:37-62 | bytes of a new process read as zero until something touches them |
| PagedMemoryModel.PagedMemory.PhysRead | TP_Estructura_Base/memoria/src/gestion/memoria_ram.c:25-32 | succeeds exactly inside RAM and returns those bytes |
| PagedMemoryModel.PagedMemory.PhysWrite | TP_Estructura_Base/memoria/src/gestion/memoria_ram.c:34-41 | succeeds exactly inside RAM and changes exactly those bytes |
| PagedMemoryModel.PagedMemory.SwapOut | TP_Estructura_Base/memoria/src/swap/swap.c:26-49 | the swap file becomes what `SwapWrite` says, in the truncating or the grow-only reading |
| PagedMemoryModel.PagedMemory.SwapIn | TP_Estructura_Base/memoria/src/swap/swap.c:51-72 | succeeds exactly when the page lies in the file, and returns it |
| PagedMemoryModel.PagedMemory.TakeFreeFrame | TP_Estructura_Base/memoria/src/frames/frames.c:43-54 | takes the lowest free frame, or reports that all are taken |
| PagedMemoryModel.PagedMemory.ChooseVictim | TP_Estructura_Base/memoria/src/gestion/reemplazo.c:10-92 | finds a victim exactly when some frame is owned; counted from the stored hand it is the nearest page with a clear use bit, else the nearest page, else with all frames taken the one under the hand; exactly the frames passed over lose their use bit; the hand ends one past the victim |
| PagedMemoryModel.PagedMemory.ObtainEntry | TP_Estructura_Base/memoria/src/gestion/paginas.c:135-239 | succeeds exactly when the page exists and there is RAM, and then it is present; the new state is the one outcome of the access relation |
| PagedMemoryModel.PagedMemory.OtherThreads | TP_Estructura_Base/memoria/src/gestion/paginas_io.c:12-33 | any page accesses by other threads in one gap leave exactly the state of the reference burst |
| PagedMemoryModel.PagedMemory.Reach | TP_Estructura_Base/memoria/src/gestion/paginas_io.c:18-26 | fails exactly when there is no such page or RAM, or the page is absent at the unlocked check; is to be retried exactly when the page is absent under the lock; the state is then the reference's |
| PagedMemoryModel.PagedMemory.TryWrite | TP_Estructura_Base/memoria/src/gestion/paginas_io.c:13-32 | one attempt at a chunk has the outcome and the state of the reference's attempt |
| PagedMemoryModel.PagedMemory.TryRead | TP_Estructura_Base/memoria/src/gestion/paginas_io.c:41-59 | one attempt at a chunk has the outcome, the bytes and the state of the reference's attempt |
| PagedMemoryModel.PagedMemory.Write | TP_Estructura_Base/memoria/src/gestion/paginas_io.c:9-35 | for any interference, the answer, the number of bytes written and the final state are those of the reference transfer, whose success condition is exact |
| PagedMemoryModel.PagedMemory.Read | TP_Estructura_Base/memoria/src/gestion/paginas_io.c:37-62 | the same, and the bytes read are those of the reference transfer |
| PagedMemoryModel.PagedMemory.Create | TP_Estructura_Base/memoria/src/gestion/paginas.c:29-62 | succeeds exactly for a new pid, with the pages needed for the size, all absent |
| PagedMemoryModel.PagedMemory.DestroyTable | TP_Estructura_Base/memoria/src/gestion/paginas.c:64-85 | the table goes and the frames of its present pages become free (the bijection is kept) |
| PagedMemoryModel.PagedMemory.Resize | TP_Estructura_Base/memoria/src/gestion/paginas.c:87-133 | succeeds exactly for an existing process; keeps the remaining entries, appends absent ones, frees the frames of dropped ones |
| PagedMemoryModel.PagedMemory.Execute | TP_Estructura_Base/memoria/src/gestion/paginas.c:29-239 | every request answers and changes the whole state exactly as the reference transition says |
| PagedMemoryModel.PagedMemory.Run | TP_Estructura_Base/memoria/src/gestion/paginas.c:29-239 | every run is a run of the reference; each of its requests whose accesses lose no data is a step of the flat memory; the whole run is a run of the flat memory when the store only grows, or when all pages fit in RAM whenever it reads or writes |
| FileMap.ByteKept | TP_Estructura_Base/entradasalida/src/interfaces/dialfs.c:138-347 | a byte of a file keeps its value across any requests that do not touch it, even when the disk is compacted |
| FileMap.ReadsLastWrite | TP_Estructura_Base/entradasalida/src/interfaces/dialfs.c:293-347 | a successful read returns at each offset the last byte written there |
| DialFs.FreeRunNeedsSpace | TP_Estructura_Base/entradasalida/src/interfaces/dialfs_bitmap.c:28-45 | a run of free blocks needs that many free blocks in all |
| DialFs.FreeCountExact | TP_Estructura_Base/entradasalida/src/interfaces/dialfs_bitmap.c:28-45 | free space is the number of clear bits |
| DialFs.ReassignedConsistent | TP_Estructura_Base/entradasalida/src/interfaces/dialfs.c:181-291 | giving one file another run of available blocks keeps bitmap and metadata in agreement |
| DialFs.ReassignedContents | TP_Estructura_Base/entradasalida/src/interfaces/dialfs.c:181-291 | and leaves the bytes of every other file as they were |
| DialFs.CompactionExact | TP_Estructura_Base/entradasalida/src/interfaces/dialfs_bitmap.c:73-172 | compaction keeps bitmap and metadata in agreement if and only if every file with blocks is one it finds |
| DialFs.MissedBreaks | TP_Estructura_Base/entradasalida/src/interfaces/dialfs_bitmap.c:90-91 | any file with blocks whose name contains ".metadata" ends with blocks marked free or given to another file |
| DialFs.CompactionKeeps | TP_Estructura_Base/entradasalida/src/interfaces/dialfs_bitmap.c:73-172 | compaction keeps every file's bytes and the amount of free space, and leaves the free blocks as one suffix |
| DialFs.CompactionOrder | TP_Estructura_Base/entradasalida/src/interfaces/dialfs_bitmap.c:112-150 | every file compaction finds moves down or stays, and the files keep their order |
| DialFs.ResizedByMoving | TP_Estructura_Base/entradasalida/src/interfaces/dialfs.c:253-265 | moving a file to a free run keeps its bytes and everybody else's |
| DialFs.ResizedInPlace | TP_Estructura_Base/entradasalida/src/interfaces/dialfs.c:225-236 | growing or shrinking in place keeps the common bytes and every other file |
| DialFs.OnlyFileGrows | TP_Estructura_Base/entradasalida/src/interfaces/dialfs.c:219-236 | the only file with blocks, at the start of the disk, can be truncated exactly to the sizes up to the whole disk |
| DialFsDisk.FileSystem.LoadFcb | TP_Estructura_Base/entradasalida/src/interfaces/dialfs_metadata.c:19-40 | the stored control block, or an empty one for an unknown name |
| DialFsDisk.FileSystem.FindContiguous | TP_Estructura_Base/entradasalida/src/interfaces/dialfs_bitmap.c:28-45 | the lowest free run of that length, or -1 exactly when there is none (0 for a length of 0) |
| DialFsDisk.FileSystem.Compact | TP_Estructura_Base/entradasalida/src/interfaces/dialfs_bitmap.c:73-172 | moved files slide down in order of first block with their bytes, the bitmap becomes one used prefix, files not found keep their control blocks |
| DialFsDisk.FileSystem.Create | TP_Estructura_Base/entradasalida/src/interfaces/dialfs.c:138-155 | succeeds exactly for a new name; adds an empty file and changes nothing else |
| DialFsDisk.FileSystem.Delete | TP_Estructura_Base/entradasalida/src/interfaces/dialfs.c:157-179 | succeeds exactly for an existing name; frees its blocks and keeps all other contents |
| DialFsDisk.FileSystem.FindOrCompact | TP_Estructura_Base/entradasalida/src/interfaces/dialfs.c:237-251 | after at most one compaction a free run is found exactly when the disk has that many free blocks; no content changes |
| DialFsDisk.FileSystem.GrowEmpty | TP_Estructura_Base/entradasalida/src/interfaces/dialfs.c:203-218 | growing a file without blocks succeeds exactly when the disk has enough free blocks in all, and takes the lowest run if there is one; if compaction found every file before, it does afterwards exactly when it finds this one |
| DialFsDisk.FileSystem.GrowFile | TP_Estructura_Base/entradasalida/src/interfaces/dialfs.c:219-267 | if the blocks following the file exist and are clear it grows in place: same start, no other file and no byte touched; otherwise it succeeds exactly when the disk has enough free blocks for the whole new size, and goes to the lowest run if there is one |
| DialFsDisk.FileSystem.Shrink | TP_Estructura_Base/entradasalida/src/interfaces/dialfs.c:268-285 | frees the blocks beyond the new size and keeps the common bytes |
| DialFsDisk.FileSystem.Truncate | TP_Estructura_Base/entradasalida/src/interfaces/dialfs.c:181-291 | succeeds exactly when no more blocks are needed, the following blocks exist and are clear, or the disk has enough free blocks; in the first two cases the file stays where it is and no byte moves; the first min(old, new) bytes are kept, every other file is unchanged, and a failure changes no content; if compaction found every file with blocks it still does, unless this one got blocks and has a name it misses |
| DialFsDisk.FileSystem.Write | TP_Estructura_Base/entradasalida/src/interfaces/dialfs.c:293-320 | succeeds exactly when the range lies in a non-empty file, and changes exactly that range |
| DialFsDisk.FileSystem.Read | TP_Estructura_Base/entradasalida/src/interfaces/dialfs.c:322-347 | succeeds under the same condition and returns that range |
| DialFsDisk.FileSystem.Execute | TP_Estructura_Base/entradasalida/src/interfaces/dialfs.c:138-347 | every request is a step of the map from names to bytes, and bitmap and metadata agree afterwards |
| DialFsDisk.FileSystem.Run | TP_Estructura_Base/entradasalida/src/interfaces/dialfs.c:138-347 | every run refines a run of the map from names to bytes, if no file whose name compaction misses has or gets blocks, or if no file gets blocks at all |
| DialFsDisk.ThreeThenFour | TP_Estructura_Base/entradasalida/src/interfaces/dialfs.c:219-236 | on a disk of four blocks a file of three grows to four, though only one block is free |
| DialFsDisk.SpaceAccounting | TP_Estructura_Base/entradasalida/src/interfaces/dialfs_bitmap.c:21-24 | the used blocks are exactly as many as all files need for their sizes |
| Banker.StuckMeansUnsafe | TP_Estructura_Base/kernel/src/deteccion_deadlock/banquero.c:113-138 | when no remaining process fits, no order of all processes exists: the greedy choice misses nothing |
| Banker.Allocation | TP_Estructura_Base/kernel/src/deteccion_deadlock/banquero.c:60-77 | each cell counts the entries of that resource the process holds |
| Banker.Need | TP_Estructura_Base/kernel/src/deteccion_deadlock/banquero.c:79-103 | a process needs one instance of the resource it is blocked on and nothing else |
| Banker.Pass | TP_Estructura_Base/kernel/src/deteccion_deadlock/banquero.c:114-136 | one pass extends a safe order by the processes it finishes; if it finishes none, the order cannot be extended |
| Banker.EstadoSeguro | TP_Estructura_Base/kernel/src/deteccion_deadlock/banquero.c:13-154 | true exactly when some order of all active processes lets each one's need fit; terminates |
| WaitGraph.FinishedAcyclic | TP_Estructura_Base/kernel/src/deteccion_deadlock/grafo_espera.c:69-110 | no cycle passes only through nodes the search has left |
| WaitGraph.Rebuild | TP_Estructura_Base/kernel/src/deteccion_deadlock/grafo_espera.c:89-98 | the list rebuilt from the parents is a cycle of distinct nodes, never cut short by its bound |
| WaitGraph.Dfs | TP_Estructura_Base/kernel/src/deteccion_deadlock/grafo_espera.c:69-110 | either reports a genuine cycle or leaves the node and all it reaches finished, without visiting a node twice |
| WaitGraph.FindCycle | TP_Estructura_Base/kernel/src/deteccion_deadlock/grafo_espera.c:181-207 | started at every unvisited node, the search succeeds exactly when the graph has a cycle |
| WaitGraph.EdgeMeans | TP_Estructura_Base/kernel/src/deteccion_deadlock/grafo_espera.c:23-65 | one process waits for another exactly when it is blocked on a resource the other, different, process holds |
| WaitGraph.CycleNeedsTwo | TP_Estructura_Base/kernel/src/deteccion_deadlock/grafo_espera.c:177-179 | the early exit for fewer than two blocked processes never hides a cycle |
| WaitGraph.BuildGraph | TP_Estructura_Base/kernel/src/deteccion_deadlock/grafo_espera.c:112-175 | one node per active process with the resource it waits for and the other processes that hold it, and the number of blocked ones |
| WaitGraph.DetectDeadlock | TP_Estructura_Base/kernel/src/deteccion_deadlock/grafo_espera.c:112-230 | true exactly when the wait-for graph has a cycle; then a cycle of distinct processes is reported |
| DetectorsAgree.UnsafeImpliesCycle | TP_Estructura_Base/kernel/src/deteccion_deadlock/banquero.c:79-138 | with accounted resources and no process that waits for what only it holds, an unsafe banker's verdict means there is a cycle |
| DetectorsAgree.SelfBlockedImpliesUnsafe | TP_Estructura_Base/kernel/src/deteccion_deadlock/banquero.c:79-138 | a process that waits for a resource of which it is the only holder makes the verdict unsafe |
| DetectorsAgree.CycleImpliesUnsafe | TP_Estructura_Base/kernel/src/deteccion_deadlock/grafo_espera.c:112-230 | with one instance per resource, a cycle means an unsafe verdict |
| DetectorsAgree.SingleInstanceAgreement | TP_Estructura_Base/kernel/src/peticiones/interrupciones_handlers.c:51-60 | with one instance per resource, safe means exactly that there is neither a cycle nor a process waiting for what it holds |
| DetectorsAgree.CycleMayBeSafe | TP_Estructura_Base/kernel/src/peticiones/interrupciones_handlers.c:51-60 | with more instances a state exists with a cycle and a safe verdict |
| FreeList.TakeExact | TP_Estructura_Base/memoria/src/gestion/segmentacion.c:64-73 | taking from the front of a block, in any list without overlaps, removes exactly those addresses and keeps the order if there was one |
| FreeList.ReturnCovers | TP_Estructura_Base/memoria/src/gestion/segmentacion.c:283-315 | returning a block of any size to any list without overlaps, and merging, frees exactly its addresses, each once |
| FreeList.ReturnKeepsOrder | TP_Estructura_Base/memoria/src/gestion/segmentacion.c:283-315 | the order survives if and only if the block is not empty or a free block ends where it lies; an empty block may lie anywhere, also inside a free one |
| SegmentLayout.EmptyButRefused | TP_Estructura_Base/memoria/src/gestion/segmentacion.c:108-131 | seven requests from the initial state, each successful (three processes, one shrunk to nothing, all destroyed), after which no process is left but a process of the size of the whole memory is refused |
| FreeList.OneBlock | TP_Estructura_Base/memoria/src/gestion/segmentacion.c:301-315 | a sorted list that covers all of memory is the single initial block |
| SegmentSpace.OthersInvisible | TP_Estructura_Base/memoria/src/gestion/segmentacion.c:43-258 | a process keeps its whole memory whatever other processes do |
| SegmentSpace.LoadThenFetch | TP_Estructura_Base/memoria/src/gestion/memoria_core.c:84-102 | after loading, every instruction is fetched back if and only if no line is longer than 63 bytes |
| SegmentedMemoryModel.ProgramFetches | TP_Estructura_Base/memoria/src/gestion/segmentacion.c:260-271 | the same for the memory of a process that was created with a program |
| SegmentedMemoryModel.FetchesStay | TP_Estructura_Base/memoria/src/gestion/segmentacion.c:260-271 | fetching keeps returning the program's lines through any run in which the process's own memory is only read |
| SegmentLayout.Retile | TP_Estructura_Base/memoria/src/gestion/segmentacion.c:43-197 | moving addresses between the free list and one segment keeps the tiling of memory |
| SegmentLayout.MoveTiled | TP_Estructura_Base/memoria/src/gestion/segmentacion.c:43-197 | every create, destroy and resize, of whatever size including 0, keeps every address free once or in exactly one segment |
| SegmentLayout.MoveKeepsOrder | TP_Estructura_Base/memoria/src/gestion/segmentacion.c:43-197 | a request keeps the free list in order if and only if no empty segment gives its place back where no free block ends |
| SegmentLayout.PositiveKeepsOrder | TP_Estructura_Base/memoria/src/gestion/segmentacion.c:43-197 | with positive sizes only, the list stays in order and no segment is empty |
| SegmentLayout.EmptyIsOneBlock | TP_Estructura_Base/memoria/src/gestion/segmentacion.c:301-315 | without segments the free list is the single initial block if and only if it is in order |
| SegmentLayout.EmptyTakesAll | TP_Estructura_Base/memoria/src/gestion/segmentacion.c:43-88 | an empty memory in order accepts a process exactly when it is not larger than the memory |
| SegmentLayout.CreateLowest | TP_Estructura_Base/memoria/src/gestion/segmentacion.c:55-81 | a process is accepted exactly when its pid is new and some free block is large enough; it gets the front of the first such block of the list, every block before it being too small |
| SegmentLayout.CreateAtLowestAddress | TP_Estructura_Base/memoria/src/gestion/segmentacion.c:275-281 | in a list in order that is the lowest address with room |
| SegmentLayout.ResizePlaces | TP_Estructura_Base/memoria/src/gestion/segmentacion.c:108-197 | a resize succeeds exactly when the segment does not grow, a block that starts right after it has room for the growth, or some block has room for the whole new size; in the first two cases it stays, else it goes to the first block with room |
| SegmentLayout.MoveDeterministic | TP_Estructura_Base/memoria/src/gestion/segmentacion.c:43-197 | a request has one outcome |
| SegmentLayout.LowestThenRefused | TP_Estructura_Base/memoria/src/gestion/segmentacion.c:275-281 | a run in which the lowest of two fitting blocks must be taken, so that a later process is refused; no other outcome is possible |
| SegmentedMemoryModel.TransitionStep | TP_Estructura_Base/memoria/src/gestion/segmentacion.c:43-258 | every request, of whatever size, is a step of the one-byte-array-per-process memory: a resize keeps the first min(old, new) bytes wherever the segment goes, and nobody else sees it |
| SegmentedMemoryModel.TransitionPlaces | TP_Estructura_Base/memoria/src/gestion/segmentacion.c:43-197 | the same placement for the transition with RAM |
| SegmentedMemoryModel.SegmentedMemory.FindFirstFit | TP_Estructura_Base/memoria/src/gestion/segmentacion.c:275-281 | the lowest block that is large enough, or none exactly when there is none |
| SegmentedMemoryModel.SegmentedMemory.MergeAdjacent | TP_Estructura_Base/memoria/src/gestion/segmentacion.c:301-315 | the list after merging equals the specification's |
| SegmentedMemoryModel.SegmentedMemory.Create | TP_Estructura_Base/memoria/src/gestion/segmentacion.c:43-88 | succeeds exactly for a new pid when some free block is large enough (any block for size 0); the segment is at the front of the first block with room, all blocks before it being smaller; the resulting free list and segments are exact |
| SegmentedMemoryModel.SegmentedMemory.Destroy | TP_Estructura_Base/memoria/src/gestion/segmentacion.c:90-106 | the segment goes and its block returns to the free list, merged as specified; an unknown process changes nothing |
| SegmentedMemoryModel.SegmentedMemory.Resize | TP_Estructura_Base/memoria/src/gestion/segmentacion.c:108-197 | succeeds exactly when the process is known and the size does not grow, a block right after the segment has room for the growth, or some block for the whole new size; it stays in the first two cases and else goes to the first block with room; the resulting free list and segments are exact, and RAM changes only by the copy of a moved segment's bytes |
| SegmentedMemoryModel.SegmentedMemory.Relocate | TP_Estructura_Base/memoria/src/gestion/segmentacion.c:157-192 | succeeds exactly when some block has room for the whole new size; moves the segment with its bytes to the first such block and returns the old block |
| SegmentedMemoryModel.SegmentedMemory.Write | TP_Estructura_Base/memoria/src/gestion/segmentacion.c:220-238 | succeeds exactly inside the segment and changes exactly those bytes |
| SegmentedMemoryModel.SegmentedMemory.Read | TP_Estructura_Base/memoria/src/gestion/segmentacion.c:240-258 | succeeds exactly inside the segment and returns those bytes |
| SegmentedMemoryModel.SegmentedMemory.FetchInstruction | TP_Estructura_Base/memoria/src/gestion/segmentacion.c:260-271 | the bytes of slot pc up to the first zero |
| SegmentedMemoryModel.SegmentedMemory.LoadLines | TP_Estructura_Base/memoria/src/gestion/memoria_core.c:97-102 | the loading loop leaves the process's memory as the specification of loading says and no other process's memory changed |
| SegmentedMemoryModel.SegmentedMemory.CreateProcess | TP_Estructura_Base/memoria/src/gestion/memoria_core.c:50-106 | succeeds exactly for a new pid with a program of at least one line when some block has room for all lines; a created process holds its program, line by line, and no other process's memory changed |
| SegmentedMemoryModel.SegmentedMemory.DestroyProcess | TP_Estructura_Base/memoria/src/gestion/memoria_core.c:108-127 | segment and program are gone, so the pid can be used again |
| SegmentedMemoryModel.SegmentedMemory.Execute | TP_Estructura_Base/memoria/src/gestion/segmentacion.c:43-258 | every request answers and changes layout and RAM exactly as the value model says, and free blocks and segments tile memory afterwards |
| SegmentedMemoryModel.SegmentedMemory.Run | TP_Estructura_Base/memoria/src/gestion/segmentacion.c:43-258 | every run refines a run of the one-byte-array-per-process memory; with positive sizes only, the free list stays in order |
| KernelInvariants.InterruptKeeps | TP_Estructura_Base/kernel/src/peticiones/interrupciones.c:57-119 | leaving EXEC for READY, BLOCKED or EXIT keeps the kernel invariant |
| KernelInvariants.WaitKeeps | TP_Estructura_Base/kernel/src/peticiones/interrupciones_handlers.c:21-69 | WAIT keeps it |
| KernelInvariants.SignalKeeps | TP_Estructura_Base/kernel/src/peticiones/interrupciones_handlers.c:71-133 | SIGNAL with hand-over to the first waiter keeps it |
| KernelInvariants.FinishKeeps | TP_Estructura_Base/kernel/src/peticiones/interrupciones_handlers.c:166-214 | EXIT with release of everything held keeps it |
| KernelInvariants.KillKeeps | TP_Estructura_Base/kernel/src/planificacion/planificacion.c:217-297 | KILL in any state keeps it |
| KernelInvariants.StepKeeps | TP_Estructura_Base/kernel/src/conexiones/cpu.c:73-200 | every handler keeps it: each live process is in exactly the queue of its state; free slots plus READY, EXEC, BLOCKED and the process being admitted equal the degree; `sem_hay_ready` covers READY; `sem_hay_new`, with the token the long-term scheduler has taken from it while it waits for a slot, covers NEW; every waiter is BLOCKED, waits for one resource and for no IO; a positive count means nobody waits |
| KernelInvariants.Reachable | TP_Estructura_Base/kernel/src/planificacion/planificacion.c:69-99 | every reachable state satisfies the invariant |
| KernelInvariants.TokenTaken | TP_Estructura_Base/kernel/src/planificacion/largo_plazo.c:27-29 | a run after which the semaphore of NEW alone is below the length of the queue |
| KernelResources.ReleaseServes | TP_Estructura_Base/kernel/src/peticiones/recursos.c:144-174 | releasing everything serves the first waiters of each line, one per instance, and returns the rest to the pool |
| KernelResources.ReleasePrizes | TP_Estructura_Base/kernel/src/peticiones/recursos.c:144-174 | a waiter receives one instance exactly when it is among the first as many as were released |
| KernelResources.StepAccounted | TP_Estructura_Base/kernel/src/peticiones/recursos.c:48-174 | the exact line and count of each resource after any event: the front of the line is served, the pool gets what nobody takes |
| KernelResources.WaiterOutcome | TP_Estructura_Base/kernel/src/peticiones/recursos.c:74-109 | a waiter that is not killed becomes READY with one more instance if it was served, and otherwise stays BLOCKED with what it held |
| KernelResources.LeaverHoldsNothing | TP_Estructura_Base/kernel/src/peticiones/interrupciones_handlers.c:189-212 | a process that finishes, or is killed past NEW, ends in EXIT holding nothing |
| KernelResources.Bystander | TP_Estructura_Base/kernel/src/peticiones/recursos.c:48-174 | a process that is not executing, not in line and not killed keeps what it holds |
| KernelResources.NoOvertaking | TP_Estructura_Base/kernel/src/peticiones/recursos.c:67-103 | while a process stays in a line, whoever came after it stays behind it unless killed |
| KernelResources.NoOvertakingInRun | TP_Estructura_Base/kernel/src/peticiones/recursos.c:67-103 | the same over whole runs |
| KernelOutcomes.AfterQuantum | TP_Estructura_Base/kernel/src/peticiones/interrupciones_handlers.c:135-164 | end of quantum and preemption: the executing process leaves EXEC for the end of READY, which is posted once; no other process, queue, semaphore or resource changes; a process that does not execute is ignored |
| KernelOutcomes.AfterWait | TP_Estructura_Base/kernel/src/peticiones/interrupciones_handlers.c:21-69 | WAIT: with an instance, or for an unknown resource, the caller ends last in READY, posted once, with one instance more in the first case; else last in BLOCKED and in the line |
| KernelOutcomes.AfterSignal | TP_Estructura_Base/kernel/src/peticiones/interrupciones_handlers.c:71-133 | SIGNAL: the first waiter goes to the end of READY, the caller, if it executes, behind it, with one post each; nobody else moves |
| KernelOutcomes.AfterIo | TP_Estructura_Base/kernel/src/peticiones/interrupciones.c:92-107 | a request for IO: the caller goes from EXEC to the end of BLOCKED, nothing is posted |
| KernelOutcomes.AfterIoDone | TP_Estructura_Base/kernel/src/adaptadores/kernel_io_adapter.c:68-107 | the end of an IO: a BLOCKED process goes to the end of READY, which is posted once, with its holdings; any other is left alone |
| KernelOutcomes.AfterSegfault | TP_Estructura_Base/kernel/src/conexiones/cpu_handlers.c:36-40 | the process goes to the end of EXIT with all it holds, and its slot comes back |
| KernelOutcomes.ReleaseInTurn | TP_Estructura_Base/kernel/src/peticiones/recursos.c:144-174 | the processes a release wakes, in their order: each entry held, from the first on, goes to the next waiter for its resource that is left |
| KernelOutcomes.AfterFinish | TP_Estructura_Base/kernel/src/peticiones/interrupciones_handlers.c:166-214 | EXIT: the process goes to the end of EXIT, its slot comes back, and those it serves follow READY in that order, one post each |
| KernelOutcomes.AfterKillNew | TP_Estructura_Base/kernel/src/planificacion/planificacion.c:223-297 | KILL in NEW: to the end of EXIT, without a slot |
| KernelOutcomes.AfterKill | TP_Estructura_Base/kernel/src/planificacion/planificacion.c:223-297 | KILL past NEW: the process leaves its queue for the end of EXIT, its slot comes back, and those it serves follow READY in the order of its entries |
| KernelOutcomes.AfterArrive | TP_Estructura_Base/kernel/src/planificacion/planificacion.c:129-135 | a new process is last in NEW, which is posted once |
| KernelOutcomes.AfterAdmit | TP_Estructura_Base/kernel/src/planificacion/largo_plazo.c:29-38 | the head of NEW is taken, with a slot, or nothing when NEW is empty |
| KernelOutcomes.AfterAdmitted | TP_Estructura_Base/kernel/src/planificacion/largo_plazo.c:42-59 | the process goes to the end of READY, or away with its slot returned |
| KernelOutcomes.AfterDispatch | TP_Estructura_Base/kernel/src/planificacion/corto_plazo.c:36-58 | the chosen process goes from its place in READY to the end of EXEC; the others keep their order |
| KernelOutcomes.OldestAdmitted | TP_Estructura_Base/kernel/src/planificacion/largo_plazo.c:27-58 | in every reachable state the process admitted next is the one created first among those in NEW |
| KernelOutcomes.ReadyKeepsOrder | TP_Estructura_Base/kernel/src/planificacion/corto_plazo.c:36-58 | no event lets a process overtake another in READY, and who comes is behind all who stay |
| KernelConservation.StepCount | TP_Estructura_Base/kernel/src/peticiones/recursos.c:48-174 | free plus held instances of a resource change only with a SIGNAL by a process that does not hold it, and then by one |
| KernelConservation.Conserved | TP_Estructura_Base/kernel/src/peticiones/recursos.c:48-174 | in every reachable state free plus held instances equal the initial count plus the number of such SIGNALs |
| KernelConservation.KilledWhileSignalling | TP_Estructura_Base/kernel/src/peticiones/interrupciones_handlers.c:78-90 | the SIGNAL of an executing holder keeps the number of instances; if the process is killed meanwhile, KILL returns all it held and the late SIGNAL returns one instance more |
| KernelConservation.StepBack | TP_Estructura_Base/kernel/src/planificacion/planificacion.c:217-297 | no process goes back to NEW, and EXIT is reached only by EXIT, a segmentation fault or KILL |
| KernelConservation.StepExit | TP_Estructura_Base/kernel/src/conexiones/cpu_handlers.c:18-41 | finished processes go on holding nothing, whatever happens, unless an executing process that holds something has a segmentation fault |
| KernelConservation.StepExitExact | TP_Estructura_Base/kernel/src/conexiones/cpu_handlers.c:36-40 | they go on holding nothing exactly when the event is not such a fault |
| KernelConservation.ExitStays | TP_Estructura_Base/kernel/src/conexiones/cpu_handlers.c:36-40 | a finished process keeps its state and what it holds under every later event |
| KernelDetectors.TotalIsCount | TP_Estructura_Base/kernel/src/deteccion_deadlock/banquero.c:36-77 | what the banker adds up over READY, EXEC and BLOCKED is what the kernel conserves |
| KernelDetectors.DetectorsOnRuns | TP_Estructura_Base/kernel/src/peticiones/interrupciones_handlers.c:51-60 | in reachable states where finished processes hold nothing and no resource started with 0: an unsafe verdict means a cycle or a process waiting for what only it holds, the latter always is unsafe, and with single instances and only holders signalling safe means neither |
| KernelDetectors.RunExit | TP_Estructura_Base/kernel/src/conexiones/cpu_handlers.c:36-40 | a run ends with finished processes holding nothing if and only if no executing holder had a segmentation fault in it |
| KernelDetectors.FaultyRunLeaks | TP_Estructura_Base/kernel/src/conexiones/cpu_handlers.c:36-40 | a concrete run from the initial state that leaks the only instance |
| KernelDetectors.SelfWaitSeen | TP_Estructura_Base/kernel/src/deteccion_deadlock/banquero.c:79-103 | the kernel has a process waiting for what only it holds exactly when the collected processes show one |
| KernelQueues.Scheduler.constructor | TP_Estructura_Base/kernel/src/planificacion/planificacion.c:69-99 | the initial queues, semaphores and resources satisfy the invariant |
| KernelQueues.Scheduler.HandleInterrupt | TP_Estructura_Base/kernel/src/peticiones/interrupciones.c:57-119 | the new state is the one the specification of the interrupt describes |
| KernelQueues.Scheduler.Acquire | TP_Estructura_Base/kernel/src/peticiones/recursos.c:48-72 | blocks exactly when the resource exists and has no free instance |
| KernelQueues.Scheduler.HandOver | TP_Estructura_Base/kernel/src/peticiones/recursos.c:97-104 | an instance goes to the first waiter or to the pool |
| KernelQueues.Scheduler.WithoutFirst | TP_Estructura_Base/kernel/src/peticiones/recursos.c:85-92 | the held list without the first entry for the resource |
| KernelQueues.Scheduler.RemoveFrom | TP_Estructura_Base/kernel/src/peticiones/recursos.c:124-131 | the loop removes the first occurrence and nothing else |
| KernelQueues.Scheduler.LeaveLines | TP_Estructura_Base/kernel/src/peticiones/recursos.c:115-142 | the process has left every line, whatever the order of the names |
| KernelQueues.Scheduler.ReleaseHeld | TP_Estructura_Base/kernel/src/peticiones/recursos.c:144-174 | the loop over the held list does what the specification of the release says, with the same list of woken processes |
| KernelQueues.Scheduler.HandleWait | TP_Estructura_Base/kernel/src/peticiones/interrupciones_handlers.c:21-69 | the new state is the one WAIT describes |
| KernelQueues.Scheduler.HandleSignal | TP_Estructura_Base/kernel/src/peticiones/interrupciones_handlers.c:71-133 | the new state is the one SIGNAL describes |
| KernelQueues.Scheduler.FinishProcess | TP_Estructura_Base/kernel/src/peticiones/interrupciones_handlers.c:166-214 | the new state is the one EXIT describes |
| KernelQueues.Scheduler.FindAnywhere | TP_Estructura_Base/kernel/src/planificacion/planificacion.c:223-259 | the four searches find the process exactly when it can be killed, and in NEW exactly when that is its state |
| KernelQueues.Scheduler.KillProcess | TP_Estructura_Base/kernel/src/planificacion/planificacion.c:217-297 | the new state is the one KILL describes |
| KernelQueues.Scheduler.FinishIo | TP_Estructura_Base/kernel/src/adaptadores/kernel_io_adapter.c:68-107 | the new state is the one of the step, which AfterIoDone describes field by field |
| KernelQueues.Scheduler.AwaitNew | TP_Estructura_Base/kernel/src/planificacion/largo_plazo.c:27 | passes the semaphore of NEW, whether or not a slot is free |
| KernelQueues.Scheduler.AdmitNext | TP_Estructura_Base/kernel/src/planificacion/largo_plazo.c:29-38 | takes a slot and the first process of NEW, or gives the slot back when NEW is empty |
| KernelQueues.Scheduler.FinishAdmission | TP_Estructura_Base/kernel/src/planificacion/largo_plazo.c:42-58 | READY when memory accepted the process, otherwise destroyed with its slot returned |
| KernelQueues.Scheduler.DispatchNext | TP_Estructura_Base/kernel/src/planificacion/corto_plazo.c:36-58 | the chosen process goes from READY to EXEC |
| KernelQueues.Scheduler.Execute | TP_Estructura_Base/kernel/src/conexiones/cpu.c:73-200 | every event has the effect of the specification's step and keeps the invariant |

## Left out

- PagedMemoryModel.PagedMemory.Run: a request during which an access loses data is described by the reference alone, not by the flat memory: the code does not keep its promise there. At the start only living processes have swap files.
- PagedMemoryModel.PagedMemory.OtherThreads: interference is limited to page accesses by other threads in the unlocked gaps of each chunk; their stores, and resizing or destroying a process meanwhile, are not modelled.
- PagedMemoryModel.PagedMemory.Write: addresses and sizes are below 2^32, their sum does not wrap, and page numbers are below 2^31.
- PagedMemoryModel.PagedMemory.Read: addresses and sizes are below 2^32, their sum does not wrap, and page numbers are below 2^31.
- PagedMemoryModel.PagedMemory.Create: the size is not negative.
- PagedMemoryModel.PagedMemory.SwapOut: the file is a sequence of whole pages; disk errors are assumed away.
- DialFsDisk.FileSystem.Run: either no file whose name compaction misses has or gets blocks, or no request gives any file blocks; sizes and offsets do not wrap, and block counts are below 2^31.
- DialFsDisk.FileSystem.Truncate: a truncate that compacts a disk on which a file that compaction misses has blocks is left out, since bitmap and metadata no longer agree then (CompactionExact, MissedBreaks); likewise for GrowEmpty, GrowFile and Execute.
- DialFsDisk.FileSystem.Create: names longer than the control block or the file system allows are not modelled; neither are msync, the delays and reopening an existing disk.
- DialFsDisk.FileSystem.Compact: the sort by first block is a sorted insertion, the rounded-up quotient of doubles an exact integer one.
- SegmentedMemoryModel.SegmentedMemory.Create: as for Resize, sizes are not negative and below 2^31; the contents of a new segment are unspecified, as in the code.
- SegmentedMemoryModel.SegmentedMemory.CreateProcess: the program is given as its lines; reading the file is left out, and so is the paging scheme as the place the program is loaded into.
- segmentacion_traducir: returns 0 both for an error and for the valid address 0, so it specifies nothing.
- paginacion_leer_instruccion: always copies 255 bytes and ignores a failed read.
- KernelQueues.Scheduler.Execute: handlers are atomic steps; the messages they send to memory, the CPU and the interfaces are left out (memory's answer to an admission is a parameter); races between them, the pause of the planner, real time, quanta, registers and the program counter are left out.
- KernelQueues.Scheduler.constructor: configured counts are not negative.
- KernelQueues.Scheduler.HandleWait: the two detectors it calls only log; they are modelled on snapshots of the state.
- KernelQueues.Scheduler.DispatchNext: the choice of the algorithm (FIFO, RR, VRR, HRRN, PRIORIDAD) is any position of READY; replies may come for any process at any time, and more than one process may execute, which covers the one the CPU really has.
- KernelQueues.Scheduler.KillProcess: control blocks are rows of a table indexed by pid (pids count from 0 here), so aliasing of pointers to them is not captured.
- KernelState.ReleaseAll: has a guard that skips a resource the process itself waits for, only for termination; the method ReleaseHeld has no guard and is proved equal, since no reachable state needs it.
- corto_plazo.c:96-110: the branch for a failed send, which the send function never reports.
- Sockets, handshakes, threads, logging, configuration, console, serialisation, the CPU's instruction set, TLB and MMU: plumbing, or agreement that the original does not have (TLB entries survive evictions).
- Allocation failure and wrap-around of the pid counter: assumed not to happen.
