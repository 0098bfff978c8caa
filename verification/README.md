# Verified model of the peos2 kernel and network stack

peos2 is a small i386 kernel with its own TCP/IP stack. This project models the
parts of it that keep state which is easy to get wrong, in Dafny, and proves
what that state keeps over every run. `dafny verify dfyconfig.toml` checks
everything.

**Memory** (`kernel/memory.cc`, `libraries/support/page_alloc.h`). Two-level page
tables, written in place through physical addresses, refine one flat map from
(space, page) to entry, for the processor too, which needs both levels to allow an
access (`Paging`). Over all address spaces, the present pages of
anonymous and file areas and the frames handed out by the page allocator are in
one-to-one correspondence, whatever sequence of mapping, faults, portals, forks
and destruction led there (`Ownership`, `AddressSpaces`). Fork copies contents and
shares no frame; destruction returns exactly what the space held. Every present page
of an area allows exactly what the area's flags say. An operation
returns false where an assertion of the source stops the kernel because a pool or
an allocator is used up, and `Depleted` names those that can be. The source has two
more, the 16-slot pools of linear and of file maps in each space, which the model
does not have.

**Descriptors** (`kernel/filesystem.cc`). Reference counts are exact over all
contexts, and the driver's close runs exactly once per opened file (`Vfs`).

**Scheduling** (`kernel/process.cc`). Two doubly-linked lists through one process
table stay well-formed and match the flags of the processes, and every operation
on them, from creation to the end of a process, is a step of the abstract scheduler
(`Scheduling`). Over its runs, while a process waits, every other is picked at most
once, so with n processes to run it runs within n yields (`Fairness`).

**Fragments** (`libraries/support/frag_buffer.h`, `libraries/net/ipv4/protocol.cc`).
The hole list is the exact complement of what arrived. Fragments of one datagram,
in any order, with duplicates and overlaps and interleaved with others, are
forwarded once all have arrived and not before, as exactly that datagram
(`FragBuffers`, `Ipv4`), from the header field on, as its sender fills it in. For
fragments beyond the buffer it is stated exactly which
the source can take without copying past its end.

**TCP** (`libraries/net/tcp`). The receive queue delivers a byte stream in order
and stops only at a gap, also where the numbers wrap (`ReceiveQueues`), exactly as long as it takes in no segment
that clashes with one it holds (`ReceiveTables`). The send queue tiles the unacknowledged
numbers and hands every segment out once (`SendQueues`). A connection is finished
only after a remote FIN, and after the acknowledgement of ours exactly if the send
buffer had room for it (`Connections`).

**Building blocks.** The index pool with its free list threaded through the array
(`Pools`), queue and byte ring (`Queues`, `RingBuffers`), packet framing of a byte
stream (`Framing`), the two-sided scratch buffer (`FlipBuffers`), the internet
checksum (`Checksums`).

Objects that the source changes in place are classes here. A class is stated
against a value (`PoolModel`, a sequence, a flat map, a log) and each method says
which new value it leaves. `Valid` is what every method keeps, so it holds after
every run.

## Where the source does not do what one might expect

- `queue::replace` accepts an offset equal to the capacity and overwrites the front
  item; it stores where it is told exactly when the offset is smaller
  (`Queues.ReplaceStoresAtOffset`, `Queues.ReplaceAtCapacityOverwritesFront`).
- The process picked when p itself yields gets the same tick as p, so after a switch
  to a third process it can be picked a second time before p
  (`Fairness.OwnYieldCanTie`). No other can, and it cannot from its next own yield on
  (`Fairness.OnlyFirstPickTwice`, `Fairness.FirstPickYields`).
- A new process starts with the last tick 0, so under a pid that is used again it is
  picked again while others wait (`Fairness.ReusedPidBypasses`). The bound holds for a
  process as long as it exists (`Fairness.BypassedAtMostOnce`), and a process can be
  picked before p exactly if it has not run since p did (`Fairness.PickedExactly`).
- A process killed while suspended keeps its flag, and resuming it then puts a
  terminating process at the head of the ready list
  (`Scheduling.ResumedAfterKill`, reached in `Scheduling.KilledAsleep`). Killing a
  process twice follows links that may be out of date: kill the second of three ready
  processes, suspend the first, kill the second again, and no lists fit the links
  (`Scheduling.KilledTwice`, `Scheduling.ThreeReady`). When it does no harm is
  `Scheduling.KillAgainExactly`.
- An empty fragment beyond the end of a datagram keeps it from ever being forwarded;
  nothing else does, once all bytes and the last fragment are there
  (`Ipv4.HeldBackByEmptyFragment`).
- A duplicate of a queued segment is accepted, is left behind when the first copy is
  read, and then hides all others (`ReceiveQueues.DuplicateStalls`) for good, whatever
  arrives (`ReceiveTables.StallIsForGood`). The same goes for overlapping segments and
  for an empty segment inside one with data or at its number with a higher index. A
  segment is safe to take in exactly if it is compatible with all those queued, or fills
  the table while the next byte is missing (`ReceiveTables.InsertExactly`);
  `receive_queue::insert` does not look.
- A segment from beyond the wrap of the sequence numbers stalls the table in the same way
  if it is taken in before the cursor has passed the wrap, and one that begins at
  2^32 - 1 is never found by the scan. Everything else of a stream that wraps is
  delivered (`ReceiveQueues.ReceiveQueue.Take`, `ReceiveQueues.ReceiveQueue.Drain`).
- A receive table that is full while the next byte is missing is jammed for good: the
  segment it waits for is refused. An orderly one can be read to the end exactly if it
  is not (`ReceiveTables.DrainsUnlessJammed`).
- With its segment table full, the send queue counts the bytes of a segment it
  refuses; it stays consistent exactly if there was nothing to count
  (`SendQueues.SendQueue.WriteBack`). A connection does not look either; its methods
  return false there and go no further, and never do so once it is closing down
  (`Connections.Connection.OnReceive`).
- A connection that closes, from either side, while the send buffer is full never
  queues its FIN and can still be finished (`Connections.FinishedWithoutFin`). A
  finished connection has had its FIN acknowledged exactly if there was room for it
  (`Connections.Connection.FinishedMeansClosed`).
- With the acknowledged position within 0xFFFF of 2^32 the window's end wraps to a small
  number and the sending loop of a connection does not end
  (`SendQueues.SendQueue.Drain`).
- Chunks of a checksum must have even length except the last; after an odd one the sum
  is right exactly if that of the next is a multiple of 257
  (`Checksums.OddChunkExactly`).
- `frag_buffer::insert` clips the range it records but not the bytes it copies, and the
  driver's write copies packets of any length to a buffer of 1600 bytes. When the copy
  stays in bounds is part of the contracts (`FragBuffers.ReachedExactly`,
  `FragBuffers.FragBuffer.Insert`, `Framing.Transmitter.Write`).
- The comment on `connection::sequence` forbids empty segments, but the ESTABLISHED
  state passes empty ones on; the model follows the code.

## Model

| member | source | states |
|---|---|---|
| Pools.PoolModel.FreeListIsTheDead | libraries/support/pool.h:226-358 | the free list holds each dead index below the watermark once, and nothing else |
| Pools.PoolModel.SlotIsFresh | libraries/support/pool.h:207-224 | the chosen slot is never live, and in bounds exactly when the pool is not full |
| Pools.PoolModel.Emplace | libraries/support/pool.h:226-264 | only the given index changes; indexes skipped over become free |
| Pools.PoolModel.EmplaceAnywhere | libraries/support/pool.h:207-224 | a fresh index gets the item, no other changes |
| Pools.PoolModel.Erase | libraries/support/pool.h:266-281 | exactly the given item goes, and its index can be handed out again |
| Pools.PrependList | libraries/support/pool.h:346-358 | putting a node at the head keeps a well-linked list, in the new order |
| Pools.UnlinkList | libraries/support/pool.h:242-259 | taking a node out anywhere keeps a well-linked list, in the old order without it |
| Pools.Pool.constructor | libraries/support/pool.h:187-193 | an empty pool of the given capacity |
| Pools.Pool.Clear | libraries/support/pool.h:199-206 | back to the empty pool |
| Pools.Pool.IsValidMeansLive | libraries/support/pool.h:283-299 | the three-way link check is true exactly of live indexes |
| Pools.Pool.NextValid | libraries/support/pool.h:107-111 | the next live index, or the watermark |
| Pools.Pool.PrependToFreeList | libraries/support/pool.h:346-358 | the array links spell the model's free list with the index in front |
| Pools.Pool.Erase | libraries/support/pool.h:266-281 | the array computes the model's erase |
| Pools.Pool.IncreaseSize | libraries/support/pool.h:333-343 | the loop puts every skipped index on the free list, the last one first |
| Pools.Pool.Unlink | libraries/support/pool.h:242-259 | the array links spell the free list without the index |
| Pools.Pool.Emplace | libraries/support/pool.h:226-264 | the array computes the model's emplace |
| Pools.Pool.EmplaceAnywhere | libraries/support/pool.h:207-224 | the array computes the model's emplace at the model's slot |
| PageAlloc.Frames.Alloc | libraries/support/page_alloc.h:61-74 | the page handed out was not outstanding, and one free page fewer is left |
| PageAlloc.Frames.Free | libraries/support/page_alloc.h:83-96 | exactly that page stops being outstanding |
| PageAlloc.Frames.Conserved | libraries/support/page_alloc.h:98-101 | free pages plus outstanding pages are constant |
| PageAlloc.Frames.ExhaustedMeansAllOutstanding | libraries/support/page_alloc.h:61-74 | allocation fails exactly when every page is outstanding |
| PageAlloc.Frames.StackBound | libraries/support/page_alloc.h:41-48 | the free stack never outgrows the pages below the watermark |
| PageAlloc.PageAllocator.constructor | libraries/support/page_alloc.h:35-59 | the bookkeeping region it sets aside is the smallest number of pages with room for the free stack |
| PageAlloc.PageAllocator.AllocPage | libraries/support/page_alloc.h:61-74 | stack and watermark compute the abstract allocation |
| PageAlloc.PageAllocator.FreePage | libraries/support/page_alloc.h:83-96 | stack and watermark compute the abstract release, within the stack's array |
| Paging.InstallKeeps | kernel/memory.cc:442-450 | a new zeroed table changes no translation |
| Paging.WriteKeeps | kernel/memory.cc:457-459 | writing one table entry is updating one entry of the flat map |
| Paging.WriteElsewhere | kernel/memory.cc:327-342 | after a write, every other page of every space translates as before |
| Paging.WalkAgrees | kernel/memory.cc:440-453 | the processor, which combines both levels and takes one bit of a directory entry for a large page, sees the flat map |
| Paging.AllowsWrite | kernel/memory.cc:440-459 | directory entries that only gain flags allow whatever the pages below them do |
| Paging.DropKeeps | kernel/memory.cc:132-141 | freeing one table removes the translations through it and no others |
| Paging.NewSpaceKeeps | kernel/memory.cc:109-116 | a new directory changes no translation |
| Paging.DropSpaceKeeps | kernel/memory.cc:143-147 | an emptied directory can go without changing a translation |
| Paging.PageTables.MapPage | kernel/memory.cc:432-464 | the flat map changes at that page only, one directory entry gains the flags that belong there, and only a table allocation can fail |
| Paging.PageTables.EnsureTable | kernel/memory.cc:440-455 | the entry has a table and exactly the flags it had and those given; no other entry changes |
| Paging.PageTables.CreateSpace | kernel/memory.cc:109-116 | a directory that no other space uses, and no translation changed |
| Paging.PageTables.DestroySpace | kernel/memory.cc:132-147 | exactly the space's tables and directory go back to their allocators |
| Ownership.UniqueOwnership | kernel/memory.cc:630-697 | no two owning pages of any spaces share a frame, and the frames owned are those allocated |
| Ownership.StoresAreIsolated | kernel/memory.cc:630-697 | a store through one owning page shows through no other |
| Ownership.ClaimKeeps | kernel/memory.cc:630-644 | filling an absent owning page with a fresh frame keeps ownership |
| Ownership.ReleaseKeeps | kernel/memory.cc:687-693 | freeing the frame of an owning page and unmapping it keeps ownership |
| Ownership.BorrowKeeps | kernel/memory.cc:193-200 | scratch mappings own nothing |
| Ownership.AddAreaKeeps | kernel/memory.cc:559-593 | a new area that overlaps no other keeps ownership |
| Ownership.RemoveAreaKeeps | kernel/memory.cc:696-696 | an area without present pages can go |
| Ownership.AddSpaceKeeps | kernel/memory.cc:109-116 | a new space keeps ownership |
| Ownership.RemoveSpaceKeeps | kernel/memory.cc:118-147 | an empty space can go |
| AddressSpaces.PageFlags | kernel/memory.cc:308-325 | the entry is writable, for users, uncached and global exactly as the area says, and nothing else |
| AddressSpaces.FilledGranting | kernel/memory.cc:621-676 | filling a page with its area's flags keeps every page to its area's flags |
| AddressSpaces.ForkedGranting | kernel/memory.cc:239-263 | after a fork the child's pages allow what their areas say, and all others still do |
| AddressSpaces.PortalGranting | kernel/memory.cc:386-418 | a portal's window allows what its flags say, and pages of areas still what the areas say |
| AddressSpaces.EagerGranting | kernel/memory.cc:537-557 | the pages of an eagerly mapped linear area allow what the area says |
| AddressSpaces.RemainsGranting | kernel/memory.cc:118-168 | unmapping and destruction leave pages to their areas' flags |
| AddressSpaces.AddressSpaces.CreateSpace | kernel/memory.cc:109-116 | a new empty space, or something is used up |
| AddressSpaces.AddressSpaces.Activate | kernel/memory.cc:286-301 | the space that faults, scratch pages and portals belong to |
| AddressSpaces.AddressSpaces.FindArea | kernel/memory.cc:595-609 | an area covering the page, or there is none |
| AddressSpaces.AddressSpaces.OverlapsExisting | kernel/memory.cc:515-523 | true exactly if some area of the space overlaps the range |
| AddressSpaces.AddressSpaces.MapArea | kernel/memory.cc:559-593 | one more area, none of whose pages is present |
| AddressSpaces.AddressSpaces.MapLinearEager | kernel/memory.cc:537-557 | one more area with every page mapped to its place in the linear range |
| AddressSpaces.AddressSpaces.UnmapArea | kernel/memory.cc:678-697 | the area, its translations and the frames it owned go, and nothing else |
| AddressSpaces.AddressSpaces.UnmapNotMatching | kernel/memory.cc:153-168 | exactly the areas without a kept flag go, with what they owned |
| AddressSpaces.AddressSpaces.DestroySpace | kernel/memory.cc:118-147 | frames, tables and directory returned are exactly the space's; other spaces keep everything |
| AddressSpaces.AddressSpaces.ClaimPage | kernel/memory.cc:630-635 | an absent owning page gets a frame nobody owned |
| AddressSpaces.AddressSpaces.EnsurePage | kernel/memory.cc:364-371 | the page's own frame, or a fresh one if it was absent |
| AddressSpaces.AddressSpaces.StoreThrough | kernel/memory.cc:380-383 | a store of the kernel goes through a writable page to the frame behind it |
| AddressSpaces.AddressSpaces.WritePage | kernel/memory.cc:352-384 | only the contents of the page's own frame change, in its first bytes, and the scratch mapping is gone |
| AddressSpaces.AddressSpaces.PageFault | kernel/memory.cc:621-755 | kills exactly on protection faults and uncovered addresses; otherwise the page is filled as its area says and allows what it says |
| AddressSpaces.AddressSpaces.CopyPages | kernel/memory.cc:218-225 | the loop copies every present page and touches nothing else |
| AddressSpaces.AddressSpaces.CopyPage | kernel/memory.cc:250-262 | an anonymous page gets a fresh frame with equal contents, a linear one the same frame |
| AddressSpaces.AddressSpaces.CopyArea | kernel/memory.cc:203-263 | the child gets the area and its present pages |
| AddressSpaces.AddressSpaces.ForkSpace | kernel/memory.cc:265-284 | the child has every area that may be forked with copies of its present pages, to the areas' flags; parent and others keep theirs |
| AddressSpaces.ForkIsolates | kernel/memory.cc:239-263 | after a fork equal contents lie in different frames, so stores in one space never show in the other |
| AddressSpaces.FirstPage | kernel/memory.cc:621-755 | a run from empty allocators to a page of a user's area, present and writable for the user |
| AddressSpaces.AddressSpaces.MapPortal | kernel/memory.cc:386-418 | the window shows the destination's frames page by page, allocated there if absent |
| AddressSpaces.AddressSpaces.UnmapPortal | kernel/memory.cc:420-425 | exactly the window's translations go |
| Vfs.OpenKeeps | kernel/filesystem.cc:346-347 | a new file with one descriptor keeps all counts exact |
| Vfs.AliasKeeps | kernel/filesystem.cc:513-514 | one more descriptor and a count one higher keep all counts exact |
| Vfs.CloseKeeps | kernel/filesystem.cc:232-244 | one descriptor fewer keeps all counts exact, and the file goes exactly with its last one |
| Vfs.Ledger.CloseKeeps | kernel/filesystem.cc:234-244 | the driver's close runs once per open, at the last close |
| Vfs.Vfs.Close | kernel/filesystem.cc:225-249 | the descriptor goes; the driver is called exactly if no other names the file |
| Vfs.Vfs.AliasFd | kernel/filesystem.cc:494-516 | the target names the source's file afterwards, whatever it named before |
| Vfs.Vfs.Open | kernel/filesystem.cc:323-350 | a fresh file and descriptor, or the driver's error and no change |
| Vfs.Vfs.CreateContext | kernel/filesystem.cc:365-370 | an empty context, or ENOSPACE exactly when all are in use |
| Vfs.Vfs.ForkContext | kernel/filesystem.cc:400-415 | the new context names the same files at the same descriptors |
| Vfs.Vfs.CloseNotMatching | kernel/filesystem.cc:386-398 | exactly the descriptors of files without a kept flag go |
| Vfs.Vfs.DestroyContext | kernel/filesystem.cc:372-384 | exactly the context's descriptors go, and the context |
| Scheduling.EnqueueList | kernel/process.cc:272-283 | the list has the process in front of what it had |
| Scheduling.DequeueList | kernel/process.cc:285-299 | the list is as it was without the process |
| Scheduling.Lists | kernel/process.cc:246-270 | a live process is on the suspended list exactly if suspended and not terminating, and ready if on the other |
| Scheduling.ResumedAfterKill | kernel/process.cc:259-270 | resuming a process killed while suspended leaves lists that no sound state has |
| Scheduling.KillAgainExactly | kernel/process.cc:285-299 | a second kill keeps the lists exactly if the former neighbours are still linked past the process |
| Scheduling.KilledTwice | kernel/process.cc:285-347 | for every three ready processes in a row, the sequence kill, suspend, kill that leaves links no lists fit |
| Scheduling.ThreeReady | kernel/process.cc:75-125 | a run from an empty scheduler to three ready processes in a row |
| Scheduling.KilledAsleep | kernel/process.cc:246-352 | a run from an empty scheduler to a process that is suspended and terminating |
| Scheduling.Scheduler.constructor | kernel/process.cc:45-72 | only the idle process, on no list |
| Scheduling.Scheduler.Create | kernel/process.cc:75-109 | a new process with no waiter and last tick 0, on no list |
| Scheduling.Scheduler.Destroy | kernel/process.cc:127-135 | a terminating process goes, and its pid can be used again |
| Scheduling.Scheduler.EnqueueFront | kernel/process.cc:272-283 | the table after the three link writes |
| Scheduling.Scheduler.Dequeue | kernel/process.cc:285-299 | the table after bridging the neighbours, and the head |
| Scheduling.Scheduler.Enqueue | kernel/process.cc:121-125 | the new process is the first of the ready; for `Fairness` only the list changes |
| Scheduling.Scheduler.Suspend | kernel/process.cc:246-257 | a ready process moves to the front of the suspended, a suspended one stays; for `Fairness` only the list changes |
| Scheduling.Scheduler.Resume | kernel/process.cc:259-270 | a suspended process moves to the front of the ready, a ready one stays; for `Fairness` only the list changes |
| Scheduling.Scheduler.Kill | kernel/process.cc:332-352 | the process leaves its list for good, and a suspended waiter is made ready; for `Fairness` only the list changes |
| Scheduling.Scheduler.Wait | kernel/process.cc:470-492 | the caller sleeps exactly if there is a process to wait for, is recorded as its waiter, and a ready process or idle runs instead |
| Scheduling.Scheduler.Remove | kernel/process_private.h:70-78 | the process is on neither list, with its exit status |
| Scheduling.Scheduler.DecideNext | kernel/process.cc:301-324 | the scan finds the first process with the least last tick, or the idle one |
| Scheduling.Scheduler.SwitchProcess | kernel/process.cc:199-215 | the process runs and its last tick is now |
| Scheduling.Scheduler.Switch | kernel/process.cc:180-197 | the process runs, or the scheduler's choice if it is being killed |
| Scheduling.Scheduler.Yield | kernel/process.cc:217-228 | the lists and the table compute the abstract yield |
| Fairness.Pick | kernel/process.cc:301-324 | a process of the list with no larger last tick than any, idle for no list |
| Fairness.PickAppend | kernel/process.cc:309-317 | a scan from the front with a strict comparison finds that process |
| Fairness.LastTickNeverDecreases | kernel/process.cc:199-228 | last ticks never go back while the process exists, whatever step is taken |
| Fairness.YieldPicksOldest | kernel/process.cc:217-228 | yielding moves to a process that has waited at least as long as any |
| Fairness.PassedStaysPassed | kernel/process.cc:180-228 | a process that ran since another did stays behind it while that one waits and it exists |
| Fairness.BypassedAtMostOnce | kernel/process.cc:180-228 | over any run in which a process waits, no two yields pick the same process, as long as that one exists |
| Fairness.ReuseOvertakes | kernel/process.cc:127-135 | a new process under the pid of one that ended is picked at the next yield, whoever else waits |
| Fairness.ReusedPidBypasses | kernel/process.cc:127-135 | from every state, a run in which one pid is picked twice while others wait, because it went to a new process |
| Fairness.PickedExactly | kernel/process.cc:180-228 | some run of any steps picks a process while p waits exactly if it has not run since p did |
| Fairness.OwnYieldCanTie | kernel/process.cc:217-228 | the same process picked twice although another is ready, after a switch |
| Fairness.OnlyFirstPickTwice | kernel/process.cc:217-228 | after its own yield a process can be passed twice only by the one that yield picked |
| Fairness.FirstPickYields | kernel/process.cc:217-228 | and not even by that one from its next own yield on |
| Fairness.PicksAreDistinct | kernel/process.cc:217-228 | until a process runs, k yields pick k different others |
| Fairness.RunsWithinListLength | kernel/process.cc:217-228 | a ready process is picked within as many yields as there are ready processes |
| Fairness.YieldsBounded | kernel/process.cc:180-228 | in any run with switches and list changes, a waiting process sees at most as many yields as there are others to run |
| FragBuffers.InsertRepresents | libraries/support/frag_buffer.h:43-63 | once every hole was visited, the holes are the exact complement of what is covered |
| FragBuffers.TrimKeepsBetween | libraries/support/frag_buffer.h:49-61 | replacing a hole by its leftovers loses nothing outside the insertion and gains nothing |
| FragBuffers.WholeIsOneHole | libraries/support/frag_buffer.h:75-93 | with data up to n and nothing after it, one hole is left, from n on |
| FragBuffers.OneHole | libraries/support/frag_buffer.h:75-93 | a single hole means data up to it and nothing after it |
| FragBuffers.ReachedExactly | libraries/support/frag_buffer.h:25-67 | when bytes beyond the end of the buffer come to be copied |
| FragBuffers.Punch | libraries/support/frag_buffer.h:49-60 | one turn of the loop, with the slots the pool picks |
| FragBuffers.Fill | libraries/support/frag_buffer.h:41-63 | the loop, over a pool that changes under it, adds the range and says whether any of it was missing |
| FragBuffers.FragBuffer.constructor | libraries/support/frag_buffer.h:15-21 | one hole, everything missing |
| FragBuffers.FragBuffer.Insert | libraries/support/frag_buffer.h:23-68 | the range is covered afterwards and its bytes stored exactly if any was missing; whether the copy stays in bounds |
| FragBuffers.FragBuffer.Store | libraries/support/frag_buffer.h:23-68 | the same for bytes that fit the buffer |
| FragBuffers.FragBuffer.ContinuousSize | libraries/support/frag_buffer.h:75-93 | n if everything up to n is covered and nothing after it touched, else 0 |
| Ipv4.CompleteMeansAll | libraries/net/ipv4/protocol.cc:154-161 | fragments of one datagram look complete exactly when the last one and every byte arrived |
| Ipv4.PartsCarryTheData | libraries/support/frag_buffer.h:65-67 | whatever duplicates and overlaps there were, every covered position has its byte of the datagram |
| Ipv4.ForwardsTheDatagram | libraries/net/ipv4/protocol.cc:161-168 | what is forwarded is the datagram |
| Ipv4.Delivery | libraries/net/ipv4/protocol.cc:125-170 | the datagram is forwarded exactly when all of it arrived and it is not empty |
| Ipv4.FieldRead | libraries/net/ipv4/protocol.cc:64-65 | the receiver reads from the field the offset and flag its sender put there, in units of 8 bytes |
| Ipv4.PiecesDeliver | libraries/net/ipv4/protocol.cc:125-170 | the pieces of a datagram as its sender cuts and labels them: it is forwarded exactly when the last and every byte are among them |
| Ipv4.HeldBackByEmptyFragment | libraries/support/frag_buffer.h:80-82 | with everything there, only an empty fragment beyond the end holds a datagram back |
| Ipv4.IgnoredAtEnd | libraries/support/frag_buffer.h:25-67 | a fragment beyond the buffer is passed over only once the end of the buffer was reached |
| Ipv4.Reassembler.OnFragment | libraries/net/ipv4/protocol.cc:132-170 | forwards exactly when the identifier's fragments are complete; other identifiers keep theirs; when the copy stays in bounds |
| Ipv4.Reassembler.OnReceive | libraries/net/ipv4/protocol.cc:125-170 | whole datagrams pass at once, fragments are dropped exactly when the table is full, else gathered |
| ReceiveQueues.AcceptsExactlyTheWindow | libraries/net/tcp/receive_queue.cc:8-25 | on either side of the 32-bit border, accepted is what ends within the window |
| ReceiveQueues.Distance | libraries/net/tcp/receive_queue.cc:22-24 | how far a number is after the cursor, modulo 2^32 |
| ReceiveQueues.PassesWindow | libraries/net/tcp/receive_queue.cc:11-20 | the two branches let through what is at or above the cursor, or less than a window after it |
| ReceiveTables.CompatibleWithData | libraries/net/tcp/receive_queue.cc:81-95 | segments with data can both be read exactly if they share no byte |
| ReceiveTables.CompatibleEmpty | libraries/net/tcp/receive_queue.cc:81-95 | where an empty segment can be read beside one with data |
| ReceiveTables.StallIsForGood | libraries/net/tcp/receive_queue.cc:34-51 | with a segment below the cursor nothing is ever read again, whatever arrives |
| ReceiveTables.OrderlyRun | libraries/net/tcp/receive_queue.cc:6-51 | over any run of compatible arrivals and reads the table stays orderly |
| ReceiveTables.OrderlyStopsAtGap | libraries/net/tcp/receive_queue.cc:67-74 | an orderly table has nothing readable only at a gap |
| ReceiveTables.StallsUnlessOrderly | libraries/net/tcp/receive_queue.cc:6-51 | compatible arrivals never stall a table exactly if it is orderly or jammed |
| ReceiveTables.InsertExactly | libraries/net/tcp/receive_queue.cc:27-30 | taking in a segment never leads to a stall exactly if it is compatible with every one queued or jams the table |
| ReceiveTables.JammedIsForGood | libraries/net/tcp/receive_queue.cc:8-12 | nothing can be read from a full table with the next byte missing, and nothing put in |
| ReceiveTables.DrainsUnlessJammed | libraries/net/tcp/receive_queue.cc:6-51 | some run of compatible arrivals reads all of an orderly table exactly if it is not jammed |
| ReceiveQueues.InsertCarries | libraries/net/tcp/receive_queue.cc:22-31 | taking in a segment keeps the bytes of all others in place, and all readable, exactly if it is compatible with them |
| ReceiveQueues.ReadCarries | libraries/net/tcp/receive_queue.cc:39-48 | reading at the cursor yields the stream's next bytes and keeps the rest in place |
| ReceiveQueues.CrossBorder | libraries/net/tcp/receive_queue.cc:47-48 | when the cursor has wrapped the table is empty and the stream goes on |
| ReceiveQueues.StopsOnlyAtGap | libraries/net/tcp/receive_queue.cc:67-74 | with nothing readable, the byte at the cursor has not arrived |
| ReceiveQueues.FindFront | libraries/net/tcp/receive_queue.cc:81-95 | the scan finds the lowest number, at its lowest index |
| ReceiveQueues.ReceiveQueue.Insert | libraries/net/tcp/receive_queue.cc:6-32 | accepted exactly if table and window have room, with the exact case of empty segments; then stored at its distance; a stall stays |
| ReceiveQueues.ReceiveQueue.HasReadable | libraries/net/tcp/receive_queue.cc:67-74 | true exactly if the front segment is at the cursor, so never in a stalled table |
| ReceiveQueues.ReceiveQueue.ReadOneSegment | libraries/net/tcp/receive_queue.cc:34-51 | the front segment with its bytes; cursor and buffer move past it |
| ReceiveQueues.ReceiveQueue.Reset | libraries/net/tcp/receive_queue.cc:97-102 | an empty queue at the given number |
| ReceiveQueues.ReceiveQueue.Take | libraries/net/tcp/receive_queue.cc:6-32 | any segment of a stream, which may wrap: when it is accepted, exactly when the queue goes on to carry the stream, and that one from beyond the wrap stalls it |
| ReceiveQueues.ReceiveQueue.Drain | libraries/net/tcp/connection.cc:90-100 | the loop delivers the stream's bytes from cursor to cursor, across the wrap too, loses nothing and stops only at a gap |
| ReceiveQueues.DuplicateStalls | libraries/net/tcp/receive_queue.cc:6-51 | a run from an empty queue to one in which the byte at the cursor is held and not readable |
| SendQueues.AckIsLargestBoundary | libraries/net/tcp/send_queue.cc:76-97 | acknowledging moves to the largest segment boundary not above the number |
| SendQueues.AckedAll | libraries/net/tcp/send_queue.cc:76-97 | acknowledging everything leaves nothing unacknowledged |
| SendQueues.TileAt | libraries/net/tcp/send_queue.cc:12-33 | every queued segment lies between the acknowledged and the written position |
| SendQueues.DefaultWindow | libraries/net/tcp/send_queue.cc:44-46 | the default window lets every queued segment pass, or none once its end is past the 32-bit border |
| SendQueues.SendQueue.WriteBack | libraries/net/tcp/send_queue.cc:12-33 | when it succeeds, what it stores, and exactly when it leaves the queue inconsistent |
| SendQueues.SendQueue.ReadOneSegment | libraries/net/tcp/send_queue.cc:35-55 | the next segment of the log with its bytes of the stream, unless the window ends before it |
| SendQueues.SendQueue.PopAcked | libraries/net/tcp/send_queue.cc:89-95 | the front segment and exactly its bytes go |
| SendQueues.SendQueue.Ack | libraries/net/tcp/send_queue.cc:76-97 | what goes, and that reading skips only what was acknowledged |
| SendQueues.SendQueue.Reset | libraries/net/tcp/send_queue.cc:67-74 | an empty queue at the given number |
| SendQueues.SendQueue.Drain | libraries/net/tcp/connection.cc:119-124 | when the loop ends; every segment it passes goes out once, in order, with its bytes |
| Connections.ConsumedSound | libraries/net/tcp/connection_state.cc:184-188 | finishing or moving on when all is acknowledged keeps the closing invariant |
| Connections.FinSound | libraries/net/tcp/connection_state.cc:147-170 | queueing our FIN, or failing to, keeps the closing invariant |
| Connections.LeadsOn | libraries/net/tcp/connection.cc:88-100 | what reading segments may do to a connection adds up over any number of them |
| Connections.FlagBits | libraries/net/tcp/connection_state.cc:82-147 | FIN, SYN and ACK are read from their own bits, whatever the others are |
| Connections.FinAnswered | libraries/net/tcp/connection_state.cc:147-157 | a FIN in sequence is answered by ours behind what is queued, exactly if there is room |
| Connections.SynAnswered | libraries/net/tcp/connection_state.cc:92-113 | a SYN in sequence is answered by ours, exactly if there is room |
| Connections.DataAnswered | libraries/net/tcp/connection.cc:71-75 | what the application says when handed data is queued in its order, if it fits |
| Connections.OnlyOneRead | libraries/net/tcp/connection.cc:88-100 | a single segment at the cursor is read, and the cursor is behind it |
| Connections.Answer | libraries/net/tcp/connection_state.cc:33-113 | a run from a SYN to a connection that has queued its own and waits behind the remote's |
| Connections.Connection.constructor | libraries/net/tcp/connection_state.cc:33-49 | a new connection with the SYN as its first segment |
| Connections.Connection.SendFin | libraries/net/tcp/connection_state.cc:147-170 | our FIN is the next number queued, exactly if the buffer has room; when the send queue cannot take it |
| Connections.Connection.Close | libraries/net/tcp/connection_state.cc:164-170 | only an established connection closes; when the send queue cannot take the FIN |
| Connections.Connection.Send | libraries/net/tcp/connection.cc:236-240 | bytes are queued if they fit, in any state, without harm to closing; when the send queue cannot take them |
| Connections.Connection.Respond | libraries/net/tcp/connection.cc:71-75 | whatever the application sends and whether it closes when handed data, what is queued and which state follows |
| Connections.Connection.EarlyRecv | libraries/net/tcp/connection_state.cc:73-280 | which state follows and what is handed to the receive queue |
| Connections.Connection.SequencedRecv | libraries/net/tcp/connection_state.cc:92-296 | which state follows, what is queued in answer by the state or the application, and when the connection is finished |
| Connections.Connection.Acknowledge | libraries/net/tcp/connection.cc:57-64 | the states hear of it exactly when everything is acknowledged |
| Connections.Connection.ReadOne | libraries/net/tcp/connection.cc:90-100 | one segment leaves the table and moves the state, with the application answering |
| Connections.Connection.Step | libraries/net/tcp/connection.cc:88-100 | which segments are read, in which order, and that what the states and the application make of them is done; it stops only when nothing is next in sequence or the send queue cannot take a write |
| Connections.Connection.OnReceive | libraries/net/tcp/connection.cc:50-69 | the segment is taken in, the acknowledgement counted and everything in sequence read and answered; from every state and with any application the closing invariant, when a connection becomes finished, and whether our FIN found room |
| Connections.Connection.FinishedMeansClosed | libraries/net/tcp/connection_state.cc:184-291 | finished means a remote FIN was received, and ours was queued and acknowledged exactly if there was room for it |
| Connections.FinishedWithoutFin | libraries/net/tcp/connection_state.cc:164-251 | a run from a new connection to a finished one whose FIN was never queued, because the buffer was full |
| Queues.ReplaceStoresAtOffset | libraries/support/queue.h:33-41 | an item is stored at its offset, and nothing else moved, exactly below the capacity |
| Queues.ReplaceAtCapacityOverwritesFront | libraries/support/queue.h:33-41 | an offset equal to the capacity overwrites the front item |
| Queues.WrapIsMod | libraries/support/queue.h:85-90 | the index computed by one subtraction is the remainder, below twice the capacity |
| Queues.Queue.PushBack | libraries/support/queue.h:22-31 | one more item at the back, unless full; `Valid`, which every operation keeps, holds the indexes below twice the capacity |
| Queues.Queue.Replace | libraries/support/queue.h:33-41 | the item at its offset, with zeros before it where there was nothing |
| Queues.Queue.PopFront | libraries/support/queue.h:44-47 | the first item goes |
| Queues.Queue.At | libraries/support/queue.h:74-77 | the item at an offset from the front |
| Queues.Queue.Clear | libraries/support/queue.h:79-82 | no items |
| RingBuffers.WrittenAtEnd | libraries/support/ring_buffer.h:22-37 | writing at the end is appending |
| RingBuffers.RingBuffer.Write | libraries/support/ring_buffer.h:22-37 | accepted exactly if it ends within the capacity; then stored at the offset |
| RingBuffers.RingBuffer.ReadFront | libraries/support/ring_buffer.h:39-49 | as many first bytes as there are and fit, and they go |
| RingBuffers.RingBuffer.Peek | libraries/support/ring_buffer.h:52-62 | the bytes from an offset on, which stay |
| RingBuffers.RingBuffer.Consume | libraries/support/ring_buffer.h:64-75 | as many first bytes go as there are |
| Framing.ParseInParts | kernel/rtl8139.cc:348-373 | parsing a stream in two parts finds the same packets |
| Framing.ParseStream | kernel/rtl8139.cc:348-373 | parsing undoes framing |
| Framing.Transmitter.Write | kernel/rtl8139.cc:332-376 | however writes are cut, the packets transmitted are those of the bytes accepted; whether they fit the copy buffer |
| Framing.Transmitter.Drain | kernel/rtl8139.cc:348-373 | every complete packet goes out, up to one that is too long, and the unfinished rest stays |
| FlipBuffers.Unpack | libraries/support/flip_buffer.h:61-79 | packing a handle loses nothing and never gives the null handle |
| FlipBuffers.GenerationRepeats | libraries/support/flip_buffer.h:90-94 | a generation comes back after exactly every 2^16 resets |
| FlipBuffers.LedgerFlip | libraries/support/flip_buffer.h:27-32 | whatever a reset kills has seen more than a whole side allocated since |
| FlipBuffers.FlipBuffer.Alloc | libraries/support/flip_buffer.h:22-37 | a live block of the length, the other side exactly if this one is too full, no byte changed |
| FlipBuffers.FlipBuffer.HandleLifetime | libraries/support/flip_buffer.h:39-58 | how long a handle is certain to lead to its block, and when it leads nowhere |
| FlipBuffers.FlipBuffer.LiveBlocksApart | libraries/support/flip_buffer.h:22-37 | live blocks never share a byte |
| FlipBuffers.FlipBuffer.Fill | libraries/net/ipv4/protocol.cc:201-202 | filling a block through its handle leaves every other live block as it was |
| Checksums.FastSumIsCarrySum | libraries/net/utils.cc:7-37 | 32-bit words folded at the end give the 16-bit end-around-carry sum, for every length |
| Checksums.ChunkedSum | libraries/net/tcp/utils.cc:23-29 | chunks of even length summed apart give the sum of the whole |
| Checksums.OddChunkExactly | libraries/net/tcp/utils.cc:23-29 | after an even chunk and an odd one the sum is right exactly if that of the next chunk is a multiple of 257 |
| Checksums.SwappedSum | libraries/net/ipv4/utils.cc:42-53 | swapping the bytes gives the sum in network byte order |
| Checksums.ChecksumVerifies | libraries/net/ipv4/utils.cc:49-52 | with the checksum in place the sum folds to ones |
| Checksums.SumWords | libraries/net/utils.cc:7-37 | the loop and its leftovers, with a bound that keeps the totals below within 64 bits |
| Checksums.FoldSum | libraries/net/ipv4/utils.cc:49-50 | the folding loop |
| Checksums.PseudoHeader | libraries/net/tcp/utils.cc:8-21 | each field at its place in network byte order |
| Checksums.HeaderChecksum | libraries/net/ipv4/utils.cc:42-53 | the complement of the reference sum, in either byte order |
| Checksums.TcpChecksum | libraries/net/tcp/utils.cc:6-32 | the complement of the reference sum over pseudo header, header and payload, after an odd header exactly if the sum of the payload is a multiple of 257 |

## Left out

- Port I/O, interrupts, descriptor tables and the assembly-level context switch; a switch is a change of the current process.
- The timer callback of the scheduler, which switches while walking a list that the wake-up changes.
- Expiry of reassembly buffers and of the ARP cache; reassembly is stated without it.
- Path lookup, ramfs, ELF, tar and multiboot parsing, terminal and shell: they would only add easier members.
- The wrap of the scheduler's 64-bit tick counter, and of sequence numbers in the send queue.
- The address space and file context of a process, which its creation and end set up and release elsewhere in the model.
- The 16-slot pools for file and linear map information inside a space; that information is part of the area here.
- Addresses below page granularity, and directory flags other than presence, in address spaces.
- Contents of file areas across a fork: their pages are read again on demand, as in the source.
- C++ object matters such as raw pointers inside copied containers; containers are values or objects of their own.
- The upper half of `connection::step`: sending the queued segments is `SendQueues.SendQueue.Drain`, the empty acknowledgement is left out.
- The receive queue inside a connection: closing depends on which segments come in sequence and not on their bytes, so it is a table of segments, and whether the window accepts one is an input.
- AddressSpaces.AddressSpaces.MapLinearEager: maps the area before its pages instead of after them; no state in between can be observed.
- AddressSpaces.AddressSpaces.DestroySpace: unmaps its areas through the same loop as UnmapNotMatching, with no flag to keep.
- Scheduling.Scheduler.Resume: takes no process that is both suspended and terminating; ResumedAfterKill says what happens to one.
- Scheduling.Scheduler.Kill: takes no process that is on neither list: for one that is terminating already KillAgainExactly says what happens, and one not yet enqueued is not covered. Nor does it take one whose suspended waiter is terminating or is itself, which would be the case of ResumedAfterKill.
- Scheduling.Scheduler.Destroy: takes no process that another still names as its waiter, because the pid would be resumed later; the source does not look.
- AddressSpaces.AddressSpaces.MapPortal: takes windows from the scratch base on, which is where the source's only caller puts them; below it a window could replace a page of an area.
- AddressSpaces.AddressSpaces.UnmapPortal: takes windows from the scratch base on, like MapPortal.
- Connections.Connection.OnReceive: takes no acknowledgement of numbers not yet queued, which the source's assertion excludes.
