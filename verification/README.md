# A verified model of the forwarding path

This project models the parts of an NVIDIA driver forwarder that need no GPU to state: the bookkeeping,
the wire formats and the protocols between a guest kernel module, a host backend and the VMM. Each
component is a module. Code that changes state is a class or a method over an array, proved against a
specification; what the component is for is then proved about that specification.

| module | what it models |
|---|---|
| `Seccomp` | the generator of the backend's system-call filter, run by an interpreter of classic BPF |
| `Vram` | video-memory accounting: object forests, shared memory, a limit |
| `Shm` | the shared-window allocator: three first-fit zones that coalesce and refuse double frees |
| `ControlQueue` | the control-queue request protocol, as atomic steps of callers, device and interrupt |
| `PageRuns`, `GuestMem` | registering guest memory: pages to runs to bytes to runs to one host span |
| `Aperture` | the placement of UVM pools in a shared aperture |
| `Segments`, `RmCtrl` | blocks with several embedded pointers: which travel, how they are packed, how answers come back |
| `SysFiles`, `SysFilesIo` | the five-section answer to GET_SYS_FILES: its stream, its writer and its reader |
| `Layout` | sizes and alignments of C structs from their declarations |
| `Pins` | the life of pinned pages, from registration to the close of the file |
| `Guarded` | buffers with slack and a guard page, and the pool that reuses them |
| `Basics`, `Wire`, `Records` | numbers, bytes and streams that several modules share |

## What came out

Where a property fails, the model keeps the code as it is and states exactly when the property holds.

- The filter is the policy exactly for lists of 1 to 256 plain numbers. An empty list allows every call
  no earlier rule decides, and from 257 numbers on the distance of the first comparison no longer fits
  its byte, so the call it names is refused (`Seccomp.FilterDecidesExactly`).
- The running total of video memory is exact as long as it fits 64 bits; past that it saturates and a
  later free takes it too low (`Vram.AllocatedOk`, `Vram.SaturationLosesTrack`).
- The comment at driver/virtio_gpu_nv.c:5199-5203 says that the UVM section of GET_SYS_FILES is read
  even when the allocation sizes were absent. The code leaves the function when they are, so the UVM and
  OS-descriptor sections behind them are lost; the model follows the code (`SysFiles.SectionsArrive`).
  This backend sets its tables in order (device/src/nvidia/mod.rs:484-517) and never has commands without
  sizes; it loses them when the sizes do not fit the buffer and the shorter UVM section behind them
  does (`SysFilesIo.SizesTooLong`, with a host and a buffer in `SysFilesIo.SizesTooLongExample`).
- The guest keeps eight render nodes but does not read past the ninth, so a ninth node also hides the
  three sections behind the list (`SysFiles.SectionsArrive`).
- The two readers of a segmented block agree exactly on the blocks the backend's parser accepts, on replies
  with no readable table and on replies whose first payload already runs past their end
  (`Segments.ReadersAgreeExactly`). All other blocks the parser refuses and the guest reads up to the first
  payload that runs past the end: a last payload without its padding (`Segments.ReadersDiffer`), or a later
  entry that is too long (`Segments.LateOverrun`). What this backend sends back is an encoded block with
  slack, a multiple of eight bytes long, which the parser would accept; it is never one of these.
- A count field of an embedded pointer is checked in 32 bits that wrap. Where the wrapped sum passes and the
  true one does not, the driver reads outside the block; the model covers every other case
  (`RmCtrl.ReadsInside`).
- The window's allocator takes back any range of a zone with no free byte in it. A region returned a second
  time after its bytes were handed out again is accepted, and from then on a byte is free and live at once:
  the accounting holds over a run exactly as far as its first such return (`Shm.RunKeepsTiles`). Straight
  after the first return a second one is refused (`Shm.TwiceIsRefused`).
- Asking the pool for a buffer of no bytes gives none and drops one of the kept buffers
  (`Guarded.GuardPool.Take`).
- A registration that lists its pin behind the drain of a closing file keeps it for good. When all threads
  are through a pin has been given back exactly once if and only if no registration put it on the list
  behind its last free and the last close (`Pins.OnceExactly`, with a failing run in
  `Pins.LateRegistration`). The kernel does not close a file while a call on it runs, and with that order
  every pin is given back exactly once (`Pins.ExactlyOnce`).

## Model

| member | source | states |
|---|---|---|
| Seccomp.Program | device/src/sandbox.rs:498-573 | the generator's pushes, with offsets narrowed to eight bits, build the fixed blocks followed by one comparison per listed number and the two last returns |
| Seccomp.ArgBlockRuns | device/src/sandbox.rs:511-532 | a block that checks an argument returns its errno or allows for its own call, and falls through with the number reloaded for any other |
| Seccomp.PrologueRuns | device/src/sandbox.rs:499-506 | any other architecture and the x32 bit kill; nothing else does |
| Seccomp.Clone3Runs | device/src/sandbox.rs:534-541 | clone3 answers ENOSYS whatever its arguments |
| Seccomp.ChainHits | device/src/sandbox.rs:557-565 | from any comparison on, a listed number's forward jump lands on the allowing return |
| Seccomp.ChainMisses | device/src/sandbox.rs:557-571 | an unlisted number falls through every comparison, past the allowing return, to EPERM |
| Seccomp.FilterLayout | device/src/sandbox.rs:498-573 | every block stands at its place in the program |
| Seccomp.FixedRuns | device/src/sandbox.rs:499-555 | calls with a rule of their own get the rule's verdict before the list is reached |
| Seccomp.FixedReturns | device/src/sandbox.rs:499-555 | the same on the halves of the arguments the program loads: every rule's own return value, or the comparisons |
| Seccomp.FilterDecidesPolicy | device/src/sandbox.rs:498-573 | for any 1 to 256 numbers, in any order and with repeats, the program halts at a return with the policy's verdict, for every call and every argument |
| Seccomp.ReturnsByNumber | device/src/sandbox.rs:498-573 | the same in the table's own call numbers, flag bits and return words |
| Seccomp.FirstInstructions | device/src/sandbox.rs:499-506 | the first six instructions as the kernel decodes them |
| Seccomp.WordsOfData | device/src/sandbox.rs:322-324 | the words loaded are the number, the architecture and the low halves of two arguments |
| Seccomp.HalvesAreAll | device/src/sandbox.rs:322-324 | an argument is its two halves |
| Seccomp.EmptyListAllowsEverything | device/src/sandbox.rs:557-566 | with no numbers the fall-through of the last comparison is missing and every plain call is allowed |
| Seccomp.LongListRefusesItsFirst | device/src/sandbox.rs:560-564 | past 256 numbers the narrowed offset refuses the first listed call |
| Seccomp.FilterDecidesExactly | device/src/sandbox.rs:498-573 | on sorted lists without special calls the program is the policy if and only if the list holds 1 to 256 numbers |
| Seccomp.NoJumpLeaves | device/src/sandbox.rs:557-573 | no jump leads out of the program either way, it is at most 4096 instructions, and it ends in a return |
| Seccomp.LowKeepsBits | device/src/sandbox.rs:322-324 | the half of an argument that is loaded holds the bits that are tested |
| Vram.Vram.constructor | device/src/vram.rs:77-88 | empty books are exact; the limit is the given megabytes, saturated at 64 bits |
| Vram.Vram.Admit | device/src/vram.rs:123-132 | admitted exactly when there is no limit or the sum fits both 64 bits and the limit; a refusal is counted and changes nothing else |
| Vram.Vram.DropObject | device/src/vram.rs:255-268 | one record goes, and its memory with the last record that names it |
| Vram.Vram.Allocated | device/src/vram.rs:137-164 | what the handle named before is dropped; then it is recorded under the parent given, and names a new memory of the bytes given, if any, with the peak kept |
| Vram.Vram.Duplicated | device/src/vram.rs:168-189 | the handle is recorded under the parent given and names the source's memory, and nothing else changes about who names what, also onto the source's own handle |
| Vram.Vram.Children | device/src/vram.rs:206-211 | the recorded children of each handle of one client, whatever the order of the records |
| Vram.Vram.Doomed | device/src/vram.rs:212-219 | the worklist ends, cycles or not, with exactly the handles reachable through recorded parents |
| Vram.Vram.Freed | device/src/vram.rs:193-223 | exactly the handle and what hangs under it in that client go, or the whole client; the order of records does not show |
| Vram.ListedIsFreed | device/src/vram.rs:212-222 | dropping the listed handles is dropping the subtree |
| Vram.ClosedHoldsSubtree | device/src/vram.rs:212-219 | a list closed under recorded children holds everything reachable |
| Vram.Vram.ClientOpened | device/src/vram.rs:226-231 | a client is recorded once on the file it was made on |
| Vram.Vram.ClientFreed | device/src/vram.rs:241-246 | the client leaves every file's list and its objects go |
| Vram.Vram.FileClosed | device/src/vram.rs:249-253 | the objects of every client made on the file go, and no others |
| Vram.DropOneIsDropped | device/src/vram.rs:255-268 | counting a holder down is recounting who still names the memory |
| Vram.HeldThenDropped | device/src/vram.rs:168-189 | holding the source before dropping the old record makes the duplicate right, also when the two are one record |
| Vram.DroppedTwice | device/src/vram.rs:217-222 | dropping two sets in turn is dropping their union |
| Vram.AllocatedOk | device/src/vram.rs:137-164 | a charge keeps every holder count right, and keeps the total exact if and only if it fits 64 bits |
| Vram.DuplicatedOk | device/src/vram.rs:168-189 | a duplicate keeps the books and charges nothing |
| Vram.StepKeepsOk | device/src/vram.rs:123-268 | every operation keeps the books |
| Vram.RunKeepsBooks | device/src/vram.rs:75-269 | over any run each memory's count is the number of live records naming it, it is present exactly while that is positive, and the total is the bytes present |
| Vram.StepWithin | device/src/vram.rs:123-164 | no single operation takes use or peak past the limit by more than the rounding, if memory is taken only after asking |
| Vram.LimitHolds | device/src/vram.rs:29-34 | use and peak never pass the limit by more than one allocation's rounding, over any run: roundings do not add up |
| Vram.NothingLiveNothingUsed | device/src/vram.rs:255-268 | once no object is live no byte is charged |
| Vram.StepRecords | device/src/vram.rs:137-189 | an operation records what it makes under the parent it was given and leaves the parents of all other records |
| Vram.RunRecords | device/src/vram.rs:137-223 | over any run a live record's parent is the one its handle was last made under |
| Vram.FreeTakesExactly | device/src/vram.rs:193-223 | after any run a free takes exactly what is live in the client and was made under the handle, at any depth, told from the operations alone; the client's own handle takes all of the client |
| Vram.FreeTakesBytes | device/src/vram.rs:255-268 | what leaves use with a free is the bytes of the memories no record names any more, and no others |
| Vram.RunOpens | device/src/vram.rs:226-253 | a client is on a file's list if and only if it was opened on it and since then neither freed nor the file closed |
| Vram.CloseTakesExactly | device/src/vram.rs:249-253 | after any run a close takes exactly the objects of the clients still open on the file |
| Vram.PeakIsHighest | device/src/vram.rs:156-157 | over any run the peak is the most that was ever in use |
| Vram.FreeStaysInClient | device/src/vram.rs:193-223 | a free leaves other clients' objects, and memory they share stays charged |
| Vram.SaturationLosesTrack | device/src/vram.rs:137-164 | a concrete run past 64 bits whose total is no longer the bytes present |
| Shm.CanonicalIsUnique | device/src/shm.rs:44-50 | two free lists that hold the invariant and the same free bytes are equal |
| Shm.RunInOneExtent | device/src/shm.rs:44-50 | a free run lies in one extent, since extents never touch |
| Shm.Zone.constructor | device/src/shm.rs:53-59 | a new zone has every byte free |
| Shm.Zone.Alloc | device/src/shm.rs:62-73 | the lowest offset with a free run of the rounded length, exactly those bytes taken; refused only when there is none |
| Shm.Zone.FreeExtent | device/src/shm.rs:79-122 | accepted exactly for a non-empty range inside the zone with no free byte in it, and adds exactly that range |
| Shm.Zone.JoinBelow | device/src/shm.rs:101-111 | the extent below is taken in exactly when it ends at the range |
| Shm.Zone.JoinAbove | device/src/shm.rs:112-118 | the extent above is taken in exactly when it starts at the end |
| Shm.Zone.FreeBytes | device/src/shm.rs:124-126 | the sum of the extents is the number of free bytes |
| Shm.Zone.LargestFree | device/src/shm.rs:129-131 | the largest length that could still be allocated |
| Shm.TiledAfterAlloc | device/src/shm.rs:291-317 | an allocation keeps every byte free or in exactly one live region |
| Shm.TiledAfterFree | device/src/shm.rs:326-349 | a free of a live region keeps it so |
| Shm.StepKeepsTiles | device/src/shm.rs:291-349 | a step keeps it so if and only if it is not the return of a region that is no longer live |
| Shm.RunKeepsTiles | device/src/shm.rs:291-349 | over any run of allocations, returns and refusals every byte is free or in exactly one live region as far as the first such return, and not behind it |
| Shm.RunIsSound | device/src/shm.rs:291-349 | over any run without one live regions are apart, free and live bytes add up, and with all of it back the zone is as it began |
| Shm.TwiceIsRefused | device/src/shm.rs:90-99 | a second return right behind the first is refused |
| Shm.NothingLiveIsWhole | device/src/shm.rs:101-122 | with nothing live a zone is the one extent it started as, whatever the order of frees |
| Shm.LiveSetSize | device/src/shm.rs:291-349 | live regions, being disjoint, cover the sum of their lengths |
| Shm.FreePlusLive | device/src/shm.rs:124-126 | free bytes and live bytes add up to the zone |
| Shm.ShmAllocator.constructor | device/src/shm.rs:217-275 | three zones laid end to end, all free |
| Shm.ShmAllocator.Alloc | device/src/shm.rs:291-317 | a first-fit step of the zone of the asked protection, which lies where the window puts it, no step of the others, the new region live; refused exactly when no run fits, whatever the length |
| Shm.ShmAllocator.Free | device/src/shm.rs:326-349 | a live region is always taken back, a range out of its zone or with a free byte never, a failed restore changes nothing; the accounting holds afterwards if and only if the region was live |
| Shm.ShmAllocator.LiveDisjoint | device/src/shm.rs:261-268 | no byte of the window is in two live regions, in any of the zones |
| Shm.ShmAllocator.AllReturned | device/src/shm.rs:326-349 | when everything has come back each zone is whole again |
| Shm.ShmAllocator.BytesAddUp | device/src/shm.rs:352-366 | free and live bytes of each zone are its size |
| ControlQueue.RunKeeps | driver/virtio_gpu_nv.c:1329-1451 | the protocol's invariant holds after every interleaving of submits, answers, drains, waits, timeouts and kills |
| ControlQueue.StepKeeps | driver/virtio_gpu_nv.c:1329-1451 | each atomic step keeps it |
| ControlQueue.NoUseAfterFree | driver/virtio_gpu_nv.c:1371-1441 | no freed request is ever touched and none is freed twice |
| ControlQueue.TouchesOnlyLive | driver/virtio_gpu_nv.c:1371-1441 | in every interleaving the request a step reads or writes is still allocated, step by step |
| ControlQueue.OwnAnswer | driver/virtio_gpu_nv.c:1421-1423 | a caller that returns 0 has the device's answer to its own request, cut at what the device wrote and at its own buffer |
| ControlQueue.WhyItReturned | driver/virtio_gpu_nv.c:1409-1416 | over any run a caller gets -ETIMEDOUT if and only if its wait ran out of time and the completion was not set at its last check, the signal's error if and only if it was killed so, and its answer only otherwise |
| ControlQueue.NoRoomExactly | driver/virtio_gpu_nv.c:1394-1401 | it gets the queue's refusal if and only if the queue refused |
| ControlQueue.AnswerIsReached | driver/virtio_gpu_nv.c:1371-1423 | for every response length, answer of that length and reported length there is a run that returns 0 with exactly the first bytes up to both lengths, however the wait ended |
| ControlQueue.FailureIsReached | driver/virtio_gpu_nv.c:1409-1416 | for both other ends of the wait there is a run with that error |
| ControlQueue.RefusalIsReached | driver/virtio_gpu_nv.c:1394-1401 | a full queue refuses at once and keeps nothing |
| ControlQueue.AnswerStays | driver/virtio_gpu_nv.c:1429-1441 | the device's answer to a request never changes once given |
| ControlQueue.FreedBy | driver/virtio_gpu_nv.c:1409-1423 | an abandoned request is freed by the drain that takes it back and by nothing else; any other by the caller it served |
| ControlQueue.NothingLeaks | driver/virtio_gpu_nv.c:1429-1441 | with all callers back and the queue empty every request has been freed exactly once |
| ControlQueue.NoLostWakeup | driver/virtio_gpu_nv.c:1409-1441 | a sleeping caller whose answer was drained can wake |
| ControlQueue.HolderMoves | driver/virtio_gpu_nv.c:1329-1343 | whoever holds the queue's lock has a next step that needs nobody else |
| ControlQueue.CallerMoves | driver/virtio_gpu_nv.c:1371-1423 | a caller still in its call has a next step of its own whenever the lock is free or its own |
| PageRuns.FewestRuns | driver/virtio_gpu_nv.c:2455-2487 | no list of whole runs covering the pages in order is shorter than one more than the breaks between them |
| PageRuns.EmitPageRuns | driver/virtio_gpu_nv.c:2455-2499 | the coalescing loop writes runs that expand to the pages in order, as few as possible, in the encoder's own bytes; E2BIG exactly when they exceed 1024 or the buffer, EINVAL exactly for no pages |
| PageRuns.EmitNext | driver/virtio_gpu_nv.c:2463-2486 | one turn of that loop |
| PageRuns.Header | driver/virtio_gpu_nv.c:2491-2495 | the header written last completes the table |
| PageRuns.Encode | protocol/src/pageruns.rs:53-67 | the table, or nothing written, refused exactly for too many runs or too small a buffer |
| PageRuns.ParseTable | protocol/src/pageruns.rs:84-112 | a table parses to the runs it was made of, whatever follows it |
| PageRuns.ParsedIsTable | protocol/src/pageruns.rs:84-112 | what parses is the table of what it parsed to, but for the padding word and the slack |
| PageRuns.ParsesExactly | protocol/src/pageruns.rs:84-112 | a buffer parses if and only if it counts 1 to 1024 runs and holds them |
| Wire.LeByteIs | protocol/src/segments.rs:76-81 | byte i of an encoded word weighs 256 to the i |
| GuestMem.BackingIs | device/bin/vhost-user-nvgpu.rs:96-109 | an address in a region with a file is as far behind the region's start in the file as behind its base |
| GuestMem.BackedExactly | device/bin/vhost-user-nvgpu.rs:96-109 | an address has a place if and only if some region with a file holds it |
| GuestMem.BackingGoesOn | device/bin/vhost-user-nvgpu.rs:96-109 | inside a backing's length every further byte is at the next offset of the same file |
| GuestMem.Check | device/src/guestmem.rs:134-178 | the checks made before anything is mapped, exactly |
| GuestMem.Stitch | device/src/guestmem.rs:133-247 | succeeds exactly for described runs, each inside one region with a file, when the host maps; then page i of the span is the byte of the file the table says page i of the runs is, and nothing else is mapped; a failure leaves the address space as it was |
| GuestMem.PlaceRun | device/src/guestmem.rs:206-244 | one run goes right behind those before it, inside the reservation; if it cannot, the whole span goes |
| GuestMem.Translate | device/src/nvidia/osdesc.rs:128-168 | the bytes are parsed and stitched, or refused with nothing mapped |
| GuestMem.Register | driver/virtio_gpu_nv.c:2606-2671 | end to end, in the fields of the memory table: on success host page i of the span maps the region's file at the region's start plus the page's distance from its base, for every i of the pinned list; on failure nothing stays mapped; and it succeeds exactly under the stated conditions |
| Aperture.Aperture.Used | device/src/nvidia/aperture.rs:67 | the bytes of all placed pools |
| Aperture.Aperture.Collides | device/src/nvidia/aperture.rs:71-79 | whether the host range meets any pool's |
| Aperture.OverlapShares | device/src/nvidia/aperture.rs:71-79 | the comparison made is that some address is in both ranges |
| Aperture.Aperture.Gap | device/src/nvidia/aperture.rs:80-88 | the gap search ends at the lowest 2 MiB boundary that misses every pool |
| Aperture.Aperture.Admit | device/src/nvidia/aperture.rs:56-98 | EINVAL, ENOSPC and EEXIST exactly on the stated bounds and in the order they should be; otherwise the lowest boundary that fits, ENOSPC only when none does |
| Aperture.Aperture.Insert | device/src/nvidia/aperture.rs:100-102 | an admitted pool keeps all pools apart |
| Aperture.Aperture.Remove | device/src/nvidia/aperture.rs:104-106 | one pool goes and the rest stay |
| Aperture.Aperture.TakeForHandle | device/src/nvidia/aperture.rs:108-118 | a file's pools all go, and no others |
| Aperture.GapStep | device/src/nvidia/aperture.rs:83-88 | passing one pool skips no boundary that was free |
| Aperture.InsertKeepsSound | device/src/nvidia/aperture.rs:100-102 | placement keeps pools aligned, apart in the aperture and in host addresses, and within both limits |
| Aperture.RemoveKeepsSound | device/src/nvidia/aperture.rs:104-118 | so does removal |
| Aperture.RunKeepsSound | device/src/nvidia/aperture.rs:54-123 | they stay so over every run, whatever ids are reused |
| Segments.PayloadsInBounds | protocol/src/segments.rs:104-124 | in any accepted block each payload lies inside it, behind the table, and no two overlap |
| Segments.Parse | protocol/src/segments.rs:104-124 | accepts exactly a small enough count, a whole table and padded payloads that all fit |
| Segments.Find | protocol/src/segments.rs:153-155 | the first payload with the offset, none exactly when there is none |
| Segments.EncodedLen | protocol/src/segments.rs:47-56 | the block's length, refused exactly past eight segments or 32 bits |
| Segments.Encode | protocol/src/segments.rs:63-89 | the block and nothing else of the buffer, or nothing at all |
| Segments.BlockReadsBack | protocol/src/segments.rs:104-147 | a block is accepted and yields its segments in order, whatever slack follows |
| Segments.Gather | driver/virtio_gpu_nv.c:1955-1980 | the block parses to one segment per pointer: its offset, its length, and byte by byte the caller's memory where RM reads the buffer and zeros where it only writes; it fails exactly when a byte RM reads cannot be read; zeros follow the block |
| Segments.GatherReadsBack | driver/virtio_gpu_nv.c:1955-1980 | the backend's parser reads back exactly what was gathered |
| Segments.Scatter | driver/virtio_gpu_nv.c:2013-2049 | what is delivered is what the reply's readable entries say, each to the first pointer that takes it |
| Segments.FindTarget | driver/virtio_gpu_nv.c:2041-2047 | the first pointer of that offset that is not null and long enough |
| Segments.DeliveriesFit | driver/virtio_gpu_nv.c:2034-2047 | whatever the reply says, bytes go only to a pointer of this call and never past its length |
| Segments.SameReading | driver/virtio_gpu_nv.c:2013-2047 | what the stricter parser accepts both halves read alike |
| Segments.ReadersAgreeExactly | driver/virtio_gpu_nv.c:2013-2047 | the guest reads what the parser reads if and only if the parser accepts the reply, or it has no readable table, or its first payload runs past it |
| Segments.ReadersDiffer | driver/virtio_gpu_nv.c:2034-2036 | a block with an unpadded last payload is read by the guest and refused by the parser |
| Segments.LateOverrun | driver/virtio_gpu_nv.c:2034-2036 | a block whose second entry runs past it is refused by the parser and its first segment read by the guest |
| Segments.EachIsDelivered | driver/virtio_gpu_nv.c:2041-2047 | segments for any of the recorded pointers, in any order, are delivered one each, to the pointer of their own offset |
| Segments.ReplyReachesCaller | driver/virtio_gpu_nv.c:2013-2049 | so is every encoded reply to some of the pointers, whatever slack follows it |
| RmCtrl.ReadCount | driver/nvgpu_rmctrl.h:163-209 | the element count as an exact number, or a refusal exactly when it cannot be read or is too wide to square |
| RmCtrl.Len | driver/nvgpu_rmctrl.h:158-218 | the exact count times the element size, up to 1 MiB, or a refusal: the wrapping product never shows |
| RmCtrl.Find | driver/nvgpu_rmctrl.h:129-149 | on an ascending table, an entry for the command exactly when there is one |
| RmCtrl.TableFor | driver/nvgpu_rmctrl.h:107-127 | on ascending releases, the newest table that is not newer than the host |
| RmCtrl.NewerIsGreater | driver/nvgpu_rmctrl.h:121-123 | the comparison of releases is that of the three numbers read as one |
| RmCtrl.LookAt | driver/virtio_gpu_nv.c:1798-1812 | one pointer: outside the block, null, or of a computed length |
| RmCtrl.CollectOne | driver/virtio_gpu_nv.c:1798-1820 | one turn of the loop and when it breaks |
| RmCtrl.Collect | driver/virtio_gpu_nv.c:1797-1836 | every pointer that is not null, or none at all, within 2 MiB together |
| RmCtrl.SegmentsOf | driver/virtio_gpu_nv.c:1780-1837 | segments go exactly for a command with an entry, as the entry says, in a block of at most 2 MiB and never smaller than they need |
| RmCtrl.KeptFit | driver/virtio_gpu_nv.c:1788-1819 | the block set aside holds the segments sent, and none of them is null |
| RmCtrl.KeptApart | driver/virtio_gpu_nv.c:1814-1819 | pointers at different places are recorded at different places |
| RmCtrl.Forward | driver/virtio_gpu_nv.c:1780-1980 | from the parameter block to what the backend reads: for each pointer of the table that is not null, in order, its record with the address its eight bytes hold and its own length, and in the block the caller's bytes for that record; no block when every pointer is null |
| RmCtrl.KeptRecords | driver/virtio_gpu_nv.c:1798-1820 | the records are of the pointers that are not null, each with its own place, address, length and direction |
| RmCtrl.AnswersFit | device/src/nvidia/rmctrl.rs:167-187 | the answers, one for each pointer that RM writes through and that addresses anything, are for recorded pointers and no longer than what came |
| RmCtrl.AnswerBlock | device/src/nvidia/nested.rs:498-512 | the reply holds exactly those answers in a block as long as the guest's, or is empty when there are none |
| RmCtrl.AnswersAre | device/src/nvidia/rmctrl.rs:240-246 | the answers are what RM left behind the pointers it writes through, in the table's order, empty buffers left out |
| RmCtrl.AnswersReturn | driver/virtio_gpu_nv.c:2013-2049 | each of them lands at the pointer the control named for it, and nothing else is delivered |
| RmCtrl.WrittenIsDelivered | driver/virtio_gpu_nv.c:2013-2049 | so what RM wrote behind a pointer arrives at the address the caller's block holds for it |
| SysFiles.Read | driver/virtio_gpu_nv.c:4974-5348 | whatever the buffer holds, at most 8 nodes, 256 sizes and 128 commands are kept, and no kept command places a descriptor outside its parameters |
| SysFiles.FilesReadBack | driver/virtio_gpu_nv.c:4978-5068 | the file section reads back, paths cut at 255 bytes, and the reader stands behind its terminator |
| SysFiles.DriReadBack | driver/virtio_gpu_nv.c:5085-5138 | the nodes read back, names cut at 31 bytes, and the reader stands at the next one |
| SysFiles.SizesReadBack | driver/virtio_gpu_nv.c:5179-5192 | all sizes are read past, however many |
| SysFiles.UvmReadBack | driver/virtio_gpu_nv.c:5230-5267 | so are all UVM commands |
| SysFiles.OsdescReadsBack | driver/virtio_gpu_nv.c:5279-5320 | every word of the OS-descriptor section comes back in its own field |
| SysFiles.NinthNode | driver/virtio_gpu_nv.c:5085-5162 | where a ninth node stands the next section's magic is not found |
| SysFiles.StreamReadsBack | driver/virtio_gpu_nv.c:4948-5353 | reading a zeroed buffer with the whole stream gives exactly what the guest keeps of it, for every combination of sections and any number of nodes |
| SysFiles.SectionsArrive | driver/virtio_gpu_nv.c:5140-5292 | a later section arrives if and only if all before it were sent and there are at most eight nodes |
| SysFiles.AllArrives | driver/virtio_gpu_nv.c:4948-5353 | a host within the guest's limits arrives whole |
| SysFiles.FileIsKept | driver/virtio_gpu_nv.c:4996-5012 | a file is kept whole but for a path past 255 bytes |
| SysFiles.NodeIsKept | driver/virtio_gpu_nv.c:5085-5138 | a node is kept whole but for a name past 31 bytes |
| SysFiles.SizesAreOf | device/src/nvidia/files.rs:230-257 | the sizes sent are those of the classes that take parameters, each once and in order |
| SysFiles.RowsAreOf | device/src/nvidia/files.rs:292-319 | the rows sent tell of the commands with at most one descriptor, each once and in order, with the kind the guest reads the word for and its place |
| SysFiles.Magics | driver/virtio_gpu_nv.c:85-97 | the bytes that open the last three sections |
| SysFilesIo.WriteFiles | device/src/nvidia/files.rs:154-187 | as many files as leave room for the terminator, and the terminator |
| SysFilesIo.FilesSentAreMost | device/src/nvidia/files.rs:154-187 | those files with the terminator fit, and with one more they would not |
| SysFilesIo.WriteDri | device/src/nvidia/files.rs:425-464 | the number of all nodes and as many records as fit |
| SysFilesIo.NodesSentAreMost | device/src/nvidia/files.rs:425-464 | those records fit, and with one more they would not |
| SysFilesIo.WriteSizes | device/src/nvidia/files.rs:230-257 | the sizes of classes that take parameters, all or none |
| SysFilesIo.BuildRows | device/src/nvidia/files.rs:292-319 | one row per command with at most one descriptor |
| SysFilesIo.WriteUvm | device/src/nvidia/files.rs:286-342 | the rows, all or none |
| SysFilesIo.WriteOsdesc | device/src/nvidia/files.rs:360-410 | the 22 words, all or none |
| SysFilesIo.HandleGetFiles | device/src/nvidia/files.rs:153-208 | the sections in order, each only where it fits, and nothing else of the buffer |
| SysFilesIo.AllIsSent | device/src/nvidia/files.rs:153-208 | with room for all of it all of it is sent |
| SysFilesIo.SentIsStream | device/src/nvidia/files.rs:153-208 | with less room the buffer holds the stream of the host that fits: fewer files, and each later section whole or not at all |
| SysFilesIo.ReadsWhatFits | driver/virtio_gpu_nv.c:4948-5353 | in a buffer of any size, if the nodes fit behind the files, the guest reads exactly what it keeps of that host |
| SysFilesIo.FilesAndNodesArrive | driver/virtio_gpu_nv.c:4974-5138 | in a buffer of any size, however many nodes are announced, the files and nodes that fit are read and nothing else is taken for one |
| SysFilesIo.SizesTooLong | driver/virtio_gpu_nv.c:5140-5267 | commands that were sent behind sizes that did not fit are not read |
| SysFilesIo.SizesTooLongExample | device/src/nvidia/files.rs:230-342 | a host with three classes and one command, and a buffer of 36 bytes, lose the command |
| SysFilesIo.ReadFiles | driver/virtio_gpu_nv.c:4978-5068 | the reader's loop over the files |
| SysFilesIo.ReadDri | driver/virtio_gpu_nv.c:5085-5138 | the loop over the nodes, stopping at a bad record |
| SysFilesIo.ReadSizes | driver/virtio_gpu_nv.c:5178-5192 | the first 256 are kept and all are passed |
| SysFilesIo.ReadUvm | driver/virtio_gpu_nv.c:5229-5267 | the first 128 whose descriptor lies inside are kept and all are passed |
| SysFilesIo.Guest.Fetch | driver/virtio_gpu_nv.c:4948-5353 | a section that is found replaces what the device had, one that is not leaves it; OS descriptors are usable exactly when all three routes lie inside their parameters |
| SysFilesIo.Exchange | driver/virtio_gpu_nv.c:4948-5353 | one request with a buffer of any size the nodes fit in: what the backend wrote of its host is what the guest then has |
| Layout.Compute | gen/nvabi_sizes.py:82-113 | the recursive layout terminates on every table and computes the specification, whose values `PlacedIsOfType` and `LayoutTheorem` tell |
| Layout.AnswersExactly | gen/nvabi_sizes.py:82-113 | there is a result if and only if every name and array length on the way down is known and no struct holds itself at any depth |
| Layout.SameInside | gen/nvabi_sizes.py:103-110 | a struct has one layout however deep it is nested |
| Layout.ShapeIsSound | gen/nvabi_sizes.py:103-113 | alignments stay powers of two and sizes multiples of them |
| Layout.FieldsAreParts | gen/nvabi_sizes.py:104-110 | the parts of a struct are its fields, each with the size and alignment of its own type, structs included |
| Layout.ElementsAreParts | gen/nvabi_sizes.py:88-94 | the parts of an array are its elements, each a whole size behind the one before |
| Layout.LayoutIsSound | gen/nvabi_sizes.py:82-113 | a value on its alignment is well placed: every field and element of it, at every depth, is on its own alignment, they lie inside it in order, and the padding between them is less than an alignment |
| Layout.LaidApart | gen/nvabi_sizes.py:103-113 | well placed parts lie inside their parent and share no byte, the padding at their ends included |
| Layout.AlignIsAttained | gen/nvabi_sizes.py:104-113 | a struct's alignment is 1 or that of one of its fields, and none of them has more |
| Layout.PlacedIsOfType | gen/nvabi_sizes.py:82-113 | a pointer is (8, 8), a primitive what the table gives it, an array the declared number of elements and its element's alignment, a struct its declared fields with the greatest of their alignments |
| Layout.PartIsPlaced | gen/nvabi_sizes.py:103-113 | whatever is reached inside a value is a value of its own type |
| Layout.EveryPart | gen/nvabi_sizes.py:82-113 | whatever field or element is reached at whatever depth is on its own alignment and inside the value |
| Layout.SiblingsApart | gen/nvabi_sizes.py:82-113 | two fields of a struct or elements of an array are apart over their whole sizes, and so is everything inside the one from everything inside the other |
| Layout.AlignsUp | gen/nvabi_sizes.py:106-112 | padding goes to the next multiple and no further |
| Layout.LayoutTheorem | gen/nvabi_sizes.py:82-113 | all of it together for sound declarations: there is a layout, and in a value at any place its alignment allows every field and element at every depth is what its type says, aligned, inside, and apart from its siblings |
| Pins.StepKeeps | driver/virtio_gpu_nv.c:2556-2590 | each step keeps every pin in exactly one place: the list, one thread's hands, or given back |
| Pins.RunKeeps | driver/virtio_gpu_nv.c:2556-2743 | so does every interleaving |
| Pins.AtMostOnce | driver/virtio_gpu_nv.c:2376-2384 | no pin is given back twice, nor while it is listed or in use |
| Pins.OnceOrListed | driver/virtio_gpu_nv.c:2556-2590 | when all threads are through a pin was given back exactly once or is still listed |
| Pins.StepLists | driver/virtio_gpu_nv.c:2556-2590 | a pin is listed after a step if and only if the step put it there, or it was there and the step did not take it |
| Pins.ListedExactly | driver/virtio_gpu_nv.c:2556-2743 | over any interleaving a pin is listed if and only if it was put there and neither a free of its object nor a close came after |
| Pins.OnceExactly | driver/virtio_gpu_nv.c:2709-2743 | when all threads are through a pin was given back exactly once if and only if that is not so |
| Pins.FreeTakesItsOwn | driver/virtio_gpu_nv.c:2556-2573 | after any run a free of an object takes the pin registered for it last and not yet taken, and nothing when there is none |
| Pins.FreeBehindKeep | driver/virtio_gpu_nv.c:2709-2722 | a free right behind a registration takes that registration's pin |
| Pins.ExactlyOnce | driver/virtio_gpu_nv.c:3193-3205 | a close after the last registration leaves every pin given back exactly once, whatever frees run beside it |
| Pins.LateRegistration | driver/virtio_gpu_nv.c:2709-2722 | without that order one pin stays listed for good |
| Guarded.GuardedBuf.New | device/src/guarded.rs:52-84 | none exactly for no bytes or when the host does not map; otherwise a zeroed buffer with its slack and less than a page more behind it |
| Guarded.GuardedBuf.Reset | device/src/guarded.rs:95-106 | the buffer ends between 4096 and 4111 bytes before the guard, those bytes zeroed, the rest of the mapping untouched |
| Guarded.BestOf | device/src/guarded.rs:148-154 | the smallest capacity that fits, the first of equals |
| Guarded.SwapRemoveLosesOne | device/src/guarded.rs:155-156 | taking one buffer out keeps all the others |
| Guarded.GuardPool.Take | device/src/guarded.rs:147-162 | the smallest kept buffer that fits, or a new one, with only zeros between its end and the guard; nothing else in the pool changes |
| Guarded.GuardPool.Give | device/src/guarded.rs:165-169 | at most eight buffers are kept and none over 64 KiB |
| Guarded.StepKeepsApart | device/src/guarded.rs:147-190 | a lease gives a buffer that is big enough and that nobody else holds; no step makes two buffers share memory |
| Guarded.RunKeepsApart | device/src/guarded.rs:147-190 | over any run of leases and returns, in whatever order leases end, at most eight buffers are kept, none over 64 KiB, and no two, kept or leased, share memory |

## Left out

- System calls, the vhost-user transport, kernel object plumbing, logging, error strings and timing. Where one matters its effect is a parameter: what the host maps, where it puts a reservation, whether a backing was restored.
- `allowed()` in device/src/sandbox.rs: the list is arbitrary; installing the filter is not modelled.
- Vram: holder counts, memory ids and the refusal count are unbounded; the source has 32- and 64-bit words.
- Shm: mapping host files into the window is not modelled.
- Shm.Zone.FreeExtent: asks that the place in the zone and the rounded length add up within 64 bits, as the source's own `start + want` must to mean anything; every region handed out meets it.
- Shm.ShmAllocator.Free: asks the same of the region, for the same reason.
- ControlQueue: a failed allocation of the request and the copy of its bytes into it; the device's reported length is taken to fit a signed word, as `min_t(int, ...)` assumes. Used buffers come back in any order, which includes the ring's.
- ControlQueue: the return value of the wait is one of three outcomes; the ten-second timeout has no clock.
- GuestMem: unmapping always succeeds, and a run's file descriptor is a number that stays valid.
- PageRuns.EmitPageRuns: physical addresses lie within 52 bits, so address arithmetic in the guest's loop does not wrap.
- Aperture: placing a pool in the VMM and taking it out again; sorting the pools is modelled as taking the next lowest offset.
- Segments: a `copy_to_user` that fails only changes the return value of the ioctl, and is not modelled.
- RmCtrl.ReadCount: what is read when the 32-bit check on the count field's place wraps and passes is outside the block and not modelled; every other field is, also one whose sum wraps and is refused.
- RmCtrl.Len: leaves out the same fields, and so do LookAt, CollectOne, Collect, SegmentsOf and Forward.
- RmCtrl: guests of version 0.1, whose single buffer goes raw and not in a segmented block.
- RmCtrl: parsing the version string and failed copies of the parameter block.
- SysFiles.StreamReadsBack: buffers are smaller than the first magic word (the guest's is 128 KiB), no file has neither path nor content and no node has an empty name; the backend's sources give neither.
- SysFilesIo.ReadsWhatFits: where a node record was announced and cut off, the files and nodes are covered by `FilesAndNodesArrive`, but what the reader makes of the sections behind them depends on their bytes and is not stated. `Exchange` leaves out the same buffers.
- SysFiles: PCI configuration space handling of the files read; the guest's list of files stands for it.
- Layout: reading the Go sources by regular expressions; types are given as parsed.
- Pins: the VID_HEAP_CONTROL route and files closed through the DRM node.
- Guarded: `len + 4096` within the machine word; a lease's return on drop is a call of `Give`.
- `dispatch_nested` and the embedded-pointer planning behind it, handle tables, capabilities, configuration space, the Vulkan layer and the staging of userspace files.
