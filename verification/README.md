# vmtainer: a verified model

vmtainer boots a guest kernel once, saves the whole machine to a snapshot file and then starts
container micro-VMs from that file in milliseconds. This project models the parts where that promise
can break: how saved RAM is rebuilt (by several threads, lazily by userfaultfd, or both), how the
userspace virtio-net thread works on rings in that RAM while the guest writes to them, what the
snapshot file holds, and how configuration travels into the guest. It proves what holds on every
input, every interleaving and every run.

`dafny verify dfyconfig.toml` checks the whole project.

## Modules

| file | subject |
|---|---|
| `Common.dfy` | small types and predicates several components share |
| `Bytes.dfy`, `GuestMemory.dfy` | little-endian words, bits, pages, the unrolled OR-reduce |
| `DirtyBitmap.dfy` | the bitmap the save loop computes |
| `EagerRestore.dfy`, `CopyPool.dfy` | the coalesced copy, the zero scan, the sparse copy; the copy workers as a state machine over all interleavings |
| `LazyRestore.dfy` | userfaultfd restore: vCPU, net thread, fault messages, worker and ring pre-fault interleaving freely; the memory accessors see |
| `RingPrefault.dfy` | the ring pages a lazy restore installs before the vCPU resumes |
| `RestoreAgreement.dfy` | all restore paths show the same RAM |
| `Virtqueue.dfy`, `NetDataPath.dfy` | rings as bytes in guest RAM; the net thread against a concurrent driver, refining two unbounded FIFOs |
| `NetProgress.dfy` | progress of that thread's two loops on every run |
| `ThreadAccesses.dfy` | the bytes each action of the net thread reads and writes, and that its effect is a function of them |
| `PagedDataPath.dfy` | the net thread's actions as accesses to demand-paged RAM, refining the data path and refined by it |
| `NetExample.dfy` | a concrete run of the data path that meets all its assumptions |
| `SnapshotContinuity.dfy` | run, save, restore by any path, start a fresh thread and run on, with pages still missing |
| `SnapshotFile.dfy` | the file format and its three readers |
| `SnapshotRoundTrip.dfy` | scan, write, parse, rebuild and re-wire, put together |
| `RegisterFile.dfy`, `VirtioDevices.dfy` | the MMIO register files, the vhost-user handshake and ring set-up |
| `Lifecycle.dfy` | mapping, fault worker and net thread from start-up to cleanup |
| `VmConfigText.dfy`, `EnvReader.dfy`, `ConfigJourney.dfy` | `.vmconfig` printing and parsing; the reader of the JSON `env` object; all of them in a row |
| `SandboxNet.dfy` | the CRI network manager's TAP and address pools |
| `IdeDisk.dfy` | the example monitor's IDE controller |

Code that updates fields, arrays or buffers step by step is a class or a method proved against a
specification function; concurrent code is a step function, and a run is any sequence of steps.

## What the environment is taken to do

- UFFDIO_COPY and UFFDIO_ZEROPAGE install a missing page atomically and fail with EEXIST on a present
  one; EAGAIN is retried at once and is not a step of its own. Atomic counters and `memcpy` of different pages do not
  interfere, so one page copied is one step.
- The driver keeps what the virtio specification asks of it: queue sizes that are powers of two up to
  256, used rings that overlap no available ring, chains that stay inside RAM and are left alone while
  the device owns them, at most a queue's worth of buffers outstanding, and RX chains in one of the two
  layouts the thread supports (one large buffer, or a 12-byte header buffer and a data buffer).
- The TAP hands over packets of bounded size that every RX chain has room for; writing a frame
  appends it. System-call outcomes in `Lifecycle.dfy`, and whether a thread that is joined leaves its
  loops, are inputs; so are the random draws in `SandboxNet.dfy`.

## What turned out not to hold

Each of these has a lemma or method giving the exact condition.

- Lazy restore without a bitmap zero-fills every page, so it is faithful only for an all-zero image
  (`LazyWithoutBitmap`), and with a bitmap exactly when clear bits stand for zero pages
  (`LazyFaithfulIffSound`).
- A thread stopped on a fault gets on exactly when its page is there, or the worker is in its loop and
  a queued message names the page (`ResumesIffAnnounced`). What strands a thread is exactly an ioctl
  failing outright on the only message for its missing page, the worker leaving its loop while its page
  is missing, or an access of its own to a missing page after that (`StrandsIff`, with inputs in
  `FailedIoctlStrands` and `QuitStrands`); once the worker is gone only a pre-fault helps
  (`StaysStranded`), and `FreesIff` lists exactly what frees a stranded thread.
- Pre-faulting the rings covers the page each ring part starts in and no other (`RingsPrefaulted`), so a
  part that crosses a page boundary can still fault (`CrossingStillFaults`).
- The copy worker stays inside a bitmap exactly when it covers RAM (`CopyAll`); no reader checks that.
- The wrapped ring slot is right for all counts exactly when the queue size divides 65536
  (`WrappedSlot`), and a gathered packet is the whole chain exactly when it is under 65536 bytes
  (`GatherIsConcat`); what it is otherwise is stated by `GatherPicks`.
- A received packet is dropped exactly when the next RX chain has no room for it (`PacketTakenIff`).
- A fresh net thread continues the FIFO exactly when the old one stopped with nothing in flight
  (`RestartContinues`).
- The kernel module adds header and xsave size in 32 bits, so it finds the writer's sections exactly
  when the sum fits (`LocatorExact`). The clone loader accepts truncated files, and writes past its
  xsave buffer exactly when more than 8192 bytes are asked for and present (`CloneLoad`); the restore
  parser does so exactly when more than 8192 are asked for and all present (`ParseFile`).
- Cleanup can wait for ever: for a net thread that never found its queues ready or is stranded on a
  fault, for a fault worker that has neither left nor a wake-up descriptor, and at the end for
  virtiofsd. It removes the mapping exactly when neither of the first two is the case, and completes
  exactly when none is (`Lifetime`, with inputs in `HungNet`, `HungFault`, `HungWorker` and
  `HungDaemon`).
- Cleanup joins only the last net thread, and not even that one when its eventfd could not be
  created: every net thread has been joined exactly when at most one was started and its eventfd
  exists (`Lifetime`).
- A hostname, address or gateway that is itself wrapped in quotes loses them (`ConfigRoundTrip`).
- White space inside empty braces makes the `env` reader step over the closing brace (`EmptyObject`).
  It runs past the end of the text exactly when a round of its loop starts in white space that reaches
  to the end (`OverrunIff`), as it does in an object that breaks off after a comma and white space
  (`BrokenOff`); so never in a text whose last character is not white space (`NoTrailingBlank`).
- A value in the `env` object that is not a string ends the reading, and what follows it is lost
  (`EnvBroken`); of more than 32 pairs the first 32 are read (`EnvCut`).
- A disk read that starts in the image delivers words only, and the image's, exactly when the whole
  transfer lies in it (`ReadsWordsIff`).
- Beyond 24 host bits an allocated address can be the network address (`SumExact`).
- Stopping a sandbox that is not live is harmless exactly when nobody holds the TAP and the address it
  names (`StaleTeardownSafeIff`, with an input in `StaleStop`).

Where the repository's documentation and code disagree the model follows the code: its README.md:588-593
places the TSC frequency at 3812 and the virtio-net state at 3952, while the structure puts them at 3808
and 3904 (src/vmm.hpp:74-136); line 282 speaks of saving dirty pages, while all of RAM is written
(src/vmm.cpp:1434-1445).

## Model

| member | source | states |
|---|---|---|
| `Bytes.OrBits` | src/vmm.cpp:1400-1404 | a bit of the OR is set iff it is set in either operand |
| `GuestMemory.OrReduce` | src/vmm.cpp:1400-1404 | the unrolled fold is zero exactly for the zero page |
| `DirtyBitmap.BuildBitmap` | src/vmm.cpp:1392-1409 | a bit is set exactly for the non-zero pages, padding bits are clear, and the count is the number of such pages |
| `EagerRestore.CopyChunk` | src/vmm.cpp:1121-1142 | copying coalesced runs stays inside the bitmap iff it covers the chunk, and then overlays exactly the chunk's dirty pages and counts them |
| `EagerRestore.CopyAll` | src/vmm.cpp:1117-1146 | one worker alone stays inside the bitmap iff it covers RAM, and then overlays all dirty pages and reports their number |
| `EagerRestore.ZeroScanRestore` | src/vmm.cpp:1167-1176 | exactly the non-zero pages of the source replace those of the destination |
| `EagerRestore.SparseRestore` | kmod/snap_bench.c:244-262 | the dirty pages among those the bitmap has bits for are overlaid, and nothing else changes |
| `CopyPool.StepKeepsInv` | src/vmm.cpp:1117-1146 | every action of every worker keeps: chunks claimed in order, no page held twice, settled pages copied, local and total counts equal to the dirty pages counted |
| `CopyPool.PoolResult` | src/vmm.cpp:1095-1162 | for any number of workers and any schedule that finishes, every chunk is claimed exactly once, RAM is the source on dirty pages and unchanged elsewhere, and the total is the number of dirty pages |
| `CopyPool.PoolTerminates` | src/vmm.cpp:1120-1146 | no interleaving takes more useful steps than the work left in the state it starts from |
| `CopyPool.PoolBound` | src/vmm.cpp:1095-1162 | from the start that is at most workers + 1026 per chunk |
| `LazyRestore.StepEffective` | src/vmm.cpp:942-999 | whatever the state and snapshot, an event either completes nothing and leaves the memory accessors see alone, or completes one access, which reads or writes exactly that memory |
| `LazyRestore.PagingInvisible` | src/vmm.cpp:919-1001 | over every run from every state, every accessor sees ordinary memory: reads return its bytes and only writes change it |
| `LazyRestore.AnyAccessesPossible` | src/vmm.cpp:942-999 | while the worker is in its loop, a thread that is not stopped can complete any sequence of accesses, each at once or through a fault the worker serves |
| `LazyRestore.PrefaultInstalls` | src/vmm.cpp:1038-1068 | a pre-fault of an address other than 0 in RAM adds exactly its page, holding the image's if marked and zeros if not when it was missing, and changes nothing else; any other address changes nothing |
| `LazyRestore.PrefaultsInstall` | src/vmm.cpp:1038-1086 | a list of them adds exactly the pages reached, with no fault message and no change to what accessors see |
| `RingPrefault.RingStarts` | src/vmm.cpp:1070-1086 | the loops over the saved queues of both devices pre-fault exactly the starts of the three parts of each configured queue |
| `RingPrefault.RingsPrefaulted` | src/vmm.cpp:1038-1086 | afterwards an access completes at once and without a message iff its page was there or some ring part starts in it, and sees the same memory |
| `RingPrefault.PartPrefaulted` | src/vmm.cpp:1070-1086 | so every byte of a ring part inside one page is reached without a fault |
| `RingPrefault.CrossingStillFaults` | src/vmm.cpp:1070-1086 | an input: the second half of a descriptor table that starts mid-page still faults |
| `LazyRestore.StartShowsImage` | src/vmm.cpp:952-996 | with every page missing, accessors see the image iff clear bits stand for zero pages |
| `LazyRestore.MidwayShowsImage` | src/vmm.cpp:1179-1188 | after a midway copy, iff every page is rightly copied or will be filled in as the image has it |
| `LazyRestore.LazyRefinesEager` | src/vmm.cpp:909-1006 | with a sound snapshot, in every interleaving each read returns what fully copied RAM would give, and what accessors see is that RAM with the completed writes on it |
| `LazyRestore.LazyFaithfulIffSound` | src/vmm.cpp:942-999 | that holds for every run exactly when clear bits stand for zero pages |
| `LazyRestore.LazyWithoutBitmap` | src/vmm.cpp:954-999 | with no bitmap, exactly when the whole image is zero |
| `LazyRestore.MidwayRefinesEager` | src/vmm.cpp:1179-1188 | the same from a midway start, with the eagerly copied pages present and the others zero or marked |
| `LazyRestore.WritesSurvive` | src/vmm.cpp:961-996 | over every run from every state, sound snapshot or not, no page install overwrites a write: RAM holds the last byte written to each address |
| `LazyRestore.ResumesIffAnnounced` | src/vmm.cpp:919-1001 | in every state a stopped thread completes its access after the queued messages are served iff its page is present, or the worker is in its loop and one of them names it |
| `LazyRestore.ErrorStrandsIff` | src/vmm.cpp:972-978 | an outright ioctl failure strands a thread iff its page is missing and no other message names it |
| `LazyRestore.StrandsIff` | src/vmm.cpp:919-1001 | over all events: a thread becomes stranded iff an ioctl fails on the only message for its missing page, the worker leaves while its page is missing, or it touches a missing page after that |
| `LazyRestore.FreesIff` | src/vmm.cpp:919-1086 | over all events: a stranded thread is freed iff its page is pre-faulted or, with the worker in its loop, a message for that page is queued by a stale fault, another thread's access or its own retry |
| `LazyRestore.WaitersResume` | src/vmm.cpp:919-1001 | from a lazy or midway start, after any run without outright ioctl failures in which the worker stays, no thread is stranded, and serving the queued messages lets any stopped thread complete its access |
| `LazyRestore.StaysStranded` | src/vmm.cpp:919-938 | once the worker has left its loop, no run without a pre-fault lets a stranded thread on |
| `LazyRestore.FailedIoctlStrands` | src/vmm.cpp:972-978 | an input: one read whose fault is answered by a failing ioctl strands its thread |
| `LazyRestore.QuitStrands` | src/vmm.cpp:919-938 | an input: one read, and the worker leaves; the message stays queued and the thread stranded |
| `RestoreAgreement.OverlayExact` | src/vmm.cpp:1121-1142 | a bitmap copy is exact iff the destination already agrees on every clear page |
| `RestoreAgreement.OverlayFreshExact` | src/vmm.cpp:1121-1142 | onto fresh memory it is exact iff the bitmap is sound |
| `RestoreAgreement.ZeroScanExact` | src/vmm.cpp:1167-1176 | the zero scan onto fresh memory gives the image |
| `RestoreAgreement.PoolRestores` | src/vmm.cpp:1095-1162 | with the saved bitmap the copy pool gives the image under every schedule |
| `RestoreAgreement.LazyRestores` | src/vmm.cpp:909-1006 | a lazy restore is like eagerly restored RAM all along, and once fully faulted RAM itself is the image with the completed writes on it |
| `RestoreAgreement.MidwayRestores` | src/vmm.cpp:1179-1188 | so is a midway restore, with or without a bitmap |
| `RestoreAgreement.EveryPathRestores` | src/vmm.cpp:1025-1189 | on all five paths, with all their schedules, faults and accesses so far, the memory the guest sees is exactly the saved RAM with the completed writes on it, however many pages are still missing, and every completed read was of that memory |
| `RestoreAgreement.SaveAndCopy` | src/vmm.cpp:1392-1409 | the save loop's bitmap driving the copy worker onto zeroed memory rebuilds RAM and counts its non-zero pages |
| `Virtqueue.WrittenElem` | src/virtio.cpp:797-799 | a used element written to a slot reads back, and index, other slots and memory outside the used ring are untouched |
| `Virtqueue.WrittenIdx` | src/virtio.cpp:800-802 | the same for the used index |
| `Virtqueue.DescLayout` | src/virtio.hpp:163-171 | a descriptor is found where its four fields lie in memory |
| `Virtqueue.DescFlags` | src/virtio.hpp:170-171 | flag 1 continues a chain and flag 2 lets the device write, whatever other flags are set |
| `Virtqueue.AvailLayout` | src/virtio.hpp:173-177 | so are the index and every head of an available ring |
| `Virtqueue.UsedLayout` | src/virtio.hpp:179-188 | completions are written as id and length, eight bytes each behind flags and index |
| `Virtqueue.WrappedSlot` | src/virtio.cpp:774 | the slot of the wrapped index is the slot of the unbounded count for all counts iff the size divides 2^16 |
| `Virtqueue.WrappedCompare` | src/virtio.cpp:773 | with at most a queue outstanding the wrapped indices differ exactly when the counts do |
| `Virtqueue.GatherLoop` | src/virtio.cpp:778-787 | the loop computes the gather function, and ends after 64 descriptors on any chain |
| `Virtqueue.GatherIsConcat` | src/virtio.cpp:778-787 | for chains of up to 64 buffers in RAM the packet is their concatenation iff it is under 65536 bytes |
| `Virtqueue.GatherPicks` | src/virtio.cpp:778-787 | on any chain, long, cyclic or partly outside RAM, the packet is, in order, every buffer among the first 64 that starts in RAM and still fits below 65536 bytes |
| `Virtqueue.GatherFrame` | src/virtio.cpp:778-787 | the packet depends only on the chain's descriptors and buffers |
| `Virtqueue.ScatterInPlace` | src/virtio.cpp:824-844 | filling an RX chain in the RAM array computes the scatter function |
| `Virtqueue.ScatterDelivers` | src/virtio.cpp:824-844 | on the supported layouts it leaves a zero header and the packet, totals 12 plus its size, and writes only the chain's buffers |
| `Virtqueue.DeliversIffRoom` | src/virtio.cpp:824-844 | on any chain the packet is delivered, with length 12 plus its size, iff the first buffer has room for both or a second one for the packet |
| `NetDataPath.BootInv` | src/virtio.cpp:758-759 | zeroed ring indices start the data path in its invariant |
| `NetDataPath.DeviceKeepsInv` | src/virtio.cpp:773-857 | every action of the thread stays inside RAM and keeps the invariant |
| `NetDataPath.DriverKeepsInv` | src/virtio.cpp:773-857 | so does everything a conforming driver does between two of them |
| `NetDataPath.RunKeepsInv` | src/virtio.cpp:773-857 | hence every state of every run satisfies it |
| `NetDataPath.TxRefinesFifo` | src/virtio.cpp:773-804 | on every run, across any number of index wraps, the frames on the TAP are byte for byte the published packets from their 13th byte on, in order, one for each that has one; the used ring lists the heads in order and once each, and private, used and available indices are the counts modulo 2^16 |
| `NetDataPath.TxFramesAreTaken` | src/virtio.cpp:773-795 | on every run, once any published chain has been sent, the frame after those of the chains before it is exactly what the gather took of its buffers as published, from the 13th byte on; with 12 bytes or fewer it adds none |
| `NetDataPath.TxFramesAreBuffers` | src/virtio.cpp:773-795 | for a chain of up to 64 buffers under 65536 bytes that is the concatenation of all its buffers, minus 12 bytes |
| `NetDataPath.PacketTakenIff` | src/virtio.cpp:824-857 | whatever the next RX chain looks like, the thread goes on to complete it iff it has room for the packet; otherwise the packet is dropped, nothing is completed and the thread turns to TX |
| `NetDataPath.RxRefinesFifo` | src/virtio.cpp:820-857 | on every run packets arrive in order, none dropped or duplicated, each completed chain beginning with 12 zero bytes and its packet, with used length 12 plus its size |
| `NetProgress.TxProgress` | src/virtio.cpp:778-803 | once a head is claimed, any run with as many thread actions as its rank, at most 68, completes it within them and exactly once, cyclic chains and any interleaving with driver and TAP included |
| `NetProgress.TxCompletes` | src/virtio.cpp:768-857 | from any point of the two loops, any run with at least 70 thread actions and four more per packet it delivers completes the next available TX chain within them and exactly once |
| `NetProgress.TxCompletesInTime` | src/virtio.cpp:768-857 | hence within 70 and four for each packet waiting or arriving, or for each RX buffer supplied |
| `NetProgress.RxDelivers` | src/virtio.cpp:768-857 | from any point, any run with at least 74 thread actions and 69 more per TX chain it completes delivers the packet that waits |
| `NetProgress.TxDrains` | src/virtio.cpp:773-804 | the TX loop completes k available chains within 69 k thread actions, without turning to RX |
| `NetProgress.RxDrains` | src/virtio.cpp:820-857 | the RX loop delivers k waiting packets within 4 k thread actions, without turning to TX |
| `NetDataPath.RestartContinues` | src/virtio.cpp:758-759 | rebuilding the private indices from the used rings, whatever they held, continues the FIFOs iff nothing was in flight; both loop heads qualify |
| `NetExample.OnePacketRun` | src/virtio.cpp:773-857 | the assumptions are met: from a fresh device there is a run in which a conforming driver publishes a TX and an RX chain, the frame reaches the TAP, a packet is delivered, and both chains are completed |
| `NetDataPath.RunContinues` | src/virtio.cpp:773-857 | a run only ever extends what was sent, completed and delivered |
| `ThreadAccesses.ActionFrame` | src/virtio.cpp:773-857 | an action of the net thread is a function of the bytes it reads: on any memory that agrees on them it does the same to everything else and writes the same bytes to the same places |
| `PagedDataPath.ThreadStepDerived` | src/virtio.cpp:773-857 | on demand-paged RAM, what the thread computes from the bytes its accesses returned is exactly the data path's step on the whole memory |
| `PagedDataPath.ThreadNeedsPages` | src/virtio.cpp:773-857 | and it cannot do so before the page of every byte it reads has arrived |
| `PagedDataPath.PagedNextIsNext` | src/virtio.cpp:773-857 | hence every step of the paged machine is a step of the data path or none |
| `PagedDataPath.NextIsPagedNext` | src/virtio.cpp:773-857 | conversely, with neither thread stopped and the worker in its loop, whatever pages are missing, every step of the data path can be carried out |
| `SnapshotContinuity.ThreadQueues` | src/virtio.cpp:734-752 | after any register writes the thread receives on the queue last configured under selector 0 and transmits on the one under selector 1 |
| `SnapshotContinuity.SnapshotContinues` | src/vmm.cpp:1341-1360 | run, stop at a loop head, save RAM and registers, rebuild RAM by any path, start a fresh thread on what that path shows and on the queues of the restored registers, run on: the whole history refines the FIFOs and nothing is taken back |
| `SnapshotContinuity.SnapshotContinuesPaged` | src/vmm.cpp:1066-1088 | the same while pages are missing: the fresh thread's reads and writes are accesses that fault and are served, interleaved freely with the driver's, with the worker and with stale messages, from any point of a lazy or midway restore before the first completed write |
| `SnapshotFile.HeaderRoundTrip` | src/vmm.hpp:74-136 | the 4000-byte header read back is the header written |
| `SnapshotFile.HeaderLayout` | src/vmm.hpp:74-126 | every field sits at the offset the structure gives it, those of both devices and their queues included |
| `SnapshotFile.FilePieces` | src/vmm.cpp:1420-1445 | header, xsave, cpuid entries, MSRs, bitmap and RAM follow each other in this order with nothing in between |
| `SnapshotFile.FileRoundTrip` | src/vmm.cpp:1420-1445 | every section of a written file is found as it was saved, and the file is exactly as long as they need |
| `SnapshotFile.ParseFile` | src/vmm.cpp:1477-1546 | the running remainder accepts exactly the complete files and yields their sections; the copy into the fixed xsave buffer overflows exactly when its size is over 8192 and present in the file |
| `SnapshotFile.CloneLoad` | src/vmm.cpp:2111-2151 | the sequential reads refuse only files without a header, overflow the xsave buffer iff over 8192 bytes are asked for and present, and on complete files yield the same sections |
| `SnapshotFile.LocatorsAgree` | kmod/snap_bench.c:192-238 | the kernel module accepts exactly the complete files and finds the writer's boundaries while header plus xsave fits 32 bits |
| `SnapshotFile.LocatorExact` | kmod/snap_bench.c:192-238 | on complete files, exactly then |
| `SnapshotFile.RestoreDevice` | src/vmm.cpp:1328-1350 | status, 64-bit features and the saved queues come from the header; further queues and the other registers keep what they had |
| `SnapshotFile.SaveWriteRestore` | src/vmm.cpp:777-802 | save, write, parse and restore gives both devices their status, features and queues back whatever they held before |
| `SnapshotRoundTrip.SaveAndRestore` | src/vmm.cpp:1387-1546 | RAM scanned, written, parsed and rebuilt by any path is RAM again at every moment of that path; both devices have their registers back, and a driver that was up is re-wired from the saved ones |
| `RegisterFile.RegistersReadBack` | src/virtio.cpp:76-179 | from any registers and after any writes each queue's size, ready flag and address halves are the last values written while it was selected since the last reset, or what they were; out-of-range selectors change nothing |
| `RegisterFile.FeaturesReadBack` | src/virtio.cpp:85-94 | so are the low and the high half of the driver's features, under selectors 0 and 1; other selectors change nothing |
| `RegisterFile.SelectorsReadBack` | src/virtio.cpp:80-98 | status and the three selectors hold the last value written, which a reset does not change for the selectors |
| `RegisterFile.PendingUntilAcked` | src/virtio.cpp:112-138 | an interrupt bit is pending iff it was and no write acknowledged it or reset the device |
| `RegisterFile.ValueBytes` | src/virtio.cpp:77-78 | an access of any width carries its first four bytes, missing ones being zero |
| `RegisterFile.ValueRoundTrip` | src/virtio.cpp:77-78 | a four-byte access carries its value |
| `VirtioDevices.FsTransport.MmioWrite` | src/virtio.cpp:76-179 | the fs handler refines the register specification and wires the rings when DRIVER_OK rises |
| `VirtioDevices.NetTransport.MmioWrite` | src/virtio.cpp:626-705 | the net handler refines the same specification, becomes active when status bit 2 goes from 0 to 1, and starts one thread then if there is a TAP |
| `VirtioDevices.FsTransport.VuSetup` | src/virtio.cpp:420-460 | the pass over the queues appends exactly one batch, once |
| `VirtioDevices.OneBatch` | src/virtio.cpp:125-139 | over every run of writes the messages are the handshake and at most one batch, made from the registers when DRIVER_OK first rises |
| `VirtioDevices.RisesMeans` | src/virtio.cpp:135-138 | DRIVER_OK rises iff bit 2 of the status register goes from 0 to 1 |
| `VirtioDevices.OneBatchAfterRestore` | src/vmm.cpp:1352-1355 | the same after a restore, which sends its batch at once if the driver was up |
| `VirtioDevices.Unconnected` | src/virtio.cpp:420-422 | without a connection nothing is ever sent, over every run of writes and after a restore |
| `VirtioDevices.BatchShape` | src/virtio.cpp:424-455 | every message belongs to a wired queue's group NUM, BASE, ADDR, KICK, CALL, ENABLE carrying its registers |
| `VirtioDevices.BatchDistinct` | src/virtio.cpp:424-455 | no message of a batch is sent twice |
| `VirtioDevices.EnabledIffWired` | src/virtio.cpp:424-426 | a queue is enabled iff its size is non-zero and its ready flag set |
| `VirtioDevices.HandshakeFirst` | src/virtio.cpp:357-417 | SET_FEATURES, SET_OWNER and SET_MEM_TABLE come before any ring message |
| `VirtioDevices.HandshakeOrder` | src/virtio.cpp:357-417 | offered features are acknowledged first, then exactly the known ones among the protocol features, then owner and memory table in this order; the backend channel comes last, iff it is offered |
| `Lifecycle.Vmm.Init` | src/vmm.cpp:131-134 | lazy mode has its descriptor iff it was asked for and userfaultfd came up; otherwise it falls back to copying |
| `Lifecycle.Vmm.StartWorker` | src/vmm.cpp:896-901 | a worker is started iff there is a descriptor and none is running |
| `Lifecycle.Vmm.StartNet` | src/virtio.cpp:711-722 | each call adds an unjoined thread and forgets the previous handle |
| `Lifecycle.Vmm.RestoreFile` | src/vmm.cpp:1450-1572 | on every outcome the mapping is kept iff the file was usable and a descriptor exists in a mode that uses it, which holds whenever a worker runs |
| `Lifecycle.Vmm.Cleanup` | src/vmm.cpp:1578-1672 | removes the mapping iff both joins return, then with the worker stopped and the net thread joined before it; completes iff virtiofsd exits as well; stuck in a join it leaves the mapping |
| `Lifecycle.Lifetime` | src/vmm.cpp:1578-1672 | over a whole life: both joins return iff the joined net thread found its queues ready and is not stranded and the worker can be woken or is gone, and cleanup completes iff virtiofsd exits too; the mapping is made at most once, never removed under a live worker, and removed as often as made iff the joins return or no worker was started; all net threads are joined iff at most one was started and its eventfd exists |
| `Lifecycle.HungWorker` | src/vmm.cpp:1613-1622 | an input: without the worker's wake-up descriptor cleanup never completes and the file stays mapped |
| `Lifecycle.HungNet` | src/virtio.cpp:741-744 | an input: DRIVER_OK without ready queues does the same |
| `Lifecycle.HungFault` | src/vmm.cpp:919-938 | an input: the worker has left its loop and the net thread waits for a page |
| `Lifecycle.HungDaemon` | src/vmm.cpp:1666-1669 | an input: virtiofsd does not exit; cleanup never completes, but the file is unmapped |
| `VmConfigText.Print` | src/vmm.cpp:1889-1902 | the output is the configuration's lines, each ended by a newline |
| `VmConfigText.ParseBuffer` | initrd_src/init.c:192-232 | the in-place strtok loop applies the buffer's lines in order and overwrites nothing but the line break behind each |
| `VmConfigText.SplitJoin` | initrd_src/init.c:192-200 | splitting at line breaks undoes joining with newlines |
| `VmConfigText.EnvRoundTrip` | src/vmm.cpp:1898-1901 | every pair ends up in the guest's environment under both names, and the network fields stay |
| `VmConfigText.ConfigRoundTrip` | initrd_src/init.c:192-232 | printing and parsing preserves every pair, and hostname, address and gateway each iff not wrapped in quotes; NET_MAC spells the hardware address unless a pair of that name replaces it |
| `VmConfigText.MacSpelled` | src/vmm.cpp:1895-1897 | two lower-case hexadecimal digits per byte, high one first, with colons between |
| `VmConfigText.LineIgnored` | initrd_src/init.c:201-206 | empty lines, comments and lines without an equals sign change nothing, indented or not |
| `VmConfigText.LineAssigns` | initrd_src/init.c:202-211 | indentation and a leading export make no difference to an assignment |
| `VmConfigText.QuotesOff` | initrd_src/init.c:211-215 | a matching pair of quotes of either kind is removed, a mixed pair is kept |
| `VmConfigText.NamesCut` | initrd_src/init.c:215-220 | longer names are cut to 255 and 63 characters |
| `VmConfigText.FileCut` | initrd_src/init.c:194-196 | what follows the first 2047 bytes of the file does not matter |
| `EnvReader.SkipWs` | src/vmm.cpp:1726-1730 | the loop stops at the first character that is not white space |
| `EnvReader.ParseStringLoop` | src/vmm.cpp:1732-1748 | the copy loop computes the string reader's result and position |
| `EnvReader.StringRoundTrip` | src/vmm.cpp:1732-1748 | an escaped, quoted string comes back whole, with the position just past it, iff it fits the buffer; a longer one is cut to it |
| `EnvReader.ReadEnvLoop` | src/vmm.cpp:1835-1860 | the pointer loop computes the reader's result on any input |
| `EnvReader.EnvRoundTrip` | src/vmm.cpp:1829-1861 | any non-empty object of up to 32 fitting pairs, with any white space, is read back in order, stopping at its brace whatever follows |
| `EnvReader.EnvCut` | src/vmm.cpp:1837 | of more than 32 pairs exactly the first 32 are read |
| `EnvReader.EnvBroken` | src/vmm.cpp:1847-1849 | a value that is not a string ends the reading with the pairs before it |
| `EnvReader.EmptyObject` | src/vmm.cpp:1837-1858 | the empty object is read as such iff nothing separates its braces |
| `EnvReader.BrokenOff` | src/vmm.cpp:1837-1858 | pairs followed by a comma and the end of the text are read, and the pointer runs past the end iff white space follows the comma and there is room for a pair |
| `EnvReader.OverrunIff` | src/vmm.cpp:1837-1858 | on any text the pointer runs past the end iff some round of the loop starts in white space that reaches to the end |
| `EnvReader.NoTrailingBlank` | src/vmm.cpp:1837-1858 | a text whose last character is not white space is never overrun |
| `ConfigJourney.Deliver` | src/vmm.cpp:1829-1902 | JSON object to reader to printer to guest: every pair arrives in the guest's environment under both names, and NET_MAC spells the hardware address unless replaced |
| `SandboxNet.NoCarry` | cri/pkg/network/cni.go:290-295 | up to 24 host bits the bytewise sum is base plus offset |
| `SandboxNet.SumExact` | cri/pkg/network/cni.go:284-295 | that holds for all drawable offsets iff there are at most 24 host bits |
| `SandboxNet.DrawnIsUsable` | cri/pkg/network/cni.go:282-298 | drawn addresses lie in the subnet and are not its network, first or broadcast address |
| `SandboxNet.UsableIsDrawn` | cri/pkg/network/cni.go:282-298 | and every other address of the subnet can be drawn |
| `SandboxNet.Manager.AllocateTap` | cri/pkg/network/cni.go:261-270 | the lowest free index, failing iff all 4096 are taken |
| `SandboxNet.Manager.AllocateIp` | cri/pkg/network/cni.go:277-306 | a free drawn address of the subnet, failing iff no draw names one |
| `SandboxNet.Manager.SetupSandbox` | cri/pkg/network/cni.go:170-197 | a TAP and an address, or both pools unchanged |
| `SandboxNet.Manager.TeardownSandbox` | cri/pkg/network/cni.go:200-213 | exactly the named entries are removed |
| `SandboxNet.EventKeepsOwned` | cri/pkg/network/cni.go:170-213 | setups, failed setups and stops by the holder keep every pool entry owned by exactly one live sandbox |
| `SandboxNet.LiveSandboxesApart` | cri/pkg/network/cni.go:170-213 | over every such sequence, in every subnet, live sandboxes have different TAPs and different addresses, and up to 24 host bits usable ones |
| `SandboxNet.Serve` | cri/pkg/network/cni.go:170-213 | the manager's methods take those steps for any list of requests |
| `SandboxNet.StaleTeardownSafeIff` | cri/pkg/network/cni.go:204-211 | a teardown for a sandbox that is not live keeps everyone's ownership iff nobody holds the TAP and the address it names |
| `SandboxNet.StaleStop` | cri/pkg/network/cni.go:200-213 | an input: stopping one sandbox twice makes two live ones share a TAP |
| `IdeDisk.Controller.IdeCommand` | docs/example-vmm/vmm.c:632-671 | the command switch computes the command function, the buffer filled in place |
| `IdeDisk.Controller.IdeDataIn` | docs/example-vmm/vmm.c:673-691 | one word read, loading the next sector when the buffer is spent |
| `IdeDisk.Controller.IdeDataOut` | docs/example-vmm/vmm.c:693-716 | one word written, storing the buffer when it is full |
| `IdeDisk.RegistersAddress` | docs/example-vmm/vmm.c:580-586 | the registers set to the parts of a 28-bit sector number address that sector |
| `IdeDisk.CommandOutcome` | docs/example-vmm/vmm.c:632-671 | every command leaves the drive ready and the image alone; it asks for data iff it is a read, a write or an identify, and reports an abort iff it is unknown |
| `IdeDisk.ZeroMeansOne` | docs/example-vmm/vmm.c:637-638 | a sector count of zero means one sector, any other count itself |
| `IdeDisk.WriteStores` | docs/example-vmm/vmm.c:645-716 | streaming the words of a write, wherever it lies, puts them in consecutive sectors of the image, drops those past its end and changes no other sector |
| `IdeDisk.SurplusIgnored` | docs/example-vmm/vmm.c:693-716 | any further words leave the image unchanged |
| `IdeDisk.BufferFull` | docs/example-vmm/vmm.c:693-716 | from any state the word that fills the buffer stores it iff a sector is due, and then asks for the next one or ends the transfer |
| `IdeDisk.ReadDelivers` | docs/example-vmm/vmm.c:635-691 | streaming a read gives the image's words and changes no sector |
| `IdeDisk.ReadEnds` | docs/example-vmm/vmm.c:675-685 | the read after the last word yields zero and drops the data request |
| `IdeDisk.SurplusReadsZero` | docs/example-vmm/vmm.c:673-691 | any further reads yield zero and change nothing |
| `IdeDisk.ReadAsksForData` | docs/example-vmm/vmm.c:635-691 | data is requested from the read command until its last word has been taken, and no longer after the read that follows |
| `IdeDisk.WriteAsksForData` | docs/example-vmm/vmm.c:645-716 | and from the write command iff words are still due |
| `IdeDisk.ReadsWordsIff` | docs/example-vmm/vmm.c:588-602 | a read that starts in the image never fetches from beyond the sector buffer iff the whole transfer lies in the image |
| `IdeDisk.ReadsNothingOutside` | docs/example-vmm/vmm.c:588-594 | a read that starts past the image delivers nothing of it nor of an earlier transfer |
| `IdeDisk.IdentifyDelivers` | docs/example-vmm/vmm.c:613-630 | the words after an identify name a fixed drive with sector addressing and, in words 60 and 61, the image's size iff it is under 2^32 sectors; all others are zero |
| `IdeDisk.WriteThenRead` | docs/example-vmm/vmm.c:632-716 | for every in-range address and count the words written come back in order |

## Left out

- KVM ioctls and the meaning of vCPU registers, MSRs and LAPIC state: carried through the snapshot as opaque bytes.
- virtiofsd's accesses through its own mapping of guest memory: the paging results cover the monitor's mapping.
- Ring re-wiring after a guest resets the fs device: the code does not clear its active flag on reset (src/virtio.cpp:129-138), so no claim is made that the fs queues come back.
- RegisterFile: MMIO reads, which return these registers and constants, and the queue-notify register.
- The net interrupt line as a level invariant: two threads update status and line without a lock.
- vu_connect's retries, kick and call eventfds, polling, signals and timing output: input and output only.
- NetDataPath: descriptors that start inside RAM and run past its end, and RX layouts other than the two supported ones, are outside the driver contract; a failed or short TAP write is not distinguished from a complete one.
- LazyRestore.Step: an access is one byte; a wider access is a sequence of them.
- PagedDataPath.Moves: no other thread completes an access between the first and the last access of one action of the net thread, which is the grain of the data-path model; the order of accesses inside an action is free, except that no byte is read after it was written.
- CopyPool.Step: a run is copied page by page in place, and at least one worker exists, as the code guarantees. A non-empty bitmap shorter than RAM, which the parser accepts and past whose end the workers then read, is treated in EagerRestore.CopyAll only.
- LazyRestore.ValidSnapshot: the same short bitmap is outside the lazy model, because the fault worker would read past its end.
- SnapshotFile.CloneLoad: what an incomplete file leaves in buffers that were never written is taken to be zero bytes; nothing is promised once its xsave buffer has been overrun.
- SnapshotRoundTrip.Save: RAM is small enough for the size of its bitmap to fit the 32-bit header field.
- Lifecycle: what a net thread still does after cleanup gave up on joining it, and the interrupt thread, which polls with a time limit and always leaves.
- SnapshotFile.LocateSections: only files that begin with the snapshot magic are considered in the agreement results.
- VmConfigText.ConfigRoundTrip: names are within the host's own buffers and the output within the guest's 2047 bytes, as longer ones are cut; keys that the guest interprets itself are excluded.
- EnvReader: the search for the `env` key and escapes other than a backslash before a quote or a backslash.
- SandboxNet: the CNI plug-in path, port forwarding, MAC generation and the creation of the device itself; IPv6 subnets, which the code refuses; the rest of the CRI runtime.
- IdeDisk: which words a read delivers after it has run past the end of the image, beyond what is said above; short reads of the image file; ports other than the data port and the command register.
- The example monitor's virtio-blk queue, serial port, BIOS and ACPI tables, kernel loading, scripts and benchmarks: constants, plain input and output, or repetitions of the ring proofs.
