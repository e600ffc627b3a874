# Verified models of reverie's mapping tracker, relay, loader and test oracles

This Dafny 4.11 project models the parts of reverie whose correctness depends on
reasoning across many steps, and proves what those parts promise.

- **Private mapping tracker.** `Tracker.Control` holds the fixed 64-entry map array, the
  derived code array and the two counts. `TrackMap` carves, inserts, insertion-sorts,
  coalesces and publishes in place. It refines a page map: `Extents.Lookup` gives the
  protection and flags of an address, and `TrackSpec.Updated` says which addresses an
  update changes.
- **Syscall relay and owned break.** `RelayMachine` runs mmap, mremap, munmap, mprotect,
  pkey_mprotect, madvise and brk steps against `Memory.Machine`. The kernel is
  nondeterministic: `Memory.Answers` says only what a call may do (an unfixed mmap lands on
  free pages, MAP_FIXED replaces, a failed call changes nothing). `Runs` takes any
  interleaving of the bootstrap's mappings (`Boot`, `BootMachine`), relayed calls, break calls,
  phase changes and stores; `Runs.RunSafe` and `Runs.RunPreserves` state the safety of whole
  runs, and `Room` that the fixed capacity suffices while at most 62 extents are held.
  `RelayMeaning`, `BootMeaning` and `Admission` say of the arguments, the page map and the
  reserved windows alone which calls are forwarded, what they return and record, and when they
  end the process. A call to `fail` or to the native terminal is the absorbing `Terminal`
  outcome.
- **ELF loader.** `ImageFile.MapExecutable` decodes a file's headers, and `Image.MapImage`
  accepts them and loads the image over the same tracker and the same kernel. `ElfLayout` ties
  the decoded headers to the ELF64 layout, `Acceptance` the acceptance tests to their numbers,
  and `ImageAccess` the mapped pages to the headers' flags.
- **Allocation oracle.** `Numbers` and `Fields` are the strict field parsers, `Workload` the
  fixed operation scripts, `Oracle` and `Certificate` the replay validator and its
  declarative meaning, `Feasible` a certifiable report for every case, `Matrix` the quiet/work
  pairing. `Placement` says the placement tests address by address, and `PayloadHash` what the
  payload hash is.
- **Test-count accounting.** `TestCounts` is retry accounting and channel reconciliation;
  `Nextest` and `NextestSummary` read a nextest event stream. `CountMeaning` and
  `NextestTotals` say what is published, of the log, the printed lines and the events alone.
- **Smaller machines.** `LateStart` is the late-start trace aligner and `LateMeaning` what it
  computes, `ChunkyPrint` the epoch and buffer state machine and `ChunkyOutput` what it writes,
  `BootstrapPacket` the three-version bootstrap packet.

Code that changes state step by step is modelled by classes, arrays and methods with loops;
each method is tied to a specification function or relation, and the laws are lemmas about
that specification. Words are mathematical integers, and every wrap-around or overflow test
of the source is written out.

Agreement between tracker and kernel (`RelayProofs.Inv`) is stated for every address outside
the gate/bootstrap window, which the relay may not touch and whose locator page is
reprotected without a tracker update (`reverie-inguest/native_exec/private-bootstrap.c:598`).

Promises that the code keeps only under a condition have both a concrete failing input and
the exact condition:

- An accepted private image may have executable pages beyond its file, which are then
  tracked as anonymous code: `ZeroCode.ZeroCodeWitness`, `ZeroCode.ZeroCodeFails` and the exact
  condition `Boot.ImageCode`.
  Agreement, write-xor-execute and the break invariant hold regardless (`Runs.RunSafe`).
- Late-start comparison panics on a slice for a short native thread 0: `LateStart.PanicWitness`
  and the exact condition `LateStart.PanicsExactly`.
- An encoded packet decodes to the same fields exactly when the coordinator path is nonempty
  and no empty statistics path was given: `BootstrapPacket.RoundTripFails` and
  `BootstrapPacket.RoundTrip`.
- A retry that clears every failed name leaves a zero failed counter exactly when no name had
  failed in two binaries: `TestCounts.DuplicateWitness` and `TestCounts.ClearedExactly`.
- When a stream refuses a write after some messages of a thread were accepted, those messages
  are printed again later: `ChunkyPrint.RepeatWitness` and the exact condition
  `ChunkyPrint.LedgerExactly`.

## Model

| member | source | states |
|---|---|---|
| Tracker.Control.TrackMap | reverie-inguest/native_exec/private-maps.c:16-68 | returns 0 exactly when the request is page-aligned, nonempty, non-wrapping, not writable-and-executable and fits; then the live array is the one canonical update of the old page map, with the code array equal to its executable extents; on -1 nothing at all has changed |
| Tracker.Control.CarveInto | reverie-inguest/native_exec/private-maps.c:25-36 | the scratch array holds the carved pieces of the held extents, and the carve fails exactly when they exceed the capacity |
| Tracker.InsertInPlace | reverie-inguest/native_exec/private-maps.c:43-48 | one shifting insertion puts the entry after every entry with no larger start and leaves later slots alone |
| Tracker.SortInPlace | reverie-inguest/native_exec/private-maps.c:43-48 | the array prefix becomes its insertion sort |
| Tracker.CompactInPlace | reverie-inguest/native_exec/private-maps.c:49-56 | compacting in place yields the coalesced list although it reads and writes the same array |
| Tracker.Control.Publish | reverie-inguest/native_exec/private-maps.c:57-66 | both arrays and both counts are published; the capacity return inside the loop cannot be reached |
| Stages.CarveLookup | reverie-inguest/native_exec/private-maps.c:29-36 | carving erases exactly the addresses of the range from the page map |
| Stages.SortLookup | reverie-inguest/native_exec/private-maps.c:43-48 | sorting disjoint extents does not change the page map |
| Stages.SortSorted | reverie-inguest/native_exec/private-maps.c:43-48 | the sort of disjoint extents is strictly ordered and disjoint |
| Stages.CoalesceLookup | reverie-inguest/native_exec/private-maps.c:49-56 | coalescing does not change the page map |
| Stages.CoalesceSeparated | reverie-inguest/native_exec/private-maps.c:49-56 | after coalescing no two touching extents share protection and flags |
| Stages.StagesUpdate | reverie-inguest/native_exec/private-maps.c:23-56 | any carve, order and merge of a canonical list is the pointwise override (or erasure) of exactly the requested range, and is canonical |
| Stages.TrackTotal | reverie-inguest/native_exec/private-maps.c:19-41 | an update exists exactly for requests that are well formed, not writable-and-executable, and fit |
| Stages.RoomSuffices | reverie-inguest/native_exec/private-maps.c:25-41 | an update needs at most two more entries than are held, so it fits whenever at most 62 are held, and an erasure whenever at most 63 are |
| Stages.TrackSucceeds | reverie-inguest/native_exec/private-maps.c:16-68 | a well-formed update never fails with at most 62 extents held |
| Extents.SortedUnique | reverie-inguest/native_exec/private-maps.c:43-56 | two ordered, coalesced lists with the same page map are the same list |
| Extents.PageUniform | reverie-inguest/native_exec/private-maps.c:16-68 | every address of a page has the attributes of the page |
| TrackSpec.UpdateUnique | reverie-inguest/native_exec/private-maps.c:43-66 | an update has one result |
| TrackSpec.HistoryIndependent | reverie-inguest/native_exec/private-maps.c:43-66 | histories that end in the same page map leave identical map and code entries |
| Tracker.Control.Covered | reverie-inguest/native_exec/private-bootstrap.c:93-104 | for a nonempty range, true exactly when every address is tracked, across touching extents; for an empty one, true exactly when its first address is tracked |
| RelayProofs.PageExtentLeast | reverie-inguest/native_exec/private-bootstrap.c:78-84 | the extent is refused exactly for empty or wrapping requests and is otherwise the least page-aligned range that contains the request |
| RelayProofs.ForbiddenExactly | reverie-inguest/native_exec/private-bootstrap.c:85-92 | for a nonempty range, true exactly when some address of it lies in a reserved window or in the guest loader, or a guest range recorded backwards lies strictly inside |
| RelayMachine.RelayMapping | reverie-inguest/native_exec/private-bootstrap.c:348-419 | the handler makes the call exactly when it forwards it, and takes exactly the step described for the kernel's answer, with the same refusal and terminal codes |
| RelayProofs.MmapKeeps | reverie-inguest/native_exec/private-bootstrap.c:350-368 | for every kernel answer, an mmap step keeps tracker and kernel in agreement and write-xor-execute, adds no executable page without a file, and changes no mapped untracked or forbidden page |
| RelayProofs.MremapKeeps | reverie-inguest/native_exec/private-bootstrap.c:369-389 | the same for mremap, including moves that erase the source and record the target |
| RelayProofs.MprotectKeeps | reverie-inguest/native_exec/private-bootstrap.c:390-417 | the same for mprotect and pkey_mprotect |
| RelayProofs.MunmapKeeps | reverie-inguest/native_exec/private-bootstrap.c:390-405 | the same for munmap |
| RelayProofs.MadviseKeeps | reverie-inguest/native_exec/private-bootstrap.c:390-404 | the same for madvise |
| RelayMachine.Reprotect | reverie-inguest/native_exec/private-bootstrap.c:404-417 | the loop over a snapshot realises the entry-by-entry re-tracking of the live array |
| RelayProofs.RetrackNet | reverie-inguest/native_exec/private-bootstrap.c:404-417 | that re-tracking nets out to one pointwise update: each tracked address of the range gets the new protection and keeps its flags, and no other changes |
| Room.RetrackSucceeds | reverie-inguest/native_exec/private-bootstrap.c:404-417 | the re-tracking loop never runs out of room while at most 62 extents are held |
| RelayProofs.RelayKeeps | reverie-inguest/native_exec/private-bootstrap.c:348-419 | every relayed step keeps the whole invariant or ends the run, and in either case leaves every mapped page that is untracked or forbidden as it was |
| Room.RelayRoom | reverie-inguest/native_exec/private-bootstrap.c:348-419 | while at most 62 extents are held no relayed call is ended by a full tracker, whatever the kernel answers; this covers the erasure and record of a remap and every step of the re-tracking loop |
| RelayMeaning.ForwardsExactly | reverie-inguest/native_exec/private-bootstrap.c:350-403 | a call is forwarded exactly when it is allowed: the size, the protection and the placing of an mmap, the uniform anonymous source of an mremap, and the tracked, unreserved pages of the other calls, said of every address they touch |
| RelayMeaning.CallRefused | reverie-inguest/native_exec/private-bootstrap.c:350-403 | a call that is not allowed ends the process before the kernel sees it, with its code |
| RelayMeaning.CallReturns | reverie-inguest/native_exec/private-bootstrap.c:361-418 | a call that returns gives the tool the kernel's own answer and memory |
| RelayMeaning.CallStops | reverie-inguest/native_exec/private-bootstrap.c:361-418 | an allowed call returns unless the kernel put its pages where something is reserved (113 or 114) or more than 62 extents are held (92) |
| RelayMeaning.CallEnds | reverie-inguest/native_exec/private-bootstrap.c:348-419 | while at most 62 extents are held a call returns exactly when it is allowed and did not land where something is reserved |
| RelayMeaning.CallRecords | reverie-inguest/native_exec/private-bootstrap.c:361-417 | what the tracker says of every address after a successful call: the protection and flags asked for less the two placing bits, the words of a remapped source, nothing after an unmap, the new protection over the old flags |
| RelayMachine.CaptureBrk | reverie-inguest/native_exec/private-kernel-state.c:150-161 | the break region is asked for at its fixed address, and is recorded there or the run ends |
| RelayProofs.CaptureEstablishes | reverie-inguest/native_exec/private-kernel-state.c:150-161 | after a successful reservation the invariant, break part included, holds, and no executable page without a file was added |
| BootMeaning.CaptureMeans | reverie-inguest/native_exec/private-kernel-state.c:150-161 | while at most 62 extents are held the capture goes on exactly when the region was reserved at its address; the break then starts at its base and the region is recorded as inaccessible |
| RelayMachine.OwnedBrk | reverie-inguest/native_exec/private-kernel-state.c:165-199 | the break call asks the kernel to reprotect exactly the pages between the old and the new break, and to discard those it gives back, and takes exactly the specified step for the answers |
| RelayProofs.BrkStepKeeps | reverie-inguest/native_exec/private-kernel-state.c:165-199 | base <= current <= end, pages below the rounded break are read-write and those above inaccessible and zero, the result is the current break, and no address outside the region changes |
| Room.BreakRoom | reverie-inguest/native_exec/private-kernel-state.c:165-199 | while at most 62 extents are held a break request ends the process only when the kernel refuses one of its calls |
| RelayMeaning.BreakReturns | reverie-inguest/native_exec/private-kernel-state.c:173-198 | a request inside the region that returns moves the break to it and returns it; any other returns the old break and changes nothing |
| RelayMeaning.BreakEnds | reverie-inguest/native_exec/private-kernel-state.c:165-198 | while at most 62 extents are held a request ends the process exactly when it crosses a page boundary and the kernel refuses to reprotect or to discard; the code is 73 |
| RelayMeaning.BreakUnowned | reverie-inguest/native_exec/private-kernel-state.c:165-172 | without a captured break in its region any request ends the process with 72 |
| RelayMeaning.BreakGranted | reverie-inguest/native_exec/private-kernel-state.c:174-198 | a willing kernel grants every request inside the region while at most 62 extents are held |
| RelayMeaning.BreakBytes | reverie-inguest/native_exec/private-kernel-state.c:178-198 | moving the break keeps every byte below both breaks, and the pages it opens are writable and zero |
| Runs.StoreKeeps | reverie-inguest/native_exec/private-bootstrap.c:531-541 | the tracker lives in the control page; a store to any other writable page keeps the invariant |
| Runs.RunSafe | reverie-inguest/native_exec/private-bootstrap.c:348-419 | from any state where tracker and kernel agree, over every interleaving of bootstrap mappings, images, relayed calls, break calls, phase changes and stores, they agree after each non-terminal run, nothing tracked is writable and executable, and the break invariant holds |
| Runs.RunPreserves | reverie-inguest/native_exec/private-bootstrap.c:348-419 | over every such run each mapped page that was untracked, or forbidden and not in the break region, stays mapped and stays so; how it is mapped changes only by sealing the resume page, its bytes only by a store to them; and only the guest image adds untracked mapped pages |
| Runs.RunCode | reverie-inguest/native_exec/private-bootstrap.c:310-318 | if tracked code was file-backed, and no private image mapped in the run has executable pages beyond its file, tracked code is file-backed after the run |
| Runs.FromCapture | reverie-inguest/native_exec/private-bootstrap.c:548-585 | all three from the capture of the process state on, through the bootstrap and everything relayed after it; the capture itself leaves every mapped page as it was |
| RelayMachine.SyscallIp | reverie-inguest/native_exec/private-bootstrap.c:310-318 | accepts exactly an address just after a syscall instruction inside a tracked code extent, and faults exactly when reading that instruction meets an unmapped address |
| Runs.AdmittedFromCode | reverie-inguest/native_exec/private-bootstrap.c:310-318 | both instruction bytes of an accepted address lie in tracked pages that tracker and kernel hold executable and not writable, and in file-backed ones when tracked code is file-backed |
| Admission.AdmitsExactly | reverie-inguest/native_exec/private-bootstrap.c:310-318 | a call is admitted exactly from the end of the bytes 0f 05 when these and the byte after them are tracked with the same executable words |
| Runs.CheckNeverFaults | reverie-inguest/native_exec/private-bootstrap.c:310-318 | under the invariant the check faults nowhere outside the gate/bootstrap window |
| Boot.InstallKeeps | reverie-inguest/native_exec/private-bootstrap.c:110-129 | reserving a page range or mapping a packet at its fixed free address keeps the invariant and every mapped page, or ends the run |
| BootMeaning.InstallMeans | reverie-inguest/native_exec/private-bootstrap.c:110-129 | with room, a reservation or packet of whole pages goes on exactly when the kernel put it where it was asked to, and is recorded as asked for less the placing bits; otherwise the process ends with its code |
| Boot.SealKeeps | reverie-inguest/native_exec/private-bootstrap.c:490-523 | reprotecting the reserved resume page and recording it anew keeps the invariant |
| BootMeaning.SealMeans | reverie-inguest/native_exec/private-bootstrap.c:520-523 | with room, sealing goes on exactly when the kernel reprotects the page, which is then recorded as read-only |
| Boot.ImageKeeps | reverie-inguest/native_exec/private-bootstrap.c:579-585 | mapping an image, the guest's or a private one, keeps the invariant |
| Boot.ImageCode | reverie-inguest/native_exec/private-bootstrap.c:203-218 | mapping an image keeps tracked code file-backed if and only if it is the guest's or no executable segment has pages beyond its file |
| ZeroCode.ZeroCodeWitness | reverie-inguest/native_exec/private-bootstrap.c:142-224 | a file of 4096 bytes that is read and passes every test although one of its executable pages has no file behind it |
| ZeroCode.ZeroCodeFails | reverie-inguest/native_exec/private-bootstrap.c:213-218 | wherever that file is mapped as a private image, tracked code is no longer all file-backed |
| BootMachine.MapFor | reverie-inguest/native_exec/private-bootstrap.c:579-586 | on the live control block, mapping an image from its file and noting the guest's bounds is exactly a load that runs may contain, so it keeps the invariant |
| Image.Accept | reverie-inguest/native_exec/private-bootstrap.c:150-185 | an image is accepted exactly when its header is a recognised one, its segments are well formed and ascend without sharing pages, its entry and its header table lie in segments and its span fits; the refusal code is the first failing test's, and the table is the one of the last segment that holds it |
| Acceptance.AcceptableExactly | reverie-inguest/native_exec/private-bootstrap.c:150-185 | acceptance and the refusal code in numbers: the identification bytes and sizes of the header, each segment's sizes, page congruence and flag bits, ascending page numbers, an executable segment with the entry, a readable one with the table, and all pages within 16 MiB |
| Image.ScanSegments | reverie-inguest/native_exec/private-bootstrap.c:160-183 | the scan accepts exactly the well-formed ascending segments and computes their span |
| Loader.MapFile | reverie-inguest/native_exec/private-bootstrap.c:199-203 | the file pages of a segment hold the file's bytes with the segment's protection; otherwise the kernel did not map them where it was asked to |
| Loader.PadZero | reverie-inguest/native_exec/private-bootstrap.c:204-211 | the tail of the last file page is zero, its protection is restored, and no other byte changes; it stops exactly for code, or when the kernel refuses one of the two reprotections |
| Loader.LoadSegment | reverie-inguest/native_exec/private-bootstrap.c:191-220 | each byte of the segment is the file's byte or zero, its pages carry its protection, nothing outside changes, and a private segment is tracked so; loading stops only for a call answered otherwise than asked, for code that would have to be cleared, or with more than 62 extents held |
| Image.LoadSegments | reverie-inguest/native_exec/private-bootstrap.c:191-220 | later segments never disturb earlier ones, gaps stay inaccessible, and loading stops only for such a reason in one of the segments |
| Image.MapImage | reverie-inguest/native_exec/private-bootstrap.c:150-223 | a mapped image sits in a span that was free, memory outside is unchanged, segments, gaps and tracker are right, the reported addresses are those of the image; a refused image has the first failing test's code and changes nothing; an accepted one is mapped unless its span or a segment stops it |
| ImageFile.MapExecutable | reverie-inguest/native_exec/private-bootstrap.c:142-224 | the headers acted on are those decoded from the file's bytes; a file that cannot be read, announces no acceptable table or fails a test is refused with that code and nothing changed; a mapped one is mapped as its own headers ask, and only if the close succeeds; any other end has its reason |
| ElfLayout.EhdrRead | reverie-inguest/native_exec/private-bootstrap.c:146-160 | a file that holds the fields of Elf64_Ehdr one after another, low byte first, has its type, machine, entry, table offset, entry size and count read back |
| ElfLayout.PhdrRead | reverie-inguest/native_exec/private-bootstrap.c:157-162 | the same for the fields of Elf64_Phdr, whatever the unused ones hold |
| Image.ImageAgrees | reverie-inguest/native_exec/private-bootstrap.c:186-220 | the tracker of a private image describes every page of its span as the kernel maps it, never writable and executable |
| ImageAccess.ImageAccessible | reverie-inguest/native_exec/private-bootstrap.c:193-218 | every page of a mapped segment is readable, writable and executable exactly as bits 4, 2 and 1 of its header's flags say, private, and backed by the file exactly as far as the file part reaches; a private image is recorded so |
| Image.TableLoaded | reverie-inguest/native_exec/private-bootstrap.c:178-181 | the reported table address holds the program headers of the file |
| BootstrapPacket.Encode | reverie-inguest/src/bootstrap.rs:238-311 | encoding succeeds exactly within the length limits and produces the packet of the least version that carries the fields |
| BootstrapPacket.WireLayout | reverie-inguest/src/bootstrap.rs:238-311 | the bytes on the wire: the name REVERIE-LI-V, the version digit and three zeros, the lengths low byte first, the selection, then the fields |
| BootstrapPacket.DecodePacket | reverie-inguest/src/bootstrap.rs:183-231 | decoding an encoded packet returns its fields, with an empty statistics path read as absent, and refuses an empty coordinator |
| BootstrapPacket.DecodeExactly | reverie-inguest/src/bootstrap.rs:183-231 | every packet: one that claims no version is not ours; one that does is decoded exactly when its lengths add up, its coordinator is not empty and its selection is known |
| BootstrapPacket.RoundTrip | reverie-inguest/src/bootstrap.rs:183-311 | decoding returns exactly the encoded fields if and only if the coordinator is nonempty and the statistics path is absent or nonempty |
| BootstrapPacket.RoundTripFails | reverie-inguest/src/bootstrap.rs:183-311 | two inputs outside that condition that do not come back |
| BootstrapPacket.PacketInjective | reverie-inguest/src/bootstrap.rs:238-311 | two inputs give the same packet exactly when they differ at most in an empty versus absent statistics path |
| BootstrapPacket.Reencode | reverie-inguest/src/bootstrap.rs:183-311 | re-encoding what a packet decodes to gives the packet back, except exactly for version 3 packets without a site-patching choice |
| ChunkyPrint.Inner.ReceiveRpc | reverie-examples/chunky_print.rs:73-89 | the state after a message is that of the step function |
| ChunkyPrint.Inner.FlushMessages | reverie-examples/chunky_print.rs:110-168 | flushing in any order writes and clears the buffers one thread at a time and stops at the first refused write; it succeeds exactly when no write is refused and both streams settle |
| ChunkyPrint.Inner.CheckEpoch | reverie-examples/chunky_print.rs:102-108 | when every clock has passed the epoch, all are rewound, the epoch advances and the buffers are flushed; otherwise nothing changes |
| ChunkyPrint.FlushLedger | reverie-examples/chunky_print.rs:110-168 | a flush keeps each thread's output followed by its buffer, except that a broken write repeats the accepted messages of its thread |
| ChunkyOutput.FlushWrites | reverie-examples/chunky_print.rs:142-164 | a flush writes every thread's messages as one block after another, up to the first refused write, and succeeds exactly when all are accepted |
| ChunkyOutput.FlushClears | reverie-examples/chunky_print.rs:142-164 | a thread's buffer is cleared exactly when its whole block was accepted |
| ChunkyPrint.StepLedger | reverie-examples/chunky_print.rs:73-168 | a step that does not break mid-thread adds exactly the printed message to its thread's output and buffer |
| ChunkyPrint.StepRepeats | reverie-examples/chunky_print.rs:110-168 | a flush that breaks mid-thread always leaves messages of that thread twice |
| ChunkyPrint.LedgerIsPrints | reverie-examples/chunky_print.rs:73-168 | over any run without such a break, each thread's output followed by its buffer is exactly its prints in order |
| ChunkyPrint.LedgerExactly | reverie-examples/chunky_print.rs:73-168 | over a whole run, output followed by buffer is exactly the prints for every thread if and only if no write ever failed inside a buffer |
| ChunkyPrint.StreamIsPrints | reverie-examples/chunky_print.rs:142-164 | the same holds stream by stream |
| ChunkyPrint.AcceptingNeverRepeats | reverie-examples/chunky_print.rs:73-168 | while the streams accept writes no run breaks so |
| ChunkyPrint.ShownAfterFlush | reverie-examples/chunky_print.rs:95-168 | after an accepted flush or epoch end, each thread's output is exactly its prints |
| ChunkyPrint.RepeatWitness | reverie-examples/chunky_print.rs:110-168 | a run in which a broken write leaves a message both printed and buffered |
| ChunkyPrint.StepBalanced | reverie-examples/chunky_print.rs:73-108 | after each step all clocks are at least 1 and some clock is at most EPOCH |
| ChunkyPrint.ClocksCount | reverie-examples/chunky_print.rs:73-108 | each thread's ticks are its clock plus EPOCH times the epochs since its first tick |
| LateStart.ExactMeaning | reverie-examples/e2e/compare.rs:104-126 | the exact comparison finds no difference exactly for equal records |
| LateMeaning.FirstIsFirst | reverie-examples/e2e/compare.rs:104-126 | the exact comparison reports the first differing call of the first differing thread, else the thread counts, else the exits |
| LateStart.CallName | reverie-examples/e2e/compare.rs:148-150 | the name is the part of the call before the first equals sign |
| LateStart.AlignBest | reverie-examples/e2e/compare.rs:169-180 | the search for the longest run of names yields the first occurrence of the longest that occurs at all |
| LateMeaning.AlignExactly | reverie-examples/e2e/compare.rs:169-194 | the alignment is k exactly when k is the first place of the longest run of two to eight call names that fits anywhere, or the last place of the one call left; there is none exactly when neither exists |
| LateStart.CompareThread | reverie-examples/e2e/compare.rs:161-220 | the loop, with its two cursors and its align flag, computes the comparison of one thread whose meaning LateMeaning.ThreadExactly states |
| LateStart.CompareLate | reverie-examples/e2e/compare.rs:160-229 | the whole comparison is each thread in order, then the thread count, then the exit; LateMeaning.LateExactly states its meaning |
| LateMeaning.ThreadExactly | reverie-examples/e2e/compare.rs:161-220 | one thread compares equal exactly when the backend's calls are the native ones, moved forward to their place where alignment is due, and both end together |
| LateMeaning.LateExactly | reverie-examples/e2e/compare.rs:160-229 | the comparison finds no difference exactly when exits and thread counts agree, every thread follows so, and thread 0 is long enough for the first window |
| LateMeaning.PlacedIsSame | reverie-examples/e2e/compare.rs:169-220 | if the native calls from the place on are the remaining backend calls there is no difference, at the start of thread 0 and after every matched successful execve |
| LateMeaning.LateComplete | reverie-examples/e2e/compare.rs:160-229 | a record whose thread 0 starts late, at its place, and is otherwise equal compares equal |
| LateMeaning.NoStartIsReal | reverie-examples/e2e/compare.rs:196-202 | a start that is reported as not aligned has no place from the reported native call on |
| LateStart.LateSound | reverie-examples/e2e/compare.rs:160-229 | no difference implies equal exit and thread count, and each backend thread is the native one with blocks dropped only at the start of thread 0 or right after a matched successful execve, ending at the same last call |
| LateStart.LateRelaxes | reverie-examples/e2e/compare.rs:104-229 | whenever the exact comparison finds no difference neither does the late-start one |
| LateStart.DifferenceIsReal | reverie-examples/e2e/compare.rs:193-219 | a reported call difference names the native call at its index and a different backend call at the backend cursor, or the end of either |
| LateStart.PanicsExactly | reverie-examples/e2e/compare.rs:174-178 | the slice is out of range exactly when thread 0 of the backend has at least two calls and the native one fewer than min(8, that many) |
| LateStart.PanicWitness | reverie-examples/e2e/compare.rs:174-178 | an input on which it is |
| TestCounts.CountLog | scripts/libtest-counts.rs:333-352 | a log is refused exactly when some line has an unknown outcome or finds its counter full; an accepted one's counters are the numbers of its outcomes and its failed names are those that failed, in order |
| CountMeaning.FailedAre | scripts/libtest-counts.rs:333-352 | the failed names of any prefix of the log are those of its failed lines, in order |
| TestCounts.BatchPassed | scripts/libtest-counts.rs:973-1022 | a batch credits exactly the failed names free of spaces that some trimmed line reports as passed, each once |
| CountMeaning.PassedExactly | scripts/libtest-counts.rs:1008-1011 | a line is read as a pass exactly when it is the result line of that test with white space around it |
| TestCounts.RetryLoop | scripts/libtest-counts.rs:1092-1138 | the retry loop is the fold of its batches, and its flaky total is what left the failed counter |
| TestCounts.RetryBalanced | scripts/libtest-counts.rs:1092-1138 | a batch moves exactly as many tests from failed to passed as it credited, without saturating |
| TestCounts.RetriesConserve | scripts/libtest-counts.rs:1092-1138 | through any batches passed + failed = executed, and executed and ignored do not change |
| TestCounts.RetriesCredit | scripts/libtest-counts.rs:1092-1138 | the failed counter and the number of distinct failed names fall together |
| CountMeaning.LeftExactly | scripts/libtest-counts.rs:1092-1128 | the names left after the retries are exactly those that failed and that no batch reports as passed, in their order and as often |
| CountMeaning.CodeExactly | scripts/libtest-counts.rs:1092-1130 | the exit code becomes 0 exactly when there were failed names and none is left |
| TestCounts.ClearedExactly | scripts/libtest-counts.rs:1092-1138 | once no failed name is left the failed counter is zero if and only if no name had failed twice |
| TestCounts.DuplicateWitness | scripts/libtest-counts.rs:1092-1138 | one name failing in two binaries is cleared with code 0 and then refused for its leftover failure |
| TestCounts.ChannelsAgree | scripts/libtest-counts.rs:58-110 | the channels are accepted exactly when they balance, and then executed + ignored + filtered is the unfiltered total |
| CountMeaning.PublishExactly | scripts/libtest-counts.rs:58-137 | a run is published exactly when a code of 0 comes without failures, the counters balance, discovery lists what was executed or ignored and the counts fit the ledger; the counts are the run's |
| TestCounts.PublishedConserves | scripts/libtest-counts.rs:58-137 | a published result counts every outcome of the log once, and code 0 means all executed tests passed |
| Nextest.ReadEvents | scripts/libtest-counts.rs:1226-1304 | reading is refused exactly for a malformed event and otherwise gives the fold of the stream, whose every field NextestTotals.SuiteMeans, NextestTotals.TextIsLast and Nextest.FinalIsLast read off the events |
| Nextest.StepsCommute | scripts/libtest-counts.rs:1254-1303 | two events that are not finishes of the same test may be swapped |
| Nextest.InterleavingsAgree | scripts/libtest-counts.rs:1226-1304 | streams with the same events, and each test's finishes in the same order, are read into the same state |
| Nextest.FinalIsLast | scripts/libtest-counts.rs:1271-1301 | a test's outcome is that of its last finish, and it counts as having failed exactly when some finish failed |
| NextestTotals.SuiteMeans | scripts/libtest-counts.rs:1254-1276 | what the state keeps of a suite: the numbers of its started and finished segments and finishes, the largest announced count, the largest ignored count and the sum of passed and failed |
| NextestTotals.TextIsLast | scripts/libtest-counts.rs:1288-1290 | the text kept for a test is the output of the last of its finishes that carried one |
| NextestSummary.CountFinals | scripts/libtest-counts.rs:1313-1317 | each suite's entry is the number of its tests with a final outcome |
| NextestSummary.ReconcileSuites | scripts/libtest-counts.rs:1318-1348 | a run is refused exactly when it has no event or some suite does not reconcile; otherwise the selected and ignored sums, which NextestTotals.RunTotals reads off the events, are returned |
| NextestSummary.CountOutcomes | scripts/libtest-counts.rs:1349-1371 | passed and failed are the numbers of tests ending so; records, flaky tests and failures are listed in key order |
| NextestSummary.Summarise | scripts/libtest-counts.rs:1305-1382 | the second half computes the summary of the state, which NextestTotals.AcceptedExactly, NextestTotals.RunTotals and NextestTotals.RunFailures read off the events |
| NextestTotals.AcceptedExactly | scripts/libtest-counts.rs:1305-1344 | a stream is accepted exactly when no event is malformed, some suite is mentioned and the events of every suite agree |
| NextestTotals.RunTotals | scripts/libtest-counts.rs:1318-1348 | an accepted run's selected and ignored counts are the sums over its suites of the largest announced and the largest ignored count |
| NextestTotals.RunFailures | scripts/libtest-counts.rs:1349-1371 | an accepted run lists exactly the tests whose last finish failed, each with the output of the last finish that carried one, and as many as failed |
| NextestTotals.ListedInOrder | scripts/libtest-counts.rs:1349-1371 | flaky tests and failures are listed in the order in which the tests are visited |
| NextestSummary.InterleavedRuns | scripts/libtest-counts.rs:1226-1383 | an interleaving of a stream is refused alike or gives the same run |
| NextestSummary.ExecutedOnce | scripts/libtest-counts.rs:1349-1372 | executed is the number of distinct finished tests and equals passed + failed |
| NextestSummary.FlakyMeans | scripts/libtest-counts.rs:1356-1362 | a test is flaky exactly when its last finish passed and was a retry or came after a failure |
| NextestSummary.FlakyListed | scripts/libtest-counts.rs:1356-1362 | the flaky list holds exactly the flaky tests, with the retry that passed |
| NextestSummary.OneSegmentExact | scripts/libtest-counts.rs:1331-1338 | in an accepted single-segment suite every test finished exactly once and the tally says so |
| NextestSummary.FinishesSuffice | scripts/libtest-counts.rs:1339-1344 | a suite never has more final outcomes than finishes, so that half of the re-segmented check never refuses |
| Numbers.DecimalExact | scripts/m1_contract.rs:332-343 | a decimal field is accepted exactly in the canonical spelling of its 64-bit value |
| Numbers.HexExact | scripts/m1_contract.rs:345-366 | a hexadecimal field is accepted exactly in its 0x-lowercase canonical spelling, which is kept as its literal |
| Numbers.LiteralsAreNumbers | scripts/m1_contract.rs:345-366 | comparing parsed fields, their numbers or their spellings is the same |
| Numbers.PayloadExact | scripts/m1_contract.rs:414-440 | payload bytes are accepted exactly in their printed lowercase form |
| Numbers.PayloadInjective | scripts/m1_contract.rs:414-440 | no two spellings give the same payload |
| Fields.SplitExact | scripts/m1_contract.rs:368-374 | splitting at a separator is the exact inverse of joining |
| Fields.FieldsExact | scripts/m1_contract.rs:301-330 | a record is accepted exactly when it is the prefix followed by the keys in order, each with a nonempty value free of spaces |
| Fields.PairExact | scripts/m1_contract.rs:385-392 | a pair of addresses is accepted exactly in its printed form |
| Fields.RegionExact | scripts/m1_contract.rs:402-412 | a region is accepted exactly in its half-open printed form |
| Workload.ExpectedOperations | scripts/m1_contract.rs:628-701 | the pushes build the script of the case; the composition is all six in order |
| Workload.ScriptLength | scripts/m1_contract.rs:83-91 | each script has the declared number of operations |
| Workload.CycleTable | scripts/m1_contract.rs:660-681 | a retention cycle in numbers: the eight sizes, slot by slot, and the order in which the slots are given back |
| Workload.ScriptDisciplined | scripts/m1_contract.rs:643-701 | every script allocates only into free slots, reallocates and frees only live ones with their layout, and leaves nothing live |
| Oracle.ReplayOne | scripts/m1_contract.rs:834-885 | one operation moves the slot table on exactly when its slot rule holds and its extent is apart from the other live ones |
| Oracle.SlotOkMeans | scripts/m1_contract.rs:834-885 | for a disciplined script the slot rules are exactly the declarative conditions: frees match and live extents stay disjoint |
| Certificate.CheckTrace | scripts/m1_contract.rs:776-893 | the replay accepts exactly the traces whose every operation is right, whose frees match and whose live extents are disjoint after every prefix; the end-of-trace checks never refuse |
| Certificate.Validate | scripts/m1_contract.rs:710-937 | a report is accepted exactly when it is certified |
| Placement.PoolsMeans | scripts/m1_contract.rs:717-726 | the pool tests hold exactly when both pools are 32 MiB, neither starts at zero and they share no address |
| Placement.OutcomeMeans | scripts/m1_contract.rs:809-833 | the outcome test of an operation holds exactly when the exhausting request fails with status 2 and null and every other succeeds with a non-null pointer, aligned to its power of two, all of it in one pool |
| Placement.GuestsMeans | scripts/m1_contract.rs:894-917 | the guest payload tests hold exactly when both payloads lie outside both pools and share no address |
| PayloadHash.OneByteDiffers | scripts/m1_contract.rs:929-931 | two payloads that differ in exactly one byte have different hashes |
| PayloadHash.KnownHashes | scripts/m1_contract.rs:929-931 | the hash gives the published 64-bit FNV-1a values of the empty string and of "a" |
| PayloadHash.PatternSteps | scripts/m1_contract.rs:918-927 | an accepted payload starts with 0x20 or 0xdb, and each byte is 29 more than the one before it, modulo 256 |
| Certificate.LivePlaced | scripts/m1_contract.rs:819-833 | after every prefix each live allocation is aligned, inside one pool and of the scripted layout |
| Certificate.AddressesExclusive | scripts/m1_contract.rs:717-917 | after every prefix no address belongs to two live allocations, to both pools, or to a live allocation and a guest payload |
| Certificate.SlotsFollowed | scripts/m1_contract.rs:834-861 | each allocation goes to a free slot, each reallocation to a live one of its alignment, and each free names the live pointer and layout |
| Certificate.NothingLeft | scripts/m1_contract.rs:886-888 | nothing is live at the end |
| Feasible.EveryCaseCertifiable | scripts/m1_contract.rs:710-937 | for every case and both modes some report is certified, so no check makes a case unacceptable |
| Matrix.EvidenceIsNumeric | scripts/m1_contract.rs:1029-1056 | for parsed reports the literal comparison coincides with comparing numbers and bytes |
| Matrix.InputDetermines | scripts/m1_contract.rs:119-123 | the input a finished trial was given determines its mode and case |
| Matrix.ComparePair | scripts/m1_contract.rs:941-1064 | a pair is made exactly from two trials on one launch that were given their input, succeeded within their bounds and are certified, with the same evidence |
| Matrix.WorkAvoidsQuiet | scripts/m1_contract.rs:999-1064 | nothing the work run ever has live touches the memory the quiet run gave its guest payloads |
| Matrix.ValidateMatrix | scripts/m1_contract.rs:1077-1128 | the matrix is accepted exactly when the seven pairs are in order on one launch, and it then always counts 7, 7, 12, 86 and 7 |

## Left out

- Runs.StoreKeeps: stores to the control page are excluded, because the tracker, the phase and the break live there and a store would change them directly; phase changes are events of their own.
- What the bootstrap writes into the resume page and the private stack: plain stores, which any run may contain.
- ImageFile.MapExecutable: whether fstat, the reads and the close succeed is a parameter, and a regular file's size is that of its bytes.
- The kernel beyond the listed mapping calls: partial effects of failed calls, grow-down mappings, shared-memory aliasing, huge pages, guard pages and memory pressure.
- Assembly entry, restorers, FS and PKRU switching, signal frames, seccomp installation and the registration calls of the control block.
- Diagnostic formatting of refused mappings and of refused captures.
- Chunky-print streams: stdout and stderr carry one tagged sequence of messages; partial writes inside one message are not modelled.
- LateStart: the text of a difference is modelled by its thread, index and the two calls.
- Test discovery output (`parse_pretty_list_names`, `discovery_counts`), spawning and supervising tests, and CPU budgets: text and process plumbing.
- JSON decoding and `split_nextest_test_name`: events enter already decoded; sums of tallies are unbounded.
- NextestSummary.Summarise: the sorted visiting order of the maps is a parameter that lists each key once.
- Whole-report parsing (`parse_trial`): the field, list, region and payload parsers are modelled; the order of the rows and the operation names enter decoded.
- Oracle.ReplayOne: the live table is a sequence value, not an array updated in place.
- Memfd creation, sealing and descriptor scanning around the bootstrap packet.
- Example launchers, counters, strace printing, the benchmark driver and the build scripts.
