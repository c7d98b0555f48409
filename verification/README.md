# Verified model of the flash engine, its geometry and transfers, and the state query

The repository programs and inspects embedded targets through interchangeable backends (an
in-memory mock, ST-Link, OpenOCD). This project models its parts with the most state and
arithmetic in Dafny and proves what they promise:

- **The differential flash engine** (`core/hw.c`). `hw_flash_update` and `hw_flash_patch` walk the
  erase blocks of a NOR flash, splice a region into each block, decide per block whether to skip,
  program or erase and program, and verify at the end. The loops are imperative Dafny methods over a
  `Target` object: flash contents in an array, a halt flag, a plan that decides which backend calls
  fail (a failed program or erase may leave arbitrary bytes in the blocks it addressed), and a ghost
  log of every flash access. The geometry is a parameter: any partition of any stretch of the 32-bit
  address space, with the program granularity the backend reports and the unit the part insists on
  kept apart. `Words`, `Nor`, `FlashSpec`, `Backend` and `Walk` hold the device and the
  specification; `FlashCore` and `FlashPatch` the operations; `FlashResults`, `Optimality`,
  `Comparison`, `Repeats`, `Accounting` and `Fallback` the theorems; `FlashApi` says what a caller gets, in
  addresses and bytes alone.
- **Geometry and transfers of the real backends.** `SectorMap` (the cumulative sector-table scan of
  the ST-Link backend), `ChunkedRead` (the word-aligned chunk loops of ST-Link and OpenOCD),
  `ReplyFraming` (the growing receive buffer of OpenOCD). `Boards` feeds the ST-Link layouts,
  OpenOCD's reported granularity and the mock into the engine.
- **Mock memory.** `MockBackend`: the sparse page table against a flat byte map, and flash that is
  always what its history of programs and erases makes of a blank one.
- **State query** (`core/hw_state.c`). `StateQuery`: presence decided from evidence only, and the
  DCRSR/DCRDR register transfer of section C1.6.3 of DDI0403E.e; `Fields`: the register fields as numbers.

How to read the flash theorems. `Succeeds(b, j, f)` is the condition under which job `j` on board
`b` with contents `f` returns 0 when no backend call fails for outside reasons; `HwFlashUpdate` and
`HwFlashPatch` return 0 then and only then. `RunOutcome` is what they guarantee whatever fails: the
log is a prefix of the planned log (all of it on success), success means the flash is the old one
with exactly the region replaced, failure means the run stopped inside one block (`StoppedIn`). A run
whose log is `Quiet`, without a program or erase, changed nothing.
`Contents` and `WalkEvents` describe the walk, and the lemmas say what they imply. A job is `Honest`
when it is an update, or a patch whose old image is NULL or true.

Where the code and its documentation differ, the model follows the code:

- `end`, `sect_end` and the block end are 32-bit (`core/hw.c:317`, `core/hw.c:324`,
  `core/hw.c:383`), so a region that ends at 2^32 is never walked and a block that ends there stops
  the walk. `SucceedsIff` gives the exact condition under which a run returns 0, and
  `TopOfAddressSpaceFails` and `EndOfAddressSpaceFails` give failing requests.
- The repository's README.md says at line 65 that a sector equal in both images is never touched.
  That holds until the closing verify of `core/hw.c:469`, which reads the whole region; `TouchSet`
  is about the accesses before it.
- A wrong old image makes a patch skip blocks. It then returns 0 exactly when every skipped block
  already held the new bytes (`SucceedsIff`), and never returns 0 over a wrong flash (`HwFlashPatch`);
  `MisleadingImageFails` is a failing request.
- `include/hw.h:32` calls `sectors_changed` the blocks whose contents differ. With a wrong old image it
  counts the blocks on which the two images differ instead (`core/hw.c:403-417`); `ChangedMeaning`
  gives both.
- The OpenOCD backend's comment (`backends/openocd/hw_openocd.c:605-609`) says that a changed sector is
  rewritten whole. It reports the size of the first sector, so in a larger sector that is a multiple
  of it only the span in steps of that size is programmed; `OpenocdRunsSucceed` shows that this is
  safe all the same.
- `hw_board_halt` without a `board_halt` operation reports success (`core/hw.c:93-98`), so a target
  is known to be halted while it is programmed only when the operation exists.

`dafny verify dfyconfig.toml` covers the whole project.

## Model

| member | source | states |
|---|---|---|
| `FlashCore.FlashRangeOk` | core/hw.c:146-151 | The 32-bit subtractions accept exactly the non-empty ranges that lie inside the flash in unbounded arithmetic |
| `FlashCore.HwFlashInfo` | core/hw.c:167-178 | Geometry is returned only with a non-zero page size, and a zero program granularity is reported as 1 |
| `FlashCore.UniformBlock` | core/hw.c:193-194 | Rounding an offset down to the page size finds the block of a uniform partition that holds the address |
| `FlashCore.HwFlashSector` | core/hw.c:180-196 | The answer is the block of the partition holding the address, from the backend's map or from the uniform fallback; without faults it fails exactly outside flash or without geometry |
| `FlashCore.ReadByLoads` | core/hw.c:206-228 | The word and byte loop yields the flash bytes for every alignment and length, with exactly the loads of `Loads`; without faults it fails only when no operation can serve some byte |
| `FlashCore.HwFlashRead` | core/hw.c:198-228 | Bulk read and fallback deliver the same bytes, those of the flash; without faults exactly when the range is in flash and there is a bulk read, a byte load, or a word load for a request of whole words |
| `FlashCore.HwFlashVerify` | core/hw.c:247-270 | Returns 0 only when the region holds the image; without faults exactly when it does and can be read |
| `FlashCore.FlashHaltTarget` | core/hw.c:153-165 | With a halt operation, success leaves the target halted; nothing ever resumes it |
| `FlashCore.BeginProgramming` | core/hw.c:299-313 | The checks before the walk: nothing is accessed, and without faults they pass exactly when the operations and a geometry exist and the range is in flash |
| `FlashCore.BuildSectorImage` | core/hw.c:279-296 | The block image is the present block with the region's share spliced in, also when the read-back is skipped because the region covers the block |
| `FlashCore.RewriteBlock` | core/hw.c:334-335 | Erasing a block and programming it whole leaves exactly the data there and everything else as it was |
| `FlashCore.EraseAndProgram` | core/hw.c:334-335 | A failure at either step damages no byte outside the block |
| `FlashCore.UpdateBlock` | core/hw.c:322-338 | One turn of update: bytes outside the region survive the erase, a failure is confined to the block, without faults it succeeds exactly when the backend accepts its accesses |
| `FlashCore.HwFlashUpdate` | core/hw.c:298-345 | Over all boards, regions, contents and faults: 0 means the flash is the old one with exactly the region replaced; otherwise it stopped in one block, and a run whose log holds no program or erase left the flash alone; every access was made halted when a halt operation exists; without faults it returns 0 exactly when `Succeeds` |
| `FlashPatch.NeedErase` | core/hw.c:431-436 | The loop answers yes exactly when some bit has to go from 0 to 1 |
| `FlashPatch.DifferingSpan` | core/hw.c:447-449 | The two scans find the first and last differing position |
| `FlashPatch.ReprogramWindow` | core/hw.c:445-460 | The span computed in 32-bit arithmetic is the window of the specification and stays inside the block |
| `FlashPatch.WindowIsSmallestAligned` | core/hw.c:445-460 | The window covers every difference; when the granularity divides the block it is aligned at both ends and lies in every aligned interval that covers the differences; when it does not, the window is the whole block |
| `FlashPatch.SpanSuffices` | core/hw.c:431-463 | When only bits have to be cleared, programming a span that covers the differences yields exactly the wanted block |
| `FlashPatch.ProgramSpan` | core/hw.c:444-463 | Step 3 without an erase, the odd geometry of lines 451-455 included: one program, the block ends as wanted, the counter gets its length; without faults it fails only when the part refuses the span |
| `FlashPatch.ReadAndCompare` | core/hw.c:400-415 | Step 1: with an old image an unchanged block costs no access; otherwise the block is read, and skipped exactly when the rule says so |
| `FlashPatch.RewriteChanged` | core/hw.c:419-463 | Steps 2 and 3: the block ends as wanted with at most one erase, counted exactly; failures stay in the block |
| `FlashPatch.PatchBlock` | core/hw.c:400-466 | One block of a patch: accesses, contents and counters are those of the specification; a failure leaves all other blocks alone |
| `FlashPatch.CountersFit` | core/hw.c:388-464 | No counter can wrap while a block is left to walk |
| `FlashPatch.SectorTaskIsTaskOf` | core/hw.c:379-387 | The overlap computed in 32 bits is the part of the region that falls on the block |
| `FlashPatch.HwFlashPatch` | core/hw.c:347-476 | Over all boards, regions, contents, faults and old images, true, wrong or NULL: 0 means the flash is the old one with exactly the region replaced and the counters are those of the walk; otherwise it stopped in one block with counters that cover the blocks before it, and a run whose log holds no program or erase left the flash alone; halted while programming; without faults 0 exactly when `Succeeds` |
| `FlashApi.UpdateRegion` | core/hw.c:298-345 | hw_flash_update for its caller, address by address: what it leaves on success and on failure, that nothing changes without a program or an erase, that those are made halted, and when it must succeed |
| `FlashApi.PatchRegion` | core/hw.c:347-476 | hw_flash_patch likewise, with the order of the counters and the meaning of `sectors_total` |
| `Walk.PosInBlock` | core/hw.c:379-383 | The position is short of the region's end exactly while blocks remain, and lies in the next of them: every overlapping block is visited once, in order |
| `Walk.RegionHolds` | core/hw.c:469 | Once the region holds the image nothing else has changed either |
| `FlashResults.WantIsGoal` | core/hw.c:419-422 | Splicing block by block is the same as splicing the whole region |
| `FlashResults.ReachesGoalIff` | core/hw.c:400-466 | The walk brings the flash to the goal exactly when no block was skipped that still differed |
| `FlashResults.HonestIsNotMisled` | core/hw.c:403-415 | A NULL or true old image never makes the walk skip a block that still differs |
| `FlashResults.SkipsIffHeld` | core/hw.c:403-415 | With a NULL or true old image a block is skipped exactly when it holds the new bytes |
| `FlashResults.WindowAccepted` | core/hw.c:445-463 | Where blocks and reported granularity are whole program units of the part, the reprogrammed span starts and ends on a unit of the part, also when the reported granularity does not divide the block |
| `FlashResults.SucceedsIff` | core/hw.c:298-476 | The exact condition for a 0 result without faults: below 2^32, no block skipped wrongly; for a region that ends at 2^32, that the region already holds the image |
| `FlashResults.HonestAlwaysSucceeds` | core/hw.c:298-476 | Update, and patch with no or a true old image, succeed for every region and contents of a flash below 2^32, whatever multiple of the part's unit the backend reports |
| `FlashResults.TopOfAddressSpaceFails` | core/hw.c:322-338 | A concrete in-range update that returns -1 because its block ends at 2^32 |
| `FlashResults.EndOfAddressSpaceFails` | core/hw.c:317-340 | A concrete in-range update that returns -1 because its region ends at 2^32 |
| `FlashResults.MisleadingImageFails` | core/hw.c:403-407 | A concrete patch that returns -1 because its old image is wrong |
| `FlashResults.StopIsConfined` | core/hw.c:322-345 | A failed honest run has one block in progress: every byte below it is at its goal, every byte above it is untouched |
| `FlashResults.StopKeepsRest` | core/hw.c:379-475 | For any old image, bytes outside the region and blocks after the stop are untouched |
| `FlashResults.OutcomeMeans` | core/hw.c:298-476 | The guarantee of a run, byte by byte: on success exactly the region has changed; on failure only the block in progress and the region below it have, and below it an honest run is done |
| `Nor.BitsOnlyClear` | backends/mock/hw_mock.c:222-226 | Over any run, a byte whose block is never erased ends with a subset of its bits |
| `Nor.ProgramsReachExactlySubsets` | backends/mock/hw_mock.c:209-228 | Runs without an erase reach exactly the bitwise subsets of the present contents; where blocks are whole program units, so do runs of which the part refuses nothing |
| `Nor.ProgramSubset` | core/hw.c:431-436 | Programming data that only clears bits leaves exactly that data |
| `Optimality.LogReplaysToContents` | core/hw.c:379-467 | The accesses of the walk, replayed on a NOR device, give the contents the walk claims |
| `Optimality.RaisedBitNeedsErase` | core/hw.c:431-436 | Any run that ends with a bit set that a block did not have erased that block |
| `Optimality.BlockErasedIff` | core/hw.c:431-443 | An honest patch erases a block once if it has to gain a bit and not at all otherwise |
| `Optimality.PatchErasesLeast` | core/hw.c:431-443 | The blocks an honest patch erases are erased by every sequence of programs and erases that reaches the same contents; `sectors_erased` is their number, the least possible |
| `Comparison.NullRefinesSupplied` | core/hw.c:403-415 | Patch with NULL and patch with the true old image issue the same programs and erases in the same order and count the same |
| `Comparison.PatchRefinesUpdate` | core/hw.c:298-476 | From the same flash, patch and update leave the same flash behind |
| `Comparison.PatchCostsNoMore` | core/hw.c:431-464 | A patch never erases more blocks or programs more bytes than an update of the same region |
| `Comparison.AccessesOfBlock` | core/hw.c:379-467 | The accesses of the walk that fall on a block are exactly those of the block's own turn, and none fall on a block outside the region |
| `Comparison.TouchSet` | core/hw.c:400-466 | Before the closing verify, a block outside the region or equal in old and new image sees no access. Every other block is read once and then, by what it holds: nothing; one program of the window, when bits only have to be cleared; one erase and one program of the whole block |
| `Comparison.UpdateTouchSet` | core/hw.c:279-338 | An update reads a block back exactly when the region covers it only in part, then erases it and programs it whole; a block outside the region sees no access |
| `Comparison.StatsMeaning` | core/hw.c:388-464 | `sectors_total` is the number of blocks that meet the region (0 for the region at 2^32 that is not walked), `sectors_erased` the number of erases in the log and `bytes_written` the bytes its programs carry; erased <= changed <= total, and bytes never exceed the flash size |
| `Comparison.StatsMeaningAt` | core/hw.c:388-464 | The same at every moment of the walk, for the blocks walked so far, `sectors_changed` included |
| `Comparison.ChangedMeaning` | core/hw.c:400-417 | With a NULL or true old image `sectors_changed` is the number of blocks that meet the region and whose contents differ; with any supplied image it is the number of blocks on which the two images differ |
| `Accounting.StatsStep` | core/hw.c:388-464 | Counting block by block is counting over the log |
| `Accounting.TallyCounts` | core/hw.c:437-464 | What one more access adds to the counts: an erase 1, a program its length |
| `Accounting.StatsBounded` | core/hw.c:388-464 | At every moment of the walk the counters are ordered and bounded by the bytes walked over |
| `Repeats.QuietIffDone` | core/hw.c:400-429 | An honest patch programs or erases something exactly when the region does not hold the new image yet |
| `Repeats.PatchBackRestores` | core/hw.c:347-476 | Patching back with the two images exchanged restores every byte of the flash |
| `Repeats.MutationsDecide` | core/hw.c:379-467 | Reads aside, the programs and erases of a run decide where it ends |
| `Fallback.LoadsCost` | core/hw.c:206-227 | With read32 the fallback needs at most six byte loads, a word load for every four other bytes, and the loads tile the range |
| `SectorMap.TablesFillBank` | backends/stlink/hw_stlink.c:363-365 | Both sector tables total exactly 1 MB |
| `SectorMap.ScanBank` | backends/stlink/hw_stlink.c:381-390 | The cumulative scan hits exactly for offsets inside the bank, and then on the entry that holds the offset |
| `SectorMap.F2F4Sector` | backends/stlink/hw_stlink.c:364 | The entry of the F2/F4 table that holds an offset has the closed-form size, and starts at the offset rounded down to it |
| `SectorMap.F7Sector` | backends/stlink/hw_stlink.c:365 | Likewise for the F7 table |
| `SectorMap.StlinkFlashSectorMap` | backends/stlink/hw_stlink.c:361-392 | Exactly the F2/F4 and F7 families have a table. Every address gets its block, in numbers: F7 blocks are 32 KB below 128 KB of a bank, 128 KB up to 256 KB, then 256 KB; F2/F4 blocks 16, 64 and 128 KB below and above 64 and 128 KB; the block starts at the address rounded down, within the bank, to that size |
| `SectorMap.StlinkImplFlashSector` | backends/stlink/hw_stlink.c:394-414 | Succeeds exactly on the addresses of the flash of a part with a table or a page size, with the block in the same numbers; uniform families round to the page |
| `SectorMap.BlocksPartition` | backends/stlink/hw_stlink.c:361-414 | The block contains its address, every address of it finds the same block, distinct blocks are disjoint, for both tables and the uniform layout |
| `SectorMap.LayoutIsBoard` | backends/stlink/hw_stlink.c:361-414 | A flash that ends on a block boundary is a board of the flash engine whose blocks are the backend's answers |
| `SectorMap.WholeBanksAreStarts` | backends/stlink/hw_stlink.c:376-379 | Flashes of whole banks end on a block boundary |
| `SectorMap.HalfBanksAreStarts` | backends/stlink/hw_stlink.c:363-365 | Parts with half a bank do too |
| `Boards.MockRunsSucceed` | backends/mock/hw_mock.c:188-252 | On the mock every honest job inside the flash succeeds |
| `Boards.WriteGranularity` | backends/stlink/hw_stlink.c:316-332 | The granularity of every family: 32 for H7, 8 for G0, G4, L4, L5/U5/H5 and WB/WL, 2 for F0/F1/F3 and F1 XL, 4 else; each divides a kilobyte and so every banked block |
| `Boards.StlinkRunsSucceed` | backends/stlink/hw_stlink.c:316-414 | For every ST-Link family, and every program unit that the granularity table, the base and the blocks are multiples of, the backend's lookups describe a board on which every honest job succeeds |
| `Boards.WholeBankPartsSucceed` | backends/stlink/hw_stlink.c:361-414 | F2/F4 and F7 parts of one to four banks at 0x08000000: every honest job succeeds |
| `Boards.OpenocdRunsSucceed` | backends/openocd/hw_openocd.c:591-612 | Reporting the first sector's size as granularity is safe: for any partition into sectors of whole program units every honest job succeeds, also where that size does not divide a sector |
| `ChunkedRead.WindowsExact` | backends/stlink/hw_stlink.c:423-438 | Every device read is aligned, whole words and at most 1024 bytes; the reads are contiguous in 32-bit addresses, move just the bytes between the word boundaries around the request (at most 3 beyond either end), and number ceil((addr % 4 + len) / 1024) |
| `ChunkedRead.WindowsInOrder` | backends/stlink/hw_stlink.c:423-438 | Below 2^32 the reads are disjoint, ascend, and stay between those boundaries |
| `ChunkedRead.StlinkFlashRead` | backends/stlink/hw_stlink.c:419-447 | For every address and length, returns exactly the memory at addr + k modulo 2^32 with exactly those reads; nothing past len is written; it succeeds exactly when none of the reads fails |
| `ChunkedRead.OpenocdFlashRead` | backends/openocd/hw_openocd.c:617-677 | The same bytes through the same reads; however the server splits its words into lines, it succeeds exactly when every reply carries at least the words asked for |
| `ChunkedRead.TakeWords` | backends/openocd/hw_openocd.c:642-660 | The parse loop unpacks the words of the reply in order, until enough were taken |
| `ReplyFraming.FirstTerminatorStays` | backends/openocd/hw_openocd.c:483 | Bytes arriving behind the first terminator do not move it |
| `ReplyFraming.ExecAlloc` | backends/openocd/hw_openocd.c:462-490 | For every way the stream is cut into pieces the reply is the bytes before the first 0x1A; on a steady socket it succeeds exactly when there is one; the buffer is never overrun and recv is never asked for zero bytes |
| `ReplyFraming.SameReplyForEverySplit` | backends/openocd/hw_openocd.c:462-490 | Two connections that carry the same bytes in different pieces give the same reply |
| `ReplyFraming.Grow` | backends/openocd/hw_openocd.c:467-472 | Doubling the buffer keeps the bytes received so far |
| `MockBackend.FlashRangeOk` | backends/mock/hw_mock.c:48-52 | Accepts exactly the non-empty ranges inside the emulated flash |
| `MockBackend.EraseBounds` | backends/mock/hw_mock.c:238-241 | The erase arithmetic finds exactly the pages that meet the range, and its clamp never fires |
| `MockBackend.Mock.GetOrCreatePage` | backends/mock/hw_mock.c:54-66 | Finds the 4 KB page of an address or adds a zero one, failing exactly when it is absent and not asked for or all 256 are taken; page addresses stay aligned and unique; the flat view never changes |
| `MockBackend.Mock.Write8` | backends/mock/hw_mock.c:88-100 | One byte of the flat view changes, masked in flash; a failed write changes nothing and happens exactly when the table is full and the page is new |
| `MockBackend.Mock.Read8` | backends/mock/hw_mock.c:102-116 | Yields the flat view, zero where nothing was written |
| `MockBackend.Mock.Write32` | backends/mock/hw_mock.c:118-128 | Stores the base-256 digits of the value, lowest first, at addr + k modulo 2^32, masked in flash; the first n of them, all four exactly on success; no other byte changes and nothing is erased |
| `MockBackend.Mock.Read32` | backends/mock/hw_mock.c:130-139 | The sum of the four bytes at addr + k modulo 2^32 times 256^k |
| `MockBackend.Mock.WriteThenRead32` | backends/mock/hw_mock.c:118-139 | A word reads back as written in RAM and as `old & value` in flash, byte by byte also across pages and across the flash boundary |
| `MockBackend.StoredWord` | backends/mock/hw_mock.c:118-139 | Byte-wise masking is word-wise masking |
| `Words.WordIsSum` | backends/mock/hw_mock.c:130-139 | Joining four bytes by shifts is the sum of their multiples of 256^k |
| `Words.BytesAreDigits` | backends/mock/hw_mock.c:118-128 | The bytes a word is split into are its digits to the base 256 |
| `MockBackend.Mock.FlashRead` | backends/mock/hw_mock.c:200-207 | The flat view of the range, the rest of the buffer untouched |
| `MockBackend.Mock.FlashWrite` | backends/mock/hw_mock.c:209-228 | Succeeds exactly on empty data and on requests in flash whose address and length are multiples of 4; then every byte of the range becomes its old value AND the data; nothing else changes |
| `MockBackend.Mock.FlashErase` | backends/mock/hw_mock.c:230-245 | Succeeds exactly on an empty range and on ranges in flash; then sets exactly the 1 KB pages that meet the range to 0xFF |
| `MockBackend.Mock.FlashMassErase` | backends/mock/hw_mock.c:247-252 | Every flash byte is 0xFF and no other byte of memory changes, as after one erase of everything |
| `MockBackend.BitsGainedOnlyByErase` | backends/mock/hw_mock.c:88-245 | Between any two moments of any run a flash byte gains a bit only through an erase that met its page |
| `StateQuery.ReadDbgReg` | core/hw_state.c:317-351 | OK exactly when the target is halted, every access succeeds and ready appears within 100 polls; the value is then the selected register divided by 2^lsb, and of that the `width` lowest binary digits, never a stale DCRDR; the accesses are the selection, the polls and the data in that order, none at all on a running target |
| `Fields.FieldDigits` | core/hw_state.c:347-348 | For every position and width, shifting and masking yields the register divided by 2^lsb and of that the `width` lowest binary digits |
| `StateQuery.PollReady` | core/hw_state.c:328-340 | The loop sees ready exactly when the delay is below 100 polls and no poll fails |
| `Fields.LanesRecombine` | generated/armv7m.def:720-723 | PRIMASK, BASEPRI, FAULTMASK and CONTROL recombine to the word of REGSEL 20 |
| `Fields.TableFields` | generated/armv7m.def:715-723 | Every field of the core register table as a number: the whole word, w mod 512, and the four bytes of REGSEL 20 |
| `StateQuery.PresenceNonInterference` | core/hw_state.c:399-460 | The verdict depends on nothing but the four ID words of the descriptor's block |
| `StateQuery.ComponentPresent` | core/hw_state.c:385-397 | Present when the four words end in 0x0D, a low nibble 0, 0x05 and 0xB1, unreadable when one does not answer, absent otherwise; nothing but these words is fetched |
| `StateQuery.StatePresence` | core/hw_state.c:399-460 | By cases: each feature rule confirms or denies by its own flag, an unknown rule is Unknown; a debug block is Discovered, DiscoveryAbsent or Unknown as its four ID words say, and nothing else is fetched; else Architectural exactly in the architecture's namespace |
| `StateQuery.VerdictMeans` | core/hw_state.c:296-309 | The verdict as a function of the words: what each feature rule and namespace decides |
| `StateQuery.EvidenceMeans` | core/hw_state.c:385-433 | Which words it may depend on: the four ID words of the block, and none for anything but a debug block without a feature rule |
| `StateQuery.PagedBlocksAreOffPorts` | core/hw_state.c:385-388 | Blocks whose bases are multiples of 4 KB, as all generated ones are, keep their ID words off the transfer registers, so those answers are plain words |
| `StateQuery.FindBlock` | core/hw_state.c:423-430 | The component comes from the first database that has one of that name; none is found exactly when no database has one |
| `StateQuery.FindAccessPath` | core/hw_state.c:175-180 | Likewise for the access path of a core register |
| `StateQuery.StateRead` | core/hw_state.c:146-195 | Which path an element is read through and exactly what comes of it, a core register as its divided and masked register; a refused read, one of a core register on a running target included, causes no access |
| `StateQuery.StateQuery` | core/hw_state.c:462-488 | Reports the presence verdict whatever the read does; the read is not attempted exactly for ConfigDenied and DiscoveryAbsent, and otherwise status and value are exactly those of its path; a denied, absent or refused element causes no access beyond the ID words |
| `StateQuery.SameVerdict` | core/hw_state.c:399-488 | Two targets that agree on the block's ID words get the same verdict from the query, whatever else differs |

## Left out

- Sockets, TCL command text, temporary files, libstlink calls, the J-Link backend and OpenOCD's own geometry parsing: foreign calls and I/O.
- `hw_connect`, the backend registry, the one-branch wrappers (`hw_flash_write`, `hw_flash_erase`, `hw_flash_mass_erase`, the board and register wrappers) and NULL-argument checks: thin dispatch.
- Python bindings, command line, packaging, and the manual importer under `tools/state`.
- The generated register tables as data; only the rows a lemma names are used.
- Run, step, reset and the register file of the mock; the mock never fails except as its code does.
- `hw_state_identify`, the name functions and the evidence strings.
- Backends whose sector answers are not the blocks of a partition of the flash (a uniform flash whose size is not a multiple of its page among them): the walk of a patch relies on the answer containing the address.
- Backend.Target.Read32: a load outside the flash fails on this target, as does Read8; other memory is not part of the engine's model.
- FlashPatch.HwFlashPatch: `stats_out` is an out-parameter and never NULL; after a failure the counters are fixed up to whether the block in progress was reached and found to differ.
- FlashCore.HwFlashVerify: the mismatch message is not modelled.
- FlashCore.BuildSectorImage: states the result for blocks that meet the region and end below 2^32, the only ones its caller passes; its overlap guard never fires there.
- ChunkedRead.StlinkFlashRead: a device read that wraps past 2^32 continues at address 0, as on a 32-bit bus.
- ChunkedRead.OpenocdFlashRead: the same; the reply is a sequence of lines of words, so the scanning of hexadecimal text is not modelled, and the server's words are those of memory in order; host allocation succeeds.
- ReplyFraming.ExecAlloc: sending the command is not modelled, and host allocation succeeds.
- StateQuery.StateRead: a descriptor whose absolute address is DHCSR or DCRDR itself is read, but its value is not specified; whether the target is halted is a field and its query does not fail; register fields start inside the word, as all generated ones do.
- StateQuery.SameVerdict: the ID words are not the transfer registers themselves, whose values change while they are read.
- Every allocation of the flash engine may fail, but `realloc` is modelled as a fresh buffer: nothing reads old buffer contents after growing.
- Time, and power loss between two backend calls: a run is the sequence of its calls.
