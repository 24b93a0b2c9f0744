# Buffer pool of the DBTI storage engine, in Dafny

This project models the buffer pool (system buffer) of DBTI, a small
database storage engine written in Go. The buffer pool sits between the
record layers and the database file. It keeps at most `PufferSize = 128`
pages in an array of page frames. A frame holds the page bytes, a page
number, an `isFixed` (pinned) flag and an `isUpdated` (dirty) flag. A page
map sends page numbers to frame slots, and two counters record cache hits
and misses. The database file is a sequence of 4096-byte blocks, and a page
is exactly one block (`BlocksPerPage = PageSize / Blocksize = 1`).

Modules:

- `BlockFile` (`blockfile.dfy`) holds bytes, blocks, and the value of a block
  file: `WriteAt` with the POSIX behaviour that writing past the end grows
  the file and zero-fills the gap. It also holds `BlockAt`, where a block
  outside the file reads as zeros, and zero extensions.
- `PageStore` (`pagestore.dfy`) maps pages onto blocks. `DiskPage(s, p)` is
  the page the file holds at number `p`. `Extend` is the effect of
  `initFileSystem`: it appends zero blocks up to the requested page.
  `WriteBack` is the effect of a successful `Write`. Lemmas prove that
  extension changes no page, that write-back round-trips, and that
  write-back touches no other page or block.
- `BufferInterface` (`bufferinterface.dfy`) is the manager: class
  `BufferManager`. Its fields are `frames: array<Frame>`,
  `pageMap: map<int, nat>`, the two counters and `store: seq<Block>`. A ghost
  count of requests since the last reset is tied to the counters by `Valid()`.
  `Valid()` is the coherence invariant between the map and the frames. Every
  public operation of the Go package is a method with an `ensures` for both
  the success and the error path. On success it gives the whole new state,
  file included. On failure it gives the frames, the map and the counters,
  and says which pages of the file may have changed (see Left out).
- `BufferScenarios` (`scenarios.dfy`) holds the package's two test flows,
  the survival of an updated page across a request, the pinning guarantee,
  the idempotence of `Fix`, and `UnFix` undoing `Fix`. All are written as
  callers that rely on the contracts alone.
- `AsWritten` (`aswritten.dfy`) models the defective Go fragments as
  written, each with an input that shows the defect (see Findings).

The block file's operations are methods of the manager that can fail
nondeterministically. These are `StoreLength`, `ReadBlock` and `WriteBlock`.
A read outside the file, or a negative block number, always fails. Opening
and creating the file is outside the model; the manager is constructed over
the file's current contents.

The model follows the Go code in these points:

- `Write` does not clear `isUpdated`. The page stays dirty after an explicit
  write.
- `initFileSystem` extends the file up to block `pageNo * BlocksPerPage`,
  exclusive. The requested page itself is not written; `Request` returns a
  zero page for it, and a later `Write` appends it.
- No operation writes back all dirty frames at once; a dirty page reaches
  the file only through `Write` or when its slot is reused.
- The FIFO and LRU strategies are declared (bufferinterface/bufferinterface.go:50,
  :54), but their branches are unfinished stubs that always answer slot 0
  (:153-159). Only the random strategy is modelled (see Left out).

The model corrects these Go defects instead of copying them:

- It tests residency with `pageNo in pageMap` instead of the zero sentinel.
- It chooses a victim slot inside the array and never a fixed one, and an
  empty slot takes precedence. When every frame holds a fixed page there is
  no such slot, and a miss fails with the model's own `NoVictimAvailable`
  error; the Go code draws a slot without looking at `isFixed`.
- It reads block `pageNo * BlocksPerPage + k` into offset `k * Blocksize`.
- It removes the evicted page's map entry.
- It also writes back a dirty page 0 before eviction.
- In `Write`, block `k` is copied from page offset `k * Blocksize`. The Go
  loop at bufferinterface/bufferinterface.go:224-226 copies every block from
  offset 0. With one block per page, no input shows the difference.

## Model

| member | source | states |
|---|---|---|
| BlockFile.WriteAt | fileinterface/fileinterface.go:101-116 | writing block `b` at number `i` sets block `i` to `b`, keeps every other existing block, grows the file to `i + 1` blocks when `i` is past the end, and zero-fills the gap |
| BlockFile.ZeroExtensionReadsSame | bufferinterface/bufferinterface.go:296-304 | appending zero blocks changes what no block number reads as |
| PageStore.PageLength | bufferinterface/bufferinterface.go:95-96 | the page length is the largest whole number of pages that fits in the file's blocks |
| PageStore.PageBlock | bufferinterface/bufferinterface.go:221-226 | block `k` of a page holds the page bytes at offsets `k * Blocksize + j` |
| PageStore.Extend | bufferinterface/bufferinterface.go:284-305 | preparing the file for page `p` only appends zero blocks: up to `p * BlocksPerPage` blocks when `p` exceeds the page length, and none otherwise |
| PageStore.ZeroExtensionKeepsPages | bufferinterface/bufferinterface.go:292-305 | file extension leaves every page's contents unchanged |
| PageStore.ZeroExtensionKeepsAllPages | bufferinterface/bufferinterface.go:292-305 | the same, for all page numbers at once |
| PageStore.BeyondExtentIsZero | bufferinterface/bufferinterface.go:98-104 | a page at or beyond the file's page length reads as all zeros, so a page not yet on disk is created all-zero |
| PageStore.WriteBlocksAt | bufferinterface/bufferinterface.go:221-231 | writing the first `k` blocks of a page sets exactly blocks `p * BlocksPerPage .. + k - 1` and fixes the new file length |
| PageStore.WriteBlocksKeepsOtherPages | bufferinterface/bufferinterface.go:221-231 | a partial or complete page write leaves every other page unchanged |
| PageStore.WriteBackReadsBack | bufferinterface/bufferinterface.go:208-233 | round trip: after writing page `pg` as page `p`, the file holds `pg` as page `p` |
| PageStore.WriteBackKeepsOtherPages | bufferinterface/bufferinterface.go:208-233 | writing page `p` back leaves every other page of the file unchanged |
| PageStore.WriteBackTouchesOnlyPage | bufferinterface/bufferinterface.go:217-231 | block by block: page `p`'s blocks get the page's blocks, every other existing block is kept, new blocks are zero, and the length is exactly what covers page `p` |
| BufferInterface.CopyBlock | bufferinterface/bufferinterface.go:221-226 | the byte-copy loop yields block `k` of the page |
| BufferInterface.Flushed | bufferinterface/bufferinterface.go:144-149 | a write-back of a frame can change the page on disk only when the frame holds an updated page |
| BufferInterface.BufferManager.constructor | bufferinterface/bufferinterface.go:60-70 | all frames empty, empty page map, counters zero, over a given file |
| BufferInterface.BufferManager.PageAvailInPuffer | bufferinterface/bufferinterface.go:245-258 | a page number is reported resident exactly when some frame holds that page (slot 0 included) |
| BufferInterface.BufferManager.StoreLength | bufferinterface/bufferinterface.go:91-93 | when it succeeds, the file length query returns the number of blocks; a failure is a storage error |
| BufferInterface.BufferManager.ReadBlock | fileinterface/fileinterface.go:69-94 | a successful read returns the stored block; a read outside the file fails |
| BufferInterface.BufferManager.WriteBlock | fileinterface/fileinterface.go:96-116 | a successful write leaves `WriteAt` of the old file; a failed one leaves the file unchanged; a negative block number fails |
| BufferInterface.BufferManager.InitFileSystem | bufferinterface/bufferinterface.go:260-308 | on success the file becomes `Extend(old file, pageNo)`; on failure it lies between the old file and that extension; in both cases only zero blocks were appended |
| BufferInterface.BufferManager.LoadPage | bufferinterface/bufferinterface.go:104-118 | the block-read loop returns exactly page `pageNo` of the file; a negative page number fails |
| BufferInterface.BufferManager.FetchPage | bufferinterface/bufferinterface.go:83-118 | the miss path before slot search returns the file's page `pageNo`, all zeros beyond the page length; on success the file becomes `Extend(old file, pageNo)`; in every case no page on disk changes |
| BufferInterface.BufferManager.ChooseSlot | bufferinterface/bufferinterface.go:137-152 | the chosen slot is empty, or unfixed when no slot is empty; `NoVictimAvailable` exactly when every frame is fixed |
| BufferInterface.BufferManager.RequestPufferSlot | bufferinterface/bufferinterface.go:137-164 | a fixed frame is never chosen; a dirty victim is written back before the slot is handed out (the file becomes `WriteBack(old file, victim page)`), a clean victim leaves the file unchanged, and a write-back failure fails the call with a storage error; no other page changes on disk |
| BufferInterface.BufferManager.Install | bufferinterface/bufferinterface.go:128-133 | the new page is placed unfixed and not updated; its map entry replaces the evicted page's entry; coherence is kept |
| BufferInterface.BufferManager.Request | bufferinterface/bufferinterface.go:72-134 | hit: returns the resident frame's page, increments only the hit counter, changes nothing else. Miss: increments only the miss counter. On success the page is the file's page (zero if beyond the end), installed per `Install` in a choosable slot, and a dirty victim's page is on disk; the new file is `Extend(old file, pageNo)`, followed by the victim's `WriteBack` when the victim was dirty. On failure frames and map are unchanged, and the error is a storage error or, only when every frame is fixed, `NoVictimAvailable`. With all frames fixed a miss fails. Coherence is kept |
| BufferInterface.BufferManager.Fix | bufferinterface/bufferinterface.go:166-178 | a non-resident page gives `PageNotPuffered` and no change; otherwise only that frame's `isFixed` becomes true (so fixing twice equals fixing once) |
| BufferInterface.BufferManager.UnFix | bufferinterface/bufferinterface.go:180-192 | a non-resident page gives `PageNotPuffered` and no change; otherwise only that frame's `isFixed` becomes false |
| BufferInterface.BufferManager.Update | bufferinterface/bufferinterface.go:194-206 | a non-resident page gives `PageNotPuffered` and no change; otherwise only that frame's `isUpdated` becomes true |
| BufferInterface.BufferManager.Write | bufferinterface/bufferinterface.go:208-234 | a non-resident page gives `PageNotPuffered` and no change. Success leaves `WriteBack(old file, pageNo, page)`. Frames and map are never changed, and no other page changes on disk |
| BufferInterface.BufferManager.ResetCounters | bufferinterface/bufferinterface.go:236-241 | both counters become 0; with `Valid()`, hits + misses then equal the number of `Request` calls since the reset |
| BufferInterface.BufferManager.SetByte | bufferinterface/bufferinterface_test.go:30 | a write through the page handle changes exactly one byte of the resident frame's page |
| BufferScenarios.RequestKeepsUpdatedPage | bufferinterface/bufferinterface_test.go:8-59 | after an update of page 2 and a request for page 3, requesting page 2 again returns the updated byte, whether page 2 was evicted or not; four requests give four hits and misses |
| BufferScenarios.WriteReachesFile | bufferinterface/bufferinterface_test.go:70-96 | after setting test bytes in page 1 and writing it, the file holds those bytes as page 1 |
| BufferScenarios.UpdatedPageSurvivesRequest | bufferinterface/bufferinterface.go:144-149 | after any request, an updated page either keeps its frame and bytes, or was the victim and the file holds its bytes; one more request is counted |
| BufferScenarios.FixedPageStaysResident | bufferinterface/bufferinterface.go:166-167 | a fixed page stays in its frame across any request |
| BufferScenarios.FixTwiceIsFixOnce | bufferinterface/bufferinterface.go:169-177 | fixing a page twice gives the same pool as fixing it once |
| BufferScenarios.UnFixUndoesFix | bufferinterface/bufferinterface.go:176-190 | unfixing an unfixed page right after fixing it restores the pool |
| AsWritten.SlotZeroReportedMissing | bufferinterface/bufferinterface.go:247-258 | as written (a Go map lookup yields 0 for a missing key, and 0 is the "not mapped" sentinel), a page held in slot 0 is reported not resident |
| AsWritten.HitAsWritten | bufferinterface/bufferinterface.go:75-81 | as written, the hit test answers exactly when the sentinel residency test does |
| AsWritten.InstallAsWritten | bufferinterface/bufferinterface.go:128-132 | as written, installing maps the new page to the slot and the slot to the new page, and keeps every other entry of the map, the evicted page's entry included |
| AsWritten.StaleEntryServesWrongPage | bufferinterface/bufferinterface.go:77-81 | as written, after an eviction a request for the evicted page hits and gets the frame of another page |
| AsWritten.LoadReadsWrongBytes | bufferinterface/bufferinterface.go:106-112 | as written, the read loop assembles a page different from the one on disk |
| AsWritten.RandomSlotOutOfRange | bufferinterface/bufferinterface.go:142 | as written, draws 127 and 128 name slots 128 and 129 of a 128-frame array, and slot 0 is never drawn |
| AsWritten.PageZeroNeverWrittenBack | bufferinterface/bufferinterface.go:145 | as written, an updated page 0 is not written back before its slot is reused |

## Findings

| source | as written | input that shows it | evidently intended | confidence | as-written member | corrected member |
|---|---|---|---|---|---|---|
| bufferinterface/bufferinterface.go:250 | slot index 0 means "not mapped" | page 7 held in slot 0 | any mapped slot, 0 included, counts as resident | high (not executed) | AsWritten.SlotZeroReportedMissing | BufferInterface.BufferManager.PageAvailInPuffer |
| bufferinterface/bufferinterface.go:77 | hit test does not check the frame's page number, and :129 never removes the evicted page's entry | page 1 in slot 1 evicted for page 2, then Request(1) | a hit returns the frame holding the requested page | high (not executed) | AsWritten.StaleEntryServesWrongPage | BufferInterface.BufferManager.Request |
| bufferinterface/bufferinterface.go:107-111 | reads block 0 and stores every byte at offset `byteIndex*blockIndex` | file [zero block, block of ones], page 1 | block `pageNo*BlocksPerPage+k` copied to offset `k*Blocksize` | high (not executed) | AsWritten.LoadReadsWrongBytes | BufferInterface.BufferManager.LoadPage |
| bufferinterface/bufferinterface.go:142 | `rand.Intn(PufferSize+1) + 1` lies in 1..129 | draw 127 or 128 | a slot in 0..127 that holds no fixed page | high (not executed) | AsWritten.RandomSlotOutOfRange | BufferInterface.BufferManager.ChooseSlot |
| bufferinterface/bufferinterface.go:145 | `pageNo != 0` also skips page 0 | updated page 0 chosen as victim | every updated victim is written back | high (not executed) | AsWritten.PageZeroNeverWrittenBack | BufferInterface.BufferManager.RequestPufferSlot |

## Left out

- `fileinterface/fileinterface.go` is not part of this model: creating, opening, closing and deleting files, the table of OS file handles, `Stat`, and the directory listing are operating-system plumbing. The model replaces them with a block sequence whose length, read and write operations can fail.
- The file bootstrap in `initFileSystem` is left out: the existence check, create or open, the `fileID` set-up and all `log` output (bufferinterface/bufferinterface.go:264-282). These are I/O and logging.
- `rand.Seed(time.Now().Unix())` and `rand.Intn` are left out: randomness and clock time are not modelled. `ChooseSlot` picks an arbitrary candidate slot instead.
- The FIFO and LRU branches of `requestPufferSlot` and its `panic` default are left out. They are unimplemented stubs in the source, and the configured strategy is `RANDOM`.
- Go pointer aliasing of the returned `*Page` is not modelled. `Request` returns the page's bytes as a value, and writes through the handle are modelled by `SetByte`. A handle kept across an eviction therefore does not go stale in the model.
- `WriteCacheStats` printing and the empty test stubs are left out. So is the exact text of the error values: an error datatype stands for them.
- BufferInterface.BufferManager.Request: when a miss fails, the contract says only which pages may have changed on disk (none, or the dirty victim's page). It does not give the exact file contents, which depend on where the extension or the write-back stopped.
- BufferInterface.BufferManager.Write: when the write fails, the contract says only that no page other than `pageNo` changed and the file did not shrink. It does not give the exact file contents, which depend on how many blocks were written before the failure.
- BufferInterface.BufferManager.RequestPufferSlot: when the victim's write-back fails, the contract says only that no page other than the victim's changed; the exact file contents are not given, as for `Write`.
- The proofs rely on the source's configuration `PageSize = Blocksize`, so one block per page. Other page or block sizes are not verified.
