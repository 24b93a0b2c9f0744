/**
 The buffer pool (system buffer) of the storage engine: a fixed array of
 page frames, the page map from page numbers to frame slots, the hit and
 miss counters, and the block file the pages are staged from.
 */
module BufferInterface {
  import opened BlockFile
  import opened PageStore

  /** Maximum number of pages held in the buffer pool. */
  const PufferSize: nat := 128

  datatype Error =
    | PageNotPuffered     // the page is not resident in the buffer pool
    | NoVictimAvailable   // every frame holds a fixed page
    | StorageError        // the block file reported an I/O failure

  datatype Result<T> = Ok(value: T) | Err(error: Error)

  datatype Outcome = Pass | Fail(error: Error)

  /** One slot of the buffer pool. */
  datatype Frame =
    | Empty
    | Occupied(page: Page, pageNo: nat, isFixed: bool, isUpdated: bool)

  /** A frame whose page must reach the file before the frame is reused. */
  predicate Dirty(f: Frame)
  {
    f.Occupied? && f.isUpdated
  }

  /** The page numbers that a write-back of frame `f` may change on disk. */
  function Flushed(f: Frame): (r: set<int>)
    ensures r == {} <==> !Dirty(f)
  {
    if Dirty(f) then {f.pageNo} else {}
  }

  /**
   Slot `i` may receive a new page: it is empty, or it holds an unfixed page
   and there is no empty slot to take instead.
   */
  ghost predicate Choosable(fs: seq<Frame>, i: int)
  {
    0 <= i < |fs| &&
    (fs[i].Empty? || (!fs[i].isFixed && forall j :: 0 <= j < |fs| ==> fs[j].Occupied?))
  }

  /** Every slot holds a fixed page, so no slot can be given up. */
  ghost predicate AllFixed(fs: seq<Frame>)
  {
    forall j :: 0 <= j < |fs| ==> fs[j].Occupied? && fs[j].isFixed
  }

  /** The bytes a page copies out as block `k` (the inner loop of a write-back). */
  method CopyBlock(pg: Page, k: nat) returns (b: Block)
    requires k < BlocksPerPage
    ensures b == PageBlock(pg, k)
  {
    var block := new Byte[BlockSize];
    var byteIndex := 0;
    while byteIndex < BlockSize
      invariant 0 <= byteIndex <= BlockSize
      invariant forall j :: 0 <= j < byteIndex ==> block[j] == pg[k * BlockSize + j]
    {
      block[byteIndex] := pg[k * BlockSize + byteIndex];
      byteIndex := byteIndex + 1;
    }
    b := block[..];
  }

  class BufferManager {
    /** The frames of the pool. */
    const frames: array<Frame>
    /** Page number -> slot of the frame holding it. */
    var pageMap: map<int, nat>
    var cacheHitCounter: nat
    var cacheMissCounter: nat
    /** The database file, block by block. */
    var store: seq<Block>
    /** Number of Request calls since the counters were last reset. */
    ghost var requestsSinceReset: nat

    /**
     The page map and the frames agree: a page number is mapped exactly when
     a frame holds it, and it is mapped to that frame's slot.
     */
    ghost predicate Valid()
      reads this, frames
    {
      frames.Length == PufferSize &&
      (forall p :: p in pageMap ==>
         pageMap[p] < frames.Length && frames[pageMap[p]].Occupied? && frames[pageMap[p]].pageNo == p) &&
      (forall i :: 0 <= i < frames.Length && frames[i].Occupied? ==>
         frames[i].pageNo in pageMap && pageMap[frames[i].pageNo] == i) &&
      cacheHitCounter + cacheMissCounter == requestsSinceReset
    }

    /** A buffer pool with every frame empty over the database file `file`. */
    constructor (file: seq<Block>)
      ensures Valid()
      ensures forall i :: 0 <= i < frames.Length ==> frames[i].Empty?
      ensures pageMap == map[] && store == file
      ensures cacheHitCounter == 0 && cacheMissCounter == 0
    {
      frames := new Frame[PufferSize](_ => Empty);
      pageMap := map[];
      cacheHitCounter, cacheMissCounter := 0, 0;
      store := file;
      requestsSinceReset := 0;
    }

    /** Is page `pageNo` held in the buffer pool? */
    function PageAvailInPuffer(pageNo: int): (r: bool)
      reads this, frames
      requires Valid()
      ensures r <==> exists i :: 0 <= i < frames.Length && frames[i].Occupied? && frames[i].pageNo == pageNo
    {
      pageNo in pageMap
    }

    // ---------------- the block file ----------------

    /** The length of the file in blocks; the query may fail. */
    method StoreLength() returns (r: Result<nat>)
      ensures r.Ok? ==> r.value == |store|
      ensures r.Err? ==> r.error == StorageError
    {
      var fails: bool :| true;
      r := if fails then Err(StorageError) else Ok(|store|);
    }

    /** Read block `i`; reading outside the file fails, and any read may fail. */
    method ReadBlock(i: int) returns (r: Result<Block>)
      ensures r.Ok? ==> 0 <= i < |store| && r.value == store[i]
      ensures !(0 <= i < |store|) ==> r == Err(StorageError)
      ensures r.Err? ==> r.error == StorageError
    {
      var fails: bool :| true;
      r := if fails || !(0 <= i < |store|) then Err(StorageError) else Ok(store[i]);
    }

    /** Write block `b` as block `i`; a negative block number fails, and any write may fail. */
    method WriteBlock(i: int, b: Block) returns (e: Outcome)
      modifies this`store
      ensures e.Pass? ==> i >= 0 && store == WriteAt(old(store), i, b)
      ensures e.Fail? ==> e.error == StorageError && store == old(store)
      ensures i < 0 ==> e.Fail?
    {
      var fails: bool :| true;
      if fails || i < 0 {
        e := Fail(StorageError);
      } else {
        store := WriteAt(store, i, b);
        e := Pass;
      }
    }

    /**
     Prepare the file for page `pageNo`: when the page number is higher than
     the file's page length, append zero blocks up to block
     `pageNo * BlocksPerPage`. A failure leaves the blocks appended so far.
     */
    method InitFileSystem(pageNo: int) returns (e: Outcome)
      modifies this`store
      ensures e.Pass? ==> store == Extend(old(store), pageNo)
      ensures e.Fail? ==> e.error == StorageError && old(store) <= store <= Extend(old(store), pageNo)
      ensures ZeroExtension(old(store), store)
    {
      var len := StoreLength();
      if len.Err? {
        return Fail(len.error);
      }
      var blockLength := len.value;
      var pageLength := blockLength / BlocksPerPage;
      if pageNo > pageLength {
        var targetBlockLength := pageNo * BlocksPerPage;
        var blockNo := blockLength;
        while blockNo < targetBlockLength
          invariant blockLength <= blockNo <= targetBlockLength
          invariant store == old(store) + Zeros(blockNo - blockLength)
        {
          var w := WriteBlock(blockNo, ZeroBlock());
          if w.Fail? {
            return w;
          }
          assert old(store) + Zeros(blockNo + 1 - blockLength) == old(store) + Zeros(blockNo - blockLength) + [ZeroBlock()];
          blockNo := blockNo + 1;
        }
      }
      e := Pass;
    }

    /**
     Read page `pageNo` from the file, block by block, each block copied to
     its offset in the page. Only called for a page below the file's page length.
     */
    method LoadPage(pageNo: int) returns (r: Result<Page>)
      requires pageNo < PageLength(store)
      ensures r.Ok? ==> pageNo >= 0 && r.value == DiskPage(store, pageNo)
      ensures pageNo < 0 ==> r == Err(StorageError)
      ensures r.Err? ==> r.error == StorageError
    {
      var buf := new Byte[PageSize];
      var blockIndex := 0;
      while blockIndex < BlocksPerPage
        invariant 0 <= blockIndex <= BlocksPerPage
        invariant forall q :: 0 <= q < blockIndex * BlockSize ==> buf[q] == DiskPage(store, pageNo)[q]
        invariant blockIndex > 0 ==> pageNo >= 0
      {
        var block := ReadBlock(pageNo * BlocksPerPage + blockIndex);
        if block.Err? {
          return Err(block.error);
        }
        ghost var done := buf[..blockIndex * BlockSize];
        var byteIndex := 0;
        while byteIndex < BlockSize
          invariant 0 <= byteIndex <= BlockSize
          invariant buf[..blockIndex * BlockSize] == done
          invariant forall j :: 0 <= j < byteIndex ==> buf[blockIndex * BlockSize + j] == block.value[j]
        {
          buf[blockIndex * BlockSize + byteIndex] := block.value[byteIndex];
          byteIndex := byteIndex + 1;
        }
        blockIndex := blockIndex + 1;
      }
      r := Ok(buf[..]);
    }

    // ---------------- victim selection ----------------

    /**
     Pick the slot for a new page: any empty slot if there is one, otherwise
     any slot whose page is not fixed. The choice among candidates is left open.
     */
    method ChooseSlot() returns (r: Result<nat>)
      ensures r.Ok? ==> Choosable(frames[..], r.value)
      ensures r.Err? <==> AllFixed(frames[..])
      ensures r.Err? ==> r.error == NoVictimAvailable
    {
      if exists i :: 0 <= i < frames.Length && frames[i].Empty? {
        var i :| 0 <= i < frames.Length && frames[i].Empty?;
        r := Ok(i);
      } else if exists i :: 0 <= i < frames.Length && !frames[i].isFixed {
        var i :| 0 <= i < frames.Length && !frames[i].isFixed;
        r := Ok(i);
      } else {
        r := Err(NoVictimAvailable);
      }
    }

    /**
     Find a slot for a new page; a dirty page in the chosen slot is written
     back first, and a failing write-back fails the whole call.
     `victim` names the chosen slot, or is -1 when no slot could be chosen.
     */
    method RequestPufferSlot() returns (r: Result<nat>, ghost victim: int)
      requires Valid()
      modifies this`store
      ensures Valid()
      ensures victim == -1 <==> AllFixed(frames[..])
      ensures victim == -1 ==> r == Err(NoVictimAvailable) && store == old(store)
      ensures victim != -1 ==> Choosable(frames[..], victim)
      ensures r.Ok? ==> r.value == victim
      ensures victim != -1 ==> DiskUnchangedExcept(old(store), store, Flushed(frames[victim]))
      ensures r.Ok? && Dirty(frames[victim]) ==> DiskPage(store, frames[victim].pageNo) == frames[victim].page
      ensures r.Ok? && Dirty(frames[victim]) ==> store == WriteBack(old(store), frames[victim].pageNo, frames[victim].page)
      ensures r.Ok? && !Dirty(frames[victim]) ==> store == old(store)
      // once a slot is chosen, only the victim's write-back can fail
      ensures r.Err? && victim != -1 ==> r.error == StorageError
      ensures |old(store)| <= |store|
    {
      var slot := ChooseSlot();
      if slot.Err? {
        victim := -1;
        return slot, victim;
      }
      var index := slot.value;
      victim := index;
      if frames[index].Occupied? && frames[index].isUpdated {
        var e := Write(frames[index].pageNo);
        if e.Fail? {
          return Err(e.error), victim;
        }
      }
      r := Ok(index);
    }

    // ---------------- the public operations ----------------

    /**
     Request page `pageNo`. A resident page is returned from the pool (a hit).
     Otherwise (a miss) the file is extended if needed, the page is read from
     the file or starts as zeros, a slot is found, and the page is installed
     there unfixed and not updated, replacing whatever page the slot held.
     `slot` names the frame used, or is -1 when the call failed before one was chosen.
     */
    method Request(pageNo: int) returns (r: Result<Page>, ghost slot: int)
      requires Valid()
      modifies this, frames
      ensures Valid()
      ensures requestsSinceReset == old(requestsSinceReset) + 1
      // a hit: only the hit counter moves
      ensures old(pageNo in pageMap) ==>
        && r == Ok(old(frames[pageMap[pageNo]]).page)
        && cacheHitCounter == old(cacheHitCounter) + 1 && cacheMissCounter == old(cacheMissCounter)
        && frames[..] == old(frames[..]) && pageMap == old(pageMap) && store == old(store)
      // a miss: only the miss counter moves
      ensures old(pageNo !in pageMap) ==>
        cacheMissCounter == old(cacheMissCounter) + 1 && cacheHitCounter == old(cacheHitCounter)
      // a miss that fails leaves the pool as it was
      ensures old(pageNo !in pageMap) && r.Err? ==>
        && frames[..] == old(frames[..]) && pageMap == old(pageMap)
        && (slot == -1 ==> DiskUnchangedExcept(old(store), store, {}))
        && (slot != -1 ==> 0 <= slot < PufferSize && DiskUnchangedExcept(old(store), store, Flushed(old(frames[slot]))))
      // a failure is a file error, or every frame was fixed
      ensures r.Err? ==> r.error == StorageError || (r.error == NoVictimAvailable && AllFixed(old(frames[..])))
      // with every frame fixed, a miss cannot succeed
      ensures old(pageNo !in pageMap) && AllFixed(old(frames[..])) ==> r.Err?
      // a miss that succeeds installs the page read from the file
      ensures old(pageNo !in pageMap) && r.Ok? ==>
        && Choosable(old(frames[..]), slot)
        && pageNo >= 0 && r.value == DiskPage(old(store), pageNo)
        && (pageNo >= PageLength(old(store)) ==> r.value == ZeroPage())
        && frames[..] == old(frames[..])[slot := Occupied(r.value, pageNo, false, false)]
        && pageMap == (if old(frames[slot]).Occupied? then old(pageMap) - {old(frames[slot]).pageNo} else old(pageMap))[pageNo := slot]
        && DiskUnchangedExcept(old(store), store, Flushed(old(frames[slot])))
        && (Dirty(old(frames[slot])) ==> DiskPage(store, old(frames[slot]).pageNo) == old(frames[slot]).page)
      // the whole new file: the extension for the page, then the victim's write-back
      ensures old(pageNo !in pageMap) && r.Ok? ==>
        store == (if Dirty(old(frames[slot]))
                  then WriteBack(Extend(old(store), pageNo), old(frames[slot]).pageNo, old(frames[slot]).page)
                  else Extend(old(store), pageNo))
      // the file only grows
      ensures |old(store)| <= |store|
    {
      requestsSinceReset := requestsSinceReset + 1;
      if pageNo in pageMap {
        cacheHitCounter := cacheHitCounter + 1;
        var pufferIndex := pageMap[pageNo];
        slot := pufferIndex;
        r := Ok(frames[pufferIndex].page);
        return;
      }
      cacheMissCounter := cacheMissCounter + 1;
      slot := -1;
      var fetched := FetchPage(pageNo);
      if fetched.Err? {
        return Err(fetched.error), slot;
      }
      var found;
      found, slot := RequestPufferSlot();
      if found.Err? {
        return Err(found.error), slot;
      }
      Install(pageNo, fetched.value, found.value);
      r := Ok(fetched.value);
    }

    /**
     The miss path up to the slot search: prepare the file for the page, then
     read the page from the file when it lies below the file's page length,
     or start from a zero page otherwise.
     */
    method FetchPage(pageNo: int) returns (r: Result<Page>)
      modifies this`store
      ensures ZeroExtension(old(store), store)
      ensures DiskUnchangedExcept(old(store), store, {})
      ensures r.Ok? ==> store == Extend(old(store), pageNo)
      ensures r.Ok? ==> pageNo >= 0 && r.value == DiskPage(old(store), pageNo)
      ensures r.Ok? && pageNo >= PageLength(old(store)) ==> r.value == ZeroPage()
      ensures r.Err? ==> r.error == StorageError
    {
      var init := InitFileSystem(pageNo);
      ZeroExtensionKeepsAllPages(old(store), store);
      if init.Fail? {
        return Err(init.error);
      }
      var len := StoreLength();
      if len.Err? {
        return Err(len.error);
      }
      var pageLength := len.value / BlocksPerPage;
      if pageNo < pageLength {
        r := LoadPage(pageNo);
      } else {
        BeyondExtentIsZero(store, pageNo);
        r := Ok(ZeroPage());
      }
      if r.Ok? && pageNo >= PageLength(old(store)) {
        BeyondExtentIsZero(old(store), pageNo);
      }
    }

    /**
     Put page `pageNo` with bytes `data` into slot `pufferIndex`, unfixed and
     not updated, and map the page there; the page the slot held before, if
     any, is no longer mapped.
     */
    method Install(pageNo: nat, data: Page, pufferIndex: nat)
      requires Valid()
      requires pufferIndex < frames.Length && pageNo !in pageMap
      modifies this`pageMap, frames
      ensures Valid()
      ensures frames[..] == old(frames[..])[pufferIndex := Occupied(data, pageNo, false, false)]
      ensures pageMap == (if old(frames[pufferIndex]).Occupied? then old(pageMap) - {old(frames[pufferIndex]).pageNo}
                          else old(pageMap))[pageNo := pufferIndex]
    {
      if frames[pufferIndex].Occupied? {
        pageMap := pageMap - {frames[pufferIndex].pageNo};
      }
      pageMap := pageMap[pageNo := pufferIndex];
      frames[pufferIndex] := Occupied(data, pageNo, false, false);
    }

    /**
     Fix (pin) a resident page: it stays in the buffer pool until unfixed.
     Only that frame's fixed flag changes.
     */
    method Fix(pageNo: int) returns (e: Outcome)
      requires Valid()
      modifies frames
      ensures Valid()
      ensures old(pageNo !in pageMap) ==> e == Fail(PageNotPuffered) && frames[..] == old(frames[..])
      ensures old(pageNo in pageMap) ==>
        e == Pass && frames[..] == old(frames[..])[pageMap[pageNo] := old(frames[pageMap[pageNo]]).(isFixed := true)]
    {
      if !PageAvailInPuffer(pageNo) {
        return Fail(PageNotPuffered);
      }
      var pufferIndex := pageMap[pageNo];
      frames[pufferIndex] := frames[pufferIndex].(isFixed := true);
      e := Pass;
    }

    /**
     Unfix a resident page: it may be removed from the buffer pool again.
     Only that frame's fixed flag changes.
     */
    method UnFix(pageNo: int) returns (e: Outcome)
      requires Valid()
      modifies frames
      ensures Valid()
      ensures old(pageNo !in pageMap) ==> e == Fail(PageNotPuffered) && frames[..] == old(frames[..])
      ensures old(pageNo in pageMap) ==>
        e == Pass && frames[..] == old(frames[..])[pageMap[pageNo] := old(frames[pageMap[pageNo]]).(isFixed := false)]
    {
      if !PageAvailInPuffer(pageNo) {
        return Fail(PageNotPuffered);
      }
      var pufferIndex := pageMap[pageNo];
      frames[pufferIndex] := frames[pufferIndex].(isFixed := false);
      e := Pass;
    }

    /**
     Mark a resident page as modified, so that it is written to the file
     before its frame is reused. Only that frame's updated flag changes.
     */
    method Update(pageNo: int) returns (e: Outcome)
      requires Valid()
      modifies frames
      ensures Valid()
      ensures old(pageNo !in pageMap) ==> e == Fail(PageNotPuffered) && frames[..] == old(frames[..])
      ensures old(pageNo in pageMap) ==>
        e == Pass && frames[..] == old(frames[..])[pageMap[pageNo] := old(frames[pageMap[pageNo]]).(isUpdated := true)]
    {
      if !PageAvailInPuffer(pageNo) {
        return Fail(PageNotPuffered);
      }
      var pufferIndex := pageMap[pageNo];
      frames[pufferIndex] := frames[pufferIndex].(isUpdated := true);
      e := Pass;
    }

    /**
     Write a resident page to the file, block by block, whatever its updated
     flag says. The page stays resident and unchanged.
     */
    method Write(pageNo: int) returns (e: Outcome)
      requires Valid()
      modifies this`store
      ensures Valid()
      ensures pageNo !in pageMap ==> e == Fail(PageNotPuffered) && store == old(store)
      ensures pageNo in pageMap && e.Pass? ==> store == WriteBack(old(store), pageNo, frames[pageMap[pageNo]].page)
      ensures pageNo in pageMap && e.Fail? ==> e.error == StorageError
      ensures DiskUnchangedExcept(old(store), store, {pageNo})
      ensures |old(store)| <= |store|
    {
      if !PageAvailInPuffer(pageNo) {
        return Fail(PageNotPuffered);
      }
      var pufferIndex := pageMap[pageNo];
      var init := InitFileSystem(pageNo);
      ZeroExtensionKeepsAllPages(old(store), store);
      if init.Fail? {
        return init;
      }
      var page := frames[pufferIndex].page;
      ghost var base := store;
      var blockIndex := 0;
      while blockIndex < BlocksPerPage
        invariant 0 <= blockIndex <= BlocksPerPage
        invariant store == WriteBlocks(base, pageNo, page, blockIndex)
        invariant |old(store)| <= |store|
      {
        var block := CopyBlock(page, blockIndex);
        WriteBlocksAt(base, pageNo, page, blockIndex + 1, 0);
        var w := WriteBlock(pageNo * BlocksPerPage + blockIndex, block);
        if w.Fail? {
          forall q | q != pageNo ensures DiskPage(store, q) == DiskPage(old(store), q) {
            WriteBlocksKeepsOtherPages(base, pageNo, page, blockIndex, q);
          }
          return w;
        }
        blockIndex := blockIndex + 1;
      }
      forall q | q != pageNo ensures DiskPage(store, q) == DiskPage(old(store), q) {
        WriteBlocksKeepsOtherPages(base, pageNo, page, BlocksPerPage, q);
      }
      e := Pass;
    }

    /** Set both the hit and the miss counter to zero. */
    method ResetCounters()
      requires Valid()
      modifies this
      ensures Valid()
      ensures cacheHitCounter == 0 && cacheMissCounter == 0 && requestsSinceReset == 0
      ensures pageMap == old(pageMap) && store == old(store)
    {
      cacheHitCounter, cacheMissCounter := 0, 0;
      requestsSinceReset := 0;
    }

    /**
     Store byte `v` at offset `i` of a resident page: what a caller does
     through the page handle that Request returns.
     */
    method SetByte(pageNo: int, i: nat, v: Byte) returns (e: Outcome)
      requires Valid()
      requires i < PageSize
      modifies frames
      ensures Valid()
      ensures old(pageNo !in pageMap) ==> e == Fail(PageNotPuffered) && frames[..] == old(frames[..])
      ensures old(pageNo in pageMap) ==>
        e == Pass &&
        frames[..] == old(frames[..])[pageMap[pageNo] := old(frames[pageMap[pageNo]]).(page := old(frames[pageMap[pageNo]]).page[i := v])]
    {
      if !PageAvailInPuffer(pageNo) {
        return Fail(PageNotPuffered);
      }
      var pufferIndex := pageMap[pageNo];
      var f := frames[pufferIndex];
      frames[pufferIndex] := f.(page := f.page[i := v]);
      e := Pass;
    }
  }
}
