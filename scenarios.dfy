/**
 Callers of the buffer manager that use only its contracts: the two test
 flows of the package (a modified page survives whatever happens to its
 frame; an explicit write reaches the file) and the pinning guarantee.
 */
module BufferScenarios {
  import opened BlockFile
  import opened PageStore
  import opened BufferInterface

  /**
   Request pages 1 and 2, change byte 0 of page 2 and mark it updated,
   request page 3, then request page 2 again: whether page 2 stayed in the
   pool or was evicted and written back, the second request sees the change.
   Four requests since the reset give four hits and misses in all.
   */
  method RequestKeepsUpdatedPage(m: BufferManager) returns (first: Result<Page>, last: Result<Page>)
    requires m.Valid()
    modifies m, m.frames
    ensures m.Valid()
    ensures m.cacheHitCounter + m.cacheMissCounter == 4
    ensures first.Ok? && last.Ok? ==> last.value[0] == 0xE5
  {
    m.ResetCounters();
    ghost var slot: int;
    var page1;
    page1, slot := m.Request(1);
    first, slot := m.Request(2);
    ghost var pg: Page := ZeroPage();
    if first.Ok? {
      var e := m.SetByte(2, 0, 0xE5);
      e := m.Update(2);
      pg := m.frames[m.pageMap[2]].page;
      assert m.frames[m.pageMap[2]] == Occupied(pg, 2, m.frames[m.pageMap[2]].isFixed, true);
    }
    var page3;
    if first.Ok? {
      page3, slot := UpdatedPageSurvivesRequest(m, 2, 3);
    } else {
      page3, slot := m.Request(3);
    }
    last, slot := m.Request(2);
  }

  /**
   The contents of an updated page `p` survive a request for any page `q`:
   either `p` keeps its frame and its bytes, or it was the victim and the
   file now holds those bytes as page `p`.
   */
  method UpdatedPageSurvivesRequest(m: BufferManager, p: int, q: int) returns (r: Result<Page>, ghost slot: int)
    requires m.Valid() && p in m.pageMap && m.frames[m.pageMap[p]].isUpdated
    modifies m, m.frames
    ensures m.Valid()
    ensures p in m.pageMap ==> m.frames[m.pageMap[p]].page == old(m.frames[m.pageMap[p]].page)
    ensures p !in m.pageMap ==> DiskPage(m.store, p) == old(m.frames[m.pageMap[p]].page)
    ensures m.cacheHitCounter + m.cacheMissCounter == old(m.cacheHitCounter + m.cacheMissCounter) + 1
  {
    ghost var fs := m.frames[..];
    ghost var oldMap := m.pageMap;
    r, slot := m.Request(q);
    if p in m.pageMap {
      assert slot != -1 ==> (m.pageMap[p] != slot || fs[slot].pageNo == p);
    } else {
      assert 0 <= slot < PufferSize && fs[slot] == fs[oldMap[p]];
    }
  }

  /**
   Request page 1, store test bytes at both ends of it, mark it updated and
   write it: when the write succeeds the file holds those bytes as page 1,
   and the page stays resident.
   */
  method WriteReachesFile(m: BufferManager) returns (w: Outcome)
    requires m.Valid()
    modifies m, m.frames
    ensures m.Valid()
    ensures w.Pass? ==>
      && 1 in m.pageMap
      && DiskPage(m.store, 1) == m.frames[m.pageMap[1]].page
      && DiskPage(m.store, 1)[0] == 0xAB && DiskPage(m.store, 1)[1] == 0xCF
      && DiskPage(m.store, 1)[2] == 0xFF && DiskPage(m.store, 1)[4094] == 0x4C
      && DiskPage(m.store, 1)[4095] == 0x7F
  {
    m.ResetCounters();
    ghost var slot: int;
    var page;
    page, slot := m.Request(1);
    if page.Err? {
      return Fail(page.error);
    }
    var e := m.SetByte(1, 0, 0xAB);
    e := m.SetByte(1, 1, 0xCF);
    e := m.SetByte(1, 2, 0xFF);
    e := m.SetByte(1, 4094, 0x4C);
    e := m.SetByte(1, 4095, 0x7F);
    e := m.Update(1);
    ghost var before := m.store;
    w := m.Write(1);
    if w.Pass? {
      WriteBackReadsBack(before, 1, m.frames[m.pageMap[1]].page);
    }
  }

  /**
   A fixed page is never chosen as a victim: after fixing page `p`, a
   request for any page leaves `p` resident in the same frame.
   */
  method FixedPageStaysResident(m: BufferManager, p: int, q: int) returns (r: Result<Page>)
    requires m.Valid() && p in m.pageMap
    modifies m, m.frames
    ensures m.Valid()
    ensures p in m.pageMap && m.pageMap[p] == old(m.pageMap[p])
    ensures m.frames[m.pageMap[p]] == old(m.frames[m.pageMap[p]]).(isFixed := true)
  {
    var e := m.Fix(p);
    ghost var slot: int;
    r, slot := m.Request(q);
  }

  /** Fixing a page twice leaves the same pool as fixing it once. */
  method FixTwiceIsFixOnce(m: BufferManager, p: int) returns (e: Outcome)
    requires m.Valid()
    modifies m.frames
    ensures m.Valid()
    ensures p in m.pageMap ==>
      e == Pass && m.frames[..] == old(m.frames[..])[m.pageMap[p] := old(m.frames[m.pageMap[p]]).(isFixed := true)]
    ensures p !in m.pageMap ==> e == Fail(PageNotPuffered) && m.frames[..] == old(m.frames[..])
  {
    e := m.Fix(p);
    e := m.Fix(p);
  }

  /** Unfixing a page that was not fixed before undoes a Fix. */
  method UnFixUndoesFix(m: BufferManager, p: int) returns (e: Outcome)
    requires m.Valid()
    requires p in m.pageMap && !m.frames[m.pageMap[p]].isFixed
    modifies m.frames
    ensures m.Valid()
    ensures e == Pass && m.frames[..] == old(m.frames[..])
  {
    e := m.Fix(p);
    e := m.UnFix(p);
    assert m.frames[..] == old(m.frames[..]);
  }
}
