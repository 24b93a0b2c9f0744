/**
 Pieces of the buffer manager exactly as the Go package writes them, each
 next to an input that shows it going wrong. The corrected behaviour is what
 module BufferInterface models.
 */
module AsWritten {
  import opened BlockFile
  import opened PageStore
  import BufferInterface

  /** A Go map lookup: a missing key yields the zero value. */
  function Lookup(pageMap: map<int, int>, p: int): (i: int)
  {
    if p in pageMap then pageMap[p] else 0
  }

  /**
   The residency test as written: slot 0 stands for "not mapped".
   `resident[i]` says whether slot `i` holds page data.
   */
  function PageAvailAsWritten(pageMap: map<int, int>, resident: seq<bool>, p: int): (avail: bool)
  {
    var i := Lookup(pageMap, p);
    i != 0 && 0 <= i < |resident| && resident[i]
  }

  /** A page held in slot 0 is reported as not resident. */
  lemma SlotZeroReportedMissing()
    ensures !PageAvailAsWritten(map[7 := 0], [true], 7)
  {
  }

  /**
   The hit test of Request as written: the slot the map names, if non-zero
   and holding data, is returned without looking at its page number.
   `held[i]` is the page number slot `i` holds, or -1 when it is empty;
   the result is the page number of the frame handed out.
   */
  function HitAsWritten(pageMap: map<int, int>, held: seq<int>, p: int): (r: int)
    ensures r == -1 <==> !PageAvailAsWritten(pageMap, seq(|held|, i requires 0 <= i < |held| => held[i] != -1), p)
  {
    var i := Lookup(pageMap, p);
    if i != 0 && 0 <= i < |held| && held[i] != -1 then held[i] else -1
  }

  /** Installing page `p` in `slot` as written: the evicted page keeps its map entry. */
  function InstallAsWritten(pageMap: map<int, int>, held: seq<int>, p: int, slot: int): (r: (map<int, int>, seq<int>))
    requires 0 <= slot < |held|
    ensures |r.1| == |held| && r.1[slot] == p && p in r.0 && r.0[p] == slot
    ensures forall q :: q in pageMap && q != p ==> q in r.0 && r.0[q] == pageMap[q]
  {
    (pageMap[p := slot], held[slot := p])
  }

  /**
   Page 1 sits in slot 1 and is evicted for page 2; a later request for
   page 1 is answered as a hit with the frame that now holds page 2.
   */
  lemma StaleEntryServesWrongPage()
    ensures InstallAsWritten(map[1 := 1], [-1, 1], 2, 1) == (map[1 := 1, 2 := 1], [-1, 2])
    ensures HitAsWritten(map[1 := 1, 2 := 1], [-1, 2], 1) == 2
  {
    assert [-1, 1][1 := 2] == [-1, 2];
  }

  /**
   The page the read loop as written assembles from the file: it reads
   block 0 whatever the page number, and writes every byte of it to offset
   `byteIndex * blockIndex`, which is 0 for the only block; so the page is
   zero except for byte 0, which ends up as the block's last byte.
   */
  function LoadAsWritten(s: seq<Block>): (pg: Page)
    requires |s| > 0
  {
    seq(PageSize, i requires 0 <= i < PageSize => if i == 0 then s[0][BlockSize - 1] else 0)
  }

  /** A block all of whose bytes are `v`. */
  function FilledBlock(v: Byte): (b: Block)
    ensures forall j :: 0 <= j < BlockSize ==> b[j] == v
  {
    seq(BlockSize, _ => v)
  }

  /** Page 1 of a two-page file whose second block holds ones is read back wrongly. */
  lemma LoadReadsWrongBytes()
    ensures LoadAsWritten([ZeroBlock(), FilledBlock(1)]) != DiskPage([ZeroBlock(), FilledBlock(1)], 1)
  {
    var s := [ZeroBlock(), FilledBlock(1)];
    assert DiskPage(s, 1)[1] == 1;
    assert LoadAsWritten(s)[1] == 0;
  }

  /** The random slot as written: `rand.Intn(PufferSize + 1) + 1` for a draw `n`. */
  function RandomSlotAsWritten(n: int): (slot: int)
    requires 0 <= n < BufferInterface.PufferSize + 1
  {
    n + 1
  }

  /** The two largest draws name slots past the end of the frame array, and slot 0 is never drawn. */
  lemma RandomSlotOutOfRange()
    ensures RandomSlotAsWritten(127) == BufferInterface.PufferSize
    ensures RandomSlotAsWritten(128) == BufferInterface.PufferSize + 1
    ensures forall n :: 0 <= n < BufferInterface.PufferSize + 1 ==> RandomSlotAsWritten(n) != 0
  {
  }

  /** The write-back test for a victim as written: page number 0 also stands for "empty". */
  predicate WritesBackAsWritten(f: BufferInterface.Frame)
  {
    f.Occupied? && f.pageNo != 0 && f.isUpdated
  }

  /** An updated page 0 is overwritten without being written back. */
  lemma PageZeroNeverWrittenBack(pg: Page)
    ensures BufferInterface.Dirty(BufferInterface.Occupied(pg, 0, false, true))
    ensures !WritesBackAsWritten(BufferInterface.Occupied(pg, 0, false, true))
  {
  }
}
