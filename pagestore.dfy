/**
 Pages on top of the block file: the page/block geometry, the page a file
 holds at a given page number, and the two ways the buffer manager changes
 the file: extending it with zero blocks, and writing one page back.
 */
module PageStore {
  import opened BlockFile

  /** Size of a page in bytes; a page is exactly one block. */
  const PageSize: nat := BlockSize

  /** Number of blocks that make up one page. */
  const BlocksPerPage: nat := PageSize / BlockSize

  /** The bytes of one page. */
  type Page = s: seq<Byte> | |s| == PageSize witness seq(4096, _ => 0)

  /** The page handed out for a page number that is not yet on disk. */
  function ZeroPage(): (pg: Page)
    ensures forall i :: 0 <= i < PageSize ==> pg[i] == 0
  {
    seq(PageSize, _ => 0)
  }

  /** The length of the file in whole pages. */
  function PageLength(s: seq<Block>): (n: nat)
    ensures n * BlocksPerPage <= |s| < (n + 1) * BlocksPerPage
  {
    |s| / BlocksPerPage
  }

  /**
   The contents of page `p` as the file holds it: byte `i` of the page is
   byte `i % BlockSize` of block `p * BlocksPerPage + i / BlockSize`; blocks
   beyond the end of the file read as zeros.
   */
  function DiskPage(s: seq<Block>, p: int): (pg: Page)
  {
    seq(PageSize, i requires 0 <= i < PageSize =>
      BlockAt(s, p * BlocksPerPage + i / BlockSize)[i % BlockSize])
  }

  /** Block `k` of a page: the bytes at offsets `k * BlockSize` up to the next block. */
  function PageBlock(pg: Page, k: nat): (b: Block)
    requires k < BlocksPerPage
    ensures forall j :: 0 <= j < BlockSize ==> b[j] == pg[k * BlockSize + j]
  {
    pg[k * BlockSize .. (k + 1) * BlockSize]
  }

  /**
   The file after preparing it for page `p`: when `p` lies beyond the last
   page, zero blocks are appended up to block `p * BlocksPerPage`
   (exclusive); otherwise the file is left as it is.
   */
  function Extend(s: seq<Block>, p: int): (r: seq<Block>)
    ensures ZeroExtension(s, r)
    ensures |r| == if p > PageLength(s) then p * BlocksPerPage else |s|
  {
    if p > PageLength(s) then s + Zeros(p * BlocksPerPage - |s|) else s
  }

  /** The file after writing blocks `0 .. k-1` of page `pg` to the blocks of page `p`. */
  function WriteBlocks(s: seq<Block>, p: nat, pg: Page, k: nat): (r: seq<Block>)
    requires k <= BlocksPerPage
  {
    if k == 0 then s
    else WriteAt(WriteBlocks(s, p, pg, k - 1), p * BlocksPerPage + k - 1, PageBlock(pg, k - 1))
  }

  /** The file after page `pg` has been written back as page `p`. */
  function WriteBack(s: seq<Block>, p: nat, pg: Page): (r: seq<Block>)
  {
    WriteBlocks(Extend(s, p), p, pg, BlocksPerPage)
  }

  /** Only the blocks of pages the manager deliberately writes change what a page reads as. */
  ghost predicate DiskUnchangedExcept(s: seq<Block>, t: seq<Block>, except: set<int>)
  {
    forall q :: q !in except ==> DiskPage(t, q) == DiskPage(s, q)
  }

  /** Appending zero blocks leaves every page reading the same. */
  lemma ZeroExtensionKeepsPages(s: seq<Block>, t: seq<Block>, q: int)
    requires ZeroExtension(s, t)
    ensures DiskPage(t, q) == DiskPage(s, q)
  {
    forall i | 0 <= i < PageSize
      ensures DiskPage(t, q)[i] == DiskPage(s, q)[i]
    {
      ZeroExtensionReadsSame(s, t, q * BlocksPerPage + i / BlockSize);
    }
  }

  /** Corollary for every page at once. */
  lemma ZeroExtensionKeepsAllPages(s: seq<Block>, t: seq<Block>)
    requires ZeroExtension(s, t)
    ensures DiskUnchangedExcept(s, t, {})
  {
    forall q ensures DiskPage(t, q) == DiskPage(s, q) {
      ZeroExtensionKeepsPages(s, t, q);
    }
  }

  /** A page at or beyond the file's page length reads as all zeros. */
  lemma BeyondExtentIsZero(s: seq<Block>, p: int)
    requires p >= PageLength(s)
    ensures DiskPage(s, p) == ZeroPage()
  {
    forall i | 0 <= i < PageSize
      ensures DiskPage(s, p)[i] == 0
    {
      assert !(0 <= p * BlocksPerPage + i / BlockSize < |s|);
    }
  }

  /**
   Writing the first `k` blocks of a page sets exactly those blocks of page
   `p` and leaves what every other block reads as unchanged.
   */
  lemma {:induction false} WriteBlocksAt(s: seq<Block>, p: nat, pg: Page, k: nat, i: int)
    requires k <= BlocksPerPage
    ensures |WriteBlocks(s, p, pg, k)| == if k == 0 || p * BlocksPerPage + k <= |s| then |s| else p * BlocksPerPage + k
    ensures BlockAt(WriteBlocks(s, p, pg, k), i) ==
      if p * BlocksPerPage <= i < p * BlocksPerPage + k then PageBlock(pg, i - p * BlocksPerPage)
      else BlockAt(s, i)
  {
    if k > 0 {
      WriteBlocksAt(s, p, pg, k - 1, i);
      if i != p * BlocksPerPage + k - 1 {
        WriteBlocksAt(s, p, pg, k - 1, p * BlocksPerPage + k - 1);
      }
    }
  }

  /** A partial or complete write of page `p` leaves every other page reading the same. */
  lemma WriteBlocksKeepsOtherPages(s: seq<Block>, p: nat, pg: Page, k: nat, q: int)
    requires k <= BlocksPerPage && q != p
    ensures DiskPage(WriteBlocks(s, p, pg, k), q) == DiskPage(s, q)
  {
    forall i | 0 <= i < PageSize
      ensures DiskPage(WriteBlocks(s, p, pg, k), q)[i] == DiskPage(s, q)[i]
    {
      WriteBlocksAt(s, p, pg, k, q * BlocksPerPage + i / BlockSize);
    }
  }

  /** Round trip: after writing page `pg` back as page `p`, the file holds `pg` as page `p`. */
  lemma WriteBackReadsBack(s: seq<Block>, p: nat, pg: Page)
    ensures DiskPage(WriteBack(s, p, pg), p) == pg
  {
    forall i | 0 <= i < PageSize
      ensures DiskPage(WriteBack(s, p, pg), p)[i] == pg[i]
    {
      WriteBlocksAt(Extend(s, p), p, pg, BlocksPerPage, p * BlocksPerPage + i / BlockSize);
    }
  }

  /** Writing page `p` back leaves every other page of the file reading the same. */
  lemma WriteBackKeepsOtherPages(s: seq<Block>, p: nat, pg: Page)
    ensures DiskUnchangedExcept(s, WriteBack(s, p, pg), {p})
  {
    forall q | q != p
      ensures DiskPage(WriteBack(s, p, pg), q) == DiskPage(s, q)
    {
      WriteBlocksKeepsOtherPages(Extend(s, p), p, pg, BlocksPerPage, q);
      ZeroExtensionKeepsPages(s, Extend(s, p), q);
    }
  }

  /**
   Block by block: writing page `p` back stores its blocks in blocks
   `p * BlocksPerPage ..` of the file, keeps every other existing block,
   and fills any gap it opens with zero blocks.
   */
  lemma WriteBackTouchesOnlyPage(s: seq<Block>, p: nat, pg: Page)
    ensures |WriteBack(s, p, pg)| == if |s| < (p + 1) * BlocksPerPage then (p + 1) * BlocksPerPage else |s|
    ensures forall k :: 0 <= k < BlocksPerPage ==>
      WriteBack(s, p, pg)[p * BlocksPerPage + k] == PageBlock(pg, k)
    ensures forall i :: 0 <= i < |WriteBack(s, p, pg)| && !(p * BlocksPerPage <= i < (p + 1) * BlocksPerPage) ==>
      WriteBack(s, p, pg)[i] == if i < |s| then s[i] else ZeroBlock()
  {
    var e := Extend(s, p);
    var w := WriteBack(s, p, pg);
    WriteBlocksAt(e, p, pg, BlocksPerPage, 0);
    forall i | 0 <= i < |w|
      ensures w[i] == if p * BlocksPerPage <= i < (p + 1) * BlocksPerPage then PageBlock(pg, i - p * BlocksPerPage)
                      else if i < |s| then s[i] else ZeroBlock()
    {
      WriteBlocksAt(e, p, pg, BlocksPerPage, i);
      ZeroExtensionReadsSame(s, e, i);
    }
  }
}
