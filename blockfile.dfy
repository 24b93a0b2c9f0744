/**
 The block file underneath the buffer pool: a database file seen as a
 sequence of fixed-size blocks. Only the VALUE of the file is modelled here
 (what a read returns, what a write leaves behind); the operations that can
 fail live on the buffer manager, which owns the file.
 */
module BlockFile {

  /** A byte of the file. */
  newtype Byte = x: int | 0 <= x < 256

  /** Size of a block in bytes. */
  const BlockSize: nat := 4096

  /** One block of the file. */
  type Block = b: seq<Byte> | |b| == BlockSize witness seq(4096, _ => 0)

  /** The block the file system hands out for a never-written region. */
  function ZeroBlock(): (b: Block)
    ensures forall j :: 0 <= j < BlockSize ==> b[j] == 0
  {
    seq(BlockSize, _ => 0)
  }

  /** `n` zero blocks. */
  function Zeros(n: nat): (r: seq<Block>)
    ensures |r| == n
    ensures forall i :: 0 <= i < n ==> r[i] == ZeroBlock()
  {
    seq(n, _ => ZeroBlock())
  }

  /**
   The file after writing block `b` at block number `i` (a write at byte
   offset `i * BlockSize`). Writing past the end grows the file; the gap
   between the old end and `i` reads as zero blocks.
   */
  function WriteAt(s: seq<Block>, i: nat, b: Block): (r: seq<Block>)
    ensures |r| == if i < |s| then |s| else i + 1
    ensures r[i] == b
    ensures forall j :: 0 <= j < |r| && j != i ==>
      r[j] == (if j < |s| then s[j] else ZeroBlock())
  {
    if i < |s| then s[i := b] else s + Zeros(i - |s|) + [b]
  }

  /**
   What reading block `i` yields when it is treated as part of the file's
   contents: the stored block inside the file, a zero block outside it.
   */
  function BlockAt(s: seq<Block>, i: int): (b: Block)
    ensures 0 <= i < |s| ==> b == s[i]
    ensures !(0 <= i < |s|) ==> b == ZeroBlock()
  {
    if 0 <= i < |s| then s[i] else ZeroBlock()
  }

  /** `t` is `s` followed by zero blocks only. */
  ghost predicate ZeroExtension(s: seq<Block>, t: seq<Block>)
  {
    |s| <= |t| && t[..|s|] == s &&
    forall i :: |s| <= i < |t| ==> t[i] == ZeroBlock()
  }

  /** Appending zero blocks does not change what any block reads as. */
  lemma ZeroExtensionReadsSame(s: seq<Block>, t: seq<Block>, i: int)
    requires ZeroExtension(s, t)
    ensures BlockAt(t, i) == BlockAt(s, i)
  {
    if 0 <= i < |s| {
      assert t[..|s|][i] == t[i];
    }
  }
}
