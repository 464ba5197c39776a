/** The abstract disk the storage engine runs on. The transaction log's
  * `logged_read`/`logged_write`/`logged_relse` and `brelse` become reads and
  * writes of this map; a block that was never written reads as zeros. */
module AbstractDisk {
  import opened FsLayout

  type Disk = map<nat, Block>

  function Read(d: Disk, b: nat): Block
  {
    if b in d then d[b] else ZeroBlock
  }

  lemma ReadWrite(d: Disk, b: nat, blk: Block, c: nat)
    ensures Read(d[b := blk], c) == if c == b then blk else Read(d, c)
  {}
}

/** The specification of the bitmap allocator of src/inode.c. Block n is in use
  * when bit (n % BPB) % 8 of byte (n % BPB) / 8 of block BBlock(n) is set. */
module Bitmap {
  import opened Bytes
  import opened FsLayout
  import opened AbstractDisk
  import opened Outcome

  /** The byte of BBlock(n) that holds n's bit, and the bit within it. */
  function ByteIndex(n: nat): (i: nat)
    ensures i < BSIZE
  {
    (n % BPB) / 8
  }

  function BitIndex(n: nat): (k: nat)
    ensures k < 8
  {
    (n % BPB) % 8
  }

  predicate Allocated(d: Disk, sb: Superblock, n: nat)
  {
    ByteBit(Read(d, BBlock(n, sb))[ByteIndex(n)], BitIndex(n))
  }

  /** Block b + bi, for b a multiple of BPB and bi < BPB, has its bit at bit
    * bi % 8 of byte bi / 8 of b's bitmap block: the indexing block_alloc uses. */
  lemma BitLocation(b: nat, bi: nat, sb: Superblock)
    requires b % BPB == 0 && bi < BPB
    ensures BBlock(b + bi, sb) == BBlock(b, sb)
    ensures ByteIndex(b + bi) == bi / 8 && BitIndex(b + bi) == bi % 8
  {
    assert BPB == 8192;
  }

  /** The disk with n's bit set (`bp->data[bi / 8] |= m`). */
  function MarkUsed(d: Disk, sb: Superblock, n: nat): Disk
  {
    var blk := Read(d, BBlock(n, sb));
    d[BBlock(n, sb) := blk[ByteIndex(n) := SetBit(blk[ByteIndex(n)], BitIndex(n))]]
  }

  /** The disk with n's bit cleared (`bp->data[bi / 8] &= ~m`). */
  function MarkFree(d: Disk, sb: Superblock, n: nat): Disk
  {
    var blk := Read(d, BBlock(n, sb));
    d[BBlock(n, sb) := blk[ByteIndex(n) := ClearBit(blk[ByteIndex(n)], BitIndex(n))]]
  }

  /** What block_alloc leaves behind when it picks n: n's bit set, n zero-filled. */
  function AllocAt(d: Disk, sb: Superblock, n: nat): Disk
  {
    MarkUsed(d, sb, n)[n := ZeroBlock]
  }

  /** Setting n's bit changes n's bit only. */
  lemma MarkUsedBits(d: Disk, sb: Superblock, n: nat, m: nat)
    ensures Allocated(MarkUsed(d, sb, n), sb, m) == (m == n || Allocated(d, sb, m))
  {
    if m != n { BitOwnerUnique(m, n, sb); }
  }

  /** Clearing n's bit changes n's bit only. */
  lemma MarkFreeBits(d: Disk, sb: Superblock, n: nat, m: nat)
    ensures Allocated(MarkFree(d, sb, n), sb, m) == (m != n && Allocated(d, sb, m))
  {
    if m != n { BitOwnerUnique(m, n, sb); }
  }

  /** Only n's bitmap block changes when n's bit is set or cleared. */
  lemma MarkFrame(d: Disk, sb: Superblock, n: nat, b: nat)
    requires b != BBlock(n, sb)
    ensures Read(MarkUsed(d, sb, n), b) == Read(d, b)
    ensures Read(MarkFree(d, sb, n), b) == Read(d, b)
  {}

  /** After allocating n, the blocks in use are the old ones plus n, so long as
    * the zero-filled block n is not itself the bitmap block of m. */
  lemma AllocAtBits(d: Disk, sb: Superblock, n: nat, m: nat)
    requires n != BBlock(m, sb)
    ensures Allocated(AllocAt(d, sb, n), sb, m) == (m == n || Allocated(d, sb, m))
  {
    MarkUsedBits(d, sb, n, m);
  }

  /** The lowest block in [n, sb.size) whose bit is clear, if there is one. */
  function FirstClearFrom(d: Disk, sb: Superblock, n: nat): (r: Option)
    decreases sb.size - n
    ensures r.Some? ==> n <= r.block < sb.size && !Allocated(d, sb, r.block)
    ensures r.Some? ==> forall m :: n <= m < r.block ==> Allocated(d, sb, m)
    ensures r.None? ==> forall m :: n <= m < sb.size ==> Allocated(d, sb, m)
  {
    if n >= sb.size then None
    else if !Allocated(d, sb, n) then Some(n)
    else FirstClearFrom(d, sb, n + 1)
  }

  datatype Option = None | Some(block: nat)

  /** A clear block with every block below it in use is the first clear one. */
  lemma FirstClearIs(d: Disk, sb: Superblock, n: nat)
    requires n < sb.size && !Allocated(d, sb, n)
    requires forall m :: 0 <= m < n ==> Allocated(d, sb, m)
    ensures FirstClearFrom(d, sb, 0) == Some(n)
  {
  }

  /** block_alloc: the lowest free block below sb.size, marked used and zeroed. */
  function BlockAllocSpec(d: Disk, sb: Superblock): (r: Result<(nat, Disk)>)
    ensures r.Ok? ==> r.value.0 < sb.size
  {
    match FirstClearFrom(d, sb, 0)
    case None => Fail("balloc: out of blocks")
    case Some(n) => Ok((n, AllocAt(d, sb, n)))
  }

  /** block_alloc's outer loop steps from one bitmap block's first block to
    * the next one's. */
  lemma NextBitmapBlock(b: nat)
    requires b % BPB == 0
    ensures (b + BPB) % BPB == 0
  {
    Constants();
  }

  /** block_alloc's inner loop finding clear bit bi of the bitmap block of the
    * BPB-aligned block b: the allocation it then makes is BlockAllocSpec's. */
  lemma BlockAllocFound(d: Disk, sb: Superblock, b: nat, bi: nat)
    requires b % BPB == 0 && bi < BPB && b + bi < sb.size
    requires forall m :: 0 <= m < b + bi ==> Allocated(d, sb, m)
    requires !ByteBit(Read(d, BBlock(b, sb))[bi / 8], bi % 8)
    ensures var blk := Read(d, BBlock(b, sb));
      BlockAllocSpec(d, sb) ==
        Ok((b + bi, d[BBlock(b, sb) := blk[bi / 8 := SetBit(blk[bi / 8], bi % 8)]][b + bi := ZeroBlock]))
  {
    BitLocation(b, bi, sb);
    FirstClearIs(d, sb, b + bi);
  }

  /** block_free: clears b's bit; freeing a free block is fatal. */
  function BlockFreeSpec(d: Disk, sb: Superblock, b: nat): Result<Disk>
  {
    if !Allocated(d, sb, b) then Fail("freeing free block") else Ok(MarkFree(d, sb, b))
  }

  /** The block block_alloc returns is the lowest free one, and afterwards it is
    * in use and zero-filled; allocation fails only when every block is in use. */
  lemma BlockAllocChoosesLowest(d: Disk, sb: Superblock)
    ensures BlockAllocSpec(d, sb).Fail? <==> forall m :: 0 <= m < sb.size ==> Allocated(d, sb, m)
    ensures BlockAllocSpec(d, sb).Ok? ==>
      var (n, d') := BlockAllocSpec(d, sb).value;
      && n < sb.size && !Allocated(d, sb, n)
      && (forall m :: 0 <= m < n ==> Allocated(d, sb, m))
      && Read(d', n) == ZeroBlock
      && (n != BBlock(n, sb) ==> Allocated(d', sb, n))
  {
    var r := FirstClearFrom(d, sb, 0);
    if r.Some? {
      var n := r.block;
      assert n < sb.size && !Allocated(d, sb, n);
      if BlockAllocSpec(d, sb).Fail? {
        assert false;
      }
      if n != BBlock(n, sb) { AllocAtBits(d, sb, n, n); }
    }
  }

  /** Blocks whose bits are set are never handed out: if every block below k
    * is in use, block_alloc returns k or above. */
  lemma BlockAllocAvoidsUsed(d: Disk, sb: Superblock, k: nat)
    requires forall m :: 0 <= m < k ==> Allocated(d, sb, m)
    requires BlockAllocSpec(d, sb).Ok?
    ensures BlockAllocSpec(d, sb).value.0 >= k
  {
    var n := FirstClearFrom(d, sb, 0).block;
    assert !Allocated(d, sb, n);
  }

  /** block_free(b) succeeds exactly when b is in use, and then clears b's bit
    * alone. */
  lemma BlockFreeClearsOne(d: Disk, sb: Superblock, b: nat, m: nat)
    ensures BlockFreeSpec(d, sb, b).Ok? <==> Allocated(d, sb, b)
    ensures BlockFreeSpec(d, sb, b).Ok? ==>
      Allocated(BlockFreeSpec(d, sb, b).value, sb, m) == (m != b && Allocated(d, sb, m))
  {
    MarkFreeBits(d, sb, b, m);
  }

  /** Allocating a block and then freeing it restores every block except the
    * allocated one, which stays zero-filled. */
  lemma AllocThenFree(d: Disk, sb: Superblock, b: nat)
    requires BlockAllocSpec(d, sb).Ok?
    requires b != BlockAllocSpec(d, sb).value.0
    ensures var (n, d') := BlockAllocSpec(d, sb).value;
      n != BBlock(n, sb) ==>
        BlockFreeSpec(d', sb, n).Ok? && Read(BlockFreeSpec(d', sb, n).value, b) == Read(d, b)
  {
    var (n, d') := BlockAllocSpec(d, sb).value;
    if n != BBlock(n, sb) {
      BlockAllocChoosesLowest(d, sb);
      var bb := BBlock(n, sb);
      var blk := Read(d, bb);
      var i, k := ByteIndex(n), BitIndex(n);
      assert !ByteBit(blk[i], k);
      ClearAfterSet(blk[i], k);
      var d'' := BlockFreeSpec(d', sb, n).value;
      assert Read(d', bb) == blk[i := SetBit(blk[i], k)];
      assert Read(d'', bb) == blk[i := SetBit(blk[i], k)][i := ClearBit(SetBit(blk[i], k), k)];
      assert Read(d'', bb) == blk;
    }
  }
}
