/** The disk layout mkfs/mkfs.myfuse.c computes for a device of diskSize blocks
  * with nlog log blocks, and the image it leaves on the device:
  *   [ boot block | superblock | log | inode blocks | bitmap | data blocks ]. */
module MkfsLayout {
  import opened Bytes
  import opened FsLayout
  import opened AbstractDisk
  import opened Outcome
  import opened Bitmap
  import opened BlockMap
  import opened InodeTable
  import opened InodeSpec

  /** C `int` holds values below 2^31. */
  const INT_LIMIT: nat := 0x8000_0000

  /** The layout quantities mkfs keeps in its globals. */
  datatype Layout = Layout(
    nbitmap: nat,       // bitmap blocks
    ninodeBlocks: nat,  // blocks holding on-disk inodes
    ninodes: nat,       // inodes
    nmetaBlocks: nat,   // boot, superblock, log, inode and bitmap blocks
    nblocks: u32)       // data blocks, in unsigned arithmetic

  /** nmeta_blocks, the largest `int` of the layout, does not overflow. */
  predicate IntFits(diskSize: u32, nlog: nat)
  {
    2 + nlog + (diskSize / 100 + 1) + (diskSize / (BSIZE * 8) + 1) < INT_LIMIT
  }

  /** The overflow can come only from a huge log: the layout fits an `int`
    * for every 32-bit disk size when nlog < 2104009685, and not beyond. */
  lemma IntFitsExactly(diskSize: u32, nlog: nat)
    ensures nlog < 2104009685 ==> IntFits(diskSize, nlog)
    ensures !IntFits(0xFFFF_FFFF, 2104009685)
  {
    Constants();
  }

  /** `ceil(disk_size / 100)` rounds an integer quotient, so it is that quotient;
    * `disk_size - nmeta_blocks` is computed in `uint` and wraps. */
  function DiskLayout(diskSize: u32, nlog: nat): Layout
    requires IntFits(diskSize, nlog)
  {
    var nbitmap := diskSize / (BSIZE * 8) + 1;
    var ninodeBlocks := diskSize / 100 + 1;
    var nmeta := 2 + nlog + ninodeBlocks + nbitmap;
    Layout(nbitmap, ninodeBlocks, ninodeBlocks * IPB, nmeta, (diskSize - nmeta) % U32_LIMIT)
  }

  /** The superblock mkfs fills in. */
  function MkfsSuperblock(diskSize: u32, nlog: nat): Superblock
    requires IntFits(diskSize, nlog)
  {
    Constants();
    var l := DiskLayout(diskSize, nlog);
    Superblock(FSMAGIC, diskSize, l.nblocks, l.ninodes, nlog, 2, 2 + nlog, 2 + nlog + l.ninodeBlocks)
  }

  /** The regions follow one another, the bitmap ends where the allocator's data
    * area starts, every block of the disk has a bitmap bit and there are at
    * least ninodes / IPB inode blocks, one per 100 blocks rounded up. */
  lemma LayoutRegions(diskSize: u32, nlog: nat)
    requires IntFits(diskSize, nlog)
    ensures var sb := MkfsSuperblock(diskSize, nlog); var l := DiskLayout(diskSize, nlog);
      && sb.magic == FSMAGIC && sb.size == diskSize && sb.nlog == nlog
      && sb.logstart == 2 && sb.inodestart == sb.logstart + sb.nlog
      && sb.bmapstart == sb.inodestart + l.ninodeBlocks
      && sb.bmapstart + l.nbitmap == l.nmetaBlocks == DataStart(sb)
      && l.nbitmap * BPB > diskSize
      && l.ninodeBlocks * 100 > diskSize && sb.ninodes == l.ninodeBlocks * IPB
  {
    Constants();
  }

  /** The order of the regions, as the image lemmas use it. */
  lemma LayoutOrder(diskSize: u32, nlog: nat)
    requires IntFits(diskSize, nlog)
    ensures var sb := MkfsSuperblock(diskSize, nlog); var l := DiskLayout(diskSize, nlog);
      && 2 <= sb.inodestart < sb.bmapstart < sb.bmapstart + l.nbitmap == l.nmetaBlocks
      && sb.ninodes == l.ninodeBlocks * IPB && sb.bmapstart == sb.inodestart + l.ninodeBlocks
  {
    Constants();
  }

  /** nblocks counts the data blocks when the metadata fits on the disk, and
    * wraps around otherwise; the metadata fits exactly when the allocator's
    * layout is sane. */
  lemma LayoutDataBlocks(diskSize: u32, nlog: nat)
    requires IntFits(diskSize, nlog)
    ensures var sb := MkfsSuperblock(diskSize, nlog); var nmeta := DiskLayout(diskSize, nlog).nmetaBlocks;
      && (SaneLayout(sb) <==> nmeta <= diskSize)
      && (nmeta <= diskSize ==> sb.nblocks + nmeta == diskSize)
      && (diskSize < nmeta ==> sb.nblocks == U32_LIMIT + diskSize - nmeta)
  {
    LayoutRegions(diskSize, nlog);
  }

  // ---------------------------------------------------------------------
  // The image

  /** A block of 0xFF bytes: every bit set. */
  const Ones: Block := Fill(BSIZE, 0xFF)

  /** The disk with blocks lo .. hi - 1 overwritten by blk. */
  function SetRange(d: Disk, lo: nat, hi: nat, blk: Block): Disk
    decreases hi
  {
    if hi <= lo then d else SetRange(d, lo, hi - 1, blk)[hi - 1 := blk]
  }

  /** Blocks lo .. hi - 1 read as blk and every other block as before. */
  lemma {:induction false} ReadSetRange(d: Disk, lo: nat, hi: nat, blk: Block, j: nat)
    decreases hi
    ensures Read(SetRange(d, lo, hi, blk), j) == (if lo <= j < hi then blk else Read(d, j))
  {
    if lo < hi {
      ReadWrite(SetRange(d, lo, hi - 1, blk), hi - 1, blk, j);
      ReadSetRange(d, lo, hi - 1, blk, j);
    }
  }

  /** Block 1 as mkfs writes it: the superblock, then zeros. */
  function SuperBlockImage(sb: Superblock): Block
  {
    EncodeSuperblock(sb) + Fill(BSIZE - SUPERBLOCK_SIZE, 0)
  }

  lemma SuperBlockImageDecodes(sb: Superblock)
    ensures DecodeSuperblock(SuperBlockImage(sb)) == sb
  {
    SuperblockRoundTrip(sb, Fill(BSIZE - SUPERBLOCK_SIZE, 0));
  }

  /** `meta_bitmap_left_byte`: the byte with bits 0 .. n - 1 set. */
  function LowByte(n: nat): (r: byte)
    requires n <= 8
    ensures forall j: nat :: ByteBit(r, j) == (j < n)
  {
    if n == 0 then
      assert forall j: nat :: !ByteBit(0, j) by {
        forall j: nat ensures !Bit(0, j) { HighBitsClear(0, 0, j); }
      }
      0
    else SetBit(LowByte(n - 1), n - 1)
  }

  /** Every bit of 0xFF is set. */
  lemma FullByte(k: nat)
    requires k < 8
    ensures ByteBit(0xFF, k)
  {
    assert Pow2(8) == 256;
    OnesBelow(0xFF, 8, k);
  }

  /** Bit j of 2^n - 1 is set below n. */
  lemma {:induction false} OnesBelow(x: nat, n: nat, j: nat)
    requires x + 1 == Pow2(n) && j < n
    ensures Bit(x, j)
  {
    assert Pow2(n) == 2 * Pow2(n - 1);
    if j > 0 {
      OnesBelow(x / 2, n - 1, j - 1);
    }
  }

  /** data_buf when the last bitmap block is written: with 0xFF left behind by
    * the full bitmap blocks when there were any, else the superblock image; the
    * corrected mkfs zeroes it first. */
  function LastBlockBase(sb: Superblock, nmeta: nat, fixed: bool): Block
  {
    if fixed then ZeroBlock else if nmeta / BPB > 0 then Ones else SuperBlockImage(sb)
  }

  /** The bitmap block holding meta block nmeta's bit, written over `prev`: the
    * bytes before byte (nmeta % BPB) / 8 are 0xFF, that byte has its low
    * nmeta % 8 bits set, and the rest of `prev` stays. */
  function LastBitmapBlock(prev: Block, nmeta: nat): Block
  {
    var bit := nmeta % BPB;
    var byteIdx := bit / 8;
    Fill(byteIdx, 0xFF) + [LowByte(bit % 8)] + prev[byteIdx + 1..]
  }

  /** The image mkfs writes for superblock sb and nmeta metadata blocks over
    * the device d0: block 1, then zeroed blocks 2 .. nmeta - 1, then the
    * bitmap blocks whose bits all belong to metadata, then the last one. */
  function Image(d0: Disk, sb: Superblock, nmeta: nat, fixed: bool): Disk
  {
    assert BPB == 8192;
    var nfull := nmeta / BPB;
    var d1 := SetRange(d0[1 := SuperBlockImage(sb)], 2, nmeta, ZeroBlock);
    var d2 := SetRange(d1, sb.bmapstart, sb.bmapstart + nfull, Ones);
    d2[sb.bmapstart + nfull := LastBitmapBlock(LastBlockBase(sb, nmeta, fixed), nmeta)]
  }

  /** The device after mkfs, from the device d0 it started with. */
  function FormatImage(d0: Disk, diskSize: u32, nlog: nat, fixed: bool): Disk
    requires IntFits(diskSize, nlog)
  {
    Image(d0, MkfsSuperblock(diskSize, nlog), DiskLayout(diskSize, nlog).nmetaBlocks, fixed)
  }

  /** Every block of the image, one region at a time. */
  lemma ReadImage(d0: Disk, sb: Superblock, nmeta: nat, fixed: bool, b: nat)
    ensures var nfull := nmeta / BPB;
      Read(Image(d0, sb, nmeta, fixed), b) ==
        if b == sb.bmapstart + nfull then LastBitmapBlock(LastBlockBase(sb, nmeta, fixed), nmeta)
        else if sb.bmapstart <= b < sb.bmapstart + nfull then Ones
        else if 2 <= b < nmeta then ZeroBlock
        else if b == 1 then SuperBlockImage(sb)
        else Read(d0, b)
  {
    var nfull := nmeta / BPB;
    var d1 := SetRange(d0[1 := SuperBlockImage(sb)], 2, nmeta, ZeroBlock);
    var d2 := SetRange(d1, sb.bmapstart, sb.bmapstart + nfull, Ones);
    ReadWrite(d2, sb.bmapstart + nfull, LastBitmapBlock(LastBlockBase(sb, nmeta, fixed), nmeta), b);
    ReadSetRange(d1, sb.bmapstart, sb.bmapstart + nfull, Ones, b);
    ReadSetRange(d0[1 := SuperBlockImage(sb)], 2, nmeta, ZeroBlock, b);
    ReadWrite(d0, 1, SuperBlockImage(sb), b);
  }

  /** The bit of a block m covered by the last bitmap block: set when m is a
    * meta block, and otherwise whatever `prev` held past the written bytes. */
  lemma LastBlockBits(prev: Block, nmeta: nat, m: nat)
    requires m / BPB == nmeta / BPB
    ensures ByteBit(LastBitmapBlock(prev, nmeta)[ByteIndex(m)], BitIndex(m)) ==
      (m < nmeta || (ByteIndex(m) > (nmeta % BPB) / 8 && ByteBit(prev[ByteIndex(m)], BitIndex(m))))
  {
    assert BPB == 8192;
    var byteIdx := (nmeta % BPB) / 8;
    var blk := LastBitmapBlock(prev, nmeta);
    if ByteIndex(m) < byteIdx {
      assert blk[ByteIndex(m)] == 0xFF;
      FullByte(BitIndex(m));
    } else if ByteIndex(m) == byteIdx {
      assert blk[ByteIndex(m)] == LowByte((nmeta % BPB) % 8);
    } else {
      assert blk[ByteIndex(m)] == prev[ByteIndex(m)];
    }
  }

  // ---------------------------------------------------------------------
  // What the image holds

  /** Block 1 decodes to the superblock mkfs computed. */
  lemma FormatWritesSuperblock(d0: Disk, diskSize: u32, nlog: nat, fixed: bool)
    requires IntFits(diskSize, nlog)
    ensures DecodeSuperblock(Read(FormatImage(d0, diskSize, nlog, fixed), 1)) == MkfsSuperblock(diskSize, nlog)
  {
    var sb := MkfsSuperblock(diskSize, nlog);
    var nmeta := DiskLayout(diskSize, nlog).nmetaBlocks;
    LayoutOrder(diskSize, nlog);
    assert FormatImage(d0, diskSize, nlog, fixed) == Image(d0, sb, nmeta, fixed);
    assert sb.bmapstart >= 2;
    ImageBlockOne(d0, sb, nmeta, fixed);
    SuperBlockImageDecodes(sb);
  }

  lemma ImageBlockOne(d0: Disk, sb: Superblock, nmeta: nat, fixed: bool)
    requires sb.bmapstart >= 2
    ensures Read(Image(d0, sb, nmeta, fixed), 1) == SuperBlockImage(sb)
  {
    assert BPB == 8192;
    ReadImage(d0, sb, nmeta, fixed, 1);
  }

  /** Every metadata block is marked in use: the invariant the allocator needs,
    * so block_alloc never hands out a boot, log, inode or bitmap block. */
  lemma FormatReserves(d0: Disk, diskSize: u32, nlog: nat, fixed: bool)
    requires IntFits(diskSize, nlog)
    ensures Reserved(FormatImage(d0, diskSize, nlog, fixed), MkfsSuperblock(diskSize, nlog))
  {
    var sb := MkfsSuperblock(diskSize, nlog);
    var nmeta := DiskLayout(diskSize, nlog).nmetaBlocks;
    var img := FormatImage(d0, diskSize, nlog, fixed);
    LayoutOrder(diskSize, nlog);
    forall m: nat | m < DataStart(sb) ensures Allocated(img, sb, m) {
      MetaBit(d0, diskSize, nlog, fixed, m);
    }
  }

  lemma MetaBit(d0: Disk, diskSize: u32, nlog: nat, fixed: bool, m: nat)
    requires IntFits(diskSize, nlog) && m < DiskLayout(diskSize, nlog).nmetaBlocks
    ensures Allocated(FormatImage(d0, diskSize, nlog, fixed), MkfsSuperblock(diskSize, nlog), m)
  {
    var sb := MkfsSuperblock(diskSize, nlog);
    var nmeta := DiskLayout(diskSize, nlog).nmetaBlocks;
    assert BPB == 8192;
    ReadImage(d0, sb, nmeta, fixed, BBlock(m, sb));
    if m / BPB < nmeta / BPB {
      FullByte(BitIndex(m));
    } else {
      LastBlockBits(LastBlockBase(sb, nmeta, fixed), nmeta, m);
    }
  }

  /** With the corrected last bitmap block, the bits the bitmap covers are set
    * exactly for the metadata blocks. */
  lemma FormatMarksExactly(d0: Disk, diskSize: u32, nlog: nat)
    requires IntFits(diskSize, nlog)
    ensures var l := DiskLayout(diskSize, nlog);
      forall m: nat :: m < l.nbitmap * BPB ==>
        (Allocated(FormatImage(d0, diskSize, nlog, true), MkfsSuperblock(diskSize, nlog), m) <==> m < l.nmetaBlocks)
  {
    var l := DiskLayout(diskSize, nlog);
    forall m: nat | m < l.nbitmap * BPB
      ensures Allocated(FormatImage(d0, diskSize, nlog, true), MkfsSuperblock(diskSize, nlog), m) <==> m < l.nmetaBlocks
    {
      if m < l.nmetaBlocks {
        MetaBit(d0, diskSize, nlog, true, m);
      } else {
        DataBitClear(d0, diskSize, nlog, m);
      }
    }
  }

  lemma DataBitClear(d0: Disk, diskSize: u32, nlog: nat, m: nat)
    requires IntFits(diskSize, nlog)
    requires DiskLayout(diskSize, nlog).nmetaBlocks <= m < DiskLayout(diskSize, nlog).nbitmap * BPB
    ensures !Allocated(FormatImage(d0, diskSize, nlog, true), MkfsSuperblock(diskSize, nlog), m)
  {
    var sb := MkfsSuperblock(diskSize, nlog);
    var l := DiskLayout(diskSize, nlog);
    LayoutOrder(diskSize, nlog);
    assert FormatImage(d0, diskSize, nlog, true) == Image(d0, sb, l.nmetaBlocks, true);
    ImageDataBitClear(d0, sb, l.nmetaBlocks, l.nbitmap, m);
  }

  /** In the corrected image, the bitmap bits past the metadata are clear. */
  lemma ImageDataBitClear(d0: Disk, sb: Superblock, nmeta: nat, nbitmap: nat, m: nat)
    requires 2 <= sb.bmapstart && sb.bmapstart + nbitmap == nmeta
    requires nmeta <= m < nbitmap * BPB
    ensures !Allocated(Image(d0, sb, nmeta, true), sb, m)
  {
    assert BPB == 8192;
    var b := BBlock(m, sb);
    ReadImage(d0, sb, nmeta, true, b);
    assert ZeroBlock[ByteIndex(m)] == 0;
    if m / BPB == nmeta / BPB {
      LastBlockBits(ZeroBlock, nmeta, m);
    } else {
      assert Read(Image(d0, sb, nmeta, true), b) == ZeroBlock;
    }
    HighBitsClear(0, 0, BitIndex(m));
  }

  /** As written, when the metadata fills at least one bitmap block, the last
    * bitmap block keeps the 0xFF bytes of the full blocks past the bytes it
    * writes: every block from the next byte's first bit to the end of that
    * bitmap block is marked in use though none is metadata. */
  lemma FormatAsWrittenMarksData(d0: Disk, diskSize: u32, nlog: nat)
    requires IntFits(diskSize, nlog)
    requires DiskLayout(diskSize, nlog).nmetaBlocks >= BPB
    requires (DiskLayout(diskSize, nlog).nmetaBlocks % BPB) / 8 + 1 < BSIZE
    ensures var nmeta := DiskLayout(diskSize, nlog).nmetaBlocks;
      var first := (nmeta / BPB) * BPB + 8 * ((nmeta % BPB) / 8 + 1);
      && nmeta < first
      && forall m: nat :: first <= m < (nmeta / BPB + 1) * BPB ==>
           Allocated(FormatImage(d0, diskSize, nlog, false), MkfsSuperblock(diskSize, nlog), m)
  {
    var sb := MkfsSuperblock(diskSize, nlog);
    var nmeta := DiskLayout(diskSize, nlog).nmetaBlocks;
    var first := (nmeta / BPB) * BPB + 8 * ((nmeta % BPB) / 8 + 1);
    assert BPB == 8192;
    forall m: nat | first <= m < (nmeta / BPB + 1) * BPB
      ensures Allocated(FormatImage(d0, diskSize, nlog, false), sb, m)
    {
      ReadImage(d0, sb, nmeta, false, BBlock(m, sb));
      LastBlockBits(Ones, nmeta, m);
      FullByte(BitIndex(m));
    }
  }

  /** As written, on a disk whose metadata ends below block 224, the last (and
    * only written) bitmap block keeps the superblock image's bytes past the
    * bytes it writes, and byte 28, the low byte of bmapstart, marks some block
    * of 224 .. 231 in use though it is not metadata. */
  lemma FormatAsWrittenMarksSuperblockBits(d0: Disk, diskSize: u32, nlog: nat)
    requires IntFits(diskSize, nlog)
    requires DiskLayout(diskSize, nlog).nmetaBlocks < 224
    ensures exists m: nat ::
      && DiskLayout(diskSize, nlog).nmetaBlocks <= 224 <= m < 232
      && Allocated(FormatImage(d0, diskSize, nlog, false), MkfsSuperblock(diskSize, nlog), m)
  {
    var sb := MkfsSuperblock(diskSize, nlog);
    var nmeta := DiskLayout(diskSize, nlog).nmetaBlocks;
    LayoutOrder(diskSize, nlog);
    assert FormatImage(d0, diskSize, nlog, false) == Image(d0, sb, nmeta, false);
    ImageResidueBit(d0, sb, nmeta);
  }

  lemma ImageResidueBit(d0: Disk, sb: Superblock, nmeta: nat)
    requires 2 <= sb.bmapstart < nmeta < 224
    ensures exists m: nat :: 224 <= m < 232 && Allocated(Image(d0, sb, nmeta, false), sb, m)
  {
    assert BPB == 8192;
    var x := SuperBlockImage(sb)[28];
    SuperBlockLowByte(sb);
    var k := SomeBit(x as nat);
    assert k < 8 by {
      assert Pow2(8) == 256;
      if k >= 8 { HighBitsClear(x as nat, 8, k); }
    }
    var m: nat := 224 + k;
    assert m / BPB == 0 && ByteIndex(m) == 28 && BitIndex(m) == k;
    ReadImage(d0, sb, nmeta, false, BBlock(m, sb));
    LastBlockBits(SuperBlockImage(sb), nmeta, m);
    assert Allocated(Image(d0, sb, nmeta, false), sb, m);
  }

  /** Byte 28 of block 1 is the low byte of bmapstart. */
  lemma SuperBlockLowByte(sb: Superblock)
    ensures SuperBlockImage(sb)[28] as nat == sb.bmapstart % 0x100
  {
    var s := SuperBlockImage(sb);
    assert s[28..32] == U32Bytes(sb.bmapstart);
  }

  /** A set bit of a nonzero value. */
  lemma {:induction false} SomeBit(x: nat) returns (k: nat)
    requires x > 0
    ensures Bit(x, k)
  {
    if x % 2 == 1 {
      k := 0;
    } else {
      var k0 := SomeBit(x / 2);
      k := k0 + 1;
    }
  }

  /** Every inode of the image is unused: the inode blocks are zeroed. */
  lemma FormatInodesUnused(d0: Disk, diskSize: u32, nlog: nat, fixed: bool, i: nat)
    requires IntFits(diskSize, nlog) && i < MkfsSuperblock(diskSize, nlog).ninodes
    ensures DiskInode(FormatImage(d0, diskSize, nlog, fixed), MkfsSuperblock(diskSize, nlog), i).dtype == T_UNUSE
  {
    var sb := MkfsSuperblock(diskSize, nlog);
    var nmeta := DiskLayout(diskSize, nlog).nmetaBlocks;
    LayoutOrder(diskSize, nlog);
    Constants();
    assert FormatImage(d0, diskSize, nlog, fixed) == Image(d0, sb, nmeta, fixed);
    var b := IBlock(i, sb);
    assert 2 <= b < sb.bmapstart <= nmeta;
    assert Read(Image(d0, sb, nmeta, fixed), b) == ZeroBlock by {
      ReadImage(d0, sb, nmeta, fixed, b);
    }
    ZeroDinode(i % IPB);
  }

  /** A zeroed inode slot holds an unused inode. */
  lemma ZeroDinode(slot: nat)
    requires slot < IPB
    ensures LoadDinode(ZeroBlock, slot).dtype == T_UNUSE
  {
    Constants();
    var s := ZeroBlock[DINODE_SIZE * slot .. DINODE_SIZE * slot + DINODE_SIZE];
    assert s[0..2] == [0, 0];
  }

  /** ialloc on a fresh image takes inode 1, the first one it considers. */
  lemma FormatThenIalloc(d0: Disk, diskSize: u32, nlog: nat, fixed: bool, t: seq<Inode>, itype: i16)
    requires IntFits(diskSize, nlog) && |t| > 0
    ensures var img := FormatImage(d0, diskSize, nlog, fixed); var sb := MkfsSuperblock(diskSize, nlog);
      && IallocSpec(img, sb, t, itype).Ok?
      && IallocSpec(img, sb, t, itype).value.0 == ClaimDinode(img, sb, 1, itype)
  {
    LayoutOrder(diskSize, nlog);
    Constants();
    FormatInodesUnused(d0, diskSize, nlog, fixed, 1);
  }

  /** When the disk has room for data, the first block_alloc on a fresh image
    * returns the first data block, nmeta. */
  lemma FormatThenBlockAlloc(d0: Disk, diskSize: u32, nlog: nat, fixed: bool)
    requires IntFits(diskSize, nlog) && DiskLayout(diskSize, nlog).nmetaBlocks < diskSize
    ensures var img := FormatImage(d0, diskSize, nlog, fixed); var sb := MkfsSuperblock(diskSize, nlog);
      BlockAllocSpec(img, sb).Ok? && BlockAllocSpec(img, sb).value.0 == DiskLayout(diskSize, nlog).nmetaBlocks
  {
    var img := FormatImage(d0, diskSize, nlog, fixed);
    var sb := MkfsSuperblock(diskSize, nlog);
    var nmeta := DiskLayout(diskSize, nlog).nmetaBlocks;
    LayoutOrder(diskSize, nlog);
    assert BPB == 8192;
    ReadImage(d0, sb, nmeta, fixed, BBlock(nmeta, sb));
    LastBlockBits(LastBlockBase(sb, nmeta, fixed), nmeta, nmeta);
    assert !Allocated(img, sb, nmeta);
    FormatReserves(d0, diskSize, nlog, fixed);
    BlockAllocChoosesLowest(img, sb);
  }
}
