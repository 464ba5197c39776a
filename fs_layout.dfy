/** The on-disk format: constants, the superblock, on-disk inodes, pointer
  * blocks and directory entries, and the arithmetic that locates them. */
module FsLayout {
  import opened Bytes

  const FSMAGIC: nat := 0x636a6673
  const BSIZE: nat := 1024

  const UINT_SIZE: nat := 4
  const SHORT_SIZE: nat := 2

  const NDIRECT: nat := 10
  const NINDIRECT1: nat := BSIZE / UINT_SIZE
  const NINDIRECT2: nat := (BSIZE / UINT_SIZE) * (BSIZE / UINT_SIZE)
  const NINDIRECT3: nat := (BSIZE / UINT_SIZE) * (BSIZE / UINT_SIZE) * (BSIZE / UINT_SIZE)
  const NINDIRECT: nat := NINDIRECT1 + NINDIRECT2 + NINDIRECT3
  const NSUBDIRECT: nat := 3
  const NBLOCKADDR: nat := NDIRECT + NSUBDIRECT
  const MAXFILE: nat := NDIRECT + NINDIRECT

  /** sizeof(struct dinode): four shorts, the size and NBLOCKADDR addresses, no padding. */
  const DINODE_SIZE: nat := 4 * SHORT_SIZE + UINT_SIZE + NBLOCKADDR * UINT_SIZE
  /** Inodes per block. */
  const IPB: nat := BSIZE / DINODE_SIZE
  /** Bitmap bits per block. */
  const BPB: nat := BSIZE * 8

  /** sizeof(struct dirent): a ushort inode number and DIRSIZE name bytes. */
  const DIRENT_SIZE: nat := 0x10
  const DIRSIZE: nat := DIRENT_SIZE - SHORT_SIZE

  /** sizeof(struct superblock): eight uints. */
  const SUPERBLOCK_SIZE: nat := 8 * UINT_SIZE

  /** The type of an unused on-disk inode. A freshly zeroed inode block holds
    * only unused inodes, so the value is 0. */
  const T_UNUSE: int := 0

  /** One disk block. */
  type Block = s: seq<byte> | |s| == BSIZE witness seq(1024, _ => 0)

  const ZeroBlock: Block := Fill(BSIZE, 0)

  lemma Constants()
    ensures NINDIRECT1 == 256 && NINDIRECT2 == 256 * 256 && NINDIRECT3 == 256 * 256 * 256
    ensures MAXFILE == NDIRECT + NINDIRECT1 + NINDIRECT2 + NINDIRECT3
    ensures DINODE_SIZE == 64 && IPB == 16 && BSIZE % DINODE_SIZE == 0
    ensures DIRENT_SIZE == 16 && DIRSIZE == 14 && BSIZE % DIRENT_SIZE == 0
    ensures BPB == 8192
  {}

  datatype Superblock = Superblock(
    magic: u32,       // must be FSMAGIC
    size: u32,        // size of the image in blocks
    nblocks: u32,     // number of data blocks
    ninodes: u32,     // number of inodes
    nlog: u32,        // number of log blocks
    logstart: u32,    // first log block
    inodestart: u32,  // first inode block
    bmapstart: u32)   // first bitmap block

  /** The superblock as `memmove` lays it out: its eight fields in order. */
  function EncodeSuperblock(sb: Superblock): (s: seq<byte>)
    ensures |s| == SUPERBLOCK_SIZE
  {
    U32Bytes(sb.magic) + U32Bytes(sb.size) + U32Bytes(sb.nblocks) + U32Bytes(sb.ninodes)
    + U32Bytes(sb.nlog) + U32Bytes(sb.logstart) + U32Bytes(sb.inodestart) + U32Bytes(sb.bmapstart)
  }

  function DecodeSuperblock(s: seq<byte>): Superblock
    requires |s| >= SUPERBLOCK_SIZE
  {
    Superblock(U32Of(s[0..4]), U32Of(s[4..8]), U32Of(s[8..12]), U32Of(s[12..16]),
               U32Of(s[16..20]), U32Of(s[20..24]), U32Of(s[24..28]), U32Of(s[28..32]))
  }

  lemma SuperblockRoundTrip(sb: Superblock, rest: seq<byte>)
    ensures DecodeSuperblock(EncodeSuperblock(sb) + rest) == sb
  {
    var s := EncodeSuperblock(sb) + rest;
    assert s[0..4] == U32Bytes(sb.magic);
    assert s[4..8] == U32Bytes(sb.size);
    assert s[8..12] == U32Bytes(sb.nblocks);
    assert s[12..16] == U32Bytes(sb.ninodes);
    assert s[16..20] == U32Bytes(sb.nlog);
    assert s[20..24] == U32Bytes(sb.logstart);
    assert s[24..28] == U32Bytes(sb.inodestart);
    assert s[28..32] == U32Bytes(sb.bmapstart);
    U32RoundTrip(sb.magic); U32RoundTrip(sb.size); U32RoundTrip(sb.nblocks);
    U32RoundTrip(sb.ninodes); U32RoundTrip(sb.nlog); U32RoundTrip(sb.logstart);
    U32RoundTrip(sb.inodestart); U32RoundTrip(sb.bmapstart);
  }

  /** Writing `ins` at offset o leaves every range outside it as it was. */
  lemma SpliceFrame(blk: seq<byte>, o: nat, ins: seq<byte>, lo: nat, hi: nat)
    requires o + |ins| <= |blk| && lo <= hi <= |blk|
    requires hi <= o || o + |ins| <= lo
    ensures (blk[..o] + ins + blk[o + |ins|..])[lo..hi] == blk[lo..hi]
  {
    var r := blk[..o] + ins + blk[o + |ins|..];
    assert |r| == |blk|;
    assert forall k :: lo <= k < hi ==> r[k] == blk[k];
  }

  /** Writing `ins` at offset o puts exactly `ins` there. */
  lemma SpliceAt(blk: seq<byte>, o: nat, ins: seq<byte>)
    requires o + |ins| <= |blk|
    ensures (blk[..o] + ins + blk[o + |ins|..])[o..o + |ins|] == ins
  {}

  // ---------------------------------------------------------------------
  // Locating inodes and bitmap bits

  /** IBLOCK: the block holding inode i. */
  function IBlock(i: nat, sb: Superblock): nat
  {
    i / IPB + sb.inodestart
  }

  /** BBLOCK: the bitmap block holding the bit of block b. */
  function BBlock(b: nat, sb: Superblock): nat
  {
    b / BPB + sb.bmapstart
  }

  /** Inode i lives in slot i % IPB of IBlock(i); no two inode numbers share a place. */
  lemma IBlockInjective(i: nat, j: nat, sb: Superblock)
    requires i != j
    ensures (IBlock(i, sb), i % IPB) != (IBlock(j, sb), j % IPB)
  {
    assert i == IPB * (i / IPB) + i % IPB;
    assert j == IPB * (j / IPB) + j % IPB;
  }

  /** Block b owns bit (b % BPB) % 8 of byte (b % BPB) / 8 of BBlock(b); no two
    * blocks share a bit. */
  lemma BitOwnerUnique(b: nat, c: nat, sb: Superblock)
    requires b != c
    ensures (BBlock(b, sb), (b % BPB) / 8, (b % BPB) % 8) != (BBlock(c, sb), (c % BPB) / 8, (c % BPB) % 8)
  {
    assert b == BPB * (b / BPB) + 8 * ((b % BPB) / 8) + (b % BPB) % 8;
    assert c == BPB * (c / BPB) + 8 * ((c % BPB) / 8) + (c % BPB) % 8;
  }

  // ---------------------------------------------------------------------
  // Pointer blocks: NINDIRECT1 little-endian uints

  /** Entry i of a pointer block, `((uint*)bp->data)[i]`. */
  function Entry(blk: Block, i: nat): u32
    requires i < NINDIRECT1
  {
    U32Of(blk[4 * i .. 4 * i + 4])
  }

  /** The pointer block as an array of entries, `(uint*)bp->data`. */
  function Entries(blk: Block): (e: seq<u32>)
    ensures |e| == NINDIRECT1
  {
    seq(NINDIRECT1, j requires 0 <= j < NINDIRECT1 => Entry(blk, j))
  }

  /** The block with entry i replaced by v. */
  function SetEntry(blk: Block, i: nat, v: u32): (r: Block)
    requires i < NINDIRECT1
    ensures Entry(r, i) == v
    ensures forall j :: 0 <= j < NINDIRECT1 && j != i ==> Entry(r, j) == Entry(blk, j)
  {
    var o := 4 * i;
    var r := blk[..o] + U32Bytes(v) + blk[o + 4..];
    SpliceAt(blk, o, U32Bytes(v));
    U32RoundTrip(v);
    forall j | 0 <= j < NINDIRECT1 && j != i
      ensures r[4 * j .. 4 * j + 4] == blk[4 * j .. 4 * j + 4]
    {
      SpliceFrame(blk, o, U32Bytes(v), 4 * j, 4 * j + 4);
    }
    r
  }

  lemma ZeroEntry(i: nat)
    requires i < NINDIRECT1
    ensures Entry(ZeroBlock, i) == 0
  {
    assert ZeroBlock[4 * i .. 4 * i + 4] == [0, 0, 0, 0];
  }

  // ---------------------------------------------------------------------
  // On-disk inodes

  type Addrs = s: seq<u32> | |s| == NBLOCKADDR witness seq(13, _ => 0)

  const NoAddrs: Addrs := ZeroAddrs(NBLOCKADDR)

  function ZeroAddrs(n: nat): (a: seq<u32>)
    ensures |a| == n && forall i :: 0 <= i < n ==> a[i] == 0
  {
    seq(n, _ => 0)
  }

  datatype Dinode = Dinode(
    dtype: i16,   // file type
    major: i16,   // major device number
    minor: i16,   // minor device number
    nlink: i16,   // number of directory links
    size: u32,    // size in bytes
    addrs: Addrs) // NDIRECT direct addresses, then the three indirect ones

  function EncodeAddrs(a: seq<u32>): (s: seq<byte>)
    ensures |s| == UINT_SIZE * |a|
  {
    if a == [] then [] else U32Bytes(a[0]) + EncodeAddrs(a[1..])
  }

  function DecodeAddrs(s: seq<byte>): (a: seq<u32>)
    requires |s| % UINT_SIZE == 0
    ensures |a| == |s| / UINT_SIZE
  {
    if s == [] then [] else [U32Of(s[..UINT_SIZE])] + DecodeAddrs(s[UINT_SIZE..])
  }

  lemma {:induction false} AddrsRoundTrip(a: seq<u32>)
    ensures DecodeAddrs(EncodeAddrs(a)) == a
  {
    if a != [] {
      var s := EncodeAddrs(a);
      assert s[..UINT_SIZE] == U32Bytes(a[0]);
      assert s[UINT_SIZE..] == EncodeAddrs(a[1..]);
      U32RoundTrip(a[0]);
      AddrsRoundTrip(a[1..]);
    }
  }

  /** The DINODE_SIZE bytes of `struct dinode`. */
  function EncodeDinode(d: Dinode): (s: seq<byte>)
    ensures |s| == DINODE_SIZE
  {
    I16Bytes(d.dtype) + I16Bytes(d.major) + I16Bytes(d.minor) + I16Bytes(d.nlink)
    + U32Bytes(d.size) + EncodeAddrs(d.addrs)
  }

  function DecodeDinode(s: seq<byte>): Dinode
    requires |s| == DINODE_SIZE
  {
    Dinode(I16Of(s[0..2]), I16Of(s[2..4]), I16Of(s[4..6]), I16Of(s[6..8]),
           U32Of(s[8..12]), DecodeAddrs(s[12..]))
  }

  lemma DinodeRoundTrip(d: Dinode)
    ensures DecodeDinode(EncodeDinode(d)) == d
  {
    var s := EncodeDinode(d);
    assert s[0..2] == I16Bytes(d.dtype);
    assert s[2..4] == I16Bytes(d.major);
    assert s[4..6] == I16Bytes(d.minor);
    assert s[6..8] == I16Bytes(d.nlink);
    assert s[8..12] == U32Bytes(d.size);
    assert s[12..] == EncodeAddrs(d.addrs);
    I16RoundTrip(d.dtype); I16RoundTrip(d.major); I16RoundTrip(d.minor); I16RoundTrip(d.nlink);
    U32RoundTrip(d.size);
    AddrsRoundTrip(d.addrs);
  }

  /** `(struct dinode*)bp->data + slot`. */
  function LoadDinode(blk: Block, slot: nat): Dinode
    requires slot < IPB
  {
    DecodeDinode(blk[DINODE_SIZE * slot .. DINODE_SIZE * slot + DINODE_SIZE])
  }

  /** The block with the dinode in `slot` overwritten by d. */
  function StoreDinode(blk: Block, slot: nat, d: Dinode): (r: Block)
    requires slot < IPB
    ensures LoadDinode(r, slot) == d
    ensures forall t :: 0 <= t < IPB && t != slot ==> LoadDinode(r, t) == LoadDinode(blk, t)
  {
    assert DINODE_SIZE == 64;
    var o := DINODE_SIZE * slot;
    var r := blk[..o] + EncodeDinode(d) + blk[o + DINODE_SIZE..];
    SpliceAt(blk, o, EncodeDinode(d));
    DinodeRoundTrip(d);
    forall t | 0 <= t < IPB && t != slot
      ensures r[DINODE_SIZE * t .. DINODE_SIZE * t + DINODE_SIZE] == blk[DINODE_SIZE * t .. DINODE_SIZE * t + DINODE_SIZE]
    {
      assert DINODE_SIZE * t + DINODE_SIZE <= o || o + DINODE_SIZE <= DINODE_SIZE * t;
      SpliceFrame(blk, o, EncodeDinode(d), DINODE_SIZE * t, DINODE_SIZE * t + DINODE_SIZE);
    }
    r
  }

  // ---------------------------------------------------------------------
  // Directory entries

  /** The DIRENT_SIZE bytes of `struct dirent`. */
  function EncodeDirent(inum: nat, name: seq<byte>): (s: seq<byte>)
    requires inum < U16_LIMIT && |name| == DIRSIZE
    ensures |s| == DIRENT_SIZE
  {
    U16Bytes(inum) + name
  }
}
