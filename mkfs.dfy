/** mkfs/mkfs.myfuse.c writing a fresh image: the device and the static
  * `data_buf` it stages blocks in. `write_block_raw` is an update of the
  * device map. */
module Mkfs {
  import opened Bytes
  import opened FsLayout
  import opened AbstractDisk
  import opened MkfsLayout

  class Formatter {
    /** The device's blocks. */
    var disk: Disk
    /** `static char data_buf[BSIZE]`. */
    const dataBuf: array<byte>

    predicate Valid()
      reads this
    {
      dataBuf.Length == BSIZE
    }

    /** A static buffer starts zeroed. */
    constructor(d0: Disk)
      ensures Valid() && disk == d0 && dataBuf[..] == ZeroBlock
    {
      disk := d0;
      dataBuf := new byte[BSIZE](_ => 0);
    }

    /** `memset(data_buf, v, n)`. */
    method Memset(v: byte, n: nat)
      requires Valid() && n <= BSIZE
      modifies dataBuf
      ensures dataBuf[..] == Fill(n, v) + old(dataBuf[n..])
    {
      var i := 0;
      while i < n
        invariant 0 <= i <= n
        invariant forall k :: 0 <= k < i ==> dataBuf[k] == v
        invariant forall k :: i <= k < dataBuf.Length ==> dataBuf[k] == old(dataBuf[k])
      {
        dataBuf[i] := v;
        i := i + 1;
      }
    }

    /** `memmove(data_buf, src, |src|)`. */
    method Memmove(src: seq<byte>)
      requires Valid() && |src| <= BSIZE
      modifies dataBuf
      ensures dataBuf[..] == src + old(dataBuf[|src|..])
    {
      var i := 0;
      while i < |src|
        invariant 0 <= i <= |src|
        invariant forall k :: 0 <= k < i ==> dataBuf[k] == src[k]
        invariant forall k :: i <= k < dataBuf.Length ==> dataBuf[k] == old(dataBuf[k])
      {
        dataBuf[i] := src[i];
        i := i + 1;
      }
    }

    /** Lines 128-130: block 1 gets the superblock followed by zeros. */
    method WriteSuperBlock(sb: Superblock)
      requires Valid()
      modifies this, dataBuf
      ensures Valid()
      ensures dataBuf[..] == SuperBlockImage(sb)
      ensures disk == old(disk)[1 := SuperBlockImage(sb)]
    {
      Memset(0, BSIZE);
      Memmove(EncodeSuperblock(sb));
      assert dataBuf[..] == SuperBlockImage(sb);
      disk := disk[1 := dataBuf[..]];
    }

    /** Lines 132-134: blocks 2 .. nmeta - 1 are zeroed. */
    method ZeroMeta(nmeta: nat)
      modifies this
      ensures disk == SetRange(old(disk), 2, nmeta, ZeroBlock)
    {
      var i := 2;
      while i < nmeta
        invariant 2 <= i && (i == 2 || i <= nmeta)
        invariant disk == SetRange(old(disk), 2, i, ZeroBlock)
      {
        disk := disk[i := ZeroBlock];
        i := i + 1;
      }
      if nmeta < 2 {
        assert SetRange(old(disk), 2, nmeta, ZeroBlock) == old(disk) == SetRange(old(disk), 2, i, ZeroBlock);
      }
    }

    /** Lines 141-144: `meta_bitmap_left_byte` with bits 0 .. leftBits - 1 set. */
    method LeftByte(leftBits: nat) returns (r: byte)
      requires leftBits < 8
      ensures r == LowByte(leftBits)
    {
      r := 0;
      var i := 0;
      while i < leftBits
        invariant 0 <= i <= leftBits
        invariant r == LowByte(i)
      {
        r := SetBit(r, i);
        i := i + 1;
      }
    }

    /** Lines 145-148: the bitmap blocks whose bits all belong to metadata. */
    method WriteFullBitmapBlocks(start: nat, count: nat)
      requires Valid()
      modifies this, dataBuf
      ensures Valid()
      ensures disk == SetRange(old(disk), start, start + count, Ones)
      ensures dataBuf[..] == if count > 0 then Ones else old(dataBuf[..])
    {
      var i := start;
      while i < start + count
        invariant start <= i <= start + count
        invariant disk == SetRange(old(disk), start, i, Ones)
        invariant dataBuf[..] == if i > start then Ones else old(dataBuf[..])
      {
        Memset(0xFF, BSIZE);
        assert dataBuf[..] == Ones;
        disk := disk[i := dataBuf[..]];
        i := i + 1;
      }
    }

    /** Lines 149-151: the bitmap block holding block nmeta's bit, over
      * whatever data_buf holds. */
    method WriteLastBitmapBlock(index: nat, nmeta: nat)
      requires Valid()
      modifies this, dataBuf
      ensures Valid()
      ensures disk == old(disk)[index := LastBitmapBlock(old(dataBuf[..]), nmeta)]
    {
      var bit := nmeta % BPB;
      var byteIdx := bit / 8;
      var left := LeftByte(bit % 8);
      Memset(0xFF, byteIdx);
      dataBuf[byteIdx] := left;
      assert dataBuf[..] == LastBitmapBlock(old(dataBuf[..]), nmeta);
      disk := disk[index := dataBuf[..]];
    }

    /** Lines 137-151 as written. */
    method WriteBitmapAsWritten(sb: Superblock, nmeta: nat)
      requires Valid()
      modifies this, dataBuf
      ensures Valid()
      ensures
        var nfull := nmeta / BPB;
        var prev := if nfull > 0 then Ones else old(dataBuf[..]);
        disk == SetRange(old(disk), sb.bmapstart, sb.bmapstart + nfull, Ones)
                  [sb.bmapstart + nfull := LastBitmapBlock(prev, nmeta)]
    {
      var nfull := nmeta / BPB;
      WriteFullBitmapBlocks(sb.bmapstart, nfull);
      WriteLastBitmapBlock(nfull + sb.bmapstart, nmeta);
    }

    /** Lines 137-151 with data_buf zeroed before the last bitmap block. */
    method WriteBitmap(sb: Superblock, nmeta: nat)
      requires Valid()
      modifies this, dataBuf
      ensures Valid()
      ensures
        var nfull := nmeta / BPB;
        disk == SetRange(old(disk), sb.bmapstart, sb.bmapstart + nfull, Ones)
                  [sb.bmapstart + nfull := LastBitmapBlock(ZeroBlock, nmeta)]
    {
      var nfull := nmeta / BPB;
      WriteFullBitmapBlocks(sb.bmapstart, nfull);
      Memset(0, BSIZE);
      assert dataBuf[..] == ZeroBlock;
      WriteLastBitmapBlock(nfull + sb.bmapstart, nmeta);
    }

    /** Lines 105-151 as written: lay out a device of diskSize blocks with
      * nlog log blocks and write its metadata. */
    method FormatAsWritten(diskSize: u32, nlog: nat) returns (sb: Superblock)
      requires Valid() && IntFits(diskSize, nlog)
      modifies this, dataBuf
      ensures Valid()
      ensures sb == MkfsSuperblock(diskSize, nlog)
      ensures disk == FormatImage(old(disk), diskSize, nlog, false)
    {
      var layout := DiskLayout(diskSize, nlog);
      sb := MkfsSuperblock(diskSize, nlog);
      WriteSuperBlock(sb);
      ZeroMeta(layout.nmetaBlocks);
      WriteBitmapAsWritten(sb, layout.nmetaBlocks);
    }

    /** Lines 105-151 with the corrected last bitmap block. */
    method Format(diskSize: u32, nlog: nat) returns (sb: Superblock)
      requires Valid() && IntFits(diskSize, nlog)
      modifies this, dataBuf
      ensures Valid()
      ensures sb == MkfsSuperblock(diskSize, nlog)
      ensures disk == FormatImage(old(disk), diskSize, nlog, true)
    {
      var layout := DiskLayout(diskSize, nlog);
      sb := MkfsSuperblock(diskSize, nlog);
      WriteSuperBlock(sb);
      ZeroMeta(layout.nmetaBlocks);
      WriteBitmap(sb, layout.nmetaBlocks);
    }
  }
}
