/** mkfs/mkfs.myfuse-util.cc: `init_super_block`, the same layout as mkfs
  * computed in `uint` arithmetic, which the in-process file-system setup uses. */
module MkfsUtil {
  import opened Bytes
  import opened FsLayout
  import opened BlockMap
  import opened MkfsLayout

  /** A C `uint` sum or difference: reduced modulo 2^32. */
  function Wrap(x: int): (r: u32)
    ensures 0 <= x < U32_LIMIT ==> r == x
    ensures (r - x) % U32_LIMIT == 0
  {
    x % U32_LIMIT
  }

  /** The superblock init_super_block stores in the file system's state. The
    * quotients cannot wrap; the sums and the difference can. */
  function InitSuperBlock(diskSize: u32, nlog: u32): Superblock
  {
    Constants();
    var nbitmap := diskSize / BPB + 1;
    var ninodeBlocks := diskSize / 100 + 1;
    var ninodes := Wrap(ninodeBlocks * IPB);
    var nmeta := Wrap(2 + nlog + ninodeBlocks + nbitmap);
    Superblock(FSMAGIC, diskSize, Wrap(diskSize - nmeta), ninodes, nlog, 2,
               Wrap(2 + nlog), Wrap(2 + nlog + ninodeBlocks))
  }

  /** Whenever mkfs's `int` arithmetic does not overflow, init_super_block
    * computes the superblock mkfs writes. */
  lemma InitSuperBlockMatchesMkfs(diskSize: u32, nlog: u32)
    requires IntFits(diskSize, nlog)
    ensures InitSuperBlock(diskSize, nlog) == MkfsSuperblock(diskSize, nlog)
  {
    Constants();
  }

  /** The test image (test/test_util.cc, a disk of MAX_BLOCK_NO = 400000
    * blocks): 49 bitmap blocks and 4001 inode blocks holding 64016 inodes, so
    * data starts at block 4052 + nlog. */
  lemma TestImageLayout(nlog: u32)
    requires nlog <= 1000
    ensures var sb := InitSuperBlock(400000, nlog);
      && sb.ninodes == 64016 && sb.inodestart == 2 + nlog && sb.bmapstart == 4003 + nlog
      && DataStart(sb) == 4052 + nlog && sb.nblocks == 395948 - nlog
      && SaneLayout(sb)
  {
    Constants();
  }
}
