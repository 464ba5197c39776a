/** The specification of the inode operations of src/inode.c that move inodes
  * between the disk and the in-memory table: ilock, iupdate, ialloc, iput. */
module InodeSpec {
  import opened Bytes
  import opened FsLayout
  import opened AbstractDisk
  import opened Outcome
  import opened Bitmap
  import opened InodeTable
  import opened Truncate
  import opened BlockMap
  import opened TruncateFrees

  /** The on-disk fields of a table slot. */
  function DinodeOf(n: Inode): Dinode
  {
    Dinode(n.itype, n.major, n.minor, n.nlink, n.size, n.addrs)
  }

  /** The on-disk copy of inode inum. */
  function DiskInode(d: Disk, sb: Superblock, inum: nat): Dinode
  {
    LoadDinode(Read(d, IBlock(inum, sb)), inum % IPB)
  }

  /** ilock(ip): a slot without references is fatal; a slot not yet loaded is
    * filled from disk and marked loaded, and it is fatal if the on-disk inode
    * is unused. */
  function IlockSpec(d: Disk, sb: Superblock, n: Inode): (r: Result<Inode>)
    ensures r.Ok? <==> n.ref >= 1 && (n.valid || DiskInode(d, sb, n.inum).dtype != T_UNUSE)
    ensures r.Ok? ==> r.value.valid && r.value.inum == n.inum && r.value.ref == n.ref
    ensures r.Ok? && n.valid ==> r.value == n
    ensures r.Ok? && !n.valid ==> DinodeOf(r.value) == DiskInode(d, sb, n.inum)
  {
    if n.ref < 1 then Fail("ilock got invalid inode")
    else if n.valid then Ok(n)
    else
      var di := DiskInode(d, sb, n.inum);
      var n' := n.(itype := di.dtype, major := di.major, minor := di.minor,
                   nlink := di.nlink, size := di.size, addrs := di.addrs, valid := true);
      if n'.itype == T_UNUSE then Fail("ilock: ip is unused") else Ok(n')
  }

  /** iupdate(ip): the slot's on-disk fields written to its place in its inode block. */
  function IupdateSpec(d: Disk, sb: Superblock, n: Inode): Disk
  {
    var b := IBlock(n.inum, sb);
    d[b := StoreDinode(Read(d, b), n.inum % IPB, DinodeOf(n))]
  }

  /** After iupdate the disk holds the slot's fields for its inode, and every
    * other inode is as it was. */
  lemma IupdateStores(d: Disk, sb: Superblock, n: Inode, inum: nat)
    ensures DiskInode(IupdateSpec(d, sb, n), sb, inum) ==
      if inum == n.inum as nat then DinodeOf(n) else DiskInode(d, sb, inum)
  {
    Constants();
    var b := IBlock(n.inum, sb);
    var blk := StoreDinode(Read(d, b), n.inum % IPB, DinodeOf(n));
    if inum != n.inum as nat {
      IBlockInjective(inum, n.inum as nat, sb);
      if IBlock(inum, sb) == b {
        assert inum % IPB != n.inum % IPB && inum % IPB < IPB;
        assert LoadDinode(blk, inum % IPB) == LoadDinode(Read(d, b), inum % IPB);
      } else {
        assert Read(IupdateSpec(d, sb, n), IBlock(inum, sb)) == Read(d, IBlock(inum, sb));
      }
    }
  }

  /** Writing a slot back and then reloading it (after iput has marked it
    * "not loaded") gives back the same fields. */
  lemma IupdateThenIlock(d: Disk, sb: Superblock, n: Inode)
    requires n.ref >= 1 && n.itype != T_UNUSE
    ensures IlockSpec(IupdateSpec(d, sb, n), sb, n.(valid := false)) == Ok(n.(valid := true))
  {
    IupdateStores(d, sb, n, n.inum as nat);
  }

  /** The lowest inode number in [i, ninodes) whose on-disk type is unused. */
  function FirstUnused(d: Disk, sb: Superblock, i: nat): (r: Option)
    decreases sb.ninodes - i
    ensures r.Some? ==> i <= r.block < sb.ninodes && DiskInode(d, sb, r.block).dtype == T_UNUSE
    ensures r.Some? ==> forall j :: i <= j < r.block ==> DiskInode(d, sb, j).dtype != T_UNUSE
    ensures r.None? ==> forall j :: i <= j < sb.ninodes ==> DiskInode(d, sb, j).dtype != T_UNUSE
  {
    if i >= sb.ninodes then None
    else if DiskInode(d, sb, i).dtype == T_UNUSE then Some(i)
    else FirstUnused(d, sb, i + 1)
  }

  /** The disk after ialloc claims inode inum: its dinode cleared and typed. */
  function ClaimDinode(d: Disk, sb: Superblock, inum: nat, itype: i16): Disk
  {
    var b := IBlock(inum, sb);
    d[b := StoreDinode(Read(d, b), inum % IPB, Dinode(itype, 0, 0, 0, 0, NoAddrs))]
  }

  /** ialloc(type): the disk, the table and the slot index afterwards. Inode 0 is
    * never handed out; running out of inodes is fatal. */
  function IallocSpec(d: Disk, sb: Superblock, t: seq<Inode>, itype: i16): Result<(Disk, seq<Inode>, nat)>
    requires |t| > 0
  {
    match FirstUnused(d, sb, 1)
    case None => Fail("too much file on disk!")
    case Some(inum) =>
      var (t', ip) := IgetSpec(t, inum as u32);
      Ok((ClaimDinode(d, sb, inum, itype), t', ip))
  }

  /** ialloc's loop finding unused inode inum, with every inode from 1 below it
    * in use: the allocation it then makes is IallocSpec's. */
  lemma IallocFound(d: Disk, sb: Superblock, t: seq<Inode>, itype: i16, inum: nat)
    requires |t| > 0 && 1 <= inum < sb.ninodes
    requires FirstUnused(d, sb, 1) == FirstUnused(d, sb, inum)
    requires DiskInode(d, sb, inum).dtype == T_UNUSE
    ensures inum < U32_LIMIT
    ensures IallocSpec(d, sb, t, itype) ==
      Ok((ClaimDinode(d, sb, inum, itype), IgetSpec(t, inum as u32).0, IgetSpec(t, inum as u32).1))
  {
  }

  /** ialloc fails exactly when inodes 1 .. ninodes - 1 are all in use. */
  lemma IallocFailsWhenFull(d: Disk, sb: Superblock, t: seq<Inode>, itype: i16)
    requires |t| > 0
    ensures IallocSpec(d, sb, t, itype).Fail? <==>
      forall k :: 1 <= k < sb.ninodes ==> DiskInode(d, sb, k).dtype != T_UNUSE
  {
    var f := FirstUnused(d, sb, 1);
    if f.Some? {
      assert DiskInode(d, sb, f.block).dtype == T_UNUSE;
    }
  }

  /** Otherwise ialloc claims the lowest unused inode, which afterwards is of the
    * requested type with every other field zero, returns a referenced slot for
    * it, and leaves every other on-disk inode as it was. */
  lemma IallocClaimsLowest(d: Disk, sb: Superblock, t: seq<Inode>, itype: i16, j: nat)
    requires |t| > 0 && IallocSpec(d, sb, t, itype).Ok?
    ensures var (d', t', ip) := IallocSpec(d, sb, t, itype).value;
      && ip < |t'| && t'[ip].ref >= 1
      && var inum := t'[ip].inum as nat;
      && 1 <= inum < sb.ninodes && DiskInode(d, sb, inum).dtype == T_UNUSE
      && (forall k :: 1 <= k < inum ==> DiskInode(d, sb, k).dtype != T_UNUSE)
      && DiskInode(d', sb, inum) == Dinode(itype, 0, 0, 0, 0, NoAddrs)
      && (j != inum ==> DiskInode(d', sb, j) == DiskInode(d, sb, j))
  {
    var inum := FirstUnused(d, sb, 1).block;
    var (t', ip) := IgetSpec(t, inum as u32);
    assert IallocSpec(d, sb, t, itype).value == (ClaimDinode(d, sb, inum, itype), t', ip);
    IgetReturnsSlot(t, inum as u32);
    var z := Inode(inum as u32, 1, false, itype, 0, 0, 0, 0, NoAddrs);
    assert ClaimDinode(d, sb, inum, itype) == IupdateSpec(d, sb, z);
    IupdateStores(d, sb, z, inum);
    IupdateStores(d, sb, z, j);
  }

  /** iput(ip): dropping the last reference to a loaded inode with no links
    * truncates it, marks it unused and writes it back; any other call only
    * drops the reference. As written (fixed false) the truncation is itrunc's
    * and leaves the slot's addresses and size in place; the corrected
    * truncation skips zero slots and clears both. */
  function IputSpec(c: Cache, sb: Superblock, n: Inode, fixed: bool): Result<(Cache, Inode)>
  {
    if n.ref == 1 && n.valid && n.nlink == 0 then
      var c1 :- TruncSpec(c, sb, n.addrs, fixed);
      var n0 := if fixed then n.(addrs := NoAddrs, size := 0) else n;
      var n1 := n0.(itype := T_UNUSE);
      Ok((c1.(disk := IupdateSpec(c1.disk, sb, n1)), n1.(valid := false, ref := 0)))
    else Ok((c, n.(ref := n.ref - 1)))
  }

  /** iput lowers the reference count by one and keeps the inode number; only
    * the last reference to a loaded, unlinked inode touches the disk. */
  lemma IputDropsRef(c: Cache, sb: Superblock, n: Inode, fixed: bool)
    requires IputSpec(c, sb, n, fixed).Ok?
    ensures var (c', n') := IputSpec(c, sb, n, fixed).value;
      && n'.ref == n.ref - 1 && n'.inum == n.inum
      && (!(n.ref == 1 && n.valid && n.nlink == 0) ==> c' == c && n' == n.(ref := n.ref - 1))
  {}

  /** After the last iput of an unlinked inode the slot is free, the on-disk
    * inode is unused with no blocks (so ialloc may hand it out again), and no
    * buffer is left held. */
  lemma IputFreesInode(c: Cache, sb: Superblock, n: Inode)
    requires n.ref == 1 && n.valid && n.nlink == 0
    requires IputSpec(c, sb, n, true).Ok?
    ensures var (c', n') := IputSpec(c, sb, n, true).value;
      && n'.ref == 0 && !n'.valid && n'.inum == n.inum
      && DiskInode(c'.disk, sb, n.inum as nat) == Dinode(T_UNUSE, n.major, n.minor, 0, 0, NoAddrs)
      && c'.held == c.held
  {
    TruncKeepsHeld(c, sb, n.addrs);
    var c1 := TruncSpec(c, sb, n.addrs, true).value;
    IupdateStores(c1.disk, sb, n.(addrs := NoAddrs, size := 0, itype := T_UNUSE), n.inum as nat);
  }

  /** The last iput of an unlinked inode whose blocks are in-use data blocks,
    * each named once, and whose dinode lies before the bitmap, succeeds and
    * leaves exactly the inode's blocks freed in the bitmap. */
  lemma IputFreesBlocks(c: Cache, sb: Superblock, n: Inode)
    requires n.ref == 1 && n.valid && n.nlink == 0
    requires SaneLayout(sb) && InodeBlocksOk(c.disk, sb, n.addrs) && IBlock(n.inum as nat, sb) < sb.bmapstart
    ensures IputSpec(c, sb, n, true).Ok?
    ensures forall m :: Allocated(IputSpec(c, sb, n, true).value.0.disk, sb, m)
                        == (Allocated(c.disk, sb, m) && m !in InodeBlocks(c.disk, n.addrs))
  {
    TruncFrees(c, sb, n.addrs);
    var c1 := TruncSpec(c, sb, n.addrs, true).value;
    var n1 := n.(addrs := NoAddrs, size := 0).(itype := T_UNUSE);
    var d' := IupdateSpec(c1.disk, sb, n1);
    assert IputSpec(c, sb, n, true) == Ok((c1.(disk := d'), n1.(valid := false, ref := 0)));
    forall m
      ensures Allocated(d', sb, m) == Allocated(c1.disk, sb, m)
    {
      Constants();
      assert BBlock(m, sb) != IBlock(n.inum as nat, sb);
    }
  }

  /** As written, the inode that iput frees is written back unused but still
    * with its old size and the addresses of the blocks itrunc has just freed. */
  lemma IputAsWrittenKeepsAddrs(c: Cache, sb: Superblock, n: Inode)
    requires n.ref == 1 && n.valid && n.nlink == 0
    requires IputSpec(c, sb, n, false).Ok?
    ensures var (c', n') := IputSpec(c, sb, n, false).value;
      && n'.addrs == n.addrs && n'.size == n.size
      && DiskInode(c'.disk, sb, n.inum as nat) == Dinode(T_UNUSE, n.major, n.minor, 0, n.size, n.addrs)
  {
    var c1 := TruncSpec(c, sb, n.addrs, false).value;
    IupdateStores(c1.disk, sb, n.(itype := T_UNUSE), n.inum as nat);
  }
}
