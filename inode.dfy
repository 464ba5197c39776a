/** The inode layer of src/inode.c as a class: the in-memory inode table, the
  * disk as seen through the buffer cache, and the buffers held. Each method is
  * proved against the specification function of its operation. */
module Inodes {
  import opened Bytes
  import opened FsLayout
  import opened AbstractDisk
  import opened Outcome
  import opened Bitmap
  import opened InodeTable
  import opened InodeSpec
  import opened Truncate
  import opened BlockMap

  class InodeLayer {
    /** The superblock the file system was mounted with. */
    const sb: Superblock
    /** Block contents, as the buffer cache and the log present them. */
    var disk: Disk
    /** Blocks whose buffers were taken with `logged_read` and not yet released,
      * one entry per hold. */
    var held: seq<nat>
    /** `itable.inode[0 .. itable.ninode]` */
    var itable: seq<Inode>

    /** The table is never empty, and no two referenced slots hold the same
      * inode number. */
    predicate Valid()
      reads this
    {
      |itable| > 0 && Unique(itable)
    }

    /** The cache state the specification functions work on. */
    function CacheOf(): Cache
      reads this
    {
      Cache(disk, held)
    }

    /** inode_init: a table of NINODE_INIT empty slots. */
    constructor (sb0: Superblock, d0: Disk)
      ensures Valid() && sb == sb0 && disk == d0 && held == []
      ensures itable == seq(NINODE_INIT, _ => FreshSlot)
    {
      sb := sb0;
      disk := d0;
      held := [];
      itable := seq(NINODE_INIT, _ => FreshSlot);
    }

    /* The inode table. */

    /** itable_grow */
    method ItableGrow()
      modifies this
      ensures itable == Grow(old(itable)) && disk == old(disk) && held == old(held)
    {
      itable := itable + seq(|itable|, _ => FreshSlot);
    }

    /** iget(inum): the index of the slot returned. */
    method Iget(inum: u32) returns (ip: nat)
      requires Valid()
      modifies this
      decreases if FindFree(itable, 0) < |itable| then 0 else 1
      ensures Valid() && (itable, ip) == IgetSpec(old(itable), inum)
      ensures disk == old(disk) && held == old(held)
    {
      IgetKeepsUnique(itable, inum);
      var victim := -1;
      var i := 0;
      while i < |itable|
        invariant 0 <= i <= |itable|
        invariant forall j :: 0 <= j < i ==> !Cached(itable[j], inum)
        invariant victim == -1 ==> FindFree(itable, 0) >= i
        invariant victim != -1 ==> 0 <= victim < i && victim == FindFree(itable, 0)
      {
        if itable[i].inum == inum && itable[i].ref > 0 {
          assert FindCached(itable, inum, 0) == i;
          itable := itable[i := itable[i].(ref := itable[i].ref + 1)];
          return i;
        }
        if itable[i].ref == 0 && victim == -1 {
          victim := i;
        }
        i := i + 1;
      }
      assert FindCached(itable, inum, 0) == |itable|;
      if victim != -1 {
        itable := itable[victim := Claim(itable[victim], inum)];
        return victim;
      }
      ghost var t := itable;
      ItableGrow();
      GrowKeepsUnique(t);
      assert itable[|t|] == FreshSlot;
      ip := Iget(inum);
    }

    /** idup(ip) */
    method Idup(ip: nat)
      requires Valid() && ip < |itable|
      modifies this
      ensures itable == old(itable)[ip := old(itable)[ip].(ref := old(itable)[ip].ref + 1)]
      ensures disk == old(disk) && held == old(held)
      ensures old(itable)[ip].ref > 0 ==> Valid()
    {
      if itable[ip].ref > 0 {
        UpdateKeepsUnique(itable, ip, itable[ip].(ref := itable[ip].ref + 1));
      }
      itable := itable[ip := itable[ip].(ref := itable[ip].ref + 1)];
    }

    /** ilock(ip); false where the code calls err_exit. */
    method Ilock(ip: nat) returns (ok: bool)
      requires Valid() && ip < |itable|
      modifies this
      ensures var spec := IlockSpec(old(disk), sb, old(itable)[ip]);
        && ok == spec.Ok?
        && (ok ==> itable == old(itable)[ip := spec.value] && disk == old(disk) && held == old(held))
      ensures Valid()
    {
      var n := itable[ip];
      if n.ref < 1 {
        return false;
      }
      if !n.valid {
        var b := IBlock(n.inum as nat, sb);
        var blk := Read(disk, b);  // logged_read
        held := held + [b];
        var di := LoadDinode(blk, n.inum as nat % IPB);
        n := n.(itype := di.dtype, major := di.major, minor := di.minor,
                nlink := di.nlink, size := di.size, addrs := di.addrs);
        held := Unhold(held, b);  // logged_relse
        TakeThenDrop(old(held), b);
        n := n.(valid := true);
        itable := itable[ip := n];
        UpdateKeepsUnique(old(itable), ip, n);
        if n.itype == T_UNUSE {
          return false;
        }
      }
      ok := true;
    }

    /** iupdate(ip) */
    method Iupdate(ip: nat)
      requires ip < |itable|
      modifies this
      ensures disk == IupdateSpec(old(disk), sb, old(itable)[ip])
      ensures held == old(held) && itable == old(itable)
    {
      var n := itable[ip];
      var b := IBlock(n.inum as nat, sb);
      var blk := Read(disk, b);  // logged_read
      held := held + [b];
      blk := StoreDinode(blk, n.inum as nat % IPB, DinodeOf(n));
      disk := disk[b := blk];  // logged_write
      held := Unhold(held, b);  // logged_relse
      TakeThenDrop(old(held), b);
    }

    /** The branch of ialloc that finds inode inum unused: clear and type its
      * dinode (its buffer already taken), and iget a slot for it. */
    method ClaimInode(inum: u32, itype: i16) returns (ip: nat)
      requires Valid()
      modifies this
      ensures Valid() && ip < |itable| && itable[ip].inum == inum
      ensures disk == ClaimDinode(old(disk), sb, inum as nat, itype)
      ensures (itable, ip) == IgetSpec(old(itable), inum)
      ensures held == old(held)
    {
      var b := IBlock(inum as nat, sb);
      var blk := Read(disk, b);
      blk := StoreDinode(blk, inum as nat % IPB, Dinode(itype, 0, 0, 0, 0, NoAddrs));
      disk := disk[b := blk];  // logged_write
      ip := Iget(inum);
      IgetReturnsSlot(old(itable), inum);
    }

    /** ialloc(type), as written: the buffer of the claimed inode's block is
      * written but never released. */
    method IallocAsWritten(itype: i16) returns (r: Result<nat>)
      requires Valid()
      modifies this
      ensures Valid() && (r.Ok? ==> r.value < |itable|)
      ensures var spec := IallocSpec(old(disk), sb, old(itable), itype);
        && r.Ok? == spec.Ok?
        && (r.Ok? ==>
              && (disk, itable, r.value) == spec.value
              && held == old(held) + [IBlock(itable[r.value].inum as nat, sb)])
    {
      assert IPB == 16;
      var inum: nat := 1;
      while inum < sb.ninodes
        invariant 1 <= inum
        invariant disk == old(disk) && held == old(held) && itable == old(itable)
        invariant FirstUnused(disk, sb, 1) == FirstUnused(disk, sb, inum)
        decreases sb.ninodes - inum
      {
        var b := IBlock(inum, sb);
        var blk := Read(disk, b);  // logged_read
        held := held + [b];
        if LoadDinode(blk, inum % IPB).dtype == T_UNUSE {
          IallocFound(old(disk), sb, old(itable), itype, inum);
          var ip := ClaimInode(inum as u32, itype);
          return Ok(ip);
        }
        held := Unhold(held, b);  // brelse
        TakeThenDrop(old(held), b);
        inum := inum + 1;
      }
      assert FirstUnused(disk, sb, inum) == None;
      r := Fail("too much file on disk!");
    }

    /** ialloc(type) with the missing release of the claimed inode's buffer. */
    method Ialloc(itype: i16) returns (r: Result<nat>)
      requires Valid()
      modifies this
      ensures Valid()
      ensures var spec := IallocSpec(old(disk), sb, old(itable), itype);
        && r.Ok? == spec.Ok?
        && (r.Ok? ==> (disk, itable, r.value) == spec.value && held == old(held))
    {
      r := IallocAsWritten(itype);
      if r.Ok? {
        var b := IBlock(itable[r.value].inum as nat, sb);
        held := Unhold(held, b);  // brelse
        TakeThenDrop(old(held), b);
      }
    }

    /* The block allocator. */

    /** zero_a_block(bno) */
    method ZeroABlock(bno: nat)
      modifies this
      ensures disk == old(disk)[bno := ZeroBlock] && held == old(held) && itable == old(itable)
    {
      held := held + [bno];  // logged_read
      disk := disk[bno := ZeroBlock];  // logged_write
      held := Unhold(held, bno);  // logged_relse
      TakeThenDrop(old(held), bno);
    }

    /** block_alloc: scans the bitmap one bitmap block at a time. */
    method BlockAlloc() returns (r: Result<nat>)
      modifies this
      ensures var spec := BlockAllocSpec(old(disk), sb);
        && r.Ok? == spec.Ok?
        && (r.Ok? ==> r.value == spec.value.0 && disk == spec.value.1)
        && held == old(held) && itable == old(itable)
    {
      var b: nat := 0;
      while b < sb.size
        invariant b % BPB == 0
        invariant disk == old(disk) && held == old(held) && itable == old(itable)
        invariant forall m :: 0 <= m < b && m < sb.size ==> Allocated(disk, sb, m)
        decreases sb.size - b
      {
        var bb := BBlock(b, sb);
        var blk := Read(disk, bb);  // logged_read
        held := held + [bb];
        var bi: nat := 0;
        while bi < BPB && b + bi < sb.size
          invariant bi <= BPB
          invariant disk == old(disk) && held == old(held) + [bb] && itable == old(itable)
          invariant blk == Read(disk, bb)
          invariant forall m :: 0 <= m < b + bi && m < sb.size ==> Allocated(disk, sb, m)
        {
          BitLocation(b, bi, sb);
          if !ByteBit(blk[bi / 8], bi % 8) {
            BlockAllocFound(disk, sb, b, bi);
            disk := disk[bb := blk[bi / 8 := SetBit(blk[bi / 8], bi % 8)]];  // logged_write
            held := Unhold(held, bb);  // logged_relse
            TakeThenDrop(old(held), bb);
            ZeroABlock(b + bi);
            return Ok(b + bi);
          }
          bi := bi + 1;
        }
        held := Unhold(held, bb);  // brelse
        TakeThenDrop(old(held), bb);
        NextBitmapBlock(b);
        b := b + BPB;
      }
      r := Fail("balloc: out of blocks");
    }

    /** block_free(b); false where the code calls err_exit. */
    method BlockFree(b: nat) returns (ok: bool)
      modifies this
      ensures var spec := BlockFreeSpec(old(disk), sb, b);
        && ok == spec.Ok?
        && (ok ==> disk == spec.value && held == old(held))
        && itable == old(itable)
    {
      var bb := BBlock(b, sb);
      var blk := Read(disk, bb);  // logged_read
      held := held + [bb];
      var bi := b % BPB;
      if !ByteBit(blk[bi / 8], bi % 8) {
        return false;
      }
      disk := disk[bb := blk[bi / 8 := ClearBit(blk[bi / 8], bi % 8)]];  // logged_write
      held := Unhold(held, bb);  // logged_relse
      TakeThenDrop(old(held), bb);
      ok := true;
    }
 
    /* Block mapping. */

    /** `if ((addr = ip->addrs[k]) == 0) ip->addrs[k] = addr = block_alloc();` */
    method AllocSlot(ip: nat, k: nat) returns (r: Result<u32>)
      requires ip < |itable| && k < NBLOCKADDR
      modifies this
      ensures var spec := AllocIfZero(old(disk), sb, old(itable)[ip].addrs[k]);
        && r.Ok? == spec.Ok?
        && (r.Ok? ==>
              && r.value == spec.value.0 && disk == spec.value.1
              && itable == old(itable)[ip := old(itable)[ip].(addrs := old(itable)[ip].addrs[k := r.value])])
        && held == old(held)
    {
      var addr := itable[ip].addrs[k];
      if addr == 0 {
        var n := BlockAlloc();
        if n.Fail? {
          return Fail(n.reason);
        }
        addr := n.value as u32;
      }
      var na: Addrs := itable[ip].addrs[k := addr];
      itable := itable[ip := itable[ip].(addrs := na)];
      r := Ok(addr);
    }

    /** The step repeated for each pointer block on the path: entry idx of ptr,
      * allocated and written back when it is 0. */
    method WalkIndirect(ptr: nat, idx: nat) returns (r: Result<u32>)
      requires idx < NINDIRECT1
      modifies this
      ensures var spec := WalkEntry(old(disk), sb, ptr, idx);
        && r.Ok? == spec.Ok?
        && (r.Ok? ==> r.value == spec.value.0 && disk == spec.value.1 && held == old(held))
        && itable == old(itable)
    {
      var blk := Read(disk, ptr);  // logged_read
      held := held + [ptr];
      var addr := Entry(blk, idx);
      if addr == 0 {
        var n := BlockAlloc();
        if n.Fail? {
          return Fail(n.reason);
        }
        addr := n.value as u32;
        blk := Read(disk, ptr);
        disk := disk[ptr := SetEntry(blk, idx, addr)];  // logged_write
      }
      held := Unhold(held, ptr);  // logged_relse
      TakeThenDrop(old(held), ptr);
      r := Ok(addr);
    }

    /** The singly-indirect branch of imap2blockno. */
    method MapSingleIndirect(ip: nat, i: nat) returns (r: Result<u32>)
      requires ip < |itable| && i < NINDIRECT1
      modifies this
      ensures var spec := MapSingle(old(disk), sb, old(itable)[ip].addrs, i);
        && r.Ok? == spec.Ok?
        && (r.Ok? ==>
              && r.value == spec.value.0 && disk == spec.value.1 && held == old(held)
              && itable == old(itable)[ip := old(itable)[ip].(addrs := spec.value.2)])
    {
      var root := AllocSlot(ip, NDIRECT);
      if root.Fail? {
        return Fail(root.reason);
      }
      r := WalkIndirect(root.value as nat, i);
    }

    /** The doubly-indirect branch of imap2blockno. */
    method MapDoubleIndirect(ip: nat, entry: nat, offset: nat) returns (r: Result<u32>)
      requires ip < |itable| && entry < NINDIRECT1 && offset < NINDIRECT1
      modifies this
      ensures var spec := MapDouble(old(disk), sb, old(itable)[ip].addrs, entry, offset);
        && r.Ok? == spec.Ok?
        && (r.Ok? ==>
              && r.value == spec.value.0 && disk == spec.value.1 && held == old(held)
              && itable == old(itable)[ip := old(itable)[ip].(addrs := spec.value.2)])
    {
      var root := AllocSlot(ip, NDIRECT + 1);
      if root.Fail? {
        return Fail(root.reason);
      }
      var mid := WalkIndirect(root.value as nat, entry);
      if mid.Fail? {
        return Fail(mid.reason);
      }
      r := WalkIndirect(mid.value as nat, offset);
    }

    /** The triply-indirect branch of imap2blockno. */
    method MapTripleIndirect(ip: nat, entryl1: nat, entryl2: nat, offsetl2: nat) returns (r: Result<u32>)
      requires ip < |itable| && entryl1 < NINDIRECT1 && entryl2 < NINDIRECT1 && offsetl2 < NINDIRECT1
      modifies this
      ensures var spec := MapTriple(old(disk), sb, old(itable)[ip].addrs, entryl1, entryl2, offsetl2);
        && r.Ok? == spec.Ok?
        && (r.Ok? ==>
              && r.value == spec.value.0 && disk == spec.value.1 && held == old(held)
              && itable == old(itable)[ip := old(itable)[ip].(addrs := spec.value.2)])
    {
      var root := AllocSlot(ip, NDIRECT + 2);
      if root.Fail? {
        return Fail(root.reason);
      }
      var l1 := WalkIndirect(root.value as nat, entryl1);
      if l1.Fail? {
        return Fail(l1.reason);
      }
      var l2 := WalkIndirect(l1.value as nat, entryl2);
      if l2.Fail? {
        return Fail(l2.reason);
      }
      r := WalkIndirect(l2.value as nat, offsetl2);
    }

    /** imap2blockno(ip, bn) */
    method Imap2Blockno(ip: nat, bn: nat) returns (r: Result<u32>)
      requires ip < |itable|
      modifies this
      ensures var spec := MapBlock(old(disk), sb, old(itable)[ip].addrs, bn);
        && r.Ok? == spec.Ok?
        && (r.Ok? ==>
              && r.value == spec.value.0 && disk == spec.value.1 && held == old(held)
              && itable == old(itable)[ip := old(itable)[ip].(addrs := spec.value.2)])
    {
      Constants();
      if bn < NDIRECT {
        r := AllocSlot(ip, bn);
        return;
      }
      var b := bn - NDIRECT;
      if b < NINDIRECT1 {
        assert TierOf(bn) == Single(b);
        assert MapBlock(disk, sb, itable[ip].addrs, bn) == MapSingle(disk, sb, itable[ip].addrs, b);
        r := MapSingleIndirect(ip, b);
        return;
      }
      b := b - NINDIRECT1;
      if b < NINDIRECT2 {
        var entry, offset := b / NINDIRECT1, b % NINDIRECT1;
        assert TierOf(bn) == Double(entry, offset);
        assert MapBlock(disk, sb, itable[ip].addrs, bn) == MapDouble(disk, sb, itable[ip].addrs, entry, offset);
        r := MapDoubleIndirect(ip, entry, offset);
        return;
      }
      b := b - NINDIRECT2;
      if b < NINDIRECT3 {
        var entryl1, offsetl1 := b / NINDIRECT2, b % NINDIRECT2;
        var entryl2, offsetl2 := offsetl1 / NINDIRECT1, offsetl1 % NINDIRECT1;
        assert TierOf(bn) == Triple(entryl1, entryl2, offsetl2);
        assert MapBlock(disk, sb, itable[ip].addrs, bn)
            == MapTriple(disk, sb, itable[ip].addrs, entryl1, entryl2, offsetl2);
        r := MapTripleIndirect(ip, entryl1, entryl2, offsetl2);
        return;
      }
      r := Fail("imap2blockno: inode too big");
    }
 
    /* Truncation: one method per level of the pointer-block loops. */

    /** The innermost loop: free every nonzero entry of pointer block ptr. */
    method FreeLeaves(ptr: nat, ents: seq<u32>) returns (ok: bool)
      requires |ents| == NINDIRECT1
      modifies this
      ensures var spec := FreeLevel(Cache(old(disk), old(held)), sb, ptr, ents, 0, 1, false);
        && ok == spec.Ok?
        && (ok ==> CacheOf() == spec.value)
        && itable == old(itable)
    {
      var i := 0;
      while i < NINDIRECT1
        invariant i <= NINDIRECT1
        invariant FreeLevel(Cache(old(disk), old(held)), sb, ptr, ents, 0, 1, false)
               == FreeLevel(Cache(disk, held), sb, ptr, ents, i, 1, false)
        invariant itable == old(itable)
      {
        LevelStep(Cache(disk, held), sb, ptr, ents, i, 1, false);
        var a := ents[i] as nat;
        if a != 0 {
          ok := BlockFree(a);
          if !ok {
            return;
          }
        }
        i := i + 1;
      }
      ok := true;
    }

    /** A nonzero entry a of a double-indirect block ptr: take a's buffer, free
      * its entries, release a buffer (ptr's when parentRelease, as the code does
      * with `bp`; else a's own `bp2`) and free a. */
    method FreeMidChild(ptr: nat, a: nat, parentRelease: bool) returns (ok: bool)
      modifies this
      ensures var spec := FreeChild(Cache(old(disk), old(held)), sb, ptr, a, 2, parentRelease);
        && ok == spec.Ok?
        && (ok ==> CacheOf() == spec.value)
        && itable == old(itable)
    {
      ChildStep(Cache(disk, held), sb, ptr, a, 2, parentRelease);
      held := held + [a];  // logged_read
      ok := FreeLeaves(a, Entries(Read(disk, a)));  // `a2 = (uint*)bp2->data`
      if !ok {
        return;
      }
      held := Unhold(held, if parentRelease then ptr else a);  // logged_relse
      ok := BlockFree(a);
    }

    /** The loop over a double-indirect block. */
    method FreeMids(ptr: nat, ents: seq<u32>, parentRelease: bool) returns (ok: bool)
      requires |ents| == NINDIRECT1
      modifies this
      ensures var spec := FreeLevel(Cache(old(disk), old(held)), sb, ptr, ents, 0, 2, parentRelease);
        && ok == spec.Ok?
        && (ok ==> CacheOf() == spec.value)
        && itable == old(itable)
    {
      var i := 0;
      while i < NINDIRECT1
        invariant i <= NINDIRECT1
        invariant FreeLevel(Cache(old(disk), old(held)), sb, ptr, ents, 0, 2, parentRelease)
               == FreeLevel(Cache(disk, held), sb, ptr, ents, i, 2, parentRelease)
        invariant itable == old(itable)
      {
        LevelStep(Cache(disk, held), sb, ptr, ents, i, 2, parentRelease);
        var a := ents[i] as nat;
        if a != 0 {
          ok := FreeMidChild(ptr, a, parentRelease);
          if !ok {
            return;
          }
        }
        i := i + 1;
      }
      ok := true;
    }

    /** A nonzero entry a of a triple-indirect block: as FreeMidChild, one level up;
      * the double-indirect block a releases its children's own buffers. */
    method FreeTopChild(ptr: nat, a: nat, parentRelease: bool) returns (ok: bool)
      modifies this
      ensures var spec := FreeChild(Cache(old(disk), old(held)), sb, ptr, a, 3, parentRelease);
        && ok == spec.Ok?
        && (ok ==> CacheOf() == spec.value)
        && itable == old(itable)
    {
      ChildStep(Cache(disk, held), sb, ptr, a, 3, parentRelease);
      held := held + [a];  // logged_read
      ok := FreeMids(a, Entries(Read(disk, a)), false);  // `a2 = (uint*)bp2->data`
      if !ok {
        return;
      }
      held := Unhold(held, if parentRelease then ptr else a);  // logged_relse
      ok := BlockFree(a);
    }

    /** The loop over a triple-indirect block. */
    method FreeTops(ptr: nat, ents: seq<u32>, parentRelease: bool) returns (ok: bool)
      requires |ents| == NINDIRECT1
      modifies this
      ensures var spec := FreeLevel(Cache(old(disk), old(held)), sb, ptr, ents, 0, 3, parentRelease);
        && ok == spec.Ok?
        && (ok ==> CacheOf() == spec.value)
        && itable == old(itable)
    {
      var i := 0;
      while i < NINDIRECT1
        invariant i <= NINDIRECT1
        invariant FreeLevel(Cache(old(disk), old(held)), sb, ptr, ents, 0, 3, parentRelease)
               == FreeLevel(Cache(disk, held), sb, ptr, ents, i, 3, parentRelease)
        invariant itable == old(itable)
      {
        LevelStep(Cache(disk, held), sb, ptr, ents, i, 3, parentRelease);
        var a := ents[i] as nat;
        if a != 0 {
          ok := FreeTopChild(ptr, a, parentRelease);
          if !ok {
            return;
          }
        }
        i := i + 1;
      }
      ok := true;
    }

    /** `if (ip->addrs[NDIRECT]) { bp = logged_read(..); <loop>; logged_relse(bp);
      * block_free(ip->addrs[NDIRECT]); }` */
    method FreeSingle(root: nat) returns (ok: bool)
      modifies this
      ensures var spec := FreeTree(Cache(old(disk), old(held)), sb, root, 1, false);
        && ok == spec.Ok?
        && (ok ==> CacheOf() == spec.value)
        && itable == old(itable)
    {
      if root == 0 {
        return true;
      }
      TreeStep(Cache(disk, held), sb, root, 1, false);
      held := held + [root];  // logged_read
      ok := FreeLeaves(root, Entries(Read(disk, root)));  // `a = (uint*)bp->data`
      if !ok {
        return;
      }
      held := Unhold(held, root);  // logged_relse
      ok := BlockFree(root);
    }

    /** The same for the double-indirect tree at `ip->addrs[NDIRECT + 1]`. */
    method FreeDouble(root: nat, parentRelease: bool) returns (ok: bool)
      modifies this
      ensures var spec := FreeTree(Cache(old(disk), old(held)), sb, root, 2, parentRelease);
        && ok == spec.Ok?
        && (ok ==> CacheOf() == spec.value)
        && itable == old(itable)
    {
      if root == 0 {
        return true;
      }
      TreeStep(Cache(disk, held), sb, root, 2, parentRelease);
      held := held + [root];  // logged_read
      ok := FreeMids(root, Entries(Read(disk, root)), parentRelease);  // `a = (uint*)bp->data`
      if !ok {
        return;
      }
      held := Unhold(held, root);  // logged_relse
      ok := BlockFree(root);
    }

    /** The same for the triple-indirect tree at `ip->addrs[NDIRECT + 2]`. */
    method FreeTriple(root: nat, parentRelease: bool) returns (ok: bool)
      modifies this
      ensures var spec := FreeTree(Cache(old(disk), old(held)), sb, root, 3, parentRelease);
        && ok == spec.Ok?
        && (ok ==> CacheOf() == spec.value)
        && itable == old(itable)
    {
      if root == 0 {
        return true;
      }
      TreeStep(Cache(disk, held), sb, root, 3, parentRelease);
      held := held + [root];  // logged_read
      ok := FreeTops(root, Entries(Read(disk, root)), parentRelease);  // `a = (uint*)bp->data`
      if !ok {
        return;
      }
      held := Unhold(held, root);  // logged_relse
      ok := BlockFree(root);
    }

    /** The loop over the direct slots of itrunc: as written (fixed false) it
      * frees every slot, zero or not; the corrected loop skips zero slots. */
    method FreeDirects(addrs: Addrs, fixed: bool) returns (ok: bool)
      modifies this
      ensures var spec := FreeDirect(Cache(old(disk), old(held)), sb, addrs, 0, fixed);
        && ok == spec.Ok?
        && (ok ==> CacheOf() == spec.value)
        && itable == old(itable)
    {
      var i := 0;
      while i < NDIRECT
        invariant i <= NDIRECT
        invariant FreeDirect(Cache(old(disk), old(held)), sb, addrs, 0, fixed)
               == FreeDirect(Cache(disk, held), sb, addrs, i, fixed)
        invariant itable == old(itable)
      {
        if !fixed || addrs[i] != 0 {
          ok := BlockFree(addrs[i] as nat);
          if !ok {
            return;
          }
        }
        i := i + 1;
      }
      ok := true;
    }

    /** itrunc(ip), as written: zero direct slots are freed too, the doubly- and
      * triply-indirect loops release the parent's buffer in place of the
      * child's, and the slot's addresses and size are left as they were. */
    method Itrunc(ip: nat) returns (ok: bool)
      requires ip < |itable|
      modifies this
      ensures var spec := TruncSpec(Cache(old(disk), old(held)), sb, old(itable)[ip].addrs, false);
        && ok == spec.Ok?
        && (ok ==> CacheOf() == spec.value)
        && itable == old(itable)
    {
      var addrs := itable[ip].addrs;
      ok := FreeDirects(addrs, false);
      if !ok {
        return;
      }
      ok := FreeSingle(addrs[NDIRECT] as nat);
      if !ok {
        return;
      }
      ok := FreeDouble(addrs[NDIRECT + 1] as nat, true);
      if !ok {
        return;
      }
      ok := FreeTriple(addrs[NDIRECT + 2] as nat, true);
    }

    /** itrunc(ip), corrected: zero direct slots are skipped, every buffer taken
      * is the one released, and the slot ends with no blocks and size 0. */
    method ItruncFixed(ip: nat) returns (ok: bool)
      requires ip < |itable|
      modifies this
      ensures var spec := TruncSpec(Cache(old(disk), old(held)), sb, old(itable)[ip].addrs, true);
        && ok == spec.Ok?
        && (ok ==> CacheOf() == spec.value
                   && itable == old(itable)[ip := old(itable)[ip].(addrs := NoAddrs, size := 0)])
    {
      var addrs := itable[ip].addrs;
      ok := FreeDirects(addrs, true);
      if !ok {
        return;
      }
      ok := FreeSingle(addrs[NDIRECT] as nat);
      if !ok {
        return;
      }
      ok := FreeDouble(addrs[NDIRECT + 1] as nat, false);
      if !ok {
        return;
      }
      ok := FreeTriple(addrs[NDIRECT + 2] as nat, false);
      if !ok {
        return;
      }
      itable := itable[ip := itable[ip].(addrs := NoAddrs, size := 0)];
    }

    /** iput(ip), as written, with itrunc as written. */
    method IputAsWritten(ip: nat) returns (ok: bool)
      requires Valid() && ip < |itable|
      modifies this
      ensures var spec := IputSpec(Cache(old(disk), old(held)), sb, old(itable)[ip], false);
        && ok == spec.Ok?
        && (ok ==> CacheOf() == spec.value.0 && itable == old(itable)[ip := spec.value.1])
      ensures ok ==> Valid()
    {
      var n := itable[ip];
      if n.ref == 1 && n.valid && n.nlink == 0 {
        ok := Itrunc(ip);
        if !ok {
          return;
        }
        itable := itable[ip := itable[ip].(itype := T_UNUSE)];
        Iupdate(ip);
        itable := itable[ip := itable[ip].(valid := false)];
      }
      itable := itable[ip := itable[ip].(ref := itable[ip].ref - 1)];
      ok := true;
      UpdateKeepsUnique(old(itable), ip, itable[ip]);
    }

    /** iput(ip) with the corrected itrunc. */
    method Iput(ip: nat) returns (ok: bool)
      requires Valid() && ip < |itable|
      modifies this
      ensures var spec := IputSpec(Cache(old(disk), old(held)), sb, old(itable)[ip], true);
        && ok == spec.Ok?
        && (ok ==> CacheOf() == spec.value.0 && itable == old(itable)[ip := spec.value.1])
      ensures ok ==> Valid()
    {
      var n := itable[ip];
      if n.ref == 1 && n.valid && n.nlink == 0 {
        ok := ItruncFixed(ip);
        if !ok {
          return;
        }
        itable := itable[ip := itable[ip].(itype := T_UNUSE)];
        Iupdate(ip);
        itable := itable[ip := itable[ip].(valid := false)];
      }
      itable := itable[ip := itable[ip].(ref := itable[ip].ref - 1)];
      ok := true;
      UpdateKeepsUnique(old(itable), ip, itable[ip]);
    }
  }
}
