/** The block-mapping algorithm of `imap2blockno` (src/inode.c) as functions:
  * which tier a logical block falls in, the lazy allocation along its path of
  * pointer blocks, and the read-only lookup it must agree with. */
module BlockMap {
  import opened Bytes
  import opened FsLayout
  import opened AbstractDisk
  import opened Outcome
  import opened Bitmap

  /** The tiers and the indices into each pointer block on a logical block's path. */
  datatype Tier =
    | Direct(i: nat)
    | Single(i: nat)
    | Double(entry: nat, offset: nat)
    | Triple(entryl1: nat, entryl2: nat, offsetl2: nat)
    | TooBig

  const MAPPABLE: nat := NDIRECT + NINDIRECT1 + NINDIRECT2 + NINDIRECT3

  /** The tier of logical block bn, computed as imap2blockno does: subtract each
    * tier's capacity in turn, then split with `/` and `%`. The indices put bn
    * back together exactly, and each one indexes a pointer block. */
  function TierOf(bn: nat): (t: Tier)
    ensures t.Direct? <==> bn < NDIRECT
    ensures t.Direct? ==> t.i == bn
    ensures t.Single? ==> t.i < NINDIRECT1 && bn == NDIRECT + t.i
    ensures t.Double? ==>
      && t.entry < NINDIRECT1 && t.offset < NINDIRECT1
      && bn == NDIRECT + NINDIRECT1 + t.entry * NINDIRECT1 + t.offset
    ensures t.Triple? ==>
      && t.entryl1 < NINDIRECT1 && t.entryl2 < NINDIRECT1 && t.offsetl2 < NINDIRECT1
      && bn == NDIRECT + NINDIRECT1 + NINDIRECT2
               + t.entryl1 * NINDIRECT2 + t.entryl2 * NINDIRECT1 + t.offsetl2
    ensures t.TooBig? <==> bn >= MAPPABLE
  {
    // NINDIRECT1 == 0x100, NINDIRECT2 == 0x1_0000, NINDIRECT3 == 0x100_0000
    Constants();
    if bn < NDIRECT then Direct(bn)
    else
      var b1 := bn - NDIRECT;
      if b1 < 0x100 then Single(b1)
      else
        var b2 := b1 - 0x100;
        if b2 < 0x1_0000 then Double(b2 / 0x100, b2 % 0x100)
        else
          var b3 := b2 - 0x1_0000;
          if b3 < 0x100_0000 then
            var offsetl1 := b3 % 0x1_0000;
            Triple(b3 / 0x1_0000, offsetl1 / 0x100, offsetl1 % 0x100)
          else TooBig
  }

  /** `if ((addr = x) == 0) x = addr = block_alloc();` where x is an address slot. */
  function AllocIfZero(d: Disk, sb: Superblock, a: u32): Result<(u32, Disk)>
  {
    if a != 0 then Ok((a, d))
    else
      var p :- BlockAllocSpec(d, sb);
      Ok((p.0 as u32, p.1))
  }

  /** Entry idx of pointer block ptr, allocating a block for it if it is 0 and
    * writing the new address into ptr. */
  function WalkEntry(d: Disk, sb: Superblock, ptr: nat, idx: nat): Result<(u32, Disk)>
    requires idx < NINDIRECT1
  {
    var a := Entry(Read(d, ptr), idx);
    if a != 0 then Ok((a, d))
    else
      var p :- BlockAllocSpec(d, sb);
      var n := p.0 as u32;
      Ok((n, p.1[ptr := SetEntry(Read(p.1, ptr), idx, n)]))
  }

  /** imap2blockno(ip, bn): the address returned, the disk afterwards and the
    * inode's address array afterwards. */
  function MapBlock(d: Disk, sb: Superblock, addrs: Addrs, bn: nat): Result<(u32, Disk, Addrs)>
  {
    match TierOf(bn)
    case Direct(i) =>
      var r :- AllocIfZero(d, sb, addrs[i]);
      var na: Addrs := addrs[i := r.0];
      Ok((r.0, r.1, na))
    case Single(i) => MapSingle(d, sb, addrs, i)
    case Double(entry, offset) => MapDouble(d, sb, addrs, entry, offset)
    case Triple(entryl1, entryl2, offsetl2) => MapTriple(d, sb, addrs, entryl1, entryl2, offsetl2)
    case TooBig => Fail("imap2blockno: inode too big")
  }

  /** The singly-indirect tier of imap2blockno, through `addrs[NDIRECT]`. */
  function MapSingle(d: Disk, sb: Superblock, addrs: Addrs, i: nat): Result<(u32, Disk, Addrs)>
    requires i < NINDIRECT1
  {
    var root :- AllocIfZero(d, sb, addrs[NDIRECT]);
    var r :- WalkEntry(root.1, sb, root.0 as nat, i);
    var na: Addrs := addrs[NDIRECT := root.0];
    Ok((r.0, r.1, na))
  }

  /** Two WalkEntry steps: entry e of ptr, then entry o of the block found there. */
  function Walk2(d: Disk, sb: Superblock, ptr: nat, e: nat, o: nat): Result<(u32, Disk)>
    requires e < NINDIRECT1 && o < NINDIRECT1
  {
    var mid :- WalkEntry(d, sb, ptr, e);
    WalkEntry(mid.1, sb, mid.0 as nat, o)
  }

  /** The doubly-indirect tier of imap2blockno, through `addrs[NDIRECT + 1]`. */
  function MapDouble(d: Disk, sb: Superblock, addrs: Addrs, entry: nat, offset: nat): Result<(u32, Disk, Addrs)>
    requires entry < NINDIRECT1 && offset < NINDIRECT1
  {
    var root :- AllocIfZero(d, sb, addrs[NDIRECT + 1]);
    var r :- Walk2(root.1, sb, root.0 as nat, entry, offset);
    var na: Addrs := addrs[NDIRECT + 1 := root.0];
    Ok((r.0, r.1, na))
  }

  /** The triply-indirect tier of imap2blockno, through `addrs[NDIRECT + 2]`. */
  function MapTriple(d: Disk, sb: Superblock, addrs: Addrs, e1: nat, e2: nat, o2: nat): Result<(u32, Disk, Addrs)>
    requires e1 < NINDIRECT1 && e2 < NINDIRECT1 && o2 < NINDIRECT1
  {
    var root :- AllocIfZero(d, sb, addrs[NDIRECT + 2]);
    var l1 :- WalkEntry(root.1, sb, root.0 as nat, e1);
    var r :- Walk2(l1.1, sb, l1.0 as nat, e2, o2);
    var na: Addrs := addrs[NDIRECT + 2 := root.0];
    Ok((r.0, r.1, na))
  }

  /** Entry idx of pointer block ptr, or 0 when ptr itself is 0. */
  function Look(d: Disk, ptr: nat, idx: nat): u32
    requires idx < NINDIRECT1
  {
    if ptr == 0 then 0 else Entry(Read(d, ptr), idx)
  }

  /** The block currently mapped at logical block bn, 0 when there is none. */
  function Resolve(d: Disk, addrs: Addrs, bn: nat): u32
  {
    match TierOf(bn)
    case Direct(i) => addrs[i]
    case Single(i) => Look(d, addrs[NDIRECT], i)
    case Double(entry, offset) => Look(d, Look(d, addrs[NDIRECT + 1], entry), offset)
    case Triple(e1, e2, o2) => Look(d, Look(d, Look(d, addrs[NDIRECT + 2], e1), e2), o2)
    case TooBig => 0
  }

  /** A block already mapped is returned as it is: nothing is allocated and
    * nothing is written. */
  lemma MapExisting(d: Disk, sb: Superblock, addrs: Addrs, bn: nat)
    requires Resolve(d, addrs, bn) != 0
    ensures MapBlock(d, sb, addrs, bn) == Ok((Resolve(d, addrs, bn), d, addrs))
  {
    match TierOf(bn)
    case Direct(i) => assert addrs[i := addrs[i]] == addrs;
    case Single(i) => assert addrs[NDIRECT := addrs[NDIRECT]] == addrs;
    case Double(_, _) => assert addrs[NDIRECT + 1 := addrs[NDIRECT + 1]] == addrs;
    case Triple(_, _, _) => assert addrs[NDIRECT + 2 := addrs[NDIRECT + 2]] == addrs;
    case TooBig =>
  }

  /** Logical blocks past the third tier are fatal. */
  lemma MapTooBig(d: Disk, sb: Superblock, addrs: Addrs, bn: nat)
    requires bn >= MAPPABLE
    ensures MapBlock(d, sb, addrs, bn) == Fail("imap2blockno: inode too big")
  {}

  /* Mapping a block and then looking it up. The statements below hold for a
     disk on which every metadata block is marked in use, as mkfs leaves it,
     and on which each pointer block already on the path is an allocated data
     block distinct from the others. */

  /** The first block after the bitmap: blocks below it are metadata. */
  function DataStart(sb: Superblock): (r: nat)
    ensures sb.bmapstart < r
  {
    sb.bmapstart + sb.size / BPB + 1
  }

  /** The metadata lies inside the disk. */
  predicate SaneLayout(sb: Superblock)
  {
    DataStart(sb) <= sb.size
  }

  /** Every metadata block is marked in use. */
  predicate Reserved(d: Disk, sb: Superblock)
  {
    forall m: nat :: m < DataStart(sb) ==> Allocated(d, sb, m)
  }

  /** p is an allocated data block. */
  predicate InUse(d: Disk, sb: Superblock, p: nat)
  {
    DataStart(sb) <= p < sb.size && Allocated(d, sb, p)
  }

  /** Bits in use below sb.size stay in use. */
  predicate Grows(d: Disk, d': Disk, sb: Superblock)
  {
    forall m: nat :: m < sb.size && Allocated(d, sb, m) ==> Allocated(d', sb, m)
  }

  /** The doubly-indirect path from root through its entry `entry`. */
  predicate DoublePath(d: Disk, sb: Superblock, root: nat, entry: nat)
    requires entry < NINDIRECT1
  {
    root != 0 ==>
      && InUse(d, sb, root)
      && var mid := Entry(Read(d, root), entry);
         mid != 0 ==> InUse(d, sb, mid) && mid != root
  }

  /** The triply-indirect path from root through entries e1 and e2. */
  predicate TriplePath(d: Disk, sb: Superblock, root: nat, e1: nat, e2: nat)
    requires e1 < NINDIRECT1 && e2 < NINDIRECT1
  {
    root != 0 ==>
      && InUse(d, sb, root)
      && var l1 := Entry(Read(d, root), e1);
         l1 != 0 ==>
           && InUse(d, sb, l1) && l1 != root
           && var l2 := Entry(Read(d, l1), e2);
              l2 != 0 ==> InUse(d, sb, l2) && l2 != root && l2 != l1
  }

  /** The pointer blocks already on bn's path are data blocks in use, pairwise distinct. */
  predicate PathOk(d: Disk, sb: Superblock, addrs: Addrs, bn: nat)
  {
    match TierOf(bn)
    case Direct(_) => true
    case Single(_) => addrs[NDIRECT] != 0 ==> InUse(d, sb, addrs[NDIRECT])
    case Double(entry, _) => DoublePath(d, sb, addrs[NDIRECT + 1], entry)
    case Triple(e1, e2, _) => TriplePath(d, sb, addrs[NDIRECT + 2], e1, e2)
    case TooBig => true
  }

  /** The bitmap block of a block on the disk is metadata. */
  lemma BitmapBlockIsMeta(sb: Superblock, m: nat)
    requires SaneLayout(sb) && m < sb.size
    ensures BBlock(m, sb) < DataStart(sb)
  {
    assert BPB == 8192;
  }

  /** One block_alloc on a reserved disk: the block is a fresh data block, and
    * the data blocks of S keep their contents and stay in use. */
  lemma FreshBlock(d: Disk, sb: Superblock, S: set<nat>)
    requires SaneLayout(sb) && Reserved(d, sb)
    requires forall p :: p in S ==> InUse(d, sb, p)
    requires BlockAllocSpec(d, sb).Ok?
    ensures var (n, d') := BlockAllocSpec(d, sb).value;
      && DataStart(sb) <= n < sb.size && n !in S && !Allocated(d, sb, n)
      && Reserved(d', sb) && Grows(d, d', sb)
      && InUse(d', sb, n) && Read(d', n) == ZeroBlock
      && (forall p :: p in S ==> InUse(d', sb, p) && Read(d', p) == Read(d, p))
  {
    var (n, d') := BlockAllocSpec(d, sb).value;
    BlockAllocChoosesLowest(d, sb);
    BlockAllocAvoidsUsed(d, sb, DataStart(sb));
    BitmapBlockIsMeta(sb, n);
    forall m: nat | m < sb.size
      ensures Allocated(d', sb, m) == (m == n || Allocated(d, sb, m))
    {
      BitmapBlockIsMeta(sb, m);
      AllocAtBits(d, sb, n, m);
    }
    forall p | p in S
      ensures Read(d', p) == Read(d, p)
    {
      MarkFrame(d, sb, n, p);
    }
  }

  /** One AllocIfZero step of imap2blockno. */
  lemma AllocStep(d: Disk, sb: Superblock, a0: u32, S: set<nat>)
    requires SaneLayout(sb) && Reserved(d, sb)
    requires forall p :: p in S ==> InUse(d, sb, p)
    requires AllocIfZero(d, sb, a0).Ok?
    ensures var (a, d') := AllocIfZero(d, sb, a0).value;
      && a != 0 && Reserved(d', sb) && Grows(d, d', sb)
      && (forall p :: p in S ==> InUse(d', sb, p) && Read(d', p) == Read(d, p))
      && (a0 != 0 ==> a == a0 && d' == d)
      && (a0 == 0 ==> a as nat !in S && !Allocated(d, sb, a as nat)
                      && InUse(d', sb, a as nat) && Read(d', a as nat) == ZeroBlock)
  {
    if a0 == 0 {
      FreshBlock(d, sb, S);
    }
  }

  /** A WalkEntry step that finds entry idx of ptr empty: it allocates a fresh
    * data block and writes its address there. */
  lemma WalkFresh(d: Disk, sb: Superblock, ptr: nat, idx: nat, S: set<nat>)
    requires SaneLayout(sb) && Reserved(d, sb)
    requires forall p :: p in S ==> InUse(d, sb, p)
    requires ptr in S && idx < NINDIRECT1 && Entry(Read(d, ptr), idx) == 0
    requires WalkEntry(d, sb, ptr, idx).Ok?
    ensures var (a, d') := WalkEntry(d, sb, ptr, idx).value;
      && a != 0 && Reserved(d', sb) && Grows(d, d', sb)
      && Entry(Read(d', ptr), idx) == a
      && (forall p :: p in S ==> InUse(d', sb, p))
      && (forall p :: p in S && p != ptr ==> Read(d', p) == Read(d, p))
      && a as nat !in S && !Allocated(d, sb, a as nat)
      && InUse(d', sb, a as nat) && Read(d', a as nat) == ZeroBlock
  {
    FreshBlock(d, sb, S);
    var (n, d1) := BlockAllocSpec(d, sb).value;
    var d' := d1[ptr := SetEntry(Read(d1, ptr), idx, n as u32)];
    assert WalkEntry(d, sb, ptr, idx).value == (n as u32, d');
    assert n != ptr && Read(d', n) == Read(d1, n);
    DataWriteKeepsBits(d1, sb, ptr, SetEntry(Read(d1, ptr), idx, n as u32));
    SameBitsKeep(d, d1, d', sb, S + {n});
  }

  /** d and d' mark the same blocks in use. */
  predicate SameBits(d: Disk, d': Disk, sb: Superblock)
  {
    forall m: nat :: m < sb.size ==> Allocated(d', sb, m) == Allocated(d, sb, m)
  }

  /** Writing a data block leaves every bitmap bit as it was. */
  lemma DataWriteKeepsBits(d: Disk, sb: Superblock, p: nat, blk: Block)
    requires SaneLayout(sb) && DataStart(sb) <= p
    ensures SameBits(d, d[p := blk], sb)
  {
    forall m: nat | m < sb.size
      ensures Allocated(d[p := blk], sb, m) == Allocated(d, sb, m)
    {
      BitmapBlockIsMeta(sb, m);
    }
  }

  /** What SameBits carries over from d to d'. */
  lemma SameBitsKeep(d0: Disk, d: Disk, d': Disk, sb: Superblock, S: set<nat>)
    requires SaneLayout(sb) && SameBits(d, d', sb)
    requires Reserved(d, sb) && Grows(d0, d, sb)
    requires forall p :: p in S ==> InUse(d, sb, p)
    ensures Reserved(d', sb) && Grows(d0, d', sb)
    ensures forall p :: p in S ==> InUse(d', sb, p)
  {}

  /** One WalkEntry step of imap2blockno, through the pointer block ptr. */
  lemma WalkStep(d: Disk, sb: Superblock, ptr: nat, idx: nat, S: set<nat>)
    requires SaneLayout(sb) && Reserved(d, sb)
    requires forall p :: p in S ==> InUse(d, sb, p)
    requires ptr in S && idx < NINDIRECT1
    requires WalkEntry(d, sb, ptr, idx).Ok?
    ensures var (a, d') := WalkEntry(d, sb, ptr, idx).value;
      var old_a := Entry(Read(d, ptr), idx);
      && a != 0 && Reserved(d', sb) && Grows(d, d', sb)
      && Entry(Read(d', ptr), idx) == a
      && (forall p :: p in S ==> InUse(d', sb, p))
      && (forall p :: p in S && p != ptr ==> Read(d', p) == Read(d, p))
      && (old_a != 0 ==> a == old_a && d' == d)
      && (old_a == 0 ==> a as nat !in S && !Allocated(d, sb, a as nat)
                         && InUse(d', sb, a as nat) && Read(d', a as nat) == ZeroBlock)
  {
    if Entry(Read(d, ptr), idx) == 0 {
      WalkFresh(d, sb, ptr, idx, S);
    }
  }

  /** What a successful imap2blockno guarantees: the returned block is what a
    * lookup now finds at bn; a block that was not mapped before was free and
    * is now zero-filled; and the disk stays reserved with a well-formed path. */
  predicate MapPost(d: Disk, sb: Superblock, addrs: Addrs, bn: nat, a: u32, d': Disk, addrs': Addrs)
  {
    && a != 0
    && Resolve(d', addrs', bn) == a
    && (Resolve(d, addrs, bn) == 0 ==> !Allocated(d, sb, a as nat) && Read(d', a as nat) == ZeroBlock)
    && Reserved(d', sb) && Grows(d, d', sb)
    && PathOk(d', sb, addrs', bn)
  }

  lemma {:induction false} MapDirectResolves(d: Disk, sb: Superblock, addrs: Addrs, bn: nat)
    requires SaneLayout(sb) && Reserved(d, sb) && TierOf(bn).Direct?
    requires MapBlock(d, sb, addrs, bn).Ok?
    ensures var (a, d', addrs') := MapBlock(d, sb, addrs, bn).value;
      MapPost(d, sb, addrs, bn, a, d', addrs')
  {
    AllocStep(d, sb, addrs[bn], {});
  }

  lemma {:induction false} MapSingleResolves(d: Disk, sb: Superblock, addrs: Addrs, bn: nat)
    requires SaneLayout(sb) && Reserved(d, sb) && PathOk(d, sb, addrs, bn) && TierOf(bn).Single?
    requires MapBlock(d, sb, addrs, bn).Ok?
    ensures var (a, d', addrs') := MapBlock(d, sb, addrs, bn).value;
      MapPost(d, sb, addrs, bn, a, d', addrs')
  {
    var i := TierOf(bn).i;
    var r0 := addrs[NDIRECT];
    AllocStep(d, sb, r0, {});
    var (root, d1) := AllocIfZero(d, sb, r0).value;
    if r0 == 0 { ZeroEntry(i); }
    WalkStep(d1, sb, root as nat, i, {root as nat});
  }

  /** Two WalkEntry steps from the pointer block p: the entry of p on the path
    * is a data block in use outside S, and its entry o is the block returned. */
  lemma {:induction false} Walk2Step(d: Disk, sb: Superblock, p: nat, e: nat, o: nat, S: set<nat>)
    requires SaneLayout(sb) && Reserved(d, sb)
    requires forall q :: q in S ==> InUse(d, sb, q)
    requires p in S && p != 0 && e < NINDIRECT1 && o < NINDIRECT1
    requires var m := Entry(Read(d, p), e); m != 0 ==> InUse(d, sb, m as nat) && m as nat !in S
    requires Walk2(d, sb, p, e, o).Ok?
    ensures var (a, d') := Walk2(d, sb, p, e, o).value;
      var m' := Entry(Read(d', p), e);
      && a != 0 && Reserved(d', sb) && Grows(d, d', sb)
      && (forall q :: q in S ==> InUse(d', sb, q))
      && (forall q :: q in S && q != p ==> Read(d', q) == Read(d, q))
      && m' != 0 && InUse(d', sb, m' as nat) && m' as nat !in S
      && Look(d', Look(d', p, e), o) == a
      && (Look(d, Look(d, p, e), o) == 0 ==>
            !Allocated(d, sb, a as nat) && InUse(d', sb, a as nat) && Read(d', a as nat) == ZeroBlock)
  {
    WalkStep(d, sb, p, e, S);
    var (m, d1) := WalkEntry(d, sb, p, e).value;
    if Entry(Read(d, p), e) == 0 { ZeroEntry(o); }
    WalkStep(d1, sb, m as nat, o, S + {m as nat});
  }

  /** The doubly-indirect tier: the block returned is what the two lookups now
    * find, allocated fresh when they found nothing, and the path stays well formed. */
  lemma {:induction false} MapDoubleStep(d: Disk, sb: Superblock, addrs: Addrs, entry: nat, offset: nat)
    requires SaneLayout(sb) && Reserved(d, sb) && entry < NINDIRECT1 && offset < NINDIRECT1
    requires DoublePath(d, sb, addrs[NDIRECT + 1], entry)
    requires MapDouble(d, sb, addrs, entry, offset).Ok?
    ensures var (a, d', na) := MapDouble(d, sb, addrs, entry, offset).value;
      && a != 0 && Reserved(d', sb) && Grows(d, d', sb)
      && Look(d', Look(d', na[NDIRECT + 1], entry), offset) == a
      && (Look(d, Look(d, addrs[NDIRECT + 1], entry), offset) == 0 ==>
            !Allocated(d, sb, a as nat) && Read(d', a as nat) == ZeroBlock)
      && DoublePath(d', sb, na[NDIRECT + 1], entry)
  {
    var r0 := addrs[NDIRECT + 1];
    AllocStep(d, sb, r0, {});
    var (root, d1) := AllocIfZero(d, sb, r0).value;
    Walk2Step(d1, sb, root as nat, entry, offset, {root as nat});
    if r0 == 0 {
      ZeroEntry(entry);
      var a: nat := Walk2(d1, sb, root as nat, entry, offset).value.0 as nat;
      assert Look(d1, root as nat, entry) == 0;
      assert Allocated(d, sb, a) ==> Allocated(d1, sb, a);
    }
  }

  /** The triply-indirect tier, as MapDoubleStep one level deeper. */
  lemma {:induction false} MapTripleStep(d: Disk, sb: Superblock, addrs: Addrs, e1: nat, e2: nat, o2: nat)
    requires SaneLayout(sb) && Reserved(d, sb)
    requires e1 < NINDIRECT1 && e2 < NINDIRECT1 && o2 < NINDIRECT1
    requires TriplePath(d, sb, addrs[NDIRECT + 2], e1, e2)
    requires MapTriple(d, sb, addrs, e1, e2, o2).Ok?
    ensures var (a, d', na) := MapTriple(d, sb, addrs, e1, e2, o2).value;
      && a != 0 && Reserved(d', sb) && Grows(d, d', sb)
      && Look(d', Look(d', Look(d', na[NDIRECT + 2], e1), e2), o2) == a
      && (Look(d, Look(d, Look(d, addrs[NDIRECT + 2], e1), e2), o2) == 0 ==>
            !Allocated(d, sb, a as nat) && Read(d', a as nat) == ZeroBlock)
      && TriplePath(d', sb, na[NDIRECT + 2], e1, e2)
  {
    var r0 := addrs[NDIRECT + 2];
    AllocStep(d, sb, r0, {});
    var (root, d1) := AllocIfZero(d, sb, r0).value;
    if r0 == 0 { ZeroEntry(e1); }
    var S1 := {root as nat};
    WalkStep(d1, sb, root as nat, e1, S1);
    var (l1, d2) := WalkEntry(d1, sb, root as nat, e1).value;
    var fresh1 := Entry(Read(d1, root as nat), e1) == 0;
    if fresh1 { ZeroEntry(e2); }
    Walk2Step(d2, sb, l1 as nat, e2, o2, S1 + {l1 as nat});
    var (a, d3) := Walk2(d2, sb, l1 as nat, e2, o2).value;
    var an: nat := a as nat;
    assert l1 as nat != root as nat;
    assert Read(d3, root as nat) == Read(d2, root as nat);
    assert Entry(Read(d3, root as nat), e1) == l1;
    if fresh1 {
      assert Look(d2, l1 as nat, e2) == 0;
      assert Allocated(d, sb, an) ==> Allocated(d2, sb, an);
    }
  }

  lemma {:induction false} MapDoubleResolves(d: Disk, sb: Superblock, addrs: Addrs, bn: nat)
    requires SaneLayout(sb) && Reserved(d, sb) && PathOk(d, sb, addrs, bn) && TierOf(bn).Double?
    requires MapBlock(d, sb, addrs, bn).Ok?
    ensures var (a, d', addrs') := MapBlock(d, sb, addrs, bn).value;
      MapPost(d, sb, addrs, bn, a, d', addrs')
  {
    MapDoubleStep(d, sb, addrs, TierOf(bn).entry, TierOf(bn).offset);
  }

  lemma {:induction false} MapTripleResolves(d: Disk, sb: Superblock, addrs: Addrs, bn: nat)
    requires SaneLayout(sb) && Reserved(d, sb) && PathOk(d, sb, addrs, bn) && TierOf(bn).Triple?
    requires MapBlock(d, sb, addrs, bn).Ok?
    ensures var (a, d', addrs') := MapBlock(d, sb, addrs, bn).value;
      MapPost(d, sb, addrs, bn, a, d', addrs')
  {
    MapTripleStep(d, sb, addrs, TierOf(bn).entryl1, TierOf(bn).entryl2, TierOf(bn).offsetl2);
  }

  /** On a reserved disk with a well-formed path, imap2blockno(ip, bn) makes bn
    * map to the block it returns. */
  lemma MapThenResolve(d: Disk, sb: Superblock, addrs: Addrs, bn: nat)
    requires SaneLayout(sb) && Reserved(d, sb) && PathOk(d, sb, addrs, bn)
    requires MapBlock(d, sb, addrs, bn).Ok?
    ensures var (a, d', addrs') := MapBlock(d, sb, addrs, bn).value;
      MapPost(d, sb, addrs, bn, a, d', addrs')
  {
    match TierOf(bn)
    case Direct(_) => MapDirectResolves(d, sb, addrs, bn);
    case Single(_) => MapSingleResolves(d, sb, addrs, bn);
    case Double(_, _) => MapDoubleResolves(d, sb, addrs, bn);
    case Triple(_, _, _) => MapTripleResolves(d, sb, addrs, bn);
  }

  /** Mapping the same logical block twice returns the same block and the
    * second call changes nothing. */
  lemma MapIdempotent(d: Disk, sb: Superblock, addrs: Addrs, bn: nat)
    requires SaneLayout(sb) && Reserved(d, sb) && PathOk(d, sb, addrs, bn)
    requires MapBlock(d, sb, addrs, bn).Ok?
    ensures var (a, d', addrs') := MapBlock(d, sb, addrs, bn).value;
      MapBlock(d', sb, addrs', bn) == Ok((a, d', addrs'))
  {
    MapThenResolve(d, sb, addrs, bn);
    var (a, d', addrs') := MapBlock(d, sb, addrs, bn).value;
    MapExisting(d', sb, addrs', bn);
  }
}
