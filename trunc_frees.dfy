/** Which blocks the corrected `itrunc` (src/inode.c) frees: every non-zero
  * direct slot, and under each indirect tree its root, every pointer block
  * and every data block its entries name. It succeeds whenever those blocks
  * are in-use data blocks, each named once, and it changes nothing but the
  * bitmap. */
module TruncateFrees {
  import opened Bytes
  import opened FsLayout
  import opened AbstractDisk
  import opened Outcome
  import opened Bitmap
  import opened BlockMap
  import opened Truncate

  /** The blocks under entries i .. of a pointer block whose entries are ents,
    * read from d, at depth levels (depth 1: the entries are data blocks). */
  function LevelBlocks(d: Disk, ents: seq<u32>, i: nat, depth: nat): set<nat>
    requires 1 <= depth && i <= NINDIRECT1 == |ents|
    decreases depth, NINDIRECT1 - i
  {
    if i == NINDIRECT1 then {}
    else EntryBlocks(d, ents[i] as nat, depth) + LevelBlocks(d, ents, i + 1, depth)
  }

  /** The blocks an entry a names at depth levels: none when a is 0, a itself,
    * and above depth 1 the blocks under a's own entries. */
  function EntryBlocks(d: Disk, a: nat, depth: nat): set<nat>
    requires 1 <= depth
    decreases depth, 0
  {
    if a == 0 then {}
    else if depth == 1 then {a}
    else {a} + LevelBlocks(d, Entries(Read(d, a)), 0, depth - 1)
  }

  /** The blocks of the indirect tree at root, depth levels deep. */
  function TreeBlocks(d: Disk, root: nat, depth: nat): set<nat>
    requires 1 <= depth
  {
    if root == 0 then {} else {root} + LevelBlocks(d, Entries(Read(d, root)), 0, depth)
  }

  /** No block is named twice under entries i .. : the subtrees of distinct
    * entries are disjoint, and no pointer block lies in its own subtree. */
  predicate LevelShape(d: Disk, ents: seq<u32>, i: nat, depth: nat)
    requires 1 <= depth && i <= NINDIRECT1 == |ents|
    decreases depth, NINDIRECT1 - i
  {
    i == NINDIRECT1 ||
    (&& EntryShape(d, ents[i] as nat, depth)
     && LevelShape(d, ents, i + 1, depth)
     && EntryBlocks(d, ents[i] as nat, depth) !! LevelBlocks(d, ents, i + 1, depth))
  }

  predicate EntryShape(d: Disk, a: nat, depth: nat)
    requires 1 <= depth
    decreases depth, 0
  {
    a == 0 || depth == 1 ||
    (var ents := Entries(Read(d, a));
     LevelShape(d, ents, 0, depth - 1) && a !in LevelBlocks(d, ents, 0, depth - 1))
  }

  predicate TreeShape(d: Disk, root: nat, depth: nat)
    requires 1 <= depth
  {
    root == 0 ||
    (var ents := Entries(Read(d, root));
     LevelShape(d, ents, 0, depth) && root !in LevelBlocks(d, ents, 0, depth))
  }

  /** d' differs from d at most in the bitmap blocks. */
  ghost predicate OnlyBitmap(d: Disk, d': Disk, sb: Superblock)
  {
    forall p: nat :: (p < sb.bmapstart || DataStart(sb) <= p) ==> Read(d', p) == Read(d, p)
  }

  /** block_free of a block on the disk writes only its bitmap block, and
    * clears its bit alone. */
  lemma FreeBlockFrees(c: Cache, sb: Superblock, b: nat)
    requires SaneLayout(sb) && b < sb.size && Allocated(c.disk, sb, b)
    ensures FreeBlock(c, sb, b).Ok?
    ensures FreeBlock(c, sb, b).value.held == c.held
    ensures OnlyBitmap(c.disk, FreeBlock(c, sb, b).value.disk, sb)
    ensures forall m :: Allocated(FreeBlock(c, sb, b).value.disk, sb, m) == (m != b && Allocated(c.disk, sb, m))
  {
    BitmapBlockIsMeta(sb, b);
    forall m
      ensures Allocated(MarkFree(c.disk, sb, b), sb, m) == (m != b && Allocated(c.disk, sb, m))
    {
      MarkFreeBits(c.disk, sb, b, m);
    }
  }

  /** The corrected loop over entries i .. frees exactly the blocks under
    * them, when they are in use and form a tree; the pointer blocks it reads
    * are data blocks, so it reads them as they were in d0. */
  lemma {:induction false} FreeLevelFrees(d0: Disk, c: Cache, sb: Superblock, ptr: nat, ents: seq<u32>, i: nat, depth: nat)
    requires SaneLayout(sb) && 1 <= depth && i <= NINDIRECT1 == |ents|
    requires OnlyBitmap(d0, c.disk, sb) && LevelShape(d0, ents, i, depth)
    requires forall m :: m in LevelBlocks(d0, ents, i, depth) ==> InUse(c.disk, sb, m)
    ensures FreeLevel(c, sb, ptr, ents, i, depth, false).Ok?
    ensures var c' := FreeLevel(c, sb, ptr, ents, i, depth, false).value;
      && OnlyBitmap(d0, c'.disk, sb)
      && forall m :: Allocated(c'.disk, sb, m) == (Allocated(c.disk, sb, m) && m !in LevelBlocks(d0, ents, i, depth))
    decreases depth, NINDIRECT1 - i
  {
    if i < NINDIRECT1 {
      var a := ents[i] as nat;
      var rest := LevelBlocks(d0, ents, i + 1, depth);
      assert LevelBlocks(d0, ents, i, depth) == EntryBlocks(d0, a, depth) + rest;
      if a == 0 {
        FreeLevelFrees(d0, c, sb, ptr, ents, i + 1, depth);
      } else {
        var r := if depth == 1 then FreeBlock(c, sb, a) else FreeChild(c, sb, ptr, a, depth, false);
        if depth == 1 {
          assert a in EntryBlocks(d0, a, depth);
          FreeBlockFrees(c, sb, a);
        } else {
          FreeChildFrees(d0, c, sb, ptr, a, depth);
        }
        var c1 := r.value;
        assert forall m :: m in rest ==> InUse(c1.disk, sb, m);
        FreeLevelFrees(d0, c1, sb, ptr, ents, i + 1, depth);
      }
    }
  }

  /** One subtree at a non-zero entry a: its blocks are freed, a last. */
  lemma {:induction false} FreeChildFrees(d0: Disk, c: Cache, sb: Superblock, ptr: nat, a: nat, depth: nat)
    requires SaneLayout(sb) && 2 <= depth && a != 0
    requires OnlyBitmap(d0, c.disk, sb) && EntryShape(d0, a, depth)
    requires forall m :: m in EntryBlocks(d0, a, depth) ==> InUse(c.disk, sb, m)
    ensures FreeChild(c, sb, ptr, a, depth, false).Ok?
    ensures var c' := FreeChild(c, sb, ptr, a, depth, false).value;
      && OnlyBitmap(d0, c'.disk, sb)
      && forall m :: Allocated(c'.disk, sb, m) == (Allocated(c.disk, sb, m) && m !in EntryBlocks(d0, a, depth))
    decreases depth, 0
  {
    var ents := Entries(Read(d0, a));
    assert a in EntryBlocks(d0, a, depth);
    assert Read(c.disk, a) == Read(d0, a);
    FreeLevelFrees(d0, Acquire(c, a), sb, a, ents, 0, depth - 1);
    var c2 := FreeLevel(Acquire(c, a), sb, a, ents, 0, depth - 1, false).value;
    FreeBlockFrees(Release(c2, a), sb, a);
  }

  /** The corrected freeing of one indirect tree frees exactly its blocks. */
  lemma FreeTreeFrees(d0: Disk, c: Cache, sb: Superblock, root: nat, depth: nat)
    requires SaneLayout(sb) && 1 <= depth
    requires OnlyBitmap(d0, c.disk, sb) && TreeShape(d0, root, depth)
    requires forall m :: m in TreeBlocks(d0, root, depth) ==> InUse(c.disk, sb, m)
    ensures FreeTree(c, sb, root, depth, false).Ok?
    ensures var c' := FreeTree(c, sb, root, depth, false).value;
      && OnlyBitmap(d0, c'.disk, sb)
      && forall m :: Allocated(c'.disk, sb, m) == (Allocated(c.disk, sb, m) && m !in TreeBlocks(d0, root, depth))
  {
    if root != 0 {
      var ents := Entries(Read(d0, root));
      assert root in TreeBlocks(d0, root, depth);
      assert Read(c.disk, root) == Read(d0, root);
      FreeLevelFrees(d0, Acquire(c, root), sb, root, ents, 0, depth);
      var c2 := FreeLevel(Acquire(c, root), sb, root, ents, 0, depth, false).value;
      FreeBlockFrees(Release(c2, root), sb, root);
    }
  }

  /** The corrected direct-slot loop writes only the bitmap. */
  lemma {:induction false} FreeDirectOnlyBitmap(c: Cache, sb: Superblock, addrs: Addrs, i: nat)
    requires SaneLayout(sb) && i <= NDIRECT
    requires forall j :: i <= j < NDIRECT && addrs[j] != 0 ==> addrs[j] < sb.size
    requires FreeDirect(c, sb, addrs, i, true).Ok?
    ensures OnlyBitmap(c.disk, FreeDirect(c, sb, addrs, i, true).value.disk, sb)
    decreases NDIRECT - i
  {
    if i < NDIRECT {
      if addrs[i] == 0 {
        FreeDirectOnlyBitmap(c, sb, addrs, i + 1);
      } else {
        FreeBlockFrees(c, sb, addrs[i] as nat);
        FreeDirectOnlyBitmap(FreeBlock(c, sb, addrs[i] as nat).value, sb, addrs, i + 1);
      }
    }
  }

  /** Every block of an inode: its non-zero direct slots and its three trees. */
  function InodeBlocks(d: Disk, addrs: Addrs): set<nat>
  {
    DirectSet(addrs, 0) + TreeBlocks(d, addrs[NDIRECT], 1)
    + TreeBlocks(d, addrs[NDIRECT + 1], 2) + TreeBlocks(d, addrs[NDIRECT + 2], 3)
  }

  /** The inode's blocks are in-use data blocks and each is named once. */
  predicate InodeBlocksOk(d: Disk, sb: Superblock, addrs: Addrs)
  {
    && (forall m :: m in InodeBlocks(d, addrs) ==> InUse(d, sb, m))
    && (forall j, k :: 0 <= j < k < NDIRECT && addrs[j] != 0 ==> addrs[j] != addrs[k])
    && TreeShape(d, addrs[NDIRECT], 1) && TreeShape(d, addrs[NDIRECT + 1], 2)
    && TreeShape(d, addrs[NDIRECT + 2], 3)
    && DirectSet(addrs, 0) !! (TreeBlocks(d, addrs[NDIRECT], 1) + TreeBlocks(d, addrs[NDIRECT + 1], 2)
                               + TreeBlocks(d, addrs[NDIRECT + 2], 3))
    && TreeBlocks(d, addrs[NDIRECT], 1) !! (TreeBlocks(d, addrs[NDIRECT + 1], 2) + TreeBlocks(d, addrs[NDIRECT + 2], 3))
    && TreeBlocks(d, addrs[NDIRECT + 1], 2) !! TreeBlocks(d, addrs[NDIRECT + 2], 3)
  }

  /** The tree at root freed after the blocks of Gone: it frees its own
    * blocks on top of those. */
  lemma FreeTreeAfter(d0: Disk, c: Cache, sb: Superblock, root: nat, depth: nat, Gone: set<nat>)
    requires SaneLayout(sb) && 1 <= depth
    requires OnlyBitmap(d0, c.disk, sb) && TreeShape(d0, root, depth)
    requires forall m :: m in TreeBlocks(d0, root, depth) ==> InUse(d0, sb, m) && m !in Gone
    requires forall m :: Allocated(c.disk, sb, m) == (Allocated(d0, sb, m) && m !in Gone)
    ensures FreeTree(c, sb, root, depth, false).Ok?
    ensures var c' := FreeTree(c, sb, root, depth, false).value;
      && OnlyBitmap(d0, c'.disk, sb)
      && forall m :: Allocated(c'.disk, sb, m) == (Allocated(d0, sb, m) && m !in Gone + TreeBlocks(d0, root, depth))
  {
    FreeTreeFrees(d0, c, sb, root, depth);
  }

  /** The direct-slot stage of the corrected itrunc frees the direct blocks. */
  lemma FreeDirectStage(c: Cache, sb: Superblock, addrs: Addrs)
    requires SaneLayout(sb) && InodeBlocksOk(c.disk, sb, addrs)
    ensures FreeDirect(c, sb, addrs, 0, true).Ok?
    ensures var c' := FreeDirect(c, sb, addrs, 0, true).value;
      && OnlyBitmap(c.disk, c'.disk, sb)
      && forall m :: Allocated(c'.disk, sb, m) == (Allocated(c.disk, sb, m) && m !in DirectSet(addrs, 0))
  {
    forall j | 0 <= j < NDIRECT && addrs[j] != 0
      ensures addrs[j] < sb.size && Allocated(c.disk, sb, addrs[j] as nat)
    {
      assert addrs[j] as nat in DirectSet(addrs, 0);
      assert addrs[j] as nat in InodeBlocks(c.disk, addrs);
    }
    FreeDirectFrees(c, sb, addrs, 0);
    FreeDirectOnlyBitmap(c, sb, addrs, 0);
  }

  /** The corrected itrunc succeeds on an inode whose blocks are in-use data
    * blocks each named once, frees exactly those blocks, and changes nothing
    * on disk but the bitmap. */
  lemma TruncFrees(c: Cache, sb: Superblock, addrs: Addrs)
    requires SaneLayout(sb) && InodeBlocksOk(c.disk, sb, addrs)
    ensures TruncSpec(c, sb, addrs, true).Ok?
    ensures var c' := TruncSpec(c, sb, addrs, true).value;
      && OnlyBitmap(c.disk, c'.disk, sb)
      && forall m :: Allocated(c'.disk, sb, m) == (Allocated(c.disk, sb, m) && m !in InodeBlocks(c.disk, addrs))
  {
    FirstStagesFree(c, sb, addrs);
    var c1 := FreeDirect(c, sb, addrs, 0, true).value;
    LastTreesFree(c.disk, FreeTree(c1, sb, addrs[NDIRECT], 1, false).value, sb, addrs);
  }

  /** The direct and singly-indirect stages of the corrected itrunc free the
    * direct blocks and the singly-indirect tree. */
  lemma FirstStagesFree(c: Cache, sb: Superblock, addrs: Addrs)
    requires SaneLayout(sb) && InodeBlocksOk(c.disk, sb, addrs)
    ensures FreeDirect(c, sb, addrs, 0, true).Ok?
    ensures FreeTree(FreeDirect(c, sb, addrs, 0, true).value, sb, addrs[NDIRECT], 1, false).Ok?
    ensures var c2 := FreeTree(FreeDirect(c, sb, addrs, 0, true).value, sb, addrs[NDIRECT], 1, false).value;
      var Gone := DirectSet(addrs, 0) + TreeBlocks(c.disk, addrs[NDIRECT], 1);
      && OnlyBitmap(c.disk, c2.disk, sb)
      && forall m :: Allocated(c2.disk, sb, m) == (Allocated(c.disk, sb, m) && m !in Gone)
  {
    var d0 := c.disk;
    assert InodeBlocks(d0, addrs) == DirectSet(addrs, 0) + TreeBlocks(d0, addrs[NDIRECT], 1)
      + TreeBlocks(d0, addrs[NDIRECT + 1], 2) + TreeBlocks(d0, addrs[NDIRECT + 2], 3);
    FreeDirectStage(c, sb, addrs);
    var c1 := FreeDirect(c, sb, addrs, 0, true).value;
    FreeTreeAfter(d0, c1, sb, addrs[NDIRECT], 1, DirectSet(addrs, 0));
  }

  /** The doubly- and triply-indirect stages of the corrected itrunc, after the
    * direct blocks and the singly-indirect tree are freed. */
  lemma LastTreesFree(d0: Disk, c2: Cache, sb: Superblock, addrs: Addrs)
    requires SaneLayout(sb) && InodeBlocksOk(d0, sb, addrs) && OnlyBitmap(d0, c2.disk, sb)
    requires var Gone := DirectSet(addrs, 0) + TreeBlocks(d0, addrs[NDIRECT], 1);
      forall m :: Allocated(c2.disk, sb, m) == (Allocated(d0, sb, m) && m !in Gone)
    ensures FreeTree(c2, sb, addrs[NDIRECT + 1], 2, false).Ok?
    ensures var c3 := FreeTree(c2, sb, addrs[NDIRECT + 1], 2, false).value;
      FreeTree(c3, sb, addrs[NDIRECT + 2], 3, false).Ok?
    ensures var c3 := FreeTree(c2, sb, addrs[NDIRECT + 1], 2, false).value;
      var c' := FreeTree(c3, sb, addrs[NDIRECT + 2], 3, false).value;
      && OnlyBitmap(d0, c'.disk, sb)
      && forall m :: Allocated(c'.disk, sb, m) == (Allocated(d0, sb, m) && m !in InodeBlocks(d0, addrs))
  {
    var D := DirectSet(addrs, 0);
    var T1, T2 := TreeBlocks(d0, addrs[NDIRECT], 1), TreeBlocks(d0, addrs[NDIRECT + 1], 2);
    assert InodeBlocks(d0, addrs) == D + T1 + T2 + TreeBlocks(d0, addrs[NDIRECT + 2], 3);
    FreeTreeAfter(d0, c2, sb, addrs[NDIRECT + 1], 2, D + T1);
    var c3 := FreeTree(c2, sb, addrs[NDIRECT + 1], 2, false).value;
    FreeTreeAfter(d0, c3, sb, addrs[NDIRECT + 2], 3, D + T1 + T2);
  }
}
