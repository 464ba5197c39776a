/** What imap2blockno (src/inode.c) leaves alone. An inode's addresses form a
  * tree: the NBLOCKADDR slots, and under slot NDIRECT + k the entries of k + 1
  * levels of pointer blocks. A mapping call changes only the nodes on the path
  * of the logical block it maps, so every other logical block resolves as
  * before, every other in-use block keeps its contents, and the tree stays
  * well formed. */
module BlockMapFrame {
  import opened Bytes
  import opened FsLayout
  import opened AbstractDisk
  import opened Outcome
  import opened Bitmap
  import opened BlockMap

  /** A node of the tree: address slot i, or entry idx of the block at parent. */
  datatype Pos = Slot(i: nat) | Under(parent: Pos, idx: nat)

  function RootOf(p: Pos): nat
  {
    match p
    case Slot(i) => i
    case Under(q, _) => RootOf(q)
  }

  function Depth(p: Pos): nat
  {
    match p
    case Slot(_) => 0
    case Under(q, _) => Depth(q) + 1
  }

  /** The levels of pointer blocks under slot i: none for a direct slot, then 1, 2, 3. */
  function Levels(i: nat): nat
  {
    if i < NDIRECT then 0 else i - NDIRECT + 1
  }

  predicate ValidPos(p: Pos)
  {
    match p
    case Slot(i) => i < NBLOCKADDR
    case Under(q, j) => ValidPos(q) && j < NINDIRECT1 && Depth(q) < Levels(RootOf(q))
  }

  /** The address held at node p; 0 below a 0. */
  function PtrAt(d: Disk, addrs: Addrs, p: Pos): u32
    requires ValidPos(p)
  {
    match p
    case Slot(i) => addrs[i]
    case Under(q, j) => Look(d, PtrAt(d, addrs, q) as nat, j)
  }

  /** p is q or an ancestor of q. */
  predicate Prefix(p: Pos, q: Pos)
  {
    p == q || (q.Under? && Prefix(p, q.parent))
  }

  /** The node that holds the data block of logical block bn. */
  function LeafOf(bn: nat): (L: Pos)
    requires bn < MAPPABLE
    ensures ValidPos(L) && Depth(L) == Levels(RootOf(L))
  {
    match TierOf(bn)
    case Direct(i) => Slot(i)
    case Single(i) => Under(Slot(NDIRECT), i)
    case Double(e, o) => Under(Under(Slot(NDIRECT + 1), e), o)
    case Triple(e1, e2, o2) =>
      var s := Slot(NDIRECT + 2);
      assert ValidPos(s) && Depth(s) == 0 && RootOf(s) == NDIRECT + 2;
      var l1 := Under(s, e1);
      assert ValidPos(l1) && Depth(l1) == 1 && RootOf(l1) == NDIRECT + 2;
      var l2 := Under(l1, e2);
      assert ValidPos(l2) && Depth(l2) == 2 && RootOf(l2) == NDIRECT + 2;
      Under(l2, o2)
  }

  /** A lookup of bn reads the address at bn's leaf. */
  lemma ResolveAtLeaf(d: Disk, addrs: Addrs, bn: nat)
    requires bn < MAPPABLE
    ensures Resolve(d, addrs, bn) == PtrAt(d, addrs, LeafOf(bn))
  {
    match TierOf(bn)
    case Direct(_) =>
    case Single(_) =>
    case Double(e, _) =>
      assert PtrAt(d, addrs, LeafOf(bn).parent) == Look(d, addrs[NDIRECT + 1] as nat, e);
    case Triple(e1, e2, _) =>
      var s := Slot(NDIRECT + 2);
      assert ValidPos(s) && Depth(s) == 0 && RootOf(s) == NDIRECT + 2;
      var l1 := Under(s, e1);
      assert ValidPos(l1) && Depth(l1) == 1 && RootOf(l1) == NDIRECT + 2;
      assert PtrAt(d, addrs, l1) == Look(d, addrs[NDIRECT + 2] as nat, e1);
      assert PtrAt(d, addrs, Under(l1, e2)) == Look(d, PtrAt(d, addrs, l1) as nat, e2);
  }

  /** Distinct logical blocks have distinct leaves. */
  lemma LeafInjective(bn: nat, c: nat)
    requires bn < MAPPABLE && c < MAPPABLE && LeafOf(bn) == LeafOf(c)
    ensures bn == c
  {
    assert TierOf(bn) == TierOf(c);
  }

  /** The whole inode is well formed: every non-zero address in its tree is an
    * in-use data block, and no block sits at two nodes. */
  ghost predicate InodeOk(d: Disk, sb: Superblock, addrs: Addrs)
  {
    && (forall p {:trigger PtrAt(d, addrs, p)} :: ValidPos(p) && PtrAt(d, addrs, p) != 0 ==> InUse(d, sb, PtrAt(d, addrs, p) as nat))
    && (forall p, q {:trigger PtrAt(d, addrs, p), PtrAt(d, addrs, q)} :: ValidPos(p) && ValidPos(q) && p != q && PtrAt(d, addrs, p) != 0 ==>
          PtrAt(d, addrs, p) != PtrAt(d, addrs, q))
  }

  /** The non-zero addresses at the strict ancestors of L: the pointer blocks
    * a walk to L reads. */
  function PrefixBlocks(d: Disk, addrs: Addrs, L: Pos): set<nat>
    requires ValidPos(L)
  {
    match L
    case Slot(_) => {}
    case Under(p, _) =>
      PrefixBlocks(d, addrs, p) + (if PtrAt(d, addrs, p) != 0 then {PtrAt(d, addrs, p) as nat} else {})
  }

  /** Every in-use block outside W has the same contents in d'. */
  ghost predicate KeepsInUse(d: Disk, d': Disk, sb: Superblock, W: set<nat>)
  {
    forall p: nat {:trigger InUse(d, sb, p)} :: InUse(d, sb, p) && p !in W ==> Read(d', p) == Read(d, p)
  }

  /** Address slots other than i are unchanged. */
  predicate SlotsKept(addrs: Addrs, addrs': Addrs, i: nat)
  {
    forall j :: 0 <= j < NBLOCKADDR && j != i ==> addrs'[j] == addrs[j]
  }

  /** Along the path to L, the entries off the path read as before. */
  predicate EntriesKept(d: Disk, d': Disk, addrs: Addrs, addrs': Addrs, L: Pos)
    requires ValidPos(L)
  {
    match L
    case Slot(_) => true
    case Under(p, k) =>
      && EntriesKept(d, d', addrs, addrs', p)
      && forall j :: 0 <= j < NINDIRECT1 && j != k ==>
           PtrAt(d', addrs', Under(p, j)) == PtrAt(d, addrs, Under(p, j))
  }

  /** A node after mapping: a non-zero in-use block, the old one if there was one,
    * otherwise a block that was free. */
  predicate Filled(d: Disk, d': Disk, sb: Superblock, v: u32, v': u32)
  {
    v' != 0 && InUse(d', sb, v' as nat) && (v != 0 ==> v' == v) && (v == 0 ==> !Allocated(d, sb, v' as nat))
  }

  /** Every node on the path to L is filled. */
  predicate PathFilled(d: Disk, d': Disk, sb: Superblock, addrs: Addrs, addrs': Addrs, L: Pos)
    requires ValidPos(L)
  {
    && Filled(d, d', sb, PtrAt(d, addrs, L), PtrAt(d', addrs', L))
    && match L
       case Slot(_) => true
       case Under(p, _) => PathFilled(d, d', sb, addrs, addrs', p)
  }

  /** The nodes on the path to L hold pairwise distinct blocks. */
  predicate ChainDistinct(d: Disk, addrs: Addrs, L: Pos)
    requires ValidPos(L)
  {
    match L
    case Slot(_) => true
    case Under(p, _) => ChainDistinct(d, addrs, p) && PtrAt(d, addrs, L) as nat !in PrefixBlocks(d, addrs, L)
  }

  /** What a mapping along the path to L changes and keeps. */
  ghost predicate PathChange(d: Disk, d': Disk, sb: Superblock, addrs: Addrs, addrs': Addrs, L: Pos)
    requires ValidPos(L)
  {
    && SlotsKept(addrs, addrs', RootOf(L))
    && KeepsInUse(d, d', sb, PrefixBlocks(d, addrs, L))
    && EntriesKept(d, d', addrs, addrs', L)
    && PathFilled(d, d', sb, addrs, addrs', L)
    && ChainDistinct(d', addrs', L)
    && Grows(d, d', sb)
  }

  // ---------------------------------------------------------------------
  // Facts about positions

  lemma {:induction false} PrefixShape(p: Pos, q: Pos)
    ensures Prefix(p, q) ==> RootOf(p) == RootOf(q) && Depth(p) <= Depth(q)
    ensures Prefix(p, q) && Depth(p) == Depth(q) ==> p == q
    decreases q
  {
    if p != q && q.Under? {
      PrefixShape(p, q.parent);
    }
  }

  lemma {:induction false} PrefixValid(p: Pos, q: Pos)
    requires Prefix(p, q) && ValidPos(q)
    ensures ValidPos(p)
    decreases q
  {
    if p != q {
      PrefixValid(p, q.parent);
    }
  }

  lemma {:induction false} SlotPrefix(q: Pos)
    ensures Prefix(Slot(RootOf(q)), q)
    decreases q
  {
    if q.Under? {
      SlotPrefix(q.parent);
    }
  }

  /** One leaf is an ancestor of another only when they are the same node. */
  lemma LeafPrefix(p: Pos, q: Pos)
    requires Prefix(p, q) && ValidPos(q) && Depth(p) == Levels(RootOf(p))
    ensures p == q
  {
    PrefixShape(p, q);
    PrefixValid(p, q);
    LeafDepth(q);
  }

  lemma {:induction false} LeafDepth(q: Pos)
    requires ValidPos(q)
    ensures Depth(q) <= Levels(RootOf(q))
  {
  }

  /** Two ancestors of L are ancestors one of the other. */
  lemma {:induction false} PrefixesOrdered(x: Pos, y: Pos, L: Pos)
    requires Prefix(x, L) && Prefix(y, L)
    ensures Prefix(x, y) || Prefix(y, x)
    decreases L
  {
    if x != L && y != L {
      PrefixesOrdered(x, y, L.parent);
    }
  }

  lemma {:induction false} PrefixTrans(x: Pos, y: Pos, z: Pos)
    requires Prefix(x, y) && Prefix(y, z)
    ensures Prefix(x, z)
    decreases z
  {
    if y != z {
      PrefixTrans(x, y, z.parent);
    }
  }

  /** The address at a strict ancestor of y is one of y's prefix blocks. */
  lemma {:induction false} InPrefixBlocks(d: Disk, addrs: Addrs, x: Pos, y: Pos)
    requires Prefix(x, y) && x != y && ValidPos(y) && (PrefixValid(x, y); PtrAt(d, addrs, x) != 0)
    ensures PtrAt(d, addrs, x) as nat in PrefixBlocks(d, addrs, y)
    decreases y
  {
    if x != y.parent {
      InPrefixBlocks(d, addrs, x, y.parent);
    }
  }

  /** A block at a node that is not a strict ancestor of L is not among L's prefix blocks. */
  lemma {:induction false} NotInPrefixBlocks(d: Disk, sb: Superblock, addrs: Addrs, L: Pos, p: Pos)
    requires InodeOk(d, sb, addrs) && ValidPos(L) && ValidPos(p) && PtrAt(d, addrs, p) != 0
    requires !Prefix(p, L) || p == L
    ensures PtrAt(d, addrs, p) as nat !in PrefixBlocks(d, addrs, L)
    decreases L
  {
    if L.Under? {
      var L0 := L.parent;
      PrefixShape(p, L0);
      assert p != L0;
      NotInPrefixBlocks(d, sb, addrs, L0, p);
      assert PtrAt(d, addrs, p) != PtrAt(d, addrs, L0);
    }
  }

  lemma {:induction false} ChainDistinctPrefix(d: Disk, addrs: Addrs, y: Pos, L: Pos)
    requires ValidPos(L) && Prefix(y, L) && ChainDistinct(d, addrs, L)
    ensures ValidPos(y) && ChainDistinct(d, addrs, y)
    decreases L
  {
    PrefixValid(y, L);
    if y != L {
      ChainDistinctPrefix(d, addrs, y, L.parent);
    }
  }

  lemma {:induction false} PathFilledPrefix(d: Disk, d': Disk, sb: Superblock, addrs: Addrs, addrs': Addrs, y: Pos, L: Pos)
    requires ValidPos(L) && Prefix(y, L) && PathFilled(d, d', sb, addrs, addrs', L)
    ensures ValidPos(y) && Filled(d, d', sb, PtrAt(d, addrs, y), PtrAt(d', addrs', y))
    decreases L
  {
    PrefixValid(y, L);
    if y != L {
      PathFilledPrefix(d, d', sb, addrs, addrs', y, L.parent);
    }
  }

  /** Distinct nodes on one path hold distinct blocks. */
  lemma ChainNodesDistinct(d: Disk, addrs: Addrs, x: Pos, y: Pos, L: Pos)
    requires ValidPos(L) && ChainDistinct(d, addrs, L) && Prefix(x, L) && Prefix(y, L) && x != y
    requires (PrefixValid(x, L); PtrAt(d, addrs, x) != 0)
    ensures ValidPos(y) && PtrAt(d, addrs, x) != PtrAt(d, addrs, y)
  {
    PrefixValid(y, L);
    PrefixesOrdered(x, y, L);
    if Prefix(x, y) {
      ChainDistinctPrefix(d, addrs, y, L);
      InPrefixBlocks(d, addrs, x, y);
    } else {
      ChainDistinctPrefix(d, addrs, x, L);
      if PtrAt(d, addrs, y) != 0 {
        InPrefixBlocks(d, addrs, y, x);
      }
    }
  }

  /** Entry j of an ancestor p of L that leads off the path reads as before. */
  lemma {:induction false} EntriesAlong(d: Disk, d': Disk, addrs: Addrs, addrs': Addrs, L: Pos, p: Pos, j: nat)
    requires ValidPos(L) && EntriesKept(d, d', addrs, addrs', L)
    requires Prefix(p, L) && p != L && j < NINDIRECT1 && !Prefix(Under(p, j), L)
    ensures ValidPos(p)
    ensures ValidPos(Under(p, j)) && PtrAt(d', addrs', Under(p, j)) == PtrAt(d, addrs, Under(p, j))
    decreases L
  {
    PrefixValid(p, L);
    PrefixShape(p, L);
    if p != L.parent {
      EntriesAlong(d, d', addrs, addrs', L.parent, p, j);
    }
  }

  // ---------------------------------------------------------------------
  // The frame, from what the walk changes to every node of the tree

  /** A node off the path to the leaf L holds the same address as before. */
  lemma {:induction false} OffPathKept(d: Disk, d': Disk, sb: Superblock, addrs: Addrs, addrs': Addrs, L: Pos, q: Pos)
    requires InodeOk(d, sb, addrs) && ValidPos(L) && Depth(L) == Levels(RootOf(L))
    requires SlotsKept(addrs, addrs', RootOf(L))
    requires KeepsInUse(d, d', sb, PrefixBlocks(d, addrs, L))
    requires EntriesKept(d, d', addrs, addrs', L)
    requires ValidPos(q) && !Prefix(q, L)
    ensures PtrAt(d', addrs', q) == PtrAt(d, addrs, q)
    decreases q
  {
    match q
    case Slot(i) =>
      SlotPrefix(L);
    case Under(p, j) =>
      if Prefix(p, L) {
        if p == L {
          assert false;
        }
        EntriesAlong(d, d', addrs, addrs', L, p, j);
      } else {
        OffPathKept(d, d', sb, addrs, addrs', L, p);
        var P := PtrAt(d, addrs, p);
        if P != 0 {
          NotInPrefixBlocks(d, sb, addrs, L, p);
        }
      }
  }

  /** After a change along the path to L, the tree is still well formed. */
  lemma InodeOkAfter(d: Disk, d': Disk, sb: Superblock, addrs: Addrs, addrs': Addrs, L: Pos)
    requires InodeOk(d, sb, addrs) && ValidPos(L) && Depth(L) == Levels(RootOf(L))
    requires PathChange(d, d', sb, addrs, addrs', L)
    ensures InodeOk(d', sb, addrs')
  {
    forall q | ValidPos(q) && PtrAt(d', addrs', q) != 0
      ensures InUse(d', sb, PtrAt(d', addrs', q) as nat)
    {
      if Prefix(q, L) {
        PathFilledPrefix(d, d', sb, addrs, addrs', q, L);
      } else {
        OffPathKept(d, d', sb, addrs, addrs', L, q);
      }
    }
    forall p, q | ValidPos(p) && ValidPos(q) && p != q && PtrAt(d', addrs', p) != 0
      ensures PtrAt(d', addrs', p) != PtrAt(d', addrs', q)
    {
      DistinctAfter(d, d', sb, addrs, addrs', L, p, q);
    }
  }

  lemma DistinctAfter(d: Disk, d': Disk, sb: Superblock, addrs: Addrs, addrs': Addrs, L: Pos, p: Pos, q: Pos)
    requires InodeOk(d, sb, addrs) && ValidPos(L) && Depth(L) == Levels(RootOf(L))
    requires PathChange(d, d', sb, addrs, addrs', L)
    requires ValidPos(p) && ValidPos(q) && p != q && PtrAt(d', addrs', p) != 0
    ensures PtrAt(d', addrs', p) != PtrAt(d', addrs', q)
  {
    var onP, onQ := Prefix(p, L), Prefix(q, L);
    if onP && onQ {
      ChainNodesDistinct(d', addrs', p, q, L);
    } else if onP {
      OffPathKept(d, d', sb, addrs, addrs', L, q);
      PathFilledPrefix(d, d', sb, addrs, addrs', p, L);
    } else if onQ {
      OffPathKept(d, d', sb, addrs, addrs', L, p);
      PathFilledPrefix(d, d', sb, addrs, addrs', q, L);
    } else {
      OffPathKept(d, d', sb, addrs, addrs', L, p);
      OffPathKept(d, d', sb, addrs, addrs', L, q);
    }
  }

  // ---------------------------------------------------------------------
  // One step of the walk

  /** An AllocIfZero step writes only outside the in-use blocks. */
  lemma AllocKeeps(d: Disk, sb: Superblock, a0: u32)
    requires SaneLayout(sb) && AllocIfZero(d, sb, a0).Ok?
    ensures KeepsInUse(d, AllocIfZero(d, sb, a0).value.1, sb, {})
  {
    if a0 == 0 {
      var (n, d1) := BlockAllocSpec(d, sb).value;
      BlockAllocChoosesLowest(d, sb);
      BitmapBlockIsMeta(sb, n);
      forall p: nat | InUse(d, sb, p)
        ensures Read(d1, p) == Read(d, p)
      {
        MarkFrame(d, sb, n, p);
      }
    }
  }

  /** A WalkEntry step through ptr writes only ptr among the in-use blocks, and
    * only entry idx of it. */
  lemma WalkKeeps(d: Disk, sb: Superblock, ptr: nat, idx: nat)
    requires SaneLayout(sb) && InUse(d, sb, ptr) && idx < NINDIRECT1
    requires WalkEntry(d, sb, ptr, idx).Ok?
    ensures var d' := WalkEntry(d, sb, ptr, idx).value.1;
      && KeepsInUse(d, d', sb, {ptr})
      && forall j :: 0 <= j < NINDIRECT1 && j != idx ==> Entry(Read(d', ptr), j) == Entry(Read(d, ptr), j)
  {
    if Entry(Read(d, ptr), idx) == 0 {
      AllocKeeps(d, sb, 0);
      var d1 := BlockAllocSpec(d, sb).value.1;
      assert Read(d1, ptr) == Read(d, ptr);
    }
  }

  /** Two steps keep the in-use blocks outside both of their write sets. */
  lemma KeepsCompose(d: Disk, d1: Disk, d': Disk, sb: Superblock, W1: set<nat>, W2: set<nat>)
    requires KeepsInUse(d, d1, sb, W1) && Grows(d, d1, sb) && KeepsInUse(d1, d', sb, W2)
    ensures KeepsInUse(d, d', sb, W1 + W2)
  {
    forall p: nat | InUse(d, sb, p) && p !in W1 + W2
      ensures Read(d', p) == Read(d, p)
    {
      assert InUse(d1, sb, p);
    }
  }

  /** Block v' on disk d reads, entry by entry except entry k, as the old
    * block v did on d0. */
  predicate MirrorsBut(d0: Disk, v: nat, d: Disk, v': nat, k: int)
  {
    forall j :: 0 <= j < NINDIRECT1 && j != k ==> Entry(Read(d, v'), j) == Look(d0, v, j)
  }

  /** Block v' on disk d reads, entry by entry, as the old block v did on d0. */
  predicate Mirrors(d0: Disk, v: u32, d: Disk, v': u32)
  {
    MirrorsBut(d0, v as nat, d, v' as nat, -1)
  }

  lemma ZeroMirrors(d0: Disk, d: Disk, v': nat)
    requires Read(d, v') == ZeroBlock
    ensures MirrorsBut(d0, 0, d, v', -1)
  {
    forall j | 0 <= j < NINDIRECT1
      ensures Entry(Read(d, v'), j) == 0
    {
      ZeroEntry(j);
    }
  }

  /** The tier's root slot: AllocIfZero on r0. */
  lemma RootStep(d: Disk, sb: Superblock, r0: u32)
    requires SaneLayout(sb) && Reserved(d, sb) && (r0 != 0 ==> InUse(d, sb, r0 as nat))
    requires AllocIfZero(d, sb, r0).Ok?
    ensures var (root, d1) := AllocIfZero(d, sb, r0).value;
      && Reserved(d1, sb) && Grows(d, d1, sb) && KeepsInUse(d, d1, sb, {})
      && Filled(d, d1, sb, r0, root) && Mirrors(d, r0, d1, root)
  {
    AllocStep(d, sb, r0, {});
    AllocKeeps(d, sb, r0);
    var (root, d1) := AllocIfZero(d, sb, r0).value;
    if r0 == 0 {
      ZeroMirrors(d, d1, root as nat);
    }
  }

  /** One WalkEntry step from a filled node v' that mirrors the old node v:
    * the child it returns is filled and mirrors the old child, and v' keeps
    * its other entries. */
  lemma NodeStep(d0: Disk, d: Disk, sb: Superblock, v: u32, v': u32, idx: nat)
    requires SaneLayout(sb) && Reserved(d, sb) && Grows(d0, d, sb)
    requires Filled(d0, d, sb, v, v') && Mirrors(d0, v, d, v') && idx < NINDIRECT1
    requires var c := Look(d0, v as nat, idx);
      c != 0 ==> InUse(d0, sb, c as nat) && Read(d, c as nat) == Read(d0, c as nat)
    requires WalkEntry(d, sb, v' as nat, idx).Ok?
    ensures var (w', d') := WalkEntry(d, sb, v' as nat, idx).value;
      var c := Look(d0, v as nat, idx);
      && Reserved(d', sb) && Grows(d0, d', sb) && Grows(d, d', sb)
      && Filled(d0, d', sb, c, w') && Mirrors(d0, c, d', w')
      && Entry(Read(d', v' as nat), idx) == w'
      && MirrorsBut(d0, v as nat, d', v' as nat, idx)
      && KeepsInUse(d, d', sb, {v' as nat})
      && (c == 0 ==> !Allocated(d, sb, w' as nat))
  {
    var c := Look(d0, v as nat, idx);
    assert Entry(Read(d, v' as nat), idx) == c;
    WalkStep(d, sb, v' as nat, idx, {v' as nat});
    WalkKeeps(d, sb, v' as nat, idx);
    var (w', d') := WalkEntry(d, sb, v' as nat, idx).value;
    if c == 0 {
      ZeroMirrors(d0, d', w' as nat);
    }
  }

  // ---------------------------------------------------------------------
  // Each tier changes only the path of the block it maps

  lemma DirectChange(d: Disk, sb: Superblock, addrs: Addrs, bn: nat)
    requires SaneLayout(sb) && Reserved(d, sb) && InodeOk(d, sb, addrs) && TierOf(bn).Direct?
    requires MapBlock(d, sb, addrs, bn).Ok?
    ensures var (a, d', addrs') := MapBlock(d, sb, addrs, bn).value;
      PathChange(d, d', sb, addrs, addrs', LeafOf(bn))
  {
    var i := TierOf(bn).i;
    assert ValidPos(Slot(i)) && PtrAt(d, addrs, Slot(i)) == addrs[i];
    RootStep(d, sb, addrs[i]);
  }

  lemma SingleChange(d: Disk, sb: Superblock, addrs: Addrs, bn: nat)
    requires SaneLayout(sb) && Reserved(d, sb) && InodeOk(d, sb, addrs) && TierOf(bn).Single?
    requires MapBlock(d, sb, addrs, bn).Ok?
    ensures var (a, d', addrs') := MapBlock(d, sb, addrs, bn).value;
      PathChange(d, d', sb, addrs, addrs', LeafOf(bn))
  {
    var i := TierOf(bn).i;
    var L := LeafOf(bn);
    var S := L.parent;
    assert S == Slot(NDIRECT) && L == Under(S, i) && ValidPos(S);
    var r0 := addrs[NDIRECT];
    var c := Look(d, r0 as nat, i);
    assert PtrAt(d, addrs, S) == r0 && PtrAt(d, addrs, L) == c;
    RootStep(d, sb, r0);
    var (root, d1) := AllocIfZero(d, sb, r0).value;
    NodeStep(d, d1, sb, r0, root, i);
    var (a, d') := WalkEntry(d1, sb, root as nat, i).value;
    var addrs' := MapBlock(d, sb, addrs, bn).value.2;
    assert addrs' == addrs[NDIRECT := root];
    assert PtrAt(d', addrs', S) == root && PtrAt(d', addrs', L) == a;
    forall j | 0 <= j < NINDIRECT1 && j != i
      ensures PtrAt(d', addrs', Under(S, j)) == PtrAt(d, addrs, Under(S, j))
    {
      assert Entry(Read(d', root as nat), j) == Look(d, r0 as nat, j);
    }
    forall p: nat | InUse(d, sb, p) && p !in PrefixBlocks(d, addrs, L)
      ensures Read(d', p) == Read(d, p)
    {
      assert InUse(d1, sb, p) && p != root as nat;
    }
    if c != 0 {
      assert c != r0;
    }
  }

  /** Two WalkEntry steps from a filled node v' that mirrors the old node v,
    * as the doubly-indirect tier and the last two levels of the triply-indirect
    * tier take them. */
  lemma Walk2Run(d0: Disk, d: Disk, sb: Superblock, v: u32, v': u32, e: nat, o: nat)
    requires SaneLayout(sb) && Reserved(d, sb) && Grows(d0, d, sb)
    requires Filled(d0, d, sb, v, v') && Mirrors(d0, v, d, v') && e < NINDIRECT1 && o < NINDIRECT1
    requires var m := Look(d0, v as nat, e);
      m != 0 ==> InUse(d0, sb, m as nat) && Read(d, m as nat) == Read(d0, m as nat) && m != v'
    requires var c := Look(d0, Look(d0, v as nat, e) as nat, o);
      c != 0 ==> InUse(d0, sb, c as nat) && Read(d, c as nat) == Read(d0, c as nat)
                 && c != v' && c != Look(d0, v as nat, e)
    requires Walk2(d, sb, v' as nat, e, o).Ok?
    ensures var (a, d') := Walk2(d, sb, v' as nat, e, o).value;
      var m := Look(d0, v as nat, e);
      var c := Look(d0, m as nat, o);
      var mid := Entry(Read(d', v' as nat), e);
      && Reserved(d', sb) && Grows(d0, d', sb) && Grows(d, d', sb)
      && Filled(d0, d', sb, v, v') && Filled(d0, d', sb, m, mid) && Filled(d0, d', sb, c, a)
      && MirrorsBut(d0, v as nat, d', v' as nat, e) && MirrorsBut(d0, m as nat, d', mid as nat, o)
      && Entry(Read(d', mid as nat), o) == a
      && mid != v' && a != v' && a != mid
      && (m == 0 ==> !Allocated(d, sb, mid as nat)) && (c == 0 ==> !Allocated(d, sb, a as nat))
      && KeepsInUse(d, d', sb, {v' as nat, mid as nat})
  {
    var m := Look(d0, v as nat, e);
    var c := Look(d0, m as nat, o);
    NodeStep(d0, d, sb, v, v', e);
    var (mid, d1) := WalkEntry(d, sb, v' as nat, e).value;
    if c != 0 {
      assert InUse(d, sb, c as nat);
    }
    Walk2Tail(d0, d, d1, sb, v, v', m, mid, e, o);
  }

  /** The second step of Walk2Run, from the entry mid the first one left. */
  lemma Walk2Tail(d0: Disk, d: Disk, d1: Disk, sb: Superblock, v: u32, v': u32, m: u32, mid: u32, e: nat, o: nat)
    requires SaneLayout(sb) && Reserved(d1, sb) && Grows(d0, d, sb) && Grows(d, d1, sb) && Grows(d0, d1, sb)
    requires e < NINDIRECT1 && o < NINDIRECT1 && m == Look(d0, v as nat, e)
    requires InUse(d, sb, v' as nat) && Filled(d0, d, sb, v, v')
    requires Filled(d0, d1, sb, m, mid) && Mirrors(d0, m, d1, mid)
    requires Entry(Read(d1, v' as nat), e) == mid && MirrorsBut(d0, v as nat, d1, v' as nat, e)
    requires KeepsInUse(d, d1, sb, {v' as nat}) && mid != v' && (m == 0 ==> !Allocated(d, sb, mid as nat))
    requires var c := Look(d0, m as nat, o);
      c != 0 ==> InUse(d, sb, c as nat) && InUse(d0, sb, c as nat) && Read(d, c as nat) == Read(d0, c as nat)
                 && c != v' && c != m
    requires WalkEntry(d1, sb, mid as nat, o).Ok?
    ensures var (a, d') := WalkEntry(d1, sb, mid as nat, o).value;
      var c := Look(d0, m as nat, o);
      && Reserved(d', sb) && Grows(d0, d', sb) && Grows(d, d', sb)
      && Filled(d0, d', sb, v, v') && Filled(d0, d', sb, m, mid) && Filled(d0, d', sb, c, a)
      && MirrorsBut(d0, v as nat, d', v' as nat, e) && MirrorsBut(d0, m as nat, d', mid as nat, o)
      && Entry(Read(d', v' as nat), e) == mid && Entry(Read(d', mid as nat), o) == a
      && a != v' && a != mid
      && (c == 0 ==> !Allocated(d, sb, a as nat))
      && KeepsInUse(d, d', sb, {v' as nat, mid as nat})
  {
    var c := Look(d0, m as nat, o);
    if c != 0 {
      assert Read(d1, c as nat) == Read(d0, c as nat);
    }
    NodeStep(d0, d1, sb, m, mid, o);
    var (a, d') := WalkEntry(d1, sb, mid as nat, o).value;
    assert InUse(d1, sb, v' as nat);
    assert Read(d', v' as nat) == Read(d1, v' as nat);
    KeepsCompose(d, d1, d', sb, {v' as nat}, {mid as nat});
    assert {v' as nat} + {mid as nat} == {v' as nat, mid as nat};
  }

  /** The doubly-indirect tier's path: the old root r0, middle block m0 and data block c. */
  predicate DoubleOld(d: Disk, sb: Superblock, addrs: Addrs, e: nat, o: nat)
    requires e < NINDIRECT1 && o < NINDIRECT1
  {
    var r0 := addrs[NDIRECT + 1];
    var m0 := Look(d, r0 as nat, e);
    var c := Look(d, m0 as nat, o);
    && (r0 != 0 ==> InUse(d, sb, r0 as nat))
    && (m0 != 0 ==> InUse(d, sb, m0 as nat) && m0 != r0)
    && (c != 0 ==> InUse(d, sb, c as nat) && c != r0 && c != m0)
  }

  /** The doubly-indirect tier fills its path with distinct blocks. */
  lemma DoubleFills(d: Disk, sb: Superblock, addrs: Addrs, e: nat, o: nat)
    requires SaneLayout(sb) && Reserved(d, sb) && e < NINDIRECT1 && o < NINDIRECT1
    requires DoubleOld(d, sb, addrs, e, o) && MapDouble(d, sb, addrs, e, o).Ok?
    ensures var (a, d', addrs') := MapDouble(d, sb, addrs, e, o).value;
      var r0 := addrs[NDIRECT + 1];
      var m0 := Look(d, r0 as nat, e);
      var root := addrs'[NDIRECT + 1];
      var mid := Entry(Read(d', root as nat), e);
      && addrs' == addrs[NDIRECT + 1 := root] && Grows(d, d', sb)
      && Filled(d, d', sb, r0, root) && Filled(d, d', sb, m0, mid)
      && Filled(d, d', sb, Look(d, m0 as nat, o), a)
      && Entry(Read(d', mid as nat), o) == a
      && mid != root && a != root && a != mid
  {
    var r0 := addrs[NDIRECT + 1];
    RootStep(d, sb, r0);
    var (root, d1) := AllocIfZero(d, sb, r0).value;
    Walk2Run(d, d1, sb, r0, root, e, o);
  }

  /** The doubly-indirect tier changes only the entries on its path of the
    * root and middle blocks. */
  lemma DoubleMirrors(d: Disk, sb: Superblock, addrs: Addrs, e: nat, o: nat)
    requires SaneLayout(sb) && Reserved(d, sb) && e < NINDIRECT1 && o < NINDIRECT1
    requires DoubleOld(d, sb, addrs, e, o) && MapDouble(d, sb, addrs, e, o).Ok?
    ensures var (a, d', addrs') := MapDouble(d, sb, addrs, e, o).value;
      var r0 := addrs[NDIRECT + 1];
      var root := addrs'[NDIRECT + 1];
      && MirrorsBut(d, r0 as nat, d', root as nat, e)
      && MirrorsBut(d, Look(d, r0 as nat, e) as nat, d', Entry(Read(d', root as nat), e) as nat, o)
  {
    var r0 := addrs[NDIRECT + 1];
    RootStep(d, sb, r0);
    var (root, d1) := AllocIfZero(d, sb, r0).value;
    Walk2Run(d, d1, sb, r0, root, e, o);
  }

  /** The doubly-indirect tier writes no in-use block but the root and middle
    * blocks on its path. */
  lemma DoubleKeeps(d: Disk, sb: Superblock, addrs: Addrs, e: nat, o: nat)
    requires SaneLayout(sb) && Reserved(d, sb) && e < NINDIRECT1 && o < NINDIRECT1
    requires DoubleOld(d, sb, addrs, e, o) && MapDouble(d, sb, addrs, e, o).Ok?
    ensures var d' := MapDouble(d, sb, addrs, e, o).value.1;
      var r0 := addrs[NDIRECT + 1];
      KeepsInUse(d, d', sb, {r0 as nat, Look(d, r0 as nat, e) as nat})
  {
    var r0 := addrs[NDIRECT + 1];
    RootStep(d, sb, r0);
    var (root, d1) := AllocIfZero(d, sb, r0).value;
    Walk2Run(d, d1, sb, r0, root, e, o);
    var (a, d') := Walk2(d1, sb, root as nat, e, o).value;
    var mid := Entry(Read(d', root as nat), e);
    KeepsTwo(d, d1, d', sb, r0, root, Look(d, r0 as nat, e), mid);
  }

  /** A root step that writes nothing in use, then a walk that writes only root
    * and mid, writes in use only the old root r0 and middle block m0: the new
    * ones are the old ones or were free. */
  lemma KeepsTwo(d: Disk, d1: Disk, d': Disk, sb: Superblock, r0: u32, root: u32, m0: u32, mid: u32)
    requires KeepsInUse(d, d1, sb, {}) && Grows(d, d1, sb) && KeepsInUse(d1, d', sb, {root as nat, mid as nat})
    requires Filled(d, d1, sb, r0, root) && (m0 != 0 ==> mid == m0) && (m0 == 0 ==> !Allocated(d1, sb, mid as nat))
    ensures KeepsInUse(d, d', sb, {r0 as nat, m0 as nat})
  {
    KeepsCompose(d, d1, d', sb, {}, {root as nat, mid as nat});
    assert InUse(d, sb, root as nat) ==> root == r0;
    assert InUse(d, sb, mid as nat) ==> mid == m0;
    KeepsNarrow(d, d', sb, {} + {root as nat, mid as nat}, {r0 as nat, m0 as nat});
  }

  /** Entries of the node at P other than k read as before, when P now holds a
    * block that mirrors the old one but for entry k. */
  lemma LevelEntries(d: Disk, d': Disk, addrs: Addrs, addrs': Addrs, P: Pos, k: nat)
    requires ValidPos(Under(P, k)) && PtrAt(d', addrs', P) != 0
    requires MirrorsBut(d, PtrAt(d, addrs, P) as nat, d', PtrAt(d', addrs', P) as nat, k)
    ensures forall j :: 0 <= j < NINDIRECT1 && j != k ==>
      PtrAt(d', addrs', Under(P, j)) == PtrAt(d, addrs, Under(P, j))
  {
  }

  /** Blocks of W that were not in use need not be listed. */
  lemma KeepsNarrow(d: Disk, d': Disk, sb: Superblock, W: set<nat>, W': set<nat>)
    requires KeepsInUse(d, d', sb, W) && forall p :: p in W && InUse(d, sb, p) ==> p in W'
    ensures KeepsInUse(d, d', sb, W')
  {
  }

  /** Blocks in use are data blocks, so 0 is never one. */
  lemma KeepsNonzero(d: Disk, d': Disk, sb: Superblock, W: set<nat>, W': set<nat>)
    requires KeepsInUse(d, d', sb, W) && forall p :: p in W && p != 0 ==> p in W'
    ensures KeepsInUse(d, d', sb, W')
  {
  }

  /** The positions of a two-level path: slot i, its entry e, that block's entry o. */
  predicate Path2(S: Pos, M: Pos, L: Pos, i: nat, e: nat, o: nat)
  {
    S == Slot(i) && M == Under(S, e) && L == Under(M, o) && ValidPos(S) && ValidPos(M) && ValidPos(L)
  }

  /** Along a two-level path whose pointer blocks mirror the old ones off the
    * path, the entries off the path read as before. */
  lemma Path2Entries(d: Disk, d': Disk, addrs: Addrs, addrs': Addrs, S: Pos, M: Pos, L: Pos, i: nat, e: nat, o: nat)
    requires Path2(S, M, L, i, e, o) && PtrAt(d', addrs', S) != 0 && PtrAt(d', addrs', M) != 0
    requires MirrorsBut(d, PtrAt(d, addrs, S) as nat, d', PtrAt(d', addrs', S) as nat, e)
    requires MirrorsBut(d, PtrAt(d, addrs, M) as nat, d', PtrAt(d', addrs', M) as nat, o)
    ensures EntriesKept(d, d', addrs, addrs', L)
  {
    LevelEntries(d, d', addrs, addrs', S, e);
    LevelEntries(d, d', addrs, addrs', M, o);
  }

  /** A two-level path filled with three distinct blocks is filled and distinct. */
  lemma Path2Filled(d: Disk, d': Disk, sb: Superblock, addrs: Addrs, addrs': Addrs, S: Pos, M: Pos, L: Pos, i: nat, e: nat, o: nat)
    requires Path2(S, M, L, i, e, o)
    requires Filled(d, d', sb, PtrAt(d, addrs, S), PtrAt(d', addrs', S))
    requires Filled(d, d', sb, PtrAt(d, addrs, M), PtrAt(d', addrs', M))
    requires Filled(d, d', sb, PtrAt(d, addrs, L), PtrAt(d', addrs', L))
    requires PtrAt(d', addrs', M) != PtrAt(d', addrs', S) && PtrAt(d', addrs', L) != PtrAt(d', addrs', S)
    requires PtrAt(d', addrs', L) != PtrAt(d', addrs', M)
    ensures PathFilled(d, d', sb, addrs, addrs', L) && ChainDistinct(d', addrs', L)
  {
    assert PathFilled(d, d', sb, addrs, addrs', S);
    assert PathFilled(d, d', sb, addrs, addrs', M);
    var s', m' := PtrAt(d', addrs', S) as nat, PtrAt(d', addrs', M) as nat;
    assert PrefixBlocks(d', addrs', M) == {s'};
    assert PrefixBlocks(d', addrs', L) == {s', m'};
    assert ChainDistinct(d', addrs', M);
  }

  /** The pointer blocks a two-level path reads are its two non-zero old nodes. */
  lemma Path2Keeps(d: Disk, d': Disk, sb: Superblock, addrs: Addrs, S: Pos, M: Pos, L: Pos, i: nat, e: nat, o: nat)
    requires Path2(S, M, L, i, e, o)
    requires KeepsInUse(d, d', sb, {PtrAt(d, addrs, S) as nat, PtrAt(d, addrs, M) as nat})
    ensures KeepsInUse(d, d', sb, PrefixBlocks(d, addrs, L))
  {
    assert PrefixBlocks(d, addrs, S) == {};
    assert PrefixBlocks(d, addrs, L) == PrefixBlocks(d, addrs, M)
      + (if PtrAt(d, addrs, M) != 0 then {PtrAt(d, addrs, M) as nat} else {});
    KeepsNonzero(d, d', sb, {PtrAt(d, addrs, S) as nat, PtrAt(d, addrs, M) as nat}, PrefixBlocks(d, addrs, L));
  }

  lemma DoubleChange(d: Disk, sb: Superblock, addrs: Addrs, bn: nat)
    requires SaneLayout(sb) && Reserved(d, sb) && InodeOk(d, sb, addrs) && TierOf(bn).Double?
    requires MapBlock(d, sb, addrs, bn).Ok?
    ensures var (a, d', addrs') := MapBlock(d, sb, addrs, bn).value;
      PathChange(d, d', sb, addrs, addrs', LeafOf(bn))
  {
    var e, o := TierOf(bn).entry, TierOf(bn).offset;
    var L := LeafOf(bn);
    var M := L.parent;
    var S := M.parent;
    assert S == Slot(NDIRECT + 1) && M == Under(S, e) && L == Under(M, o) && ValidPos(M);
    var r0 := addrs[NDIRECT + 1];
    var m0 := Look(d, r0 as nat, e);
    var c := Look(d, m0 as nat, o);
    assert PtrAt(d, addrs, S) == r0 && PtrAt(d, addrs, M) == m0 && PtrAt(d, addrs, L) == c;
    assert DoubleOld(d, sb, addrs, e, o);
    DoubleFills(d, sb, addrs, e, o);
    DoubleMirrors(d, sb, addrs, e, o);
    DoubleKeeps(d, sb, addrs, e, o);
    var (a, d', addrs') := MapBlock(d, sb, addrs, bn).value;
    var root := addrs'[NDIRECT + 1];
    var mid := Entry(Read(d', root as nat), e);
    assert PtrAt(d', addrs', S) == root && PtrAt(d', addrs', M) == mid && PtrAt(d', addrs', L) == a;
    assert Path2(S, M, L, NDIRECT + 1, e, o);
    Path2Entries(d, d', addrs, addrs', S, M, L, NDIRECT + 1, e, o);
    Path2Filled(d, d', sb, addrs, addrs', S, M, L, NDIRECT + 1, e, o);
    Path2Keeps(d, d', sb, addrs, S, M, L, NDIRECT + 1, e, o);
  }

  /** A walk that writes only blocks outside W1, then one that writes only W2,
    * writes in use only W, when W covers W1 and every block of W2 that was in use. */
  lemma KeepsThen(d: Disk, d1: Disk, d': Disk, sb: Superblock, W1: set<nat>, W2: set<nat>, W: set<nat>)
    requires KeepsInUse(d, d1, sb, W1) && Grows(d, d1, sb) && KeepsInUse(d1, d', sb, W2)
    requires W1 <= W && forall p :: p in W2 && InUse(d, sb, p) ==> p in W
    ensures KeepsInUse(d, d', sb, W)
  {
    KeepsCompose(d, d1, d', sb, W1, W2);
    KeepsNarrow(d, d', sb, W1 + W2, W);
  }

  /** The triply-indirect tier's path: the old root r0, the blocks n0 and m0 of
    * the next two levels and the data block c. */
  predicate TripleOld(d: Disk, sb: Superblock, addrs: Addrs, e1: nat, e2: nat, o2: nat)
    requires e1 < NINDIRECT1 && e2 < NINDIRECT1 && o2 < NINDIRECT1
  {
    var r0 := addrs[NDIRECT + 2];
    var n0 := Look(d, r0 as nat, e1);
    var m0 := Look(d, n0 as nat, e2);
    var c := Look(d, m0 as nat, o2);
    && (r0 != 0 ==> InUse(d, sb, r0 as nat))
    && (n0 != 0 ==> InUse(d, sb, n0 as nat) && n0 != r0)
    && (m0 != 0 ==> InUse(d, sb, m0 as nat) && m0 != r0 && m0 != n0)
    && (c != 0 ==> InUse(d, sb, c as nat) && c != r0 && c != n0 && c != m0)
  }

  /** The first two steps of the triply-indirect tier: fill the root, then its
    * entry e1. */
  lemma TripleHead(d: Disk, sb: Superblock, r0: u32, e1: nat)
    requires SaneLayout(sb) && Reserved(d, sb) && e1 < NINDIRECT1 && (r0 != 0 ==> InUse(d, sb, r0 as nat))
    requires var n0 := Look(d, r0 as nat, e1); n0 != 0 ==> InUse(d, sb, n0 as nat) && n0 != r0
    requires AllocIfZero(d, sb, r0).Ok?
    requires WalkEntry(AllocIfZero(d, sb, r0).value.1, sb, AllocIfZero(d, sb, r0).value.0 as nat, e1).Ok?
    ensures var (root, d1) := AllocIfZero(d, sb, r0).value;
      var (l1, d2) := WalkEntry(d1, sb, root as nat, e1).value;
      var n0 := Look(d, r0 as nat, e1);
      && Reserved(d2, sb) && Grows(d, d2, sb) && InUse(d2, sb, root as nat)
      && Filled(d, d2, sb, r0, root) && Filled(d, d2, sb, n0, l1) && Mirrors(d, n0, d2, l1)
      && Entry(Read(d2, root as nat), e1) == l1 && MirrorsBut(d, r0 as nat, d2, root as nat, e1)
      && l1 != root && KeepsInUse(d, d2, sb, {r0 as nat, n0 as nat})
      && (r0 == 0 ==> !Allocated(d, sb, root as nat)) && (n0 == 0 ==> !Allocated(d, sb, l1 as nat))
  {
    RootStep(d, sb, r0);
    var (root, d1) := AllocIfZero(d, sb, r0).value;
    var n0 := Look(d, r0 as nat, e1);
    if n0 != 0 {
      assert InUse(d1, sb, n0 as nat) && n0 != root;
    }
    NodeStep(d, d1, sb, r0, root, e1);
    var (l1, d2) := WalkEntry(d1, sb, root as nat, e1).value;
    assert InUse(d, sb, root as nat) ==> root == r0;
    KeepsThen(d, d1, d2, sb, {}, {root as nat}, {r0 as nat, n0 as nat});
  }

  /** The triply-indirect tier: after its head, the last two levels are the
    * walk the doubly-indirect tier takes, and the root is kept through it. */
  lemma TripleRun(d: Disk, sb: Superblock, addrs: Addrs, e1: nat, e2: nat, o2: nat)
    requires SaneLayout(sb) && Reserved(d, sb) && e1 < NINDIRECT1 && e2 < NINDIRECT1 && o2 < NINDIRECT1
    requires TripleOld(d, sb, addrs, e1, e2, o2) && MapTriple(d, sb, addrs, e1, e2, o2).Ok?
    ensures var r0 := addrs[NDIRECT + 2];
      var (root, d1) := AllocIfZero(d, sb, r0).value;
      var (l1, d2) := WalkEntry(d1, sb, root as nat, e1).value;
      var (a, d') := Walk2(d2, sb, l1 as nat, e2, o2).value;
      var n0 := Look(d, r0 as nat, e1);
      var m0 := Look(d, n0 as nat, e2);
      var l2 := Entry(Read(d', l1 as nat), e2);
      && Reserved(d2, sb) && Grows(d, d2, sb)
      && Filled(d, d2, sb, r0, root) && Entry(Read(d2, root as nat), e1) == l1
      && MirrorsBut(d, r0 as nat, d2, root as nat, e1)
      && l1 != root && KeepsInUse(d, d2, sb, {r0 as nat, n0 as nat})
      && (r0 == 0 ==> !Allocated(d, sb, root as nat)) && (n0 == 0 ==> !Allocated(d, sb, l1 as nat))
      && Reserved(d', sb) && Grows(d, d', sb) && Grows(d2, d', sb)
      && Filled(d, d', sb, n0, l1) && Filled(d, d', sb, m0, l2) && Filled(d, d', sb, Look(d, m0 as nat, o2), a)
      && MirrorsBut(d, n0 as nat, d', l1 as nat, e2) && MirrorsBut(d, m0 as nat, d', l2 as nat, o2)
      && Entry(Read(d', l2 as nat), o2) == a && l2 != l1 && a != l1 && a != l2
      && (m0 == 0 ==> !Allocated(d2, sb, l2 as nat)) && (Look(d, m0 as nat, o2) == 0 ==> !Allocated(d2, sb, a as nat))
      && KeepsInUse(d2, d', sb, {l1 as nat, l2 as nat})
  {
    var r0 := addrs[NDIRECT + 2];
    TripleHead(d, sb, r0, e1);
    var (root, d1) := AllocIfZero(d, sb, r0).value;
    var (l1, d2) := WalkEntry(d1, sb, root as nat, e1).value;
    var n0 := Look(d, r0 as nat, e1);
    var m0 := Look(d, n0 as nat, e2);
    var c := Look(d, m0 as nat, o2);
    if m0 != 0 {
      assert Read(d2, m0 as nat) == Read(d, m0 as nat);
    }
    if c != 0 {
      assert Read(d2, c as nat) == Read(d, c as nat);
    }
    Walk2Run(d, d2, sb, n0, l1, e2, o2);
  }

  /** The root the triply-indirect tier fills is distinct from the blocks below
    * it, so the last two levels keep it. */
  lemma TripleRoot(d: Disk, sb: Superblock, addrs: Addrs, e1: nat, e2: nat, o2: nat)
    requires SaneLayout(sb) && Reserved(d, sb) && e1 < NINDIRECT1 && e2 < NINDIRECT1 && o2 < NINDIRECT1
    requires TripleOld(d, sb, addrs, e1, e2, o2) && MapTriple(d, sb, addrs, e1, e2, o2).Ok?
    ensures var r0 := addrs[NDIRECT + 2];
      var (root, d1) := AllocIfZero(d, sb, r0).value;
      var (l1, d2) := WalkEntry(d1, sb, root as nat, e1).value;
      var (a, d') := Walk2(d2, sb, l1 as nat, e2, o2).value;
      var l2 := Entry(Read(d', l1 as nat), e2);
      && Read(d', root as nat) == Read(d2, root as nat) && Filled(d, d', sb, r0, root)
      && l1 != root && l2 != root && a != root
  {
    TripleRun(d, sb, addrs, e1, e2, o2);
    var r0 := addrs[NDIRECT + 2];
    var (root, d1) := AllocIfZero(d, sb, r0).value;
    var (l1, d2) := WalkEntry(d1, sb, root as nat, e1).value;
    var (a, d') := Walk2(d2, sb, l1 as nat, e2, o2).value;
    var m0 := Look(d, Look(d, r0 as nat, e1) as nat, e2);
    RootKept(d, d2, d', sb, r0, root, l1, m0, Entry(Read(d', l1 as nat), e2), Look(d, m0 as nat, o2), a);
  }

  /** The root of the triply-indirect tier, filled before the last two levels,
    * is none of the blocks they fill and so is kept by them. */
  lemma RootKept(d: Disk, d2: Disk, d': Disk, sb: Superblock, r0: u32, root: u32, l1: u32,
                 m0: u32, l2: u32, c: u32, a: u32)
    requires Filled(d, d2, sb, r0, root) && root != l1 && Grows(d2, d', sb)
    requires KeepsInUse(d2, d', sb, {l1 as nat, l2 as nat})
    requires Filled(d, d', sb, m0, l2) && (m0 != 0 ==> InUse(d, sb, m0 as nat) && m0 != r0)
    requires m0 == 0 ==> !Allocated(d2, sb, l2 as nat)
    requires Filled(d, d', sb, c, a) && (c != 0 ==> InUse(d, sb, c as nat) && c != r0)
    requires c == 0 ==> !Allocated(d2, sb, a as nat)
    ensures Read(d', root as nat) == Read(d2, root as nat) && Filled(d, d', sb, r0, root)
    ensures l2 != root && a != root
  {
    FreshOrOld(d, d2, sb, r0, root, m0, l2);
    FreshOrOld(d, d2, sb, r0, root, c, a);
    KeptAt(d2, d', sb, {l1 as nat, l2 as nat}, root as nat);
  }

  /** One instance of KeepsInUse. */
  lemma KeptAt(d: Disk, d': Disk, sb: Superblock, W: set<nat>, p: nat)
    requires KeepsInUse(d, d', sb, W) && InUse(d, sb, p) && p !in W
    ensures Read(d', p) == Read(d, p)
  {
  }

  /** A block x that is the old x0 != r0 or was free when root was filled is
    * not root. */
  lemma FreshOrOld(d: Disk, d2: Disk, sb: Superblock, r0: u32, root: u32, x0: u32, x: u32)
    requires InUse(d2, sb, root as nat) && (r0 != 0 ==> root == r0) && (r0 == 0 ==> !Allocated(d, sb, root as nat))
    requires (x0 != 0 ==> x == x0 && InUse(d, sb, x0 as nat) && x0 != r0) && (x0 == 0 ==> !Allocated(d2, sb, x as nat))
    ensures x != root
  {
  }

  /** The facts of TripleRun that TripleFills uses. */
  lemma TripleRunFills(d: Disk, sb: Superblock, addrs: Addrs, e1: nat, e2: nat, o2: nat)
    requires SaneLayout(sb) && Reserved(d, sb) && e1 < NINDIRECT1 && e2 < NINDIRECT1 && o2 < NINDIRECT1
    requires TripleOld(d, sb, addrs, e1, e2, o2) && MapTriple(d, sb, addrs, e1, e2, o2).Ok?
    ensures var r0 := addrs[NDIRECT + 2];
      var (root, d1) := AllocIfZero(d, sb, r0).value;
      var (l1, d2) := WalkEntry(d1, sb, root as nat, e1).value;
      var (a, d') := Walk2(d2, sb, l1 as nat, e2, o2).value;
      var n0 := Look(d, r0 as nat, e1);
      var m0 := Look(d, n0 as nat, e2);
      var l2 := Entry(Read(d', l1 as nat), e2);
      && Entry(Read(d2, root as nat), e1) == l1 && Grows(d, d', sb)
      && Filled(d, d', sb, n0, l1) && Filled(d, d', sb, m0, l2) && Filled(d, d', sb, Look(d, m0 as nat, o2), a)
      && Entry(Read(d', l2 as nat), o2) == a
  {
    TripleRun(d, sb, addrs, e1, e2, o2);
  }

  /** The triply-indirect tier fills its path with distinct blocks. */
  lemma TripleFills(d: Disk, sb: Superblock, addrs: Addrs, e1: nat, e2: nat, o2: nat)
    requires SaneLayout(sb) && Reserved(d, sb) && e1 < NINDIRECT1 && e2 < NINDIRECT1 && o2 < NINDIRECT1
    requires TripleOld(d, sb, addrs, e1, e2, o2) && MapTriple(d, sb, addrs, e1, e2, o2).Ok?
    ensures var (a, d', addrs') := MapTriple(d, sb, addrs, e1, e2, o2).value;
      var r0 := addrs[NDIRECT + 2];
      var n0 := Look(d, r0 as nat, e1);
      var m0 := Look(d, n0 as nat, e2);
      var root := addrs'[NDIRECT + 2];
      var l1 := Entry(Read(d', root as nat), e1);
      var l2 := Entry(Read(d', l1 as nat), e2);
      && addrs' == addrs[NDIRECT + 2 := root] && Grows(d, d', sb)
      && Filled(d, d', sb, r0, root) && Filled(d, d', sb, n0, l1) && Filled(d, d', sb, m0, l2)
      && Filled(d, d', sb, Look(d, m0 as nat, o2), a) && Entry(Read(d', l2 as nat), o2) == a
  {
    TripleLink(d, sb, addrs, e1, e2, o2);
    TripleRunFills(d, sb, addrs, e1, e2, o2);
    TripleRoot(d, sb, addrs, e1, e2, o2);
  }

  /** The four blocks on the triply-indirect tier's path are distinct. */
  lemma TripleDistinct(d: Disk, sb: Superblock, addrs: Addrs, e1: nat, e2: nat, o2: nat)
    requires SaneLayout(sb) && Reserved(d, sb) && e1 < NINDIRECT1 && e2 < NINDIRECT1 && o2 < NINDIRECT1
    requires TripleOld(d, sb, addrs, e1, e2, o2) && MapTriple(d, sb, addrs, e1, e2, o2).Ok?
    ensures var (a, d', addrs') := MapTriple(d, sb, addrs, e1, e2, o2).value;
      var root := addrs'[NDIRECT + 2];
      var l1 := Entry(Read(d', root as nat), e1);
      var l2 := Entry(Read(d', l1 as nat), e2);
      l1 != root && l2 != root && a != root && l2 != l1 && a != l1 && a != l2
  {
    TripleLink(d, sb, addrs, e1, e2, o2);
    TripleRun(d, sb, addrs, e1, e2, o2);
    TripleRoot(d, sb, addrs, e1, e2, o2);
  }

  /** The triply-indirect tier changes only the entries on its path of the
    * three pointer blocks. */
  lemma TripleMirrors(d: Disk, sb: Superblock, addrs: Addrs, e1: nat, e2: nat, o2: nat)
    requires SaneLayout(sb) && Reserved(d, sb) && e1 < NINDIRECT1 && e2 < NINDIRECT1 && o2 < NINDIRECT1
    requires TripleOld(d, sb, addrs, e1, e2, o2) && MapTriple(d, sb, addrs, e1, e2, o2).Ok?
    ensures var (a, d', addrs') := MapTriple(d, sb, addrs, e1, e2, o2).value;
      var r0 := addrs[NDIRECT + 2];
      var n0 := Look(d, r0 as nat, e1);
      var root := addrs'[NDIRECT + 2];
      var l1 := Entry(Read(d', root as nat), e1);
      && MirrorsBut(d, r0 as nat, d', root as nat, e1)
      && MirrorsBut(d, n0 as nat, d', l1 as nat, e2)
  {
    TripleLink(d, sb, addrs, e1, e2, o2);
    TripleRun(d, sb, addrs, e1, e2, o2);
    TripleRoot(d, sb, addrs, e1, e2, o2);
  }

  /** The triply-indirect tier changes only the entry on its path of the last
    * pointer block. */
  lemma TripleMirrorsLast(d: Disk, sb: Superblock, addrs: Addrs, e1: nat, e2: nat, o2: nat)
    requires SaneLayout(sb) && Reserved(d, sb) && e1 < NINDIRECT1 && e2 < NINDIRECT1 && o2 < NINDIRECT1
    requires TripleOld(d, sb, addrs, e1, e2, o2) && MapTriple(d, sb, addrs, e1, e2, o2).Ok?
    ensures var (a, d', addrs') := MapTriple(d, sb, addrs, e1, e2, o2).value;
      var n0 := Look(d, addrs[NDIRECT + 2] as nat, e1);
      var l1 := Entry(Read(d', addrs'[NDIRECT + 2] as nat), e1);
      MirrorsBut(d, Look(d, n0 as nat, e2) as nat, d', Entry(Read(d', l1 as nat), e2) as nat, o2)
  {
    TripleLink(d, sb, addrs, e1, e2, o2);
    TripleRun(d, sb, addrs, e1, e2, o2);
    TripleRoot(d, sb, addrs, e1, e2, o2);
  }

  /** The triply-indirect tier writes no in-use block but the three pointer
    * blocks on its path. */
  lemma TripleKeeps(d: Disk, sb: Superblock, addrs: Addrs, e1: nat, e2: nat, o2: nat)
    requires SaneLayout(sb) && Reserved(d, sb) && e1 < NINDIRECT1 && e2 < NINDIRECT1 && o2 < NINDIRECT1
    requires TripleOld(d, sb, addrs, e1, e2, o2) && MapTriple(d, sb, addrs, e1, e2, o2).Ok?
    ensures var d' := MapTriple(d, sb, addrs, e1, e2, o2).value.1;
      var r0 := addrs[NDIRECT + 2];
      var n0 := Look(d, r0 as nat, e1);
      KeepsInUse(d, d', sb, {r0 as nat, n0 as nat, Look(d, n0 as nat, e2) as nat})
  {
    TripleRun(d, sb, addrs, e1, e2, o2);
    var r0 := addrs[NDIRECT + 2];
    var (root, d1) := AllocIfZero(d, sb, r0).value;
    var (l1, d2) := WalkEntry(d1, sb, root as nat, e1).value;
    var (a, d') := Walk2(d2, sb, l1 as nat, e2, o2).value;
    var n0 := Look(d, r0 as nat, e1);
    var m0 := Look(d, n0 as nat, e2);
    var l2 := Entry(Read(d', l1 as nat), e2);
    KeepsThird(d, d2, d', sb, r0, n0, m0, l1, l2);
  }

  /** Two steps that write in use only {r0, n0}, then {l1, l2}, write in use
    * only {r0, n0, m0}, when l1 is n0 or was free and l2 is m0 or was free. */
  lemma KeepsThird(d: Disk, d2: Disk, d': Disk, sb: Superblock, r0: u32, n0: u32, m0: u32, l1: u32, l2: u32)
    requires KeepsInUse(d, d2, sb, {r0 as nat, n0 as nat}) && Grows(d, d2, sb)
    requires KeepsInUse(d2, d', sb, {l1 as nat, l2 as nat})
    requires (n0 != 0 ==> l1 == n0) && (n0 == 0 ==> !Allocated(d, sb, l1 as nat))
    requires (m0 != 0 ==> l2 == m0) && (m0 == 0 ==> !Allocated(d2, sb, l2 as nat))
    ensures KeepsInUse(d, d', sb, {r0 as nat, n0 as nat, m0 as nat})
  {
    assert InUse(d, sb, l1 as nat) ==> l1 == n0;
    assert InUse(d, sb, l2 as nat) ==> l2 == m0;
    KeepsThen(d, d2, d', sb, {r0 as nat, n0 as nat}, {l1 as nat, l2 as nat}, {r0 as nat, n0 as nat, m0 as nat});
  }

  /** The positions of a three-level path: slot i, then entries e1, e2 and o2. */
  predicate Path3(S: Pos, N: Pos, M: Pos, L: Pos, i: nat, e1: nat, e2: nat, o2: nat)
  {
    && S == Slot(i) && N == Under(S, e1) && M == Under(N, e2) && L == Under(M, o2)
    && ValidPos(S) && ValidPos(N) && ValidPos(M) && ValidPos(L)
  }

  /** Along a three-level path whose pointer blocks mirror the old ones off the
    * path, the entries off the path read as before. */
  lemma Path3Entries(d: Disk, d': Disk, addrs: Addrs, addrs': Addrs, S: Pos, N: Pos, M: Pos, L: Pos,
                     i: nat, e1: nat, e2: nat, o2: nat)
    requires Path3(S, N, M, L, i, e1, e2, o2)
    requires PtrAt(d', addrs', S) != 0 && PtrAt(d', addrs', N) != 0 && PtrAt(d', addrs', M) != 0
    requires MirrorsBut(d, PtrAt(d, addrs, S) as nat, d', PtrAt(d', addrs', S) as nat, e1)
    requires MirrorsBut(d, PtrAt(d, addrs, N) as nat, d', PtrAt(d', addrs', N) as nat, e2)
    requires MirrorsBut(d, PtrAt(d, addrs, M) as nat, d', PtrAt(d', addrs', M) as nat, o2)
    ensures EntriesKept(d, d', addrs, addrs', L)
  {
    LevelEntries(d, d', addrs, addrs', S, e1);
    assert EntriesKept(d, d', addrs, addrs', N);
    LevelEntries(d, d', addrs, addrs', N, e2);
    assert EntriesKept(d, d', addrs, addrs', M);
    LevelEntries(d, d', addrs, addrs', M, o2);
  }

  /** A three-level path filled with four distinct blocks is filled and distinct. */
  lemma Path3Filled(d: Disk, d': Disk, sb: Superblock, addrs: Addrs, addrs': Addrs, S: Pos, N: Pos, M: Pos, L: Pos,
                    i: nat, e1: nat, e2: nat, o2: nat)
    requires Path3(S, N, M, L, i, e1, e2, o2)
    requires Filled(d, d', sb, PtrAt(d, addrs, S), PtrAt(d', addrs', S))
    requires Filled(d, d', sb, PtrAt(d, addrs, N), PtrAt(d', addrs', N))
    requires Filled(d, d', sb, PtrAt(d, addrs, M), PtrAt(d', addrs', M))
    requires Filled(d, d', sb, PtrAt(d, addrs, L), PtrAt(d', addrs', L))
    requires PtrAt(d', addrs', N) != PtrAt(d', addrs', S)
    requires PtrAt(d', addrs', M) != PtrAt(d', addrs', S) && PtrAt(d', addrs', M) != PtrAt(d', addrs', N)
    requires PtrAt(d', addrs', L) != PtrAt(d', addrs', S) && PtrAt(d', addrs', L) != PtrAt(d', addrs', N)
    requires PtrAt(d', addrs', L) != PtrAt(d', addrs', M)
    ensures PathFilled(d, d', sb, addrs, addrs', L) && ChainDistinct(d', addrs', L)
  {
    assert PathFilled(d, d', sb, addrs, addrs', S);
    assert PathFilled(d, d', sb, addrs, addrs', N);
    assert PathFilled(d, d', sb, addrs, addrs', M);
    Chain3(d', addrs', S, N, M, L, i, e1, e2, o2);
  }

  /** A three-level path holding four distinct blocks is ChainDistinct. */
  lemma Chain3(d': Disk, addrs': Addrs, S: Pos, N: Pos, M: Pos, L: Pos, i: nat, e1: nat, e2: nat, o2: nat)
    requires Path3(S, N, M, L, i, e1, e2, o2)
    requires PtrAt(d', addrs', S) != 0 && PtrAt(d', addrs', N) != 0 && PtrAt(d', addrs', M) != 0
    requires PtrAt(d', addrs', N) != PtrAt(d', addrs', S)
    requires PtrAt(d', addrs', M) != PtrAt(d', addrs', S) && PtrAt(d', addrs', M) != PtrAt(d', addrs', N)
    requires PtrAt(d', addrs', L) != PtrAt(d', addrs', S) && PtrAt(d', addrs', L) != PtrAt(d', addrs', N)
    requires PtrAt(d', addrs', L) != PtrAt(d', addrs', M)
    ensures ChainDistinct(d', addrs', L)
  {
    var s', n', m' := PtrAt(d', addrs', S) as nat, PtrAt(d', addrs', N) as nat, PtrAt(d', addrs', M) as nat;
    assert PrefixBlocks(d', addrs', N) == {s'};
    assert PrefixBlocks(d', addrs', M) == {s', n'};
    assert PrefixBlocks(d', addrs', L) == {s', n', m'};
    assert ChainDistinct(d', addrs', N);
    assert ChainDistinct(d', addrs', M);
  }

  /** The pointer blocks a three-level path reads are its three non-zero old nodes. */
  lemma Path3Keeps(d: Disk, d': Disk, sb: Superblock, addrs: Addrs, S: Pos, N: Pos, M: Pos, L: Pos,
                   i: nat, e1: nat, e2: nat, o2: nat)
    requires Path3(S, N, M, L, i, e1, e2, o2)
    requires KeepsInUse(d, d', sb, {PtrAt(d, addrs, S) as nat, PtrAt(d, addrs, N) as nat, PtrAt(d, addrs, M) as nat})
    ensures KeepsInUse(d, d', sb, PrefixBlocks(d, addrs, L))
  {
    assert PrefixBlocks(d, addrs, S) == {};
    assert PrefixBlocks(d, addrs, M) == PrefixBlocks(d, addrs, N)
      + (if PtrAt(d, addrs, N) != 0 then {PtrAt(d, addrs, N) as nat} else {});
    assert PrefixBlocks(d, addrs, L) == PrefixBlocks(d, addrs, M)
      + (if PtrAt(d, addrs, M) != 0 then {PtrAt(d, addrs, M) as nat} else {});
    KeepsNonzero(d, d', sb, {PtrAt(d, addrs, S) as nat, PtrAt(d, addrs, N) as nat, PtrAt(d, addrs, M) as nat},
                 PrefixBlocks(d, addrs, L));
  }

  lemma TripleChange(d: Disk, sb: Superblock, addrs: Addrs, bn: nat)
    requires SaneLayout(sb) && Reserved(d, sb) && InodeOk(d, sb, addrs) && TierOf(bn).Triple?
    requires MapBlock(d, sb, addrs, bn).Ok?
    ensures var (a, d', addrs') := MapBlock(d, sb, addrs, bn).value;
      PathChange(d, d', sb, addrs, addrs', LeafOf(bn))
  {
    var e1, e2, o2 := TierOf(bn).entryl1, TierOf(bn).entryl2, TierOf(bn).offsetl2;
    var L := LeafOf(bn);
    var M := L.parent;
    var N := M.parent;
    var S := N.parent;
    assert S == Slot(NDIRECT + 2) && N == Under(S, e1) && M == Under(N, e2) && L == Under(M, o2);
    assert ValidPos(M) && ValidPos(N);
    var r0 := addrs[NDIRECT + 2];
    var n0 := Look(d, r0 as nat, e1);
    var m0 := Look(d, n0 as nat, e2);
    var c := Look(d, m0 as nat, o2);
    assert PtrAt(d, addrs, S) == r0 && PtrAt(d, addrs, N) == n0;
    assert PtrAt(d, addrs, M) == m0 && PtrAt(d, addrs, L) == c;
    assert TripleOld(d, sb, addrs, e1, e2, o2);
    TripleFills(d, sb, addrs, e1, e2, o2);
    TripleDistinct(d, sb, addrs, e1, e2, o2);
    TripleMirrors(d, sb, addrs, e1, e2, o2);
    TripleMirrorsLast(d, sb, addrs, e1, e2, o2);
    TripleKeeps(d, sb, addrs, e1, e2, o2);
    var (a, d', addrs') := MapBlock(d, sb, addrs, bn).value;
    var root := addrs'[NDIRECT + 2];
    var l1 := Entry(Read(d', root as nat), e1);
    var l2 := Entry(Read(d', l1 as nat), e2);
    assert PtrAt(d', addrs', S) == root && PtrAt(d', addrs', N) == l1;
    assert PtrAt(d', addrs', M) == l2 && PtrAt(d', addrs', L) == a;
    assert Path3(S, N, M, L, NDIRECT + 2, e1, e2, o2);
    Path3Entries(d, d', addrs, addrs', S, N, M, L, NDIRECT + 2, e1, e2, o2);
    Path3Filled(d, d', sb, addrs, addrs', S, N, M, L, NDIRECT + 2, e1, e2, o2);
    Path3Keeps(d, d', sb, addrs, S, N, M, L, NDIRECT + 2, e1, e2, o2);
  }


  /** MapTriple's result, step by step. */
  lemma TripleLink(d: Disk, sb: Superblock, addrs: Addrs, e1: nat, e2: nat, o2: nat)
    requires e1 < NINDIRECT1 && e2 < NINDIRECT1 && o2 < NINDIRECT1
    requires MapTriple(d, sb, addrs, e1, e2, o2).Ok?
    ensures var r0 := addrs[NDIRECT + 2];
      && AllocIfZero(d, sb, r0).Ok?
      && var (root, d1) := AllocIfZero(d, sb, r0).value;
      && WalkEntry(d1, sb, root as nat, e1).Ok?
      && var (l1, d2) := WalkEntry(d1, sb, root as nat, e1).value;
      && Walk2(d2, sb, l1 as nat, e2, o2).Ok?
      && MapTriple(d, sb, addrs, e1, e2, o2).value
         == (Walk2(d2, sb, l1 as nat, e2, o2).value.0, Walk2(d2, sb, l1 as nat, e2, o2).value.1, addrs[NDIRECT + 2 := root])
  {
  }
}
