/** The two views of an inode's tree agree. The blocks the corrected itrunc
  * (src/inode.c) frees, TruncateFrees.InodeBlocks, are the non-zero addresses
  * at the positions imap2blockno walks, BlockMapFrame.PtrAt. So an inode that
  * imap2blockno keeps well formed meets the corrected itrunc's precondition,
  * and truncating it frees every block the inode mapped. */
module InodeTree {
  import opened Bytes
  import opened FsLayout
  import opened AbstractDisk
  import opened Outcome
  import opened Bitmap
  import opened InodeTable
  import opened BlockMap
  import opened BlockMapFrame
  import opened BlockMapUse
  import opened Truncate
  import opened TruncateFrees
  import opened InodeSpec

  /** q sits h levels above the data blocks of its tree: h is 1 at a leaf. */
  predicate HeightOf(q: Pos, h: nat)
  {
    ValidPos(q) && Depth(q) + h == Levels(RootOf(q)) + 1
  }

  /** The ancestor of p at depth k (p itself when it is no deeper). */
  function Anc(p: Pos, k: nat): Pos
  {
    if Depth(p) <= k || !p.Under? then p else Anc(p.parent, k)
  }

  /** The part of InodeBlocks under root slot r: 0 for the direct slots,
    * k + 1 for the tree of slot NDIRECT + k. */
  function PartOf(r: nat): nat
  {
    if r < NDIRECT then 0 else r - NDIRECT + 1
  }

  /** The blocks of part k of an inode, as itrunc frees them. */
  function Part(d: Disk, addrs: Addrs, k: nat): set<nat>
    requires k <= 3
  {
    if k == 0 then DirectSet(addrs, 0) else TreeBlocks(d, addrs[NDIRECT + k - 1], k)
  }

  // ---------------------------------------------------------------------
  // Positions

  lemma {:induction false} AncOfPrefix(x: Pos, p: Pos)
    requires Prefix(x, p)
    ensures Anc(p, Depth(x)) == x
    decreases p
  {
    if x != p {
      PrefixShape(x, p.parent);
      AncOfPrefix(x, p.parent);
    }
  }

  /** Nodes below two distinct nodes of the same depth are distinct. */
  lemma Apart(x: Pos, y: Pos, p: Pos, q: Pos)
    requires Prefix(x, p) && Prefix(y, q) && Depth(x) == Depth(y) && x != y
    ensures p != q
  {
    AncOfPrefix(x, p);
    AncOfPrefix(y, q);
  }

  // ---------------------------------------------------------------------
  // Every block itrunc frees sits at a position

  /** The tree of root is the entry root one level higher. */
  lemma TreeIsEntry(d: Disk, root: nat, depth: nat)
    requires 1 <= depth
    ensures TreeBlocks(d, root, depth) == EntryBlocks(d, root, depth + 1)
    ensures TreeShape(d, root, depth) == EntryShape(d, root, depth + 1)
  {
  }

  /** A block under the entry at q sits at a node below q. */
  lemma {:induction false} EntryWitness(d: Disk, addrs: Addrs, q: Pos, h: nat, m: nat) returns (p: Pos)
    requires 1 <= h && HeightOf(q, h)
    requires m in EntryBlocks(d, PtrAt(d, addrs, q) as nat, h)
    ensures ValidPos(p) && Prefix(q, p) && PtrAt(d, addrs, p) as nat == m && m != 0
    decreases h, 0
  {
    var a := PtrAt(d, addrs, q) as nat;
    if m == a {
      p := q;
    } else {
      var j;
      p, j := LevelWitness(d, addrs, q, h, 0, m);
      PrefixTrans(q, Under(q, j), p);
    }
  }

  /** A block under entries i .. of the pointer block at q sits at a node below
    * one of those entries. */
  lemma {:induction false} LevelWitness(d: Disk, addrs: Addrs, q: Pos, h: nat, i: nat, m: nat) returns (p: Pos, j: nat)
    requires 2 <= h && HeightOf(q, h) && PtrAt(d, addrs, q) != 0 && i <= NINDIRECT1
    requires m in LevelBlocks(d, Entries(Read(d, PtrAt(d, addrs, q) as nat)), i, h - 1)
    ensures i <= j < NINDIRECT1 && ValidPos(Under(q, j)) && ValidPos(p) && Prefix(Under(q, j), p)
    ensures PtrAt(d, addrs, p) as nat == m && m != 0
    decreases h - 1, NINDIRECT1 - i
  {
    var ents := Entries(Read(d, PtrAt(d, addrs, q) as nat));
    var c := Under(q, i);
    assert ValidPos(c) && PtrAt(d, addrs, c) == ents[i];
    if m in EntryBlocks(d, ents[i] as nat, h - 1) {
      p := EntryWitness(d, addrs, c, h - 1, m);
      j := i;
    } else {
      p, j := LevelWitness(d, addrs, q, h, i + 1, m);
    }
  }

  /** A block of part k sits at a position under a root slot of part k. */
  lemma PartWitness(d: Disk, addrs: Addrs, k: nat, m: nat) returns (p: Pos)
    requires k <= 3 && m in Part(d, addrs, k)
    ensures ValidPos(p) && PartOf(RootOf(p)) == k && PtrAt(d, addrs, p) as nat == m && m != 0
  {
    if k == 0 {
      var j :| 0 <= j < NDIRECT && addrs[j] != 0 && addrs[j] as nat == m;
      p := Slot(j);
    } else {
      var s := Slot(NDIRECT + k - 1);
      TreeIsEntry(d, addrs[NDIRECT + k - 1] as nat, k);
      assert HeightOf(s, k + 1) && PtrAt(d, addrs, s) == addrs[NDIRECT + k - 1];
      p := EntryWitness(d, addrs, s, k + 1, m);
      PrefixShape(s, p);
    }
  }

  // ---------------------------------------------------------------------
  // Every non-zero position holds a block itrunc frees

  lemma {:induction false} LevelHolds(d: Disk, ents: seq<u32>, i: nat, j: nat, depth: nat)
    requires 1 <= depth && i <= j < NINDIRECT1 == |ents|
    ensures EntryBlocks(d, ents[j] as nat, depth) <= LevelBlocks(d, ents, i, depth)
    decreases j - i
  {
    if i < j {
      LevelHolds(d, ents, i + 1, j, depth);
    }
  }

  /** The blocks under a node p are among those under its ancestor q. */
  lemma {:induction false} SubtreeHolds(d: Disk, addrs: Addrs, q: Pos, h: nat, p: Pos, hp: nat)
    requires 1 <= h && HeightOf(q, h) && Prefix(q, p) && 1 <= hp && HeightOf(p, hp)
    requires PtrAt(d, addrs, p) != 0
    ensures EntryBlocks(d, PtrAt(d, addrs, p) as nat, hp) <= EntryBlocks(d, PtrAt(d, addrs, q) as nat, h)
    decreases p
  {
    if p != q {
      var p', j := p.parent, p.idx;
      assert ValidPos(p') && HeightOf(p', hp + 1) && PtrAt(d, addrs, p') != 0;
      SubtreeHolds(d, addrs, q, h, p', hp + 1);
      var ents := Entries(Read(d, PtrAt(d, addrs, p') as nat));
      assert ents[j] == PtrAt(d, addrs, p);
      LevelHolds(d, ents, 0, j, hp);
    }
  }

  /** A non-zero direct slot is one of the inode's direct blocks. */
  lemma PtrInDirect(d: Disk, addrs: Addrs, p: Pos)
    requires ValidPos(p) && PtrAt(d, addrs, p) != 0 && RootOf(p) < NDIRECT
    ensures PtrAt(d, addrs, p) as nat in DirectSet(addrs, 0)
  {
    var r := RootOf(p);
    SlotPrefix(p);
    LeafDepth(p);
    PrefixShape(Slot(r), p);
    assert addrs[r] as nat in DirectSet(addrs, 0);
  }

  /** A non-zero address under slot NDIRECT + k is a block of that slot's tree. */
  lemma PtrInTree(d: Disk, addrs: Addrs, p: Pos, k: nat)
    requires ValidPos(p) && PtrAt(d, addrs, p) != 0 && RootOf(p) == NDIRECT + k
    ensures k < 3 && PtrAt(d, addrs, p) as nat in TreeBlocks(d, addrs[NDIRECT + k] as nat, k + 1)
  {
    var s := Slot(NDIRECT + k);
    SlotPrefix(p);
    LeafDepth(p);
    var hp := k + 2 - Depth(p);
    assert HeightOf(s, k + 2) && HeightOf(p, hp) && PtrAt(d, addrs, s) == addrs[NDIRECT + k];
    SubtreeHolds(d, addrs, s, k + 2, p, hp);
    TreeIsEntry(d, addrs[NDIRECT + k] as nat, k + 1);
    assert PtrAt(d, addrs, p) as nat in EntryBlocks(d, PtrAt(d, addrs, p) as nat, hp);
  }

  /** Every non-zero address of the tree is one of the inode's blocks. */
  lemma PtrInInodeBlocks(d: Disk, addrs: Addrs, p: Pos)
    requires ValidPos(p) && PtrAt(d, addrs, p) != 0
    ensures PtrAt(d, addrs, p) as nat in InodeBlocks(d, addrs)
  {
    var r, x := RootOf(p), PtrAt(d, addrs, p) as nat;
    SlotPrefix(p);
    PrefixValid(Slot(r), p);
    if r < NDIRECT {
      PtrInDirect(d, addrs, p);
      InPart0(d, addrs, x);
    } else {
      PtrInTree(d, addrs, p, r - NDIRECT);
      TreeInInode(d, addrs, r - NDIRECT, x);
    }
  }

  lemma TreeInInode(d: Disk, addrs: Addrs, k: nat, m: nat)
    requires k < 3 && m in TreeBlocks(d, addrs[NDIRECT + k] as nat, k + 1)
    ensures m in InodeBlocks(d, addrs)
  {
    if k == 0 {
      InPart1(d, addrs, k, m);
    } else if k == 1 {
      InPart2(d, addrs, k, m);
    } else {
      InPart3(d, addrs, k, m);
    }
  }

  lemma InPart0(d: Disk, addrs: Addrs, m: nat)
    requires m in DirectSet(addrs, 0)
    ensures m in InodeBlocks(d, addrs)
  {
  }

  lemma InPart1(d: Disk, addrs: Addrs, k: nat, m: nat)
    requires k == 0 && m in TreeBlocks(d, addrs[NDIRECT + k] as nat, k + 1)
    ensures m in InodeBlocks(d, addrs)
  {
    assert NDIRECT + k == NDIRECT + 0 && k + 1 == 1;
  }

  lemma InPart2(d: Disk, addrs: Addrs, k: nat, m: nat)
    requires k == 1 && m in TreeBlocks(d, addrs[NDIRECT + k] as nat, k + 1)
    ensures m in InodeBlocks(d, addrs)
  {
    assert NDIRECT + k == NDIRECT + 1 && k + 1 == 2;
  }

  lemma InPart3(d: Disk, addrs: Addrs, k: nat, m: nat)
    requires k == 2 && m in TreeBlocks(d, addrs[NDIRECT + k] as nat, k + 1)
    ensures m in InodeBlocks(d, addrs)
  {
    assert NDIRECT + k == NDIRECT + 2 && k + 1 == 3;
  }

  /** Every block mapped at a logical block is one that itrunc frees. */
  lemma MappedInInodeBlocks(d: Disk, addrs: Addrs, bn: nat)
    requires Resolve(d, addrs, bn) != 0
    ensures Resolve(d, addrs, bn) as nat in InodeBlocks(d, addrs)
  {
    ResolveAtLeaf(d, addrs, bn);
    PtrInInodeBlocks(d, addrs, LeafOf(bn));
  }

  // ---------------------------------------------------------------------
  // A well-formed inode meets the corrected itrunc's precondition

  /** No pointer block of a well-formed inode lies in its own subtree. */
  lemma NotBelowItself(d: Disk, sb: Superblock, addrs: Addrs, q: Pos, h: nat)
    requires InodeOk(d, sb, addrs) && 2 <= h && HeightOf(q, h) && PtrAt(d, addrs, q) != 0
    ensures PtrAt(d, addrs, q) as nat !in LevelBlocks(d, Entries(Read(d, PtrAt(d, addrs, q) as nat)), 0, h - 1)
  {
    var ents := Entries(Read(d, PtrAt(d, addrs, q) as nat));
    var below := LevelBlocks(d, ents, 0, h - 1);
    forall m | m in below
      ensures m != PtrAt(d, addrs, q) as nat
    {
      var p, j := LevelWitness(d, addrs, q, h, 0, m);
      PrefixShape(Under(q, j), p);
      assert p != q;
    }
  }

  lemma {:induction false} EntryShapeOk(d: Disk, sb: Superblock, addrs: Addrs, q: Pos, h: nat, a: nat)
    requires InodeOk(d, sb, addrs) && 1 <= h && HeightOf(q, h) && a == PtrAt(d, addrs, q) as nat
    ensures EntryShape(d, a, h)
    decreases h, 3
  {
    if PtrAt(d, addrs, q) != 0 && h != 1 {
      LevelShapeOk(d, sb, addrs, q, h);
      NotBelowItself(d, sb, addrs, q, h);
    }
  }

  lemma {:induction false} LevelShapeOk(d: Disk, sb: Superblock, addrs: Addrs, q: Pos, h: nat)
    requires InodeOk(d, sb, addrs) && 2 <= h && HeightOf(q, h) && PtrAt(d, addrs, q) != 0
    ensures LevelShape(d, Entries(Read(d, PtrAt(d, addrs, q) as nat)), 0, h - 1)
    decreases h, 2
  {
    var ents := Entries(Read(d, PtrAt(d, addrs, q) as nat));
    ChildrenOk(d, sb, addrs, q, h, ents, h - 1);
    LevelShapeIntro(d, ents, 0, h - 1);
  }

  /** Each entry of the pointer block at q heads a well-shaped subtree that
    * shares no block with those of the later entries. */
  lemma {:induction false} ChildrenOk(d: Disk, sb: Superblock, addrs: Addrs, q: Pos, h: nat, ents: seq<u32>, depth: nat)
    requires InodeOk(d, sb, addrs) && 2 <= h && HeightOf(q, h) && PtrAt(d, addrs, q) != 0
    requires ents == Entries(Read(d, PtrAt(d, addrs, q) as nat)) && depth == h - 1
    ensures forall j :: 0 <= j < NINDIRECT1 ==> ChildOk(d, ents, j, depth)
    decreases h, 1
  {
    forall j | 0 <= j < NINDIRECT1
      ensures ChildOk(d, ents, j, depth)
    {
      ChildShapeOk(d, sb, addrs, q, h, j);
      SiblingsDisjoint(d, sb, addrs, q, h, j);
    }
  }

  lemma {:induction false} ChildShapeOk(d: Disk, sb: Superblock, addrs: Addrs, q: Pos, h: nat, j: nat)
    requires InodeOk(d, sb, addrs) && 2 <= h && HeightOf(q, h) && PtrAt(d, addrs, q) != 0 && j < NINDIRECT1
    ensures EntryShape(d, Entries(Read(d, PtrAt(d, addrs, q) as nat))[j] as nat, h - 1)
    decreases h, 0
  {
    var ents := Entries(Read(d, PtrAt(d, addrs, q) as nat));
    var c := Under(q, j);
    assert ValidPos(c) && HeightOf(c, h - 1) && PtrAt(d, addrs, c) == ents[j];
    EntryShapeOk(d, sb, addrs, c, h - 1, ents[j] as nat);
  }

  /** Entry j of a pointer block heads a well-shaped subtree that shares no
    * block with those of the later entries. */
  ghost predicate ChildOk(d: Disk, ents: seq<u32>, j: nat, depth: nat)
    requires 1 <= depth && j < NINDIRECT1 == |ents|
  {
    EntryShape(d, ents[j] as nat, depth) && EntryBlocks(d, ents[j] as nat, depth) !! LevelBlocks(d, ents, j + 1, depth)
  }

  /** LevelShape from its entry-wise conditions. */
  lemma {:induction false} LevelShapeIntro(d: Disk, ents: seq<u32>, i: nat, depth: nat)
    requires 1 <= depth && i <= NINDIRECT1 == |ents|
    requires forall j :: i <= j < NINDIRECT1 ==> ChildOk(d, ents, j, depth)
    ensures LevelShape(d, ents, i, depth)
    decreases NINDIRECT1 - i
  {
    if i < NINDIRECT1 {
      assert ChildOk(d, ents, i, depth);
      LevelShapeIntro(d, ents, i + 1, depth);
    }
  }

  /** The subtree of entry i and those of the later entries share no block. */
  lemma SiblingsDisjoint(d: Disk, sb: Superblock, addrs: Addrs, q: Pos, h: nat, i: nat)
    requires InodeOk(d, sb, addrs) && 2 <= h && HeightOf(q, h) && PtrAt(d, addrs, q) != 0 && i < NINDIRECT1
    ensures var ents := Entries(Read(d, PtrAt(d, addrs, q) as nat));
      EntryBlocks(d, ents[i] as nat, h - 1) !! LevelBlocks(d, ents, i + 1, h - 1)
  {
    var ents := Entries(Read(d, PtrAt(d, addrs, q) as nat));
    var mine, later := EntryBlocks(d, ents[i] as nat, h - 1), LevelBlocks(d, ents, i + 1, h - 1);
    forall m1, m2 | m1 in mine && m2 in later
      ensures m1 != m2
    {
      var p1, p2 := SiblingPositions(d, addrs, q, h, i, m1, m2);
    }
  }

  /** Blocks under entry i and under a later entry sit at distinct positions. */
  lemma SiblingPositions(d: Disk, addrs: Addrs, q: Pos, h: nat, i: nat, m1: nat, m2: nat) returns (p1: Pos, p2: Pos)
    requires 2 <= h && HeightOf(q, h) && PtrAt(d, addrs, q) != 0 && i < NINDIRECT1
    requires var ents := Entries(Read(d, PtrAt(d, addrs, q) as nat));
      m1 in EntryBlocks(d, ents[i] as nat, h - 1) && m2 in LevelBlocks(d, ents, i + 1, h - 1)
    ensures ValidPos(p1) && ValidPos(p2) && p1 != p2
    ensures PtrAt(d, addrs, p1) as nat == m1 && PtrAt(d, addrs, p2) as nat == m2 && m1 != 0
  {
    p1 := ChildWitness(d, addrs, q, h, i, m1);
    var j;
    p2, j := LevelWitness(d, addrs, q, h, i + 1, m2);
    Apart(Under(q, i), Under(q, j), p1, p2);
  }

  /** A block under entry i of the pointer block at q sits at a node below
    * that entry. */
  lemma ChildWitness(d: Disk, addrs: Addrs, q: Pos, h: nat, i: nat, m: nat) returns (p: Pos)
    requires 2 <= h && HeightOf(q, h) && PtrAt(d, addrs, q) != 0 && i < NINDIRECT1
    requires m in EntryBlocks(d, Entries(Read(d, PtrAt(d, addrs, q) as nat))[i] as nat, h - 1)
    ensures ValidPos(p) && Prefix(Under(q, i), p) && PtrAt(d, addrs, p) as nat == m && m != 0
  {
    var ents := Entries(Read(d, PtrAt(d, addrs, q) as nat));
    var c := Under(q, i);
    assert HeightOf(c, h - 1) && PtrAt(d, addrs, c) == ents[i];
    p := EntryWitness(d, addrs, c, h - 1, m);
  }

  lemma PartInUse(d: Disk, sb: Superblock, addrs: Addrs, k: nat)
    requires InodeOk(d, sb, addrs) && k <= 3
    ensures forall m :: m in Part(d, addrs, k) ==> InUse(d, sb, m)
  {
    forall m | m in Part(d, addrs, k)
      ensures InUse(d, sb, m)
    {
      var p := PartWitness(d, addrs, k, m);
    }
  }

  lemma PartsDisjoint(d: Disk, sb: Superblock, addrs: Addrs, k1: nat, k2: nat)
    requires InodeOk(d, sb, addrs) && k1 < k2 <= 3
    ensures Part(d, addrs, k1) !! Part(d, addrs, k2)
  {
    forall m1, m2 | m1 in Part(d, addrs, k1) && m2 in Part(d, addrs, k2)
      ensures m1 != m2
    {
      var p1 := PartWitness(d, addrs, k1, m1);
      var p2 := PartWitness(d, addrs, k2, m2);
      assert p1 != p2;
    }
  }

  lemma TreeShapeOk(d: Disk, sb: Superblock, addrs: Addrs, k: nat)
    requires InodeOk(d, sb, addrs) && 1 <= k <= 3
    ensures TreeShape(d, addrs[NDIRECT + k - 1] as nat, k)
  {
    var s := Slot(NDIRECT + k - 1);
    assert HeightOf(s, k + 1) && PtrAt(d, addrs, s) == addrs[NDIRECT + k - 1];
    EntryShapeOk(d, sb, addrs, s, k + 1, addrs[NDIRECT + k - 1] as nat);
    TreeIsEntry(d, addrs[NDIRECT + k - 1] as nat, k);
  }

  /** A well-formed inode, as imap2blockno keeps it, is one whose blocks the
    * corrected itrunc frees: in-use data blocks, each named once. */
  lemma InodeOkBlocksOk(d: Disk, sb: Superblock, addrs: Addrs)
    requires InodeOk(d, sb, addrs)
    ensures InodeBlocksOk(d, sb, addrs)
  {
    assert InodeBlocks(d, addrs) == Part(d, addrs, 0) + Part(d, addrs, 1) + Part(d, addrs, 2) + Part(d, addrs, 3);
    PartInUse(d, sb, addrs, 0);
    PartInUse(d, sb, addrs, 1);
    PartInUse(d, sb, addrs, 2);
    PartInUse(d, sb, addrs, 3);
    forall j, k | 0 <= j < k < NDIRECT && addrs[j] != 0
      ensures addrs[j] != addrs[k]
    {
      assert PtrAt(d, addrs, Slot(j)) == addrs[j] && PtrAt(d, addrs, Slot(k)) == addrs[k];
      assert ValidPos(Slot(j)) && ValidPos(Slot(k)) && Slot(j) != Slot(k);
    }
    TreeShapeOk(d, sb, addrs, 1);
    TreeShapeOk(d, sb, addrs, 2);
    TreeShapeOk(d, sb, addrs, 3);
    PartsDisjoint(d, sb, addrs, 0, 1);
    PartsDisjoint(d, sb, addrs, 0, 2);
    PartsDisjoint(d, sb, addrs, 0, 3);
    PartsDisjoint(d, sb, addrs, 1, 2);
    PartsDisjoint(d, sb, addrs, 1, 3);
    PartsDisjoint(d, sb, addrs, 2, 3);
  }

  // ---------------------------------------------------------------------
  // Map, then truncate

  /** After imap2blockno(ip, bn) on a well-formed inode, the corrected itrunc
    * succeeds, changes only the bitmap, and leaves free the block bn was
    * mapped to and every block the inode mapped before the call; any other
    * block keeps its bit. */
  lemma MapThenTruncFrees(d: Disk, sb: Superblock, addrs: Addrs, bn: nat, held: seq<nat>)
    requires SaneLayout(sb) && Reserved(d, sb) && InodeOk(d, sb, addrs)
    requires MapBlock(d, sb, addrs, bn).Ok?
    ensures var (a, d', addrs') := MapBlock(d, sb, addrs, bn).value;
      var r := TruncSpec(Cache(d', held), sb, addrs', true);
      && r.Ok? && OnlyBitmap(d', r.value.disk, sb)
      && !Allocated(r.value.disk, sb, a as nat)
      && (forall c :: Resolve(d, addrs, c) != 0 ==> !Allocated(r.value.disk, sb, Resolve(d, addrs, c) as nat))
      && (forall m :: m !in InodeBlocks(d', addrs') ==> Allocated(r.value.disk, sb, m) == Allocated(d', sb, m))
  {
    var (a, d', addrs') := MapBlock(d, sb, addrs, bn).value;
    MapKeepsOthers(d, sb, addrs, bn);
    InodeOkBlocksOk(d', sb, addrs');
    TruncFrees(Cache(d', held), sb, addrs');
    MappedInInodeBlocks(d', addrs', bn);
    forall c | Resolve(d, addrs, c) != 0
      ensures Resolve(d', addrs', c) as nat in InodeBlocks(d', addrs')
    {
      MappedInInodeBlocks(d', addrs', c);
    }
  }

  /** The last iput of an unlinked, well-formed inode frees every block it
    * maps. */
  lemma IputFreesMapped(c: Cache, sb: Superblock, n: Inode)
    requires n.ref == 1 && n.valid && n.nlink == 0
    requires SaneLayout(sb) && InodeOk(c.disk, sb, n.addrs) && IBlock(n.inum as nat, sb) < sb.bmapstart
    ensures IputSpec(c, sb, n, true).Ok?
    ensures forall bn :: Resolve(c.disk, n.addrs, bn) != 0 ==>
              !Allocated(IputSpec(c, sb, n, true).value.0.disk, sb, Resolve(c.disk, n.addrs, bn) as nat)
  {
    InodeOkBlocksOk(c.disk, sb, n.addrs);
    IputFreesBlocks(c, sb, n);
    forall bn | Resolve(c.disk, n.addrs, bn) != 0
      ensures Resolve(c.disk, n.addrs, bn) as nat in InodeBlocks(c.disk, n.addrs)
    {
      MappedInInodeBlocks(c.disk, n.addrs, bn);
    }
  }
}
