/** What a caller of imap2blockno (src/inode.c) can rely on across calls: on
  * an inode whose tree is well formed, mapping one logical block leaves every
  * other logical block where it was and keeps the contents of every block the
  * inode already maps, so mapping several blocks and writing each one reads
  * every one back. */
module BlockMapUse {
  import opened Bytes
  import opened FsLayout
  import opened AbstractDisk
  import opened Outcome
  import opened Bitmap
  import opened BlockMap
  import opened BlockMapFrame

  /** The path change of imap2blockno, tier by tier. */
  lemma MapChange(d: Disk, sb: Superblock, addrs: Addrs, bn: nat)
    requires SaneLayout(sb) && Reserved(d, sb) && InodeOk(d, sb, addrs)
    requires MapBlock(d, sb, addrs, bn).Ok?
    ensures bn < MAPPABLE
    ensures var (a, d', addrs') := MapBlock(d, sb, addrs, bn).value;
      PathChange(d, d', sb, addrs, addrs', LeafOf(bn))
  {
    match TierOf(bn)
    case Direct(_) => DirectChange(d, sb, addrs, bn);
    case Single(_) => SingleChange(d, sb, addrs, bn);
    case Double(_, _) => DoubleChange(d, sb, addrs, bn);
    case Triple(_, _, _) => TripleChange(d, sb, addrs, bn);
  }

  /** A well-formed tree has a well-formed path to every logical block. */
  lemma InodeOkPathOk(d: Disk, sb: Superblock, addrs: Addrs, bn: nat)
    requires InodeOk(d, sb, addrs)
    ensures PathOk(d, sb, addrs, bn)
  {
    match TierOf(bn)
    case Direct(_) =>
    case Single(_) =>
      assert ValidPos(Slot(NDIRECT)) && PtrAt(d, addrs, Slot(NDIRECT)) == addrs[NDIRECT];
    case Double(e, _) =>
      var S := Slot(NDIRECT + 1);
      assert ValidPos(S) && ValidPos(Under(S, e)) && PtrAt(d, addrs, S) == addrs[NDIRECT + 1];
      assert PtrAt(d, addrs, Under(S, e)) == Look(d, addrs[NDIRECT + 1] as nat, e);
    case Triple(e1, e2, _) =>
      var S := Slot(NDIRECT + 2);
      var N := Under(S, e1);
      assert ValidPos(S) && ValidPos(N) && ValidPos(Under(N, e2)) && PtrAt(d, addrs, S) == addrs[NDIRECT + 2];
      assert PtrAt(d, addrs, N) == Look(d, addrs[NDIRECT + 2] as nat, e1);
      assert PtrAt(d, addrs, Under(N, e2)) == Look(d, PtrAt(d, addrs, N) as nat, e2);
    case TooBig =>
  }

  /** Two logical blocks of a well-formed tree never share a data block. */
  lemma DataBlocksDistinct(d: Disk, sb: Superblock, addrs: Addrs, bn: nat, c: nat)
    requires InodeOk(d, sb, addrs) && bn != c && Resolve(d, addrs, bn) != 0
    ensures Resolve(d, addrs, bn) != Resolve(d, addrs, c)
  {
    ResolveAtLeaf(d, addrs, bn);
    if c < MAPPABLE {
      ResolveAtLeaf(d, addrs, c);
      if LeafOf(bn) == LeafOf(c) {
        LeafInjective(bn, c);
      }
    }
  }

  /** The data block of a logical block is in use and is not one of the
    * pointer blocks on the path to any logical block. */
  lemma DataNotPointer(d: Disk, sb: Superblock, addrs: Addrs, bn: nat, c: nat)
    requires InodeOk(d, sb, addrs) && bn < MAPPABLE && Resolve(d, addrs, c) != 0
    ensures InUse(d, sb, Resolve(d, addrs, c) as nat)
    ensures Resolve(d, addrs, c) as nat !in PrefixBlocks(d, addrs, LeafOf(bn))
  {
    ResolveAtLeaf(d, addrs, c);
    var L, P := LeafOf(bn), LeafOf(c);
    if Prefix(P, L) {
      LeafPrefix(P, L);
    }
    NotInPrefixBlocks(d, sb, addrs, L, P);
  }

  /** On a well-formed tree, imap2blockno(ip, bn) maps bn to the block it
    * returns, leaves every other logical block and the contents of every block
    * the inode maps as they were, writes in use only pointer blocks on bn's
    * path, and keeps the tree well formed. */
  lemma MapKeepsOthers(d: Disk, sb: Superblock, addrs: Addrs, bn: nat)
    requires SaneLayout(sb) && Reserved(d, sb) && InodeOk(d, sb, addrs)
    requires MapBlock(d, sb, addrs, bn).Ok?
    ensures bn < MAPPABLE
    ensures var (a, d', addrs') := MapBlock(d, sb, addrs, bn).value;
      && a != 0 && Resolve(d', addrs', bn) == a
      && (Resolve(d, addrs, bn) != 0 ==> a == Resolve(d, addrs, bn))
      && Reserved(d', sb) && InodeOk(d', sb, addrs')
      && (forall c :: c != bn ==> Resolve(d', addrs', c) == Resolve(d, addrs, c))
      && (forall c :: Resolve(d, addrs, c) != 0 ==>
            Read(d', Resolve(d, addrs, c) as nat) == Read(d, Resolve(d, addrs, c) as nat))
      && KeepsInUse(d, d', sb, PrefixBlocks(d, addrs, LeafOf(bn)))
  {
    MapChange(d, sb, addrs, bn);
    InodeOkPathOk(d, sb, addrs, bn);
    MapThenResolve(d, sb, addrs, bn);
    var (a, d', addrs') := MapBlock(d, sb, addrs, bn).value;
    InodeOkAfter(d, d', sb, addrs, addrs', LeafOf(bn));
    ResolveAtLeaf(d, addrs, bn);
    ResolveAtLeaf(d', addrs', bn);
    forall c | c != bn
      ensures Resolve(d', addrs', c) == Resolve(d, addrs, c)
    {
      ResolveOff(d, d', sb, addrs, addrs', bn, c);
    }
    forall c | Resolve(d, addrs, c) != 0
      ensures Read(d', Resolve(d, addrs, c) as nat) == Read(d, Resolve(d, addrs, c) as nat)
    {
      DataNotPointer(d, sb, addrs, bn, c);
      KeptAt(d, d', sb, PrefixBlocks(d, addrs, LeafOf(bn)), Resolve(d, addrs, c) as nat);
    }
  }

  /** A path change along bn's path leaves every other logical block's mapping. */
  lemma ResolveOff(d: Disk, d': Disk, sb: Superblock, addrs: Addrs, addrs': Addrs, bn: nat, c: nat)
    requires InodeOk(d, sb, addrs) && bn < MAPPABLE && c != bn
    requires PathChange(d, d', sb, addrs, addrs', LeafOf(bn))
    ensures Resolve(d', addrs', c) == Resolve(d, addrs, c)
  {
    if c < MAPPABLE {
      ResolveAtLeaf(d, addrs, c);
      ResolveAtLeaf(d', addrs', c);
      var L, P := LeafOf(bn), LeafOf(c);
      if Prefix(P, L) {
        LeafPrefix(P, L);
        LeafInjective(c, bn);
      }
      OffPathKept(d, d', sb, addrs, addrs', L, P);
    }
  }

  /** Writing a data block changes no address the tree holds, since the tree's
    * pointer blocks are other blocks. */
  lemma {:induction false} WriteKeepsPtr(d: Disk, sb: Superblock, addrs: Addrs, L: Pos, x: Block, p: Pos)
    requires InodeOk(d, sb, addrs) && ValidPos(L) && Depth(L) == Levels(RootOf(L)) && PtrAt(d, addrs, L) != 0
    requires ValidPos(p)
    ensures PtrAt(d[PtrAt(d, addrs, L) as nat := x], addrs, p) == PtrAt(d, addrs, p)
    decreases p
  {
    match p
    case Slot(_) =>
    case Under(q, j) =>
      WriteKeepsPtr(d, sb, addrs, L, x, q);
      if PtrAt(d, addrs, q) != 0 {
        assert q != L;
        assert PtrAt(d, addrs, q) != PtrAt(d, addrs, L);
      }
  }

  /** Writing x to the data block of bn (the caller's logged_write) keeps every
    * logical block's mapping, every bitmap bit and the tree well formed, and
    * the block then reads x. */
  lemma WriteKeepsMap(d: Disk, sb: Superblock, addrs: Addrs, bn: nat, x: Block)
    requires SaneLayout(sb) && Reserved(d, sb) && InodeOk(d, sb, addrs) && Resolve(d, addrs, bn) != 0
    ensures var a := Resolve(d, addrs, bn) as nat; var d' := d[a := x];
      && Read(d', a) == x && SameBits(d, d', sb) && Reserved(d', sb) && InodeOk(d', sb, addrs)
      && (forall c :: Resolve(d', addrs, c) == Resolve(d, addrs, c))
      && (forall p: nat :: p != a ==> Read(d', p) == Read(d, p))
  {
    var a := Resolve(d, addrs, bn) as nat;
    var d' := d[a := x];
    DataNotPointer(d, sb, addrs, bn, bn);
    DataWriteKeepsBits(d, sb, a, x);
    WriteKeepsPtrs(d, sb, addrs, bn, x);
    WriteKeepsOk(d, sb, addrs, bn, x);
    forall c: nat | c < MAPPABLE
      ensures Resolve(d', addrs, c) == Resolve(d, addrs, c)
    {
      ResolveAtLeaf(d, addrs, c);
      ResolveAtLeaf(d', addrs, c);
    }
  }

  /** Writing the data block of bn changes no address the tree holds. */
  lemma WriteKeepsPtrs(d: Disk, sb: Superblock, addrs: Addrs, bn: nat, x: Block)
    requires InodeOk(d, sb, addrs) && Resolve(d, addrs, bn) != 0
    ensures bn < MAPPABLE
    ensures forall p :: ValidPos(p) ==>
      PtrAt(d[Resolve(d, addrs, bn) as nat := x], addrs, p) == PtrAt(d, addrs, p)
  {
    ResolveAtLeaf(d, addrs, bn);
    forall p | ValidPos(p)
      ensures PtrAt(d[Resolve(d, addrs, bn) as nat := x], addrs, p) == PtrAt(d, addrs, p)
    {
      WriteKeepsPtr(d, sb, addrs, LeafOf(bn), x, p);
    }
  }

  /** Writing the data block of bn keeps the tree well formed and the disk reserved. */
  lemma WriteKeepsOk(d: Disk, sb: Superblock, addrs: Addrs, bn: nat, x: Block)
    requires SaneLayout(sb) && Reserved(d, sb) && InodeOk(d, sb, addrs) && Resolve(d, addrs, bn) != 0
    requires var a := Resolve(d, addrs, bn) as nat; DataStart(sb) <= a
    requires forall p :: ValidPos(p) ==>
      PtrAt(d[Resolve(d, addrs, bn) as nat := x], addrs, p) == PtrAt(d, addrs, p)
    requires SameBits(d, d[Resolve(d, addrs, bn) as nat := x], sb)
    ensures var d' := d[Resolve(d, addrs, bn) as nat := x];
      Reserved(d', sb) && InodeOk(d', sb, addrs)
  {
    var d' := d[Resolve(d, addrs, bn) as nat := x];
    assert forall m: nat :: m < sb.size ==> Allocated(d', sb, m) == Allocated(d, sb, m);
  }

  /** Mapping bn, then another logical block c: bn still maps to the block the
    * first call returned, whose contents the second call keeps, c maps to a
    * different block, and mapping bn again changes nothing. */
  lemma MapThenMapOther(d: Disk, sb: Superblock, addrs: Addrs, bn: nat, c: nat)
    requires SaneLayout(sb) && Reserved(d, sb) && InodeOk(d, sb, addrs) && c != bn
    requires MapBlock(d, sb, addrs, bn).Ok?
    requires MapBlock(MapBlock(d, sb, addrs, bn).value.1, sb, MapBlock(d, sb, addrs, bn).value.2, c).Ok?
    ensures var (a, d1, addrs1) := MapBlock(d, sb, addrs, bn).value;
      var (b, d2, addrs2) := MapBlock(d1, sb, addrs1, c).value;
      && Resolve(d2, addrs2, bn) == a && Resolve(d2, addrs2, c) == b && a != b
      && Read(d2, a as nat) == Read(d1, a as nat)
      && MapBlock(d2, sb, addrs2, bn) == Ok((a, d2, addrs2))
      && InodeOk(d2, sb, addrs2)
  {
    MapKeepsOthers(d, sb, addrs, bn);
    var (a, d1, addrs1) := MapBlock(d, sb, addrs, bn).value;
    MapKeepsOthers(d1, sb, addrs1, c);
    var (b, d2, addrs2) := MapBlock(d1, sb, addrs1, c).value;
    DataBlocksDistinct(d2, sb, addrs2, bn, c);
    MapExisting(d2, sb, addrs2, bn);
  }

  /** Map bn and write x to its block, then map c and write y to its block:
    * bn and c then map to two blocks that read x and y. */
  lemma WriteReadBack(d: Disk, sb: Superblock, addrs: Addrs, bn: nat, c: nat, x: Block, y: Block)
    requires SaneLayout(sb) && Reserved(d, sb) && InodeOk(d, sb, addrs) && c != bn
    requires MapBlock(d, sb, addrs, bn).Ok?
    requires var (a, d1, addrs1) := MapBlock(d, sb, addrs, bn).value;
      MapBlock(d1[a as nat := x], sb, addrs1, c).Ok?
    ensures var (a, d1, addrs1) := MapBlock(d, sb, addrs, bn).value;
      var (b, d2, addrs2) := MapBlock(d1[a as nat := x], sb, addrs1, c).value;
      var w := d2[b as nat := y];
      && Resolve(w, addrs2, bn) == a && Read(w, a as nat) == x
      && Resolve(w, addrs2, c) == b && Read(w, b as nat) == y
      && InodeOk(w, sb, addrs2) && Reserved(w, sb)
  {
    MapKeepsOthers(d, sb, addrs, bn);
    var (a, d1, addrs1) := MapBlock(d, sb, addrs, bn).value;
    WriteKeepsMap(d1, sb, addrs1, bn, x);
    var w1 := d1[a as nat := x];
    MapKeepsOthers(w1, sb, addrs1, c);
    var (b, d2, addrs2) := MapBlock(w1, sb, addrs1, c).value;
    assert Resolve(d2, addrs2, bn) == a;
    assert Read(d2, a as nat) == x;
    WriteKeepsMap(d2, sb, addrs2, c, y);
    DataBlocksDistinct(d2, sb, addrs2, c, bn);
  }
}
