/** The specification of `itrunc` (src/inode.c): freeing the blocks of an
  * inode's tree, and the buffers it holds while doing so. `fixed` chooses
  * between the code as written and the corrected code (see README). */
module Truncate {
  import opened Bytes
  import opened FsLayout
  import opened AbstractDisk
  import opened Outcome
  import opened Bitmap

  /** The disk seen through the buffer cache, with the blocks whose buffers are
    * held (taken by `logged_read` and not yet released), one entry per hold,
    * in the order taken. */
  datatype Cache = Cache(disk: Disk, held: seq<nat>)

  /** The holds with the latest hold on b dropped; unchanged when b is not held. */
  function Unhold(h: seq<nat>, b: nat): seq<nat>
  {
    if |h| == 0 then h
    else if h[|h| - 1] == b then h[..|h| - 1]
    else Unhold(h[..|h| - 1], b) + [h[|h| - 1]]
  }

  /** Unhold drops exactly one hold on b, if there is one. */
  lemma {:induction false} UnholdCounts(h: seq<nat>, b: nat)
    ensures multiset(Unhold(h, b)) == multiset(h) - multiset{b}
  {
    if |h| > 0 {
      var last := h[|h| - 1];
      assert h == h[..|h| - 1] + [last];
      if last != b {
        UnholdCounts(h[..|h| - 1], b);
      }
    }
  }

  /** Taking a buffer and releasing it again leaves the holds as they were. */
  lemma TakeThenDrop(h: seq<nat>, b: nat)
    ensures Unhold(h + [b], b) == h
  {
    assert (h + [b])[..|h|] == h;
  }

  /** Taking a hold on a and dropping one on ptr changes the holds on any other
    * block x only by the hold on a. */
  lemma TakeDropOther(h: seq<nat>, a: nat, ptr: nat, x: nat)
    requires x != ptr
    ensures multiset(Unhold(h + [a], ptr))[x] == multiset(h)[x] + (if x == a then 1 else 0)
  {
    UnholdCounts(h + [a], ptr);
    assert multiset(h + [a]) == multiset(h) + multiset{a};
  }

  /** `logged_read(b)` */
  function Acquire(c: Cache, b: nat): Cache
  {
    c.(held := c.held + [b])
  }

  /** `logged_relse(bp)` / `brelse(bp)` for the buffer of block b. */
  function Release(c: Cache, b: nat): Cache
  {
    c.(held := Unhold(c.held, b))
  }

  /** `block_free(b)` through the cache; it takes and drops its own buffer. */
  function FreeBlock(c: Cache, sb: Superblock, b: nat): Result<Cache>
  {
    var d :- BlockFreeSpec(c.disk, sb, b);
    Ok(c.(disk := d))
  }

  /** The direct-slot loop, from slot i. As written it frees every slot, zero
    * or not; the corrected loop skips zero slots. */
  function FreeDirect(c: Cache, sb: Superblock, addrs: Addrs, i: nat, fixed: bool): Result<Cache>
    requires i <= NDIRECT
    decreases NDIRECT - i
  {
    if i == NDIRECT then Ok(c)
    else if fixed && addrs[i] == 0 then FreeDirect(c, sb, addrs, i + 1, fixed)
    else
      var c1 :- FreeBlock(c, sb, addrs[i]);
      FreeDirect(c1, sb, addrs, i + 1, fixed)
  }

  /** The loop over entries i.. of the pointer block ptr, whose entries ents
    * were read when its buffer was taken, and whose subtrees are depth - 1
    * levels deep (depth 1: the entries are data blocks). */
  function FreeLevel(c: Cache, sb: Superblock, ptr: nat, ents: seq<u32>, i: nat, depth: nat, parentRelease: bool): Result<Cache>
    requires 1 <= depth && i <= NINDIRECT1 == |ents|
    decreases depth, NINDIRECT1 - i
  {
    if i == NINDIRECT1 then Ok(c)
    else
      var a := ents[i] as nat;
      if a == 0 then FreeLevel(c, sb, ptr, ents, i + 1, depth, parentRelease)
      else
        var c1 :- if depth == 1 then FreeBlock(c, sb, a) else FreeChild(c, sb, ptr, a, depth, parentRelease);
        FreeLevel(c1, sb, ptr, ents, i + 1, depth, parentRelease)
  }

  /** A non-zero entry a of an inner level: the child's buffer is taken, its
    * subtree freed, a buffer released and the child freed. `parentRelease`
    * says the buffer released is ptr's, as the code does at src/inode.c lines
    * 388 and 416, instead of the child's. */
  function FreeChild(c: Cache, sb: Superblock, ptr: nat, a: nat, depth: nat, parentRelease: bool): Result<Cache>
    requires 2 <= depth
    decreases depth, 0
  {
    var c1 := Acquire(c, a);
    var c2 :- FreeLevel(c1, sb, a, Entries(Read(c.disk, a)), 0, depth - 1, false);
    FreeBlock(Release(c2, if parentRelease then ptr else a), sb, a)
  }

  /** One indirect tree rooted at address root (nothing when root is 0). */
  function FreeTree(c: Cache, sb: Superblock, root: nat, depth: nat, parentRelease: bool): Result<Cache>
    requires 1 <= depth
  {
    if root == 0 then Ok(c)
    else
      var c1 := Acquire(c, root);
      var c2 :- FreeLevel(c1, sb, root, Entries(Read(c.disk, root)), 0, depth, parentRelease);
      FreeBlock(Release(c2, root), sb, root)
  }

  /** itrunc on an inode whose address array is addrs. */
  function TruncSpec(c: Cache, sb: Superblock, addrs: Addrs, fixed: bool): Result<Cache>
  {
    var c1 :- FreeDirect(c, sb, addrs, 0, fixed);
    var c2 :- FreeTree(c1, sb, addrs[NDIRECT], 1, false);
    var c3 :- FreeTree(c2, sb, addrs[NDIRECT + 1], 2, !fixed);
    FreeTree(c3, sb, addrs[NDIRECT + 2], 3, !fixed)
  }

  /** The corrected levels give back every buffer they take. */
  lemma {:induction false} FreeLevelKeepsHeld(c: Cache, sb: Superblock, ptr: nat, ents: seq<u32>, i: nat, depth: nat)
    requires 1 <= depth && i <= NINDIRECT1 == |ents|
    requires FreeLevel(c, sb, ptr, ents, i, depth, false).Ok?
    ensures FreeLevel(c, sb, ptr, ents, i, depth, false).value.held == c.held
    decreases depth, NINDIRECT1 - i
  {
    if i < NINDIRECT1 {
      var a := ents[i] as nat;
      if a == 0 {
        FreeLevelKeepsHeld(c, sb, ptr, ents, i + 1, depth);
      } else {
        var r := if depth == 1 then FreeBlock(c, sb, a) else FreeChild(c, sb, ptr, a, depth, false);
        if depth > 1 {
          FreeChildKeepsHeld(c, sb, ptr, a, depth);
        }
        FreeLevelKeepsHeld(r.value, sb, ptr, ents, i + 1, depth);
      }
    }
  }

  lemma {:induction false} FreeChildKeepsHeld(c: Cache, sb: Superblock, ptr: nat, a: nat, depth: nat)
    requires 2 <= depth
    requires FreeChild(c, sb, ptr, a, depth, false).Ok?
    ensures FreeChild(c, sb, ptr, a, depth, false).value.held == c.held
    decreases depth, 0
  {
    var c1 := Acquire(c, a);
    FreeLevelKeepsHeld(c1, sb, a, Entries(Read(c.disk, a)), 0, depth - 1);
    TakeThenDrop(c.held, a);
  }

  lemma {:induction false} FreeDirectKeepsHeld(c: Cache, sb: Superblock, addrs: Addrs, i: nat, fixed: bool)
    requires i <= NDIRECT
    requires FreeDirect(c, sb, addrs, i, fixed).Ok?
    ensures FreeDirect(c, sb, addrs, i, fixed).value.held == c.held
    decreases NDIRECT - i
  {
    if i < NDIRECT {
      if fixed && addrs[i] == 0 {
        FreeDirectKeepsHeld(c, sb, addrs, i + 1, fixed);
      } else {
        FreeDirectKeepsHeld(FreeBlock(c, sb, addrs[i]).value, sb, addrs, i + 1, fixed);
      }
    }
  }

  lemma FreeTreeKeepsHeld(c: Cache, sb: Superblock, root: nat, depth: nat)
    requires 1 <= depth
    requires FreeTree(c, sb, root, depth, false).Ok?
    ensures FreeTree(c, sb, root, depth, false).value.held == c.held
  {
    if root != 0 {
      FreeLevelKeepsHeld(Acquire(c, root), sb, root, Entries(Read(c.disk, root)), 0, depth);
    }
  }

  /** The corrected itrunc holds no buffer when it returns that it did not
    * hold before. */
  lemma TruncKeepsHeld(c: Cache, sb: Superblock, addrs: Addrs)
    requires TruncSpec(c, sb, addrs, true).Ok?
    ensures TruncSpec(c, sb, addrs, true).value.held == c.held
  {
    FreeDirectKeepsHeld(c, sb, addrs, 0, true);
    var c1 := FreeDirect(c, sb, addrs, 0, true).value;
    FreeTreeKeepsHeld(c1, sb, addrs[NDIRECT], 1);
    var c2 := FreeTree(c1, sb, addrs[NDIRECT], 1, false).value;
    FreeTreeKeepsHeld(c2, sb, addrs[NDIRECT + 1], 2);
    var c3 := FreeTree(c2, sb, addrs[NDIRECT + 1], 2, false).value;
    FreeTreeKeepsHeld(c3, sb, addrs[NDIRECT + 2], 3);
  }

  /* The direct-slot loop. */

  /** Once a slot's block is free, the as-written loop fails when it reaches
    * that slot, whatever the slots before it free. */
  lemma {:induction false} FreeDirectFailsOnFree(c: Cache, sb: Superblock, addrs: Addrs, k: nat, j: nat)
    requires k <= j < NDIRECT && !Allocated(c.disk, sb, addrs[j] as nat)
    ensures FreeDirect(c, sb, addrs, k, false).Fail?
    decreases j - k
  {
    var r := FreeBlock(c, sb, addrs[k]);
    if k < j && r.Ok? {
      MarkFreeBits(c.disk, sb, addrs[k] as nat, addrs[j] as nat);
      FreeDirectFailsOnFree(r.value, sb, addrs, k + 1, j);
    }
  }

  /** As written, two direct slots holding the same address (in particular two
    * empty slots, both 0) make itrunc fail with "freeing free block". */
  lemma {:induction false} FreeDirectFailsOnRepeat(c: Cache, sb: Superblock, addrs: Addrs, k: nat, i: nat, j: nat)
    requires k <= i < j < NDIRECT && addrs[i] == addrs[j]
    ensures FreeDirect(c, sb, addrs, k, false).Fail?
    decreases i - k
  {
    var r := FreeBlock(c, sb, addrs[k]);
    if r.Ok? {
      if k < i {
        FreeDirectFailsOnRepeat(r.value, sb, addrs, k + 1, i, j);
      } else {
        MarkFreeBits(c.disk, sb, addrs[k] as nat, addrs[j] as nat);
        FreeDirectFailsOnFree(r.value, sb, addrs, k + 1, j);
      }
    }
  }

  /** The as-written itrunc fails on every inode with two empty direct slots,
    * such as a freshly allocated one. */
  lemma TruncAsWrittenFailsOnEmptySlots(c: Cache, sb: Superblock, addrs: Addrs, i: nat, j: nat)
    requires i < j < NDIRECT && addrs[i] == 0 && addrs[j] == 0
    ensures TruncSpec(c, sb, addrs, false).Fail?
  {
    FreeDirectFailsOnRepeat(c, sb, addrs, 0, i, j);
  }

  /** The corrected itrunc on an inode with no blocks changes nothing. */
  lemma TruncEmpty(c: Cache, sb: Superblock)
    ensures TruncSpec(c, sb, NoAddrs, true) == Ok(c)
  {
    var k := NDIRECT;
    while k > 0
      invariant 0 <= k <= NDIRECT
      invariant FreeDirect(c, sb, NoAddrs, k, true) == Ok(c)
    {
      k := k - 1;
    }
  }

  /** The non-zero direct slots from slot i on, as block numbers. */
  function DirectSet(addrs: Addrs, i: nat): set<nat>
  {
    set j | i <= j < NDIRECT && addrs[j] != 0 :: addrs[j] as nat
  }

  /** The non-zero direct slots from slot i on are distinct and in use. */
  predicate DirectDistinctInUse(d: Disk, sb: Superblock, addrs: Addrs, i: nat)
  {
    && (forall j, k :: i <= j < k < NDIRECT && addrs[j] != 0 ==> addrs[j] != addrs[k])
    && (forall j :: i <= j < NDIRECT && addrs[j] != 0 ==> Allocated(d, sb, addrs[j] as nat))
  }

  /** The corrected loop frees exactly the blocks of the non-zero direct slots. */
  lemma {:induction false} FreeDirectFrees(c: Cache, sb: Superblock, addrs: Addrs, i: nat)
    requires i <= NDIRECT && DirectDistinctInUse(c.disk, sb, addrs, i)
    ensures FreeDirect(c, sb, addrs, i, true).Ok?
    ensures forall m :: Allocated(FreeDirect(c, sb, addrs, i, true).value.disk, sb, m)
                        == (Allocated(c.disk, sb, m) && m !in DirectSet(addrs, i))
    decreases NDIRECT - i
  {
    if i == NDIRECT {
      assert DirectSet(addrs, i) == {};
    } else if addrs[i] == 0 {
      assert DirectSet(addrs, i) == DirectSet(addrs, i + 1);
      FreeDirectFrees(c, sb, addrs, i + 1);
    } else {
      var x := addrs[i] as nat;
      var c1 := FreeBlock(c, sb, x).value;
      forall m
        ensures Allocated(c1.disk, sb, m) == (m != x && Allocated(c.disk, sb, m))
      {
        MarkFreeBits(c.disk, sb, x, m);
      }
      assert DirectSet(addrs, i) == DirectSet(addrs, i + 1) + {x};
      FreeDirectFrees(c1, sb, addrs, i + 1);
    }
  }

  /* The buffers held. */

  /** As written, freeing one child releases the parent's buffer: the child's
    * buffer stays held and one hold on the parent is dropped. */
  lemma FreeChildAsWritten(c: Cache, sb: Superblock, ptr: nat, a: nat, depth: nat)
    requires 2 <= depth
    requires FreeChild(c, sb, ptr, a, depth, true).Ok?
    ensures FreeChild(c, sb, ptr, a, depth, true).value.held == Unhold(c.held + [a], ptr)
  {
    FreeLevelKeepsHeld(Acquire(c, a), sb, a, Entries(Read(c.disk, a)), 0, depth - 1);
  }

  /** As written, the holds on blocks other than the parent only grow. */
  lemma {:induction false} FreeLevelAsWrittenGrows(c: Cache, sb: Superblock, ptr: nat, ents: seq<u32>, i: nat, depth: nat, x: nat)
    requires 2 <= depth && i <= NINDIRECT1 == |ents| && x != ptr
    requires FreeLevel(c, sb, ptr, ents, i, depth, true).Ok?
    ensures multiset(c.held)[x] <= multiset(FreeLevel(c, sb, ptr, ents, i, depth, true).value.held)[x]
    decreases NINDIRECT1 - i
  {
    if i < NINDIRECT1 {
      var a := ents[i] as nat;
      if a == 0 {
        FreeLevelAsWrittenGrows(c, sb, ptr, ents, i + 1, depth, x);
      } else {
        FreeChildAsWritten(c, sb, ptr, a, depth);
        var c1 := FreeChild(c, sb, ptr, a, depth, true).value;
        TakeDropOther(c.held, a, ptr, x);
        assert FreeLevel(c, sb, ptr, ents, i, depth, true) == FreeLevel(c1, sb, ptr, ents, i + 1, depth, true);
        FreeLevelAsWrittenGrows(c1, sb, ptr, ents, i + 1, depth, x);
      }
    }
  }

  /** As written, every non-zero child a of a double or triple indirect block
    * is left with one more hold on its buffer than before. */
  lemma FreeLevelLeaksChild(c: Cache, sb: Superblock, ptr: nat, ents: seq<u32>, i: nat, depth: nat)
    requires 2 <= depth && i < NINDIRECT1 == |ents|
    requires FreeLevel(c, sb, ptr, ents, i, depth, true).Ok?
    requires ents[i] != 0 && ents[i] as nat != ptr
    ensures var a := ents[i] as nat;
      multiset(c.held)[a] < multiset(FreeLevel(c, sb, ptr, ents, i, depth, true).value.held)[a]
  {
    var a := ents[i] as nat;
    FreeChildAsWritten(c, sb, ptr, a, depth);
    var c1 := FreeChild(c, sb, ptr, a, depth, true).value;
    TakeDropOther(c.held, a, ptr, a);
    FreeLevelAsWrittenGrows(c1, sb, ptr, ents, i + 1, depth, a);
  }

  /** As written, the double and triple indirect trees leak the buffer of their
    * first child. */
  lemma FreeTreeLeaksChild(c: Cache, sb: Superblock, root: nat, depth: nat)
    requires 2 <= depth && root != 0
    requires FreeTree(c, sb, root, depth, true).Ok?
    requires Entries(Read(c.disk, root))[0] != 0 && Entries(Read(c.disk, root))[0] as nat != root
    ensures var a := Entries(Read(c.disk, root))[0] as nat;
      multiset(c.held)[a] < multiset(FreeTree(c, sb, root, depth, true).value.held)[a]
  {
    var a := Entries(Read(c.disk, root))[0] as nat;
    FreeLevelLeaksChild(Acquire(c, root), sb, root, Entries(Read(c.disk, root)), 0, depth);
    var c2 := FreeLevel(Acquire(c, root), sb, root, Entries(Read(c.disk, root)), 0, depth, true).value;
    UnholdCounts(c2.held, root);
    assert multiset(c.held + [root])[a] == multiset(c.held)[a] by {
      assert multiset(c.held + [root]) == multiset(c.held) + multiset{root};
    }
  }

  /** One step of a pointer-block loop: entry i is skipped when 0 and otherwise
    * freed (a leaf at depth 1, a subtree above), the loop going on from i + 1
    * with the resulting cache. */
  lemma LevelStep(c: Cache, sb: Superblock, ptr: nat, ents: seq<u32>, i: nat, depth: nat, parentRelease: bool)
    requires 1 <= depth && i < NINDIRECT1 == |ents|
    ensures var a := ents[i] as nat;
      var r := if depth == 1 then FreeBlock(c, sb, a) else FreeChild(c, sb, ptr, a, depth, parentRelease);
      FreeLevel(c, sb, ptr, ents, i, depth, parentRelease)
        == if a == 0 then FreeLevel(c, sb, ptr, ents, i + 1, depth, parentRelease)
           else if r.Fail? then Fail(r.reason)
           else FreeLevel(r.value, sb, ptr, ents, i + 1, depth, parentRelease)
  {}

  /** A subtree: its loop runs with a's buffer taken, then a buffer is released
    * and a is freed. */
  lemma ChildStep(c: Cache, sb: Superblock, ptr: nat, a: nat, depth: nat, parentRelease: bool)
    requires 2 <= depth
    ensures var r := FreeLevel(Acquire(c, a), sb, a, Entries(Read(c.disk, a)), 0, depth - 1, false);
      FreeChild(c, sb, ptr, a, depth, parentRelease)
        == if r.Fail? then Fail(r.reason)
           else FreeBlock(Release(r.value, if parentRelease then ptr else a), sb, a)
  {}

  /** The tree under a nonzero root: the loop over the root runs with its
    * buffer taken, which is released before the root is freed. */
  lemma TreeStep(c: Cache, sb: Superblock, root: nat, depth: nat, parentRelease: bool)
    requires 1 <= depth && root != 0
    ensures var r := FreeLevel(Acquire(c, root), sb, root, Entries(Read(c.disk, root)), 0, depth, parentRelease);
      FreeTree(c, sb, root, depth, parentRelease)
        == if r.Fail? then Fail(r.reason) else FreeBlock(Release(r.value, root), sb, root)
  {}
}
