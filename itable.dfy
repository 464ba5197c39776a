/** The in-memory inode table of src/inode.c as values: slots, the first-fit
  * lookup `iget` performs, and the table's growth. */
module InodeTable {
  import opened Bytes
  import opened FsLayout

  /** One slot of the table (`struct inode`; its lock is not modelled). */
  datatype Inode = Inode(
    inum: u32,
    ref: int,
    valid: bool,
    itype: i16,
    major: i16,
    minor: i16,
    nlink: i16,
    size: u32,
    addrs: Addrs)

  const NINODE_INIT: nat := 30

  /** A slot as allocated by `malloc`/`realloc`. Those leave the slot
    * uninitialised; the model takes it to be all zero. */
  const FreshSlot: Inode := Inode(0, 0, false, 0, 0, 0, 0, 0, NoAddrs)

  /** A slot that iget may hand out again for `inum`. */
  predicate Cached(n: Inode, inum: nat)
  {
    n.inum == inum && n.ref > 0
  }

  /** No two referenced slots hold the same inode number. */
  predicate Unique(t: seq<Inode>)
  {
    forall i, j :: 0 <= i < j < |t| && t[i].ref > 0 && t[j].ref > 0 ==> t[i].inum != t[j].inum
  }

  /** The first slot at or after i that is Cached for inum, or |t|. */
  function FindCached(t: seq<Inode>, inum: nat, i: nat): (r: nat)
    requires i <= |t|
    decreases |t| - i
    ensures i <= r <= |t|
    ensures forall j :: i <= j < r ==> !Cached(t[j], inum)
    ensures r < |t| ==> Cached(t[r], inum)
  {
    if i == |t| then i
    else if Cached(t[i], inum) then i
    else FindCached(t, inum, i + 1)
  }

  /** The first slot at or after i with `ref == 0`, or |t|. */
  function FindFree(t: seq<Inode>, i: nat): (r: nat)
    requires i <= |t|
    decreases |t| - i
    ensures i <= r <= |t|
    ensures forall j :: i <= j < r ==> t[j].ref != 0
    ensures r < |t| ==> t[r].ref == 0
  {
    if i == |t| then i
    else if t[i].ref == 0 then i
    else FindFree(t, i + 1)
  }

  /** itable_grow: twice as many slots, the old ones kept at the same indices. */
  function Grow(t: seq<Inode>): seq<Inode>
  {
    t + seq(|t|, _ => FreshSlot)
  }

  /** What iget writes into the slot it claims. */
  function Claim(n: Inode, inum: u32): Inode
  {
    n.(inum := inum, ref := 1, valid := false)
  }

  /** iget(inum): the new table and the index of the slot returned. */
  function IgetSpec(t: seq<Inode>, inum: u32): (seq<Inode>, nat)
    requires |t| > 0
    decreases if FindFree(t, 0) < |t| then 0 else 1
  {
    var m := FindCached(t, inum, 0);
    if m < |t| then (t[m := t[m].(ref := t[m].ref + 1)], m)
    else
      var f := FindFree(t, 0);
      if f < |t| then (t[f := Claim(t[f], inum)], f)
      else
        assert Grow(t)[|t|] == FreshSlot;
        assert FindFree(Grow(t), 0) <= |t|;
        IgetSpec(Grow(t), inum)
  }

  /** The slot iget returns holds inum with a reference, and the table keeps its
    * slots in place, at most doubling. */
  lemma {:induction false} IgetReturnsSlot(t: seq<Inode>, inum: u32)
    requires |t| > 0
    decreases if FindFree(t, 0) < |t| then 0 else 1
    ensures var (t', ip) := IgetSpec(t, inum);
      && ip < |t'| && t'[ip].inum == inum && t'[ip].ref >= 1
      && (|t'| == |t| || |t'| == 2 * |t|)
      && (forall j :: 0 <= j < |t| && j != ip ==> t'[j] == t[j])
      && (forall j :: |t| <= j < |t'| && j != ip ==> t'[j] == FreshSlot)
  {
    var m := FindCached(t, inum, 0);
    if m == |t| && FindFree(t, 0) == |t| {
      assert Grow(t)[|t|] == FreshSlot;
      var g := Grow(t);
      assert FindCached(g, inum, 0) == |g| by {
        assert forall j :: |t| <= j < |g| ==> !Cached(g[j], inum);
        assert forall j :: 0 <= j < |t| ==> g[j] == t[j];
      }
      assert FindFree(g, 0) == |t| by {
        assert forall j :: 0 <= j < |t| ==> g[j] == t[j];
      }
    }
  }

  /** When a referenced slot already holds inum, iget returns the first such slot
    * with its reference count raised by one, and changes nothing else. */
  lemma IgetHit(t: seq<Inode>, inum: u32, k: nat)
    requires |t| > 0 && k < |t| && Cached(t[k], inum)
    ensures var (t', ip) := IgetSpec(t, inum);
      && ip <= k && Cached(t[ip], inum)
      && (forall j :: 0 <= j < ip ==> !Cached(t[j], inum))
      && t' == t[ip := t[ip].(ref := t[ip].ref + 1)]
  {}

  /** Otherwise iget claims the first slot with no references, setting its inode
    * number, one reference and "not loaded", and changes nothing else; with no
    * such slot it doubles the table and claims the first new slot. */
  lemma IgetMiss(t: seq<Inode>, inum: u32)
    requires |t| > 0 && forall k :: 0 <= k < |t| ==> !Cached(t[k], inum)
    ensures var (t', ip) := IgetSpec(t, inum);
      if exists k :: 0 <= k < |t| && t[k].ref == 0 then
        && ip < |t| && t[ip].ref == 0
        && (forall j :: 0 <= j < ip ==> t[j].ref != 0)
        && t' == t[ip := Claim(t[ip], inum)]
      else
        ip == |t| && t' == Grow(t)[|t| := Claim(FreshSlot, inum)]
  {
    if forall k :: 0 <= k < |t| ==> t[k].ref != 0 {
      var g := Grow(t);
      assert g[|t|] == FreshSlot;
      assert FindCached(g, inum, 0) == |g| by {
        assert forall j :: |t| <= j < |g| ==> !Cached(g[j], inum);
        assert forall j :: 0 <= j < |t| ==> g[j] == t[j];
      }
      assert FindFree(g, 0) == |t| by {
        assert forall j :: 0 <= j < |t| ==> g[j] == t[j];
      }
    }
  }

  /** Rewriting one slot keeps the inode numbers distinct when its number stays
    * and it becomes referenced only if it already was. */
  lemma UpdateKeepsUnique(t: seq<Inode>, ip: nat, n: Inode)
    requires Unique(t) && ip < |t| && n.inum == t[ip].inum && (n.ref > 0 ==> t[ip].ref > 0)
    ensures Unique(t[ip := n])
  {
    var u := t[ip := n];
    forall i, j | 0 <= i < j < |u| && u[i].ref > 0 && u[j].ref > 0
      ensures u[i].inum != u[j].inum
    {
      assert t[i].ref > 0 && t[j].ref > 0;
    }
  }

  /** Fresh slots are unreferenced, so growing the table keeps the inode
    * numbers distinct. */
  lemma GrowKeepsUnique(t: seq<Inode>)
    requires Unique(t)
    ensures Unique(Grow(t))
  {
    var g := Grow(t);
    forall i, j | 0 <= i < j < |g| && g[i].ref > 0 && g[j].ref > 0
      ensures g[i].inum != g[j].inum
    {
      assert j < |t| && g[i] == t[i] && g[j] == t[j];
    }
  }

  /** iget keeps inode numbers of referenced slots distinct. */
  lemma IgetKeepsUnique(t: seq<Inode>, inum: u32)
    requires |t| > 0 && Unique(t)
    ensures Unique(IgetSpec(t, inum).0)
  {
    var (t', ip) := IgetSpec(t, inum);
    IgetReturnsSlot(t, inum);
    if FindCached(t, inum, 0) < |t| {
      IgetHit(t, inum, FindCached(t, inum, 0));
    } else {
      IgetMiss(t, inum);
      forall i, j | 0 <= i < j < |t'| && t'[i].ref > 0 && t'[j].ref > 0
        ensures t'[i].inum != t'[j].inum
      {
        if i == ip {
          assert j < |t| && t'[j] == t[j] && !Cached(t[j], inum);
        } else if j == ip {
          assert i < |t| && t'[i] == t[i] && !Cached(t[i], inum);
        } else {
          assert i < |t| && j < |t| && t'[i] == t[i] && t'[j] == t[j];
        }
      }
    }
  }

  /* Inode pointers. iget, idup and ialloc hand out `struct inode*` pointers
   * into the table's storage. itable_grow reallocates that storage, and
   * realloc may move it. Whether it moves is the allocator's choice, so it is
   * a parameter here. */

  /** A `struct inode*`: the allocation it points into and the slot within. */
  datatype Handle = Handle(store: nat, slot: nat)

  /** A pointer still names a slot of the table in its current storage. */
  predicate Live(h: Handle, store: nat, t: seq<Inode>)
  {
    h.store == store && h.slot < |t|
  }

  /** iget(inum) as written, on a table living in allocation `store`: when
    * the table grows and realloc moves it, the storage is a new allocation.
    * Returns the new table, where it lives, and the pointer handed out. */
  function IgetAsWritten(t: seq<Inode>, store: nat, inum: u32, moves: bool): (r: (seq<Inode>, nat, Handle))
    requires |t| > 0
    ensures r.0 == IgetSpec(t, inum).0 && r.2.slot == IgetSpec(t, inum).1
    ensures Live(r.2, r.1, r.0)
    ensures r.1 != store ==> moves && |r.0| == 2 * |t|
  {
    IgetReturnsSlot(t, inum);
    var (t', ip) := IgetSpec(t, inum);
    var store' := if |t'| != |t| && moves then store + 1 else store;
    (t', store', Handle(store', ip))
  }

  /** With every slot referenced, an iget of a new inode number grows the
    * table; if realloc moves it, every pointer handed out before is left
    * dangling, although its slot is still referenced. */
  lemma IgetAsWrittenDangles(t: seq<Inode>, store: nat, inum: u32, h: Handle)
    requires |t| > 0 && forall k :: 0 <= k < |t| ==> t[k].ref > 0 && t[k].inum != inum
    requires Live(h, store, t)
    ensures var (t', store', _) := IgetAsWritten(t, store, inum, true);
      && |t'| == 2 * |t| && t'[h.slot].ref > 0
      && !Live(h, store', t')
  {
    IgetMiss(t, inum);
  }

  /** The corrected table keeps every slot where it is (the model's indices):
    * iget never moves a slot, so a pointer handed out earlier names the same
    * inode afterwards, changed only when it is the slot returned. */
  lemma IgetKeepsHandles(t: seq<Inode>, store: nat, inum: u32, h: Handle)
    requires |t| > 0 && Live(h, store, t)
    ensures var (t', ip) := IgetSpec(t, inum);
      && Live(h, store, t') && (h.slot != ip ==> t'[h.slot] == t[h.slot])
  {
    IgetReturnsSlot(t, inum);
  }
}
