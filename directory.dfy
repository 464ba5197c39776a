/** src/directory.c: a directory is a file holding a sequence of DIRENT_SIZE-byte
  * entries (`struct dirent`: a 16-bit inode number, then a DIRSIZE-byte name
  * padded with zeros); an entry whose inode number is 0 is free. */
module Directory {
  import opened Bytes
  import opened FsLayout

  /** The outcome of a search over the entries. */
  datatype Slot = NotFound | Found(slot: nat)

  /** A C string's characters: no NUL byte. */
  predicate CString(name: seq<byte>)
  {
    forall i :: 0 <= i < |name| ==> name[i] != 0
  }

  /** A directory's bytes hold whole entries. */
  predicate WholeEntries(data: seq<byte>)
  {
    |data| % DIRENT_SIZE == 0
  }

  function EntryCount(data: seq<byte>): nat
  {
    |data| / DIRENT_SIZE
  }

  /** The inode number of entry k. */
  function DirentInum(data: seq<byte>, k: nat): nat
    requires WholeEntries(data) && k < EntryCount(data)
  {
    U16Of(data[DIRENT_SIZE * k .. DIRENT_SIZE * k + SHORT_SIZE])
  }

  /** The name field of entry k. */
  function DirentName(data: seq<byte>, k: nat): seq<byte>
    requires WholeEntries(data) && k < EntryCount(data)
  {
    data[DIRENT_SIZE * k + SHORT_SIZE .. DIRENT_SIZE * k + DIRENT_SIZE]
  }

  /** `strncpy(de.name, name, DIRSIZE)`: the first DIRSIZE characters of name,
    * padded with zeros. */
  function NameField(name: seq<byte>): (f: seq<byte>)
    ensures |f| == DIRSIZE
    ensures forall i :: 0 <= i < DIRSIZE ==> f[i] == if i < |name| then name[i] else 0
  {
    if |name| >= DIRSIZE then name[..DIRSIZE] else name + Fill(DIRSIZE - |name|, 0)
  }

  /** Names that fit the field are kept apart by it. */
  lemma NameFieldInjective(a: seq<byte>, b: seq<byte>)
    requires CString(a) && CString(b) && |a| <= DIRSIZE && |b| <= DIRSIZE
    ensures NameField(a) == NameField(b) ==> a == b
  {
    if NameField(a) == NameField(b) {
      var m := if |a| < |b| then |a| else |b|;
      if m < DIRSIZE {
        assert NameField(a)[m] == NameField(b)[m];
      }
      assert |a| == |b|;
      assert forall i :: 0 <= i < |a| ==> a[i] == NameField(a)[i] == NameField(b)[i] == b[i];
    }
  }

  /** dirlookup as its header describes it: the first in-use entry from k on
    * whose name field is name's. */
  function LookupFrom(data: seq<byte>, name: seq<byte>, k: nat): (r: Slot)
    requires WholeEntries(data)
    decreases EntryCount(data) - k
    ensures r.Found? ==>
      k <= r.slot < EntryCount(data) && DirentInum(data, r.slot) != 0 && DirentName(data, r.slot) == NameField(name)
    ensures forall j :: k <= j < EntryCount(data) && (r.NotFound? || j < r.slot) ==>
      DirentInum(data, j) == 0 || DirentName(data, j) != NameField(name)
  {
    if k >= EntryCount(data) then NotFound
    else if DirentInum(data, k) != 0 && DirentName(data, k) == NameField(name) then Found(k)
    else LookupFrom(data, name, k + 1)
  }

  function Lookup(data: seq<byte>, name: seq<byte>): Slot
    requires WholeEntries(data)
  {
    LookupFrom(data, name, 0)
  }

  /** The first free entry from k on, or EntryCount when there is none. */
  function FreeSlotFrom(data: seq<byte>, k: nat): (r: nat)
    requires WholeEntries(data) && k <= EntryCount(data)
    decreases EntryCount(data) - k
    ensures k <= r <= EntryCount(data)
    ensures r < EntryCount(data) ==> DirentInum(data, r) == 0
    ensures forall j :: k <= j < r ==> DirentInum(data, j) != 0
  {
    if k == EntryCount(data) then k
    else if DirentInum(data, k) == 0 then k
    else FreeSlotFrom(data, k + 1)
  }

  /** The bytes with entry k replaced by e; entry EntryCount is appended. */
  function PutEntry(data: seq<byte>, k: nat, e: seq<byte>): (r: seq<byte>)
    requires WholeEntries(data) && k <= EntryCount(data) && |e| == DIRENT_SIZE
  {
    if k == EntryCount(data) then data + e
    else data[..DIRENT_SIZE * k] + e + data[DIRENT_SIZE * k + DIRENT_SIZE..]
  }

  /** The entry dirlink writes: `de.inum = inum` keeps the low 16 bits. */
  function LinkEntry(name: seq<byte>, inum: u32): seq<byte>
  {
    EncodeDirent(inum % U16_LIMIT, NameField(name))
  }

  /** dirlink's effect on the directory's bytes: nothing when the name is
    * present, else the entry goes to the first free slot or the end. */
  function DirLinkSpec(data: seq<byte>, name: seq<byte>, inum: u32): seq<byte>
    requires WholeEntries(data)
  {
    if Lookup(data, name).Found? then data
    else PutEntry(data, FreeSlotFrom(data, 0), LinkEntry(name, inum))
  }

  /** Entry k after PutEntry: e at k, every other entry as before. */
  lemma PutEntryEntries(data: seq<byte>, k: nat, e: seq<byte>, j: nat)
    requires WholeEntries(data) && k <= EntryCount(data) && |e| == DIRENT_SIZE
    ensures var r := PutEntry(data, k, e);
      && WholeEntries(r)
      && EntryCount(r) == (if k == EntryCount(data) then EntryCount(data) + 1 else EntryCount(data))
      && (j < EntryCount(r) ==>
            r[DIRENT_SIZE * j .. DIRENT_SIZE * j + DIRENT_SIZE] ==
              (if j == k then e else data[DIRENT_SIZE * j .. DIRENT_SIZE * j + DIRENT_SIZE]))
  {
    var r := PutEntry(data, k, e);
    var lo := DIRENT_SIZE * j;
    if j < EntryCount(r) {
      if j < k {
        assert r[lo .. lo + DIRENT_SIZE] == data[lo .. lo + DIRENT_SIZE];
      } else if j == k {
        assert r[lo .. lo + DIRENT_SIZE] == e;
      } else {
        assert r[lo .. lo + DIRENT_SIZE] == data[lo .. lo + DIRENT_SIZE];
      }
    }
  }

  /** An entry's inode number and name come from its DIRENT_SIZE bytes. */
  lemma EntryFields(data: seq<byte>, r: seq<byte>, j: nat)
    requires WholeEntries(data) && WholeEntries(r) && j < EntryCount(data) && j < EntryCount(r)
    requires r[DIRENT_SIZE * j .. DIRENT_SIZE * j + DIRENT_SIZE] == data[DIRENT_SIZE * j .. DIRENT_SIZE * j + DIRENT_SIZE]
    ensures DirentInum(r, j) == DirentInum(data, j) && DirentName(r, j) == DirentName(data, j)
  {
    var lo := DIRENT_SIZE * j;
    assert r[lo .. lo + SHORT_SIZE] == r[lo .. lo + DIRENT_SIZE][..SHORT_SIZE];
    assert data[lo .. lo + SHORT_SIZE] == data[lo .. lo + DIRENT_SIZE][..SHORT_SIZE];
    assert r[lo + SHORT_SIZE .. lo + DIRENT_SIZE] == r[lo .. lo + DIRENT_SIZE][SHORT_SIZE..];
    assert data[lo + SHORT_SIZE .. lo + DIRENT_SIZE] == data[lo .. lo + DIRENT_SIZE][SHORT_SIZE..];
  }

  /** The fields of an entry written by dirlink. */
  lemma LinkEntryFields(r: seq<byte>, k: nat, name: seq<byte>, inum: u32)
    requires WholeEntries(r) && k < EntryCount(r)
    requires r[DIRENT_SIZE * k .. DIRENT_SIZE * k + DIRENT_SIZE] == LinkEntry(name, inum)
    ensures DirentInum(r, k) == inum % U16_LIMIT && DirentName(r, k) == NameField(name)
  {
    var lo := DIRENT_SIZE * k;
    var e := LinkEntry(name, inum);
    assert r[lo .. lo + SHORT_SIZE] == e[..SHORT_SIZE] == U16Bytes(inum % U16_LIMIT);
    assert r[lo + SHORT_SIZE .. lo + DIRENT_SIZE] == e[SHORT_SIZE..] == NameField(name);
    U16RoundTrip(inum % U16_LIMIT);
  }

  /** dirlink keeps every entry but the one it writes, and the directory
    * still holds whole entries; it grows by one entry only when no entry
    * was free. */
  lemma DirLinkKeepsEntries(data: seq<byte>, name: seq<byte>, inum: u32, j: nat)
    requires WholeEntries(data) && Lookup(data, name).NotFound?
    ensures var r := DirLinkSpec(data, name, inum); var k := FreeSlotFrom(data, 0);
      && WholeEntries(r)
      && EntryCount(r) == (if k == EntryCount(data) then EntryCount(data) + 1 else EntryCount(data))
      && (j < EntryCount(data) && j != k ==>
            DirentInum(r, j) == DirentInum(data, j) && DirentName(r, j) == DirentName(data, j))
  {
    var k := FreeSlotFrom(data, 0);
    var r := DirLinkSpec(data, name, inum);
    PutEntryEntries(data, k, LinkEntry(name, inum), j);
    if j < EntryCount(data) && j != k {
      EntryFields(data, r, j);
    }
  }

  /** A name linked to an inode number that the entry can hold is then found,
    * at the first free slot, with that inode number. */
  lemma DirLinkThenLookup(data: seq<byte>, name: seq<byte>, inum: u32)
    requires WholeEntries(data) && Lookup(data, name).NotFound?
    requires 0 < inum < U16_LIMIT
    ensures var r := DirLinkSpec(data, name, inum); var k := FreeSlotFrom(data, 0);
      && Lookup(r, name) == Found(k)
      && DirentInum(r, k) == inum
  {
    var k := FreeSlotFrom(data, 0);
    var e := LinkEntry(name, inum);
    var r := DirLinkSpec(data, name, inum);
    assert r == PutEntry(data, k, e);
    PutEntryEntries(data, k, e, k);
    assert k < EntryCount(r) && r[DIRENT_SIZE * k .. DIRENT_SIZE * k + DIRENT_SIZE] == e;
    LinkEntryFields(r, k, name, inum);
    forall j | 0 <= j < k ensures DirentInum(r, j) == 0 || DirentName(r, j) != NameField(name) {
      DirLinkKeepsEntries(data, name, inum, j);
    }
    SmallInum(inum);
    LookupFinds(r, name, 0, k);
  }

  lemma SmallInum(inum: u32)
    requires inum < U16_LIMIT
    ensures inum % U16_LIMIT == inum
  {}

  /** A search from k finds slot s when s matches and nothing in between does. */
  lemma {:induction false} LookupFinds(data: seq<byte>, name: seq<byte>, k: nat, s: nat)
    requires WholeEntries(data) && k <= s < EntryCount(data)
    requires DirentInum(data, s) != 0 && DirentName(data, s) == NameField(name)
    requires forall j :: k <= j < s ==> DirentInum(data, j) == 0 || DirentName(data, j) != NameField(name)
    decreases s - k
    ensures LookupFrom(data, name, k) == Found(s)
  {
    if k < s {
      LookupFinds(data, name, k + 1, s);
    }
  }

  /** As written, an inode number that is a multiple of 2^16 is stored as 0:
    * the new entry reads as free and the name is not found afterwards. */
  lemma DirLinkAsWrittenLosesEntry(data: seq<byte>, name: seq<byte>, inum: u32)
    requires WholeEntries(data) && Lookup(data, name).NotFound?
    requires inum % U16_LIMIT == 0
    ensures var r := DirLinkSpec(data, name, inum);
      && DirentInum(r, FreeSlotFrom(data, 0)) == 0
      && Lookup(r, name).NotFound?
  {
    var k := FreeSlotFrom(data, 0);
    var r := DirLinkSpec(data, name, inum);
    PutEntryEntries(data, k, LinkEntry(name, inum), k);
    LinkEntryFields(r, k, name, inum);
    forall j | 0 <= j < EntryCount(r) ensures DirentInum(r, j) == 0 || DirentName(r, j) != NameField(name) {
      if j != k {
        DirLinkKeepsEntries(data, name, inum, j);
      }
    }
  }

  /** The directory's contents, with dirlink working on them. */
  class DirFile {
    /** Bytes 0 .. size - 1 of the directory inode. */
    var data: seq<byte>

    predicate Valid()
      reads this
    {
      WholeEntries(data)
    }

    constructor(init: seq<byte>)
      requires WholeEntries(init)
      ensures Valid() && data == init
    {
      data := init;
    }

    /** The scan of lines 30-35: the offset of the first free entry, or the
      * directory's size. */
    method FindFreeOffset() returns (off: nat)
      requires Valid()
      ensures off == DIRENT_SIZE * FreeSlotFrom(data, 0)
      ensures off / DIRENT_SIZE == FreeSlotFrom(data, 0)
    {
      off := 0;
      while off < |data|
        invariant off <= |data| && off % DIRENT_SIZE == 0
        invariant FreeSlotFrom(data, off / DIRENT_SIZE) == FreeSlotFrom(data, 0)
      {
        if DirentInum(data, off / DIRENT_SIZE) == 0 {
          break;
        }
        off := off + DIRENT_SIZE;
      }
    }

    /** dirlink as written: -1 when the name is present; otherwise the entry
      * (name, the low 16 bits of inum) goes to the first free slot or the
      * end, and the result is 0. */
    method DirLinkAsWritten(name: seq<byte>, inum: u32) returns (r: int)
      requires Valid() && CString(name)
      modifies this
      ensures Valid()
      ensures r == if Lookup(old(data), name).Found? then -1 else 0
      ensures data == DirLinkSpec(old(data), name, inum)
    {
      if Lookup(data, name).Found? {
        return -1;
      }
      var off := FindFreeOffset();
      var de := LinkEntry(name, inum);
      PutEntryEntries(data, off / DIRENT_SIZE, de, 0);
      data := PutEntry(data, off / DIRENT_SIZE, de);
      return 0;
    }

    /** dirlink refusing, with -1, an inode number its entry cannot hold
      * (0, which marks a free entry, or one of 2^16 or more). */
    method DirLink(name: seq<byte>, inum: u32) returns (r: int)
      requires Valid() && CString(name)
      modifies this
      ensures Valid()
      ensures r == 0 <==> Lookup(old(data), name).NotFound? && 0 < inum < U16_LIMIT
      ensures r != 0 ==> r == -1 && data == old(data)
      ensures r == 0 ==> data == DirLinkSpec(old(data), name, inum)
    {
      if Lookup(data, name).Found? || inum == 0 || inum >= U16_LIMIT {
        return -1;
      }
      r := DirLinkAsWritten(name, inum);
    }
  }
}
