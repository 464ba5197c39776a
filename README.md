# myfuse storage engine in Dafny

This project models the storage-engine core of myfuse, a FUSE file system built in the
style of xv6. It covers five parts:

- **On-disk format** (`include/fs.h`). The superblock, on-disk inodes, pointer blocks and
  directory entries are encoded as bytes. This part also holds the arithmetic that locates
  an inode (`IBLOCK`) and a block's bitmap bit (`BBLOCK`).
- **Inode layer** (`src/inode.c`). This is the class `Inodes.InodeLayer`. Its state is:
  - the growable in-memory inode table;
  - the disk, as the buffer cache and the transaction log present it;
  - the list of buffers held.

  Its operations are `iget`, `itable_grow`, `idup`, `ialloc`, `ilock`, `iupdate`, `iput`,
  `zero_a_block`, `block_alloc`, `block_free`, `imap2blockno` and `itrunc`. Each one is a
  method proved against a specification function: `InodeTable`, `Bitmap`, `BlockMap`,
  `Truncate` or `InodeSpec`. The properties of the operations are lemmas about those
  functions. `InodeTree` shows that the blocks itrunc frees are exactly the non-zero
  addresses at the tree positions imap2blockno walks. So mapping blocks and then
  truncating an inode frees every block it mapped.
- **mkfs** (`mkfs/mkfs.myfuse.c`, `mkfs/mkfs.myfuse-util.cc`).
  - `MkfsLayout` computes the layout and the image mkfs leaves on the device. It proves
    that the image fits the allocator and the inode layer.
  - `Mkfs.Formatter` writes that image block by block through its `data_buf` array.
  - `MkfsUtil` is the `uint` version of the same layout arithmetic.
- **Directories** (`src/directory.c`). `dirlink` scans for the first free 16-byte entry,
  or appends one, and writes the name and inode number. It works on the directory's bytes,
  in the class `Directory.DirFile`.
- **Buffer cache initialisation** (`src/buf_cache.c`). `binit` threads every buffer onto
  the circular doubly-linked list of hash bucket 0. `BufCache.BufferCache` models the
  buffers and bucket heads as one arena with `next` and `prev` index arrays.

Conventions of the model:

- **Fatal errors.** A call to `err_exit` is `Fail` in the specification functions and
  `false` (or a `Fail` result) in the methods.
- **Integer widths.** C `uint` values are `u32`. Where a `uint` expression can wrap, the
  wrap is written out (`MkfsUtil.Wrap`, the `% U32_LIMIT` in `MkfsLayout.DiskLayout`). The
  `ushort` inode number of a directory entry keeps only the low 16 bits.
- **As written versus corrected.** Two versions exist where the code has a defect (see
  "## Findings"). One is the code as written: a `fixed: bool` of `false`, or a member
  ending in `AsWritten`. The other is the corrected code: `fixed` set to `true`, or the
  plain name. The lemmas prove the defect on the first and the intended property on the
  second.

Facts about the code that shape the model:

- `block_alloc` scans the bitmap from block 0 on every call. It keeps no "last
  allocated" cursor and never wraps around.
- A block's bitmap bit sits at its absolute block number. Metadata blocks have bits too,
  and mkfs sets them.
- `BSIZE` is 1024 bytes (include/fs.h:5).
- Freeing a block whose bit is already clear is fatal.

## Model

| member | source | states |
|---|---|---|
| FsLayout.Constants | include/fs.h:24-52 | NINDIRECT1/2/3 are 256, 256^2 and 256^3. A dinode is 64 bytes, so IPB is 16. A dirent is 16 bytes with a 14-byte name. BPB is 8192. |
| FsLayout.SuperblockRoundTrip | include/fs.h:13-22 | The superblock's eight 32-bit fields, laid out in order, decode back to the same superblock, whatever follows them in the block. |
| FsLayout.AddrsRoundTrip | include/fs.h:42 | An address array encoded as little-endian uints decodes back to itself. |
| FsLayout.DinodeRoundTrip | include/fs.h:36-43 | A `struct dinode` encoded into its 64 bytes decodes back to the same type, major, minor, nlink, size and addrs. |
| FsLayout.IBlockInjective | include/fs.h:45-49 | Two distinct inode numbers never share a (block, slot) pair. |
| FsLayout.BitOwnerUnique | include/fs.h:51-55 | Two distinct block numbers never share a (bitmap block, byte, bit) triple. |
| FsLayout.SetEntry | src/inode.c:268-269 | Writing an address into entry i of a pointer block makes entry i that address and leaves every other entry as it was. |
| FsLayout.StoreDinode | src/inode.c:142-149 | Writing an inode into its slot of an inode block makes that slot read back the inode and leaves every other slot as it was. |
| Bitmap.BitLocation | src/inode.c:202-206 | block_alloc indexes bitmap block `BBLOCK(b)` with byte `bi / 8` and bit `bi % 8`. For a BPB-aligned `b`, that is exactly the bit that belongs to block `b + bi`. |
| Bitmap.MarkUsedBits | src/inode.c:205-207 | Setting block n's bit changes the in-use status of n alone, and n is then in use. |
| Bitmap.MarkFreeBits | src/inode.c:226-231 | Clearing block n's bit changes the in-use status of n alone, and n is then free. |
| Bitmap.FirstClearFrom | src/inode.c:202-216 | The search finds the lowest block at or after n, below sb.size, whose bit is clear. When it finds none, every block in that range is in use. |
| Bitmap.BlockAllocFound | src/inode.c:202-212 | When the inner loop finds clear bit bi with every lower block in use, it marks that bit and zeroes the block. This is the result of the allocator's specification. |
| Bitmap.BlockAllocChoosesLowest | src/inode.c:198-218 | Allocation fails exactly when every block below sb.size is in use. On success the block returned was free, every block below it was in use, and it is now zero-filled and marked in use. |
| Bitmap.BlockAllocAvoidsUsed | src/inode.c:198-218 | When every block below k is in use, a successful allocation returns a block at or above k. |
| Bitmap.BlockFreeClearsOne | src/inode.c:220-233 | block_free(b) succeeds exactly when b is in use, and then clears b's bit alone. |
| Bitmap.AllocThenFree | src/inode.c:198-233 | Allocating a block and then freeing it restores every other block of the disk. |
| InodeTable.FindCached | src/inode.c:40-46 | The scan returns the first slot holding inum with ref > 0. Every slot before it fails that test. |
| InodeTable.FindFree | src/inode.c:47-49 | The empty victim is the first slot with ref == 0, or the table's end when there is none. |
| InodeTable.IgetReturnsSlot | src/inode.c:37-63 | The returned slot holds inum with ref >= 1. The table either keeps its size or doubles. Old slots other than the returned one are unchanged, and new slots other than the returned one are fresh. |
| InodeTable.IgetHit | src/inode.c:42-46 | When a referenced slot already holds inum, iget returns the first such slot with ref one higher and changes nothing else. |
| InodeTable.IgetMiss | src/inode.c:47-62 | Otherwise iget claims the first slot with ref == 0 and sets inum, ref = 1 and valid = 0 in it. With no such slot, it doubles the table and claims the first new slot. |
| InodeTable.IgetKeepsUnique | src/inode.c:37-63 | iget preserves the invariant that no two referenced slots hold the same inode number. |
| InodeTable.UpdateKeepsUnique | src/inode.c:91-96 | Storing a slot back with its inode number unchanged, and referenced only if it was referenced before, keeps no two referenced slots holding the same inode number. |
| InodeTable.GrowKeepsUnique | src/inode.c:24-33 | Doubling the table keeps no two referenced slots holding the same inode number. |
| InodeTable.IgetAsWritten | src/inode.c:24-60 | iget with inode pointers: the table and the slot are IgetSpec's, and the pointer returned is live. The table's storage changes only when iget grows the table and realloc moves it. |
| InodeTable.IgetAsWrittenDangles | src/inode.c:24-60 | As written, when every slot is referenced and a new inode number is asked for, the table doubles; if realloc moves it, every pointer handed out before is dangling although its slot is still referenced. |
| InodeTable.IgetKeepsHandles | src/inode.c:36-60 | With slots that never move, every earlier pointer stays live after iget and names the same inode unless it is the slot returned. |
| BlockMap.TierOf | src/inode.c:249-322 | The tier split that imap2blockno computes by subtraction, `/` and `%`. The indices put bn back together exactly, each one indexes a pointer block, and bn is too big exactly when it is at least MAXFILE. |
| BlockMap.MapExisting | src/inode.c:245-357 | A logical block that is already mapped is returned as it is. Nothing is allocated or written. |
| BlockMap.MapTooBig | src/inode.c:355-356 | A logical block past the triple-indirect tier is fatal ("inode too big"). |
| BlockMap.FreshBlock | src/inode.c:198-218 | On a disk whose metadata is all marked, an allocated block is a previously free data block outside the given set. The set's blocks keep their contents and stay in use. |
| BlockMap.AllocStep | src/inode.c:250-252 | `if (addr == 0) addr = block_alloc()` returns the old non-zero address unchanged, or a fresh zero-filled data block. |
| BlockMap.WalkStep | src/inode.c:266-272 | One pointer-block step: the entry afterwards is the address returned. It is the old entry when that was non-zero, and a fresh zero-filled block otherwise. Other set members are untouched. |
| BlockMap.MapDirectResolves | src/inode.c:249-254 | Direct tier: after mapping, a lookup finds the returned block at bn. A block that was unmapped before was free and is now zero-filled. |
| BlockMap.MapSingleResolves | src/inode.c:261-274 | The same for the singly-indirect tier. |
| BlockMap.MapDoubleStep | src/inode.c:283-307 | The doubly-indirect tier: the two lookups now find the returned block, which is allocated fresh when they found nothing. The path stays well formed. |
| BlockMap.MapTripleStep | src/inode.c:318-353 | The triply-indirect tier, one level deeper than the doubly-indirect one. |
| BlockMap.MapDoubleResolves | src/inode.c:283-307 | Doubly-indirect tier: after mapping, a lookup finds the returned block at bn. |
| BlockMap.MapTripleResolves | src/inode.c:318-353 | Triply-indirect tier: after mapping, a lookup finds the returned block at bn. |
| BlockMap.MapThenResolve | src/inode.c:245-357 | After a successful imap2blockno(ip, bn), a lookup of bn finds the returned block. The disk keeps all metadata marked, and bits in use stay in use. |
| BlockMap.MapIdempotent | src/inode.c:245-357 | Mapping the same logical block twice returns the same block, and the second call changes nothing. |
| BlockMapFrame.ResolveAtLeaf | src/inode.c:245-357 | The lookup of a mappable bn reads the address at bn's position in the tree: a direct slot, or an entry one, two or three pointer blocks down. |
| BlockMapFrame.LeafInjective | src/inode.c:249-322 | Distinct mappable logical blocks sit at distinct positions of the tree. |
| BlockMapFrame.DirectChange | src/inode.c:249-254 | Direct tier: among the address slots only slot i changes. It holds the old block when that was non-zero and a formerly free block otherwise. Every in-use block keeps its contents, and bits in use stay in use. |
| BlockMapFrame.SingleChange | src/inode.c:261-274 | Singly-indirect tier: among the address slots only slot NDIRECT changes. The slot and bn's entry each hold the old block or a formerly free one, the two are distinct, and the pointer block's other entries read as before. In-use blocks other than the old pointer block keep their contents. |
| BlockMapFrame.DoubleChange | src/inode.c:283-307 | Doubly-indirect tier: the same along the path slot, entry, offset. Of the in-use blocks, only the two pointer blocks on the path may be rewritten. |
| BlockMapFrame.TripleChange | src/inode.c:318-353 | Triply-indirect tier: the same, along a path of three pointer blocks. |
| BlockMapFrame.OffPathKept | src/inode.c:245-357 | After such a change, every position of the tree off the mapped path holds the address it held before. |
| BlockMapFrame.InodeOkAfter | src/inode.c:245-357 | After such a change the tree stays well formed: every non-zero address is an in-use data block, and no two positions share one. |
| BlockMapUse.MapChange | src/inode.c:245-357 | On a well-formed inode, a successful imap2blockno changes only the path of bn, as the tier lemmas state. |
| BlockMapUse.InodeOkPathOk | src/inode.c:245-357 | A well-formed inode meets the pointer-block conditions under which MapThenResolve holds, for every bn. |
| BlockMapUse.DataBlocksDistinct | src/inode.c:245-357 | On a well-formed inode, two distinct logical blocks never resolve to the same non-zero block. |
| BlockMapUse.DataNotPointer | src/inode.c:245-357 | On a well-formed inode, a data block the inode maps is in use and is not one of the pointer blocks read on the way to any logical block. |
| BlockMapUse.MapKeepsOthers | src/inode.c:245-357 | A successful imap2blockno(ip, bn) on a well-formed inode returns a non-zero block that bn resolves to, the old one when bn was mapped. Every other logical block resolves as before, every block the inode mapped keeps its contents, the inode stays well formed and the metadata stays marked. |
| BlockMapUse.WriteKeepsMap | src/inode.c:245-357 | Writing new contents into the block bn resolves to, as a caller does with logged_write after imap2blockno, leaves the bitmap, every lookup, every other block and the well-formedness of the inode as they were. |
| BlockMapUse.MapThenMapOther | src/inode.c:245-357 | Mapping bn and then a different c: bn still resolves to its block, whose contents are kept, c resolves to a different block, and mapping bn again returns the same block and changes nothing. |
| BlockMapUse.WriteReadBack | src/inode.c:245-357 | Map bn and write x to its block, then map c and write y to its block: bn reads back x and c reads back y, and the inode stays well formed. |
| Truncate.UnholdCounts | src/inode.c:372 | Releasing a buffer drops exactly one hold on its block. |
| Truncate.FreeDirectKeepsHeld | src/inode.c:360-362 | The direct-slot loop holds no buffer afterwards that it did not hold before. |
| Truncate.FreeDirectFrees | src/inode.c:360-362 | The corrected direct-slot loop frees exactly the blocks of the non-zero direct slots, when those blocks are distinct and in use. |
| Truncate.FreeDirectFailsOnFree | src/inode.c:360-362 | As written, a direct slot whose block is free makes itrunc fail with "freeing free block". |
| Truncate.FreeDirectFailsOnRepeat | src/inode.c:360-362 | As written, two direct slots holding the same address make itrunc fail. |
| Truncate.TruncAsWrittenFailsOnEmptySlots | src/inode.c:359-362 | As written, itrunc fails on every inode with two empty direct slots, such as a freshly allocated one. |
| Truncate.TruncEmpty | src/inode.c:359-423 | The corrected itrunc on an inode with no blocks changes nothing. |
| Truncate.TruncKeepsHeld | src/inode.c:359-423 | The corrected itrunc releases every buffer it takes. |
| Truncate.FreeChildAsWritten | src/inode.c:381-389 | As written, freeing one child of an indirect block releases the parent's buffer (`bp`) and leaves the child's (`bp2`) held. |
| Truncate.FreeLevelLeaksChild | src/inode.c:379-391 | As written, every non-zero child of a double- or triple-indirect block ends with one more hold on its buffer than before. |
| Truncate.FreeTreeLeaksChild | src/inode.c:376-394 | As written, the double- and triple-indirect trees leak the buffer of their first child. |
| TruncateFrees.FreeBlockFrees | src/inode.c:220-233 | Freeing an in-use block inside the disk succeeds, holds no new buffer, changes only the bitmap and clears exactly that block's bit. |
| TruncateFrees.FreeLevelFrees | src/inode.c:367-419 | At any depth, the loop over a pointer block's entries, read once, succeeds when the blocks they name are in use and each named once, and clears exactly those blocks' bits. |
| TruncateFrees.FreeChildFrees | src/inode.c:380-418 | Freeing one child of a double- or triple-indirect block clears exactly the bits of the child's subtree, the child included. |
| TruncateFrees.FreeTreeFrees | src/inode.c:364-422 | Freeing an indirect tree clears exactly the bits of its root, its pointer blocks and the data blocks they name, and changes only the bitmap. |
| TruncateFrees.FreeDirectOnlyBitmap | src/inode.c:360-362 | The corrected direct-slot loop changes only the bitmap. |
| TruncateFrees.FreeDirectStage | src/inode.c:360-362 | When the direct slots hold distinct in-use data blocks, the corrected direct-slot loop succeeds and clears exactly their bits. |
| TruncateFrees.FreeTreeAfter | src/inode.c:364-422 | An indirect tree freed after other blocks are gone clears exactly its own blocks' bits on top of theirs. |
| TruncateFrees.FirstStagesFree | src/inode.c:360-374 | The direct slots and then the singly-indirect tree: the bits cleared are exactly those of the direct blocks and of that tree. |
| TruncateFrees.LastTreesFree | src/inode.c:376-422 | Then the doubly- and triply-indirect trees: at the end the bits cleared are exactly those of every block the inode names. |
| TruncateFrees.TruncFrees | src/inode.c:359-423 | The corrected itrunc on an inode whose blocks are distinct in-use data blocks succeeds, changes only the bitmap, and clears exactly the bits of every block the inode names: direct blocks, indirect roots, pointer blocks and data blocks. |
| InodeSpec.IlockSpec | src/inode.c:100-124 | ilock succeeds exactly when ref >= 1 and the slot is loaded, or its on-disk inode is not T_UNUSE. A loaded slot is unchanged. Otherwise the fields are loaded from slot `inum % IPB` of `IBLOCK(inum)` and valid is set. |
| InodeSpec.IupdateStores | src/inode.c:138-152 | After iupdate the disk holds the slot's fields for its inode, and every other on-disk inode is unchanged. |
| InodeSpec.IupdateThenIlock | src/inode.c:100-152 | iupdate followed by ilock of the slot marked not loaded gives back type, major, minor, nlink, size and addrs. |
| InodeSpec.FirstUnused | src/inode.c:70-80 | The lowest inode number at or after i, below ninodes, whose on-disk type is T_UNUSE. When there is none, every inode in that range is in use. |
| InodeSpec.IallocFound | src/inode.c:70-78 | When the loop finds unused inode inum with every inode from 1 below it in use, it clears and types that dinode and igets it. That is ialloc's specification. |
| InodeSpec.IallocFailsWhenFull | src/inode.c:70-86 | ialloc fails exactly when inodes 1 .. ninodes - 1 are all in use. |
| InodeSpec.IallocClaimsLowest | src/inode.c:66-87 | ialloc picks the lowest unused inode in [1, ninodes), never inode 0. That inode becomes the requested type with every other field zero, it is returned with a reference, and every other on-disk inode is unchanged. |
| InodeSpec.IputDropsRef | src/inode.c:162-181 | iput lowers ref by exactly one. Unless this is the last reference to a loaded inode with no links, nothing else changes. |
| InodeSpec.IputFreesInode | src/inode.c:162-181 | After the corrected iput frees an inode, the slot has ref 0 and is not loaded. The on-disk inode is T_UNUSE with no blocks and size 0, and no buffer is left held. |
| InodeSpec.IputFreesBlocks | src/inode.c:162-181 | The corrected iput on the last reference to a loaded, unlinked inode whose blocks are distinct in-use data blocks succeeds, and a block's bit is then set exactly when it was set and the inode did not name the block. |
| InodeTree.PartWitness | src/inode.c:359-423 | Every block that itrunc frees in part k (the direct blocks, or the tree of the single, double or triple indirect slot) is the non-zero address at some tree position under a root slot of that part. |
| InodeTree.PtrInInodeBlocks | src/inode.c:245-357 | Conversely, the non-zero address at any position imap2blockno walks is one of the blocks itrunc frees. |
| InodeTree.MappedInInodeBlocks | src/inode.c:245-357 | A logical block that imap2blockno resolves to a non-zero block names a block that itrunc frees. |
| InodeTree.InodeOkBlocksOk | src/inode.c:245-423 | A well-formed inode, in the sense imap2blockno preserves (InodeOk), meets the corrected itrunc's precondition: its blocks are in-use data blocks, its direct slots are distinct, each indirect tree names every block once, and the four parts share no block. |
| InodeTree.MapThenTruncFrees | src/inode.c:245-423 | After imap2blockno on a well-formed inode, the corrected itrunc succeeds and changes only the bitmap. The block just mapped and every block mapped before are then free, and every block the inode does not name keeps its bit. |
| InodeTree.IputFreesMapped | src/inode.c:162-181 | The corrected iput on the last reference to a loaded, unlinked, well-formed inode succeeds, and every block the inode mapped is then free. |
| InodeSpec.IputAsWrittenKeepsAddrs | src/inode.c:172-174 | As written, the freed inode goes back to disk as T_UNUSE, but with its old size and the addresses of the blocks just freed. |
| Inodes.InodeLayer.constructor | src/inode.c:13-22 | inode_init: a table of NINODE_INIT empty slots, and no buffers held. |
| Inodes.InodeLayer.ItableGrow | src/inode.c:24-33 | The table doubles, keeping its old slots' contents at the same indices. The new slots are fresh. |
| Inodes.InodeLayer.Iget | src/inode.c:37-63 | The new table and the returned slot are those of IgetSpec. The disk and the buffers are unchanged. |
| Inodes.InodeLayer.Idup | src/inode.c:91-96 | The slot's ref goes up by one, and nothing else changes. |
| Inodes.InodeLayer.Ilock | src/inode.c:100-124 | Succeeds exactly when IlockSpec does, and then stores its slot. |
| Inodes.InodeLayer.Iupdate | src/inode.c:138-152 | The disk becomes IupdateSpec's, and the buffer it takes is released. |
| Inodes.InodeLayer.ClaimInode | src/inode.c:72-77 | The claimed inode's dinode is cleared and typed, and the slot is the one iget returns. |
| Inodes.InodeLayer.IallocAsWritten | src/inode.c:66-87 | Result as IallocSpec. The buffer of the claimed inode's block stays held. |
| Inodes.InodeLayer.Ialloc | src/inode.c:66-87 | Result as IallocSpec, with every buffer released. |
| Inodes.InodeLayer.ZeroABlock | src/inode.c:188-194 | Block bno becomes all zeros, and nothing else changes. |
| Inodes.InodeLayer.BlockAlloc | src/inode.c:198-218 | The bitmap scan returns and leaves behind what BlockAllocSpec does, and releases its buffers. |
| Inodes.InodeLayer.BlockFree | src/inode.c:220-233 | Succeeds exactly when BlockFreeSpec does, and leaves its disk. |
| Inodes.InodeLayer.AllocSlot | src/inode.c:250-252 | An address slot of the inode is allocated when it is 0, as AllocIfZero says. |
| Inodes.InodeLayer.WalkIndirect | src/inode.c:266-272 | One pointer-block step, as WalkEntry says, releasing its buffer. |
| Inodes.InodeLayer.MapSingleIndirect | src/inode.c:261-274 | The singly-indirect branch, as MapSingle says. |
| Inodes.InodeLayer.MapDoubleIndirect | src/inode.c:283-307 | The doubly-indirect branch, as MapDouble says. |
| Inodes.InodeLayer.MapTripleIndirect | src/inode.c:318-353 | The triply-indirect branch, as MapTriple says. |
| Inodes.InodeLayer.Imap2Blockno | src/inode.c:245-357 | Returns the block, disk and address array of MapBlock. On an error, it fails. |
| Inodes.InodeLayer.FreeLeaves | src/inode.c:367-371 | Frees the non-zero entries of a pointer block, as FreeLevel at depth 1 says. |
| Inodes.InodeLayer.FreeMidChild | src/inode.c:380-390 | One child of a double-indirect block, as FreeChild at depth 2 says. |
| Inodes.InodeLayer.FreeMids | src/inode.c:379-391 | The loop over a double-indirect block, as FreeLevel at depth 2 says. |
| Inodes.InodeLayer.FreeTopChild | src/inode.c:400-418 | One child of a triple-indirect block, as FreeChild at depth 3 says. |
| Inodes.InodeLayer.FreeTops | src/inode.c:399-419 | The loop over a triple-indirect block, as FreeLevel at depth 3 says. |
| Inodes.InodeLayer.FreeSingle | src/inode.c:364-374 | The singly-indirect tree, as FreeTree at depth 1 says. |
| Inodes.InodeLayer.FreeDouble | src/inode.c:376-394 | The doubly-indirect tree, as FreeTree at depth 2 says. |
| Inodes.InodeLayer.FreeTriple | src/inode.c:396-422 | The triply-indirect tree, as FreeTree at depth 3 says. |
| Inodes.InodeLayer.FreeDirects | src/inode.c:360-362 | The direct-slot loop, as FreeDirect says. |
| Inodes.InodeLayer.Itrunc | src/inode.c:359-423 | itrunc as written, as TruncSpec with fixed false says. The slot is unchanged. |
| Inodes.InodeLayer.ItruncFixed | src/inode.c:359-423 | The corrected itrunc, as TruncSpec with fixed true says. The slot ends with no blocks and size 0. |
| Inodes.InodeLayer.IputAsWritten | src/inode.c:162-181 | iput as written, as IputSpec with fixed false says. |
| Inodes.InodeLayer.Iput | src/inode.c:162-181 | iput with the corrected itrunc, as IputSpec with fixed true says. |
| MkfsLayout.LayoutRegions | mkfs/mkfs.myfuse.c:105-125 | The log starts at block 2. The inode blocks follow the log, the bitmap follows the inode blocks, and the bitmap ends where the allocator's data area starts. Every block of the disk has a bitmap bit. The inode blocks times 100 exceed the disk size, and ninodes is the inode blocks times IPB. |
| MkfsLayout.LayoutDataBlocks | mkfs/mkfs.myfuse.c:108-109 | nblocks plus the metadata is the disk size when the metadata fits; otherwise nblocks wraps around 2^32. The metadata fits exactly when the layout is sane for the allocator. |
| MkfsLayout.IntFitsExactly | mkfs/mkfs.myfuse.c:105-109 | mkfs's `int` layout variables fit for every 32-bit disk size whenever nlog < 2104009685, and not for a disk of 2^32 - 1 blocks with nlog 2104009685. |
| MkfsLayout.SuperBlockImageDecodes | mkfs/mkfs.myfuse.c:128-130 | The block mkfs writes at block 1 decodes to the superblock. |
| MkfsLayout.LowByte | mkfs/mkfs.myfuse.c:141-144 | `meta_bitmap_left_byte` has exactly bits 0 .. n - 1 set. |
| MkfsLayout.ReadImage | mkfs/mkfs.myfuse.c:128-151 | Every block of the image, region by region: block 1, the zeroed metadata, the full bitmap blocks, the last bitmap block, and otherwise the device's old contents. |
| MkfsLayout.LastBlockBits | mkfs/mkfs.myfuse.c:149-151 | In the last bitmap block, a block's bit is set when the block is metadata. Otherwise the bit is whatever the buffer held past the bytes written. |
| MkfsLayout.FormatWritesSuperblock | mkfs/mkfs.myfuse.c:118-130 | Block 1 of the image decodes to the superblock mkfs computed. |
| MkfsLayout.FormatReserves | mkfs/mkfs.myfuse.c:132-151 | Every metadata block (boot, superblock, log, inodes, bitmap) is marked in use, so block_alloc never hands one out. |
| MkfsLayout.FormatMarksExactly | mkfs/mkfs.myfuse.c:137-151 | With the corrected last bitmap block, a bitmap bit is set exactly for the metadata blocks. |
| MkfsLayout.FormatAsWrittenMarksData | mkfs/mkfs.myfuse.c:145-151 | As written, with at least one full bitmap block, every block from the byte after the last written one to the end of that bitmap block is marked in use. None of those blocks is metadata. |
| MkfsLayout.FormatAsWrittenMarksSuperblockBits | mkfs/mkfs.myfuse.c:128-151 | As written, when the metadata ends below block 224, byte 28 of the superblock image (the low byte of bmapstart) marks some data block in 224 .. 231 as in use. |
| MkfsLayout.FormatInodesUnused | mkfs/mkfs.myfuse.c:132-134 | Every inode of the image is T_UNUSE. |
| MkfsLayout.FormatThenIalloc | mkfs/mkfs.myfuse.c:132-134 | ialloc on a fresh image succeeds and takes inode 1. |
| MkfsLayout.FormatThenBlockAlloc | mkfs/mkfs.myfuse.c:137-151 | When the disk has room for data, the first block_alloc on a fresh image returns the first data block, nmeta. |
| Mkfs.Formatter.constructor | mkfs/mkfs.myfuse.c:28 | The static `data_buf` starts zeroed. |
| Mkfs.Formatter.Memset | mkfs/mkfs.myfuse.c:146 | The first n bytes of data_buf become v, and the rest is unchanged. |
| Mkfs.Formatter.Memmove | mkfs/mkfs.myfuse.c:129 | The first bytes of data_buf become the source, and the rest is unchanged. |
| Mkfs.Formatter.WriteSuperBlock | mkfs/mkfs.myfuse.c:128-130 | Block 1 becomes the superblock followed by zeros. data_buf keeps that image. |
| Mkfs.Formatter.ZeroMeta | mkfs/mkfs.myfuse.c:132-134 | Blocks 2 .. nmeta - 1 become zero, and nothing else changes. |
| Mkfs.Formatter.LeftByte | mkfs/mkfs.myfuse.c:141-144 | The loop computes the byte with bits 0 .. n - 1 set. |
| Mkfs.Formatter.WriteFullBitmapBlocks | mkfs/mkfs.myfuse.c:145-148 | The full bitmap blocks become 0xFF, and data_buf keeps 0xFF when there was one. |
| Mkfs.Formatter.WriteLastBitmapBlock | mkfs/mkfs.myfuse.c:149-151 | The last bitmap block is written over whatever data_buf held. |
| Mkfs.Formatter.WriteBitmapAsWritten | mkfs/mkfs.myfuse.c:137-151 | The bitmap as written: the last block is written over 0xFF or over the superblock image. |
| Mkfs.Formatter.WriteBitmap | mkfs/mkfs.myfuse.c:137-151 | The bitmap with data_buf zeroed first. |
| Mkfs.Formatter.FormatAsWritten | mkfs/mkfs.myfuse.c:105-151 | mkfs as written returns the computed superblock and leaves the as-written image. |
| Mkfs.Formatter.Format | mkfs/mkfs.myfuse.c:105-151 | The corrected mkfs returns the computed superblock and leaves the corrected image, which marks exactly the metadata in use. |
| MkfsUtil.Wrap | mkfs/mkfs.myfuse-util.cc:11-13 | A `uint` result is congruent to the exact value modulo 2^32, and equal to it when that fits. |
| MkfsUtil.InitSuperBlockMatchesMkfs | mkfs/mkfs.myfuse-util.cc:4-22 | When mkfs's `int` arithmetic does not overflow, init_super_block computes the same superblock as mkfs. |
| MkfsUtil.TestImageLayout | test/test_util.cc:55-73 | The test image of MAX_BLOCK_NO = 400000 blocks has 64016 inodes. Its bitmap starts at 4003 + nlog, its data starts at 4052 + nlog, it has 395948 - nlog data blocks, and its layout is sane. |
| Directory.NameField | src/directory.c:37 | `strncpy(de.name, name, DIRSIZE)`: the first 14 characters, padded with zeros. |
| Directory.NameFieldInjective | src/directory.c:37 | Distinct names of at most 14 characters give distinct name fields. |
| Directory.LookupFrom | include/directory.h:10-13 | dirlookup finds the first in-use entry whose name field is the name's. When it finds none, no in-use entry matches. |
| Directory.FreeSlotFrom | src/directory.c:30-35 | The first entry with inum 0, or the entry count when every entry is in use. |
| Directory.PutEntryEntries | src/directory.c:39-41 | Writing an entry at slot k, or appending one, puts it at k and keeps every other entry. |
| Directory.DirLinkKeepsEntries | src/directory.c:30-41 | dirlink keeps every other entry. The directory grows by one entry only when no entry was free. |
| Directory.DirLinkThenLookup | src/directory.c:6-45 | After linking a name to an inode number below 2^16, lookup finds that name at the first free slot with that inode number. |
| Directory.DirLinkAsWrittenLosesEntry | src/directory.c:38 | As written, an inode number that is a multiple of 2^16 is stored as 0. The new entry reads as free, and the name is not found. |
| Directory.DirFile.FindFreeOffset | src/directory.c:30-35 | The scan's offset is 16 times the first free slot, or the directory's size. |
| Directory.DirFile.DirLinkAsWritten | src/directory.c:6-45 | Returns -1 exactly when the name is present and 0 otherwise. The bytes become DirLinkSpec's. |
| Directory.DirFile.DirLink | src/directory.c:6-45 | Returns 0 exactly when the name is absent and the inode number fits an entry. On success the bytes become DirLinkSpec's. On failure they are unchanged. |
| BufCache.LinksConsistent | src/buf_cache.c:42-48 | At every stage of the loop, links stay among linked nodes, and `prev` of `next` (and `next` of `prev`) gives back the node. |
| BufCache.Consistent | src/buf_cache.c:42-48 | The loop invariant: the arrays built so far are doubly-linked. |
| BufCache.FollowFromHead | src/buf_cache.c:43-47 | Following `next` from bucket 0's head meets buf[NCACHE_BUF - 1] first, then buf[NCACHE_BUF - 2], down to buf[0]. |
| BufCache.FollowBackFromHead | src/buf_cache.c:43-47 | Following `prev` from bucket 0's head meets buf[0] first, up to buf[NCACHE_BUF - 1]. |
| BufCache.BucketZeroHoldsAll | src/buf_cache.c:41-48 | Bucket 0 holds buf[NCACHE_BUF - 1] .. buf[0] in that order, with each buffer exactly once. The walk returns to the head after NCACHE_BUF + 1 steps. |
| BufCache.BufferCache.InitHeads | src/buf_cache.c:35-39 | Every bucket head points to itself both ways. No buffer link changes. |
| BufCache.BufferCache.PushFront | src/buf_cache.c:43-47 | Pushing buffer b at the front of bucket 0 extends the lists of b buffers to the lists of b + 1 buffers. |
| BufCache.BufferCache.Binit | src/buf_cache.c:31-49 | Every link is that of the finished lists. The other buckets are empty circles, and the whole arena is doubly-linked. |

## Left out

- The transaction log: it is not part of this model. `logged_read`, `logged_write`, `logged_relse` and `brelse` are reads and writes of the abstract disk, and each held buffer is one entry of `held`. There is no commit or recovery.
- Releasing a buffer that is not held is a no-op in the model.
- Locks and threads: every spinlock, mutex and `trylock` check is dropped, and the model is sequential. `ilock` keeps only its loading and its checks. `iunlock` and `iunlockput` are not modelled. binit's first loop initialises `bcache.lock` once per bucket, where it evidently means the bucket's own lock; with locks left out, the model does not show this.
- `bget` and LRU eviction: `bget` is a stub returning NULL, so only `binit` is modelled.
- NLOG, NCACHE_BUF, BCACHE_HASH_SIZE and T_UNUSE are not defined in the source files available. The first three are the parameters nlog, nbuf and nhash. T_UNUSE, the type of an unused inode, is taken to be 0 (FsLayout.T_UNUSE): a zeroed inode block then holds only unused inodes.
- Block I/O, FUSE, the mkfs prompts, the device open, the log output and the floating-point size printout are left out. The device's size, which mkfs reads from sysfs and converts from sectors, is the parameter diskSize.
- Mkfs.Formatter.FormatAsWritten: requires that mkfs's `int` layout variables do not overflow (IntFits). By MkfsLayout.IntFitsExactly this holds for every 32-bit disk size whenever nlog < 2104009685, so what is excluded is a log of nearly 2^31 blocks, not a large disk.
- `malloc` and `realloc` leave new slots uninitialised; the model takes such slots to be all zero (`FreshSlot`).
- itrunc reads a pointer block's entries once, when its buffer is taken. The C code keeps reading through the live buffer; block_free could change it only if a pointer block were also a bitmap block, which happens only on a corrupt image.
- imap2blockno is specified one tier at a time (MapSingle, MapDouble, MapTriple), each tier following its C branch. The tier split itself is TierOf.
- BlockMap.MapThenResolve: holds on disks whose metadata is marked in use and whose existing pointer blocks are distinct in-use data blocks. BlockMapUse.InodeOkPathOk shows that every well-formed inode (BlockMapFrame.InodeOk) meets this, and BlockMapFrame.InodeOkAfter shows that imap2blockno keeps inodes well formed. Corrupt images are not covered.
- Bitmap.BlockAllocChoosesLowest: states that the new block is marked in use only when it is not its own bitmap block. zero_a_block would erase its bit in that case, which happens only on a disk whose bitmap is not reserved.
- dirlookup's body is empty, so it is modelled from its header comment as Directory.Lookup. The `iput` of its result is not modelled.
- dirlink's read at src/directory.c:27-29 goes through `ip`, which is null on that path. Its result is compared with `dp->size`, and a mismatch is fatal. The model leaves the call out, which assumes that it returns `dp->size`. The call also copies `dp->size` bytes into the `BSIZE`-byte stack buffer `buf`, which overflows once the directory holds more than 64 entries (1024 / 16 bytes); the model does not capture that overflow.
- `inode_read_nbytes_unlocked` and `inode_write_nbytes_unlocked` are not part of this model. Directory.DirFile takes them to read and write the directory's bytes, and a failed write (`err_exit`) is not modelled.
- Directory.DirFile.DirLinkAsWritten: requires names to be C strings (CString). The name is the characters before the NUL.
- Directory.DirFile: its `Valid` (through WholeEntries) requires the directory's size to be a multiple of 16 bytes. For other sizes the C scan at src/directory.c:30-35 reads a short last entry, whose missing bytes keep the previous entry's values. When no entry is free, the loop stops at the size rounded up to a multiple of 16, and the new entry is written there, past the end of the file. The model does not cover such directories.
- Inodes.InodeLayer.ItableGrow and InodeTable.IgetSpec: the model keeps every slot at a fixed index of the table, while the C table is reallocated by itable_grow and may move, leaving every earlier `struct inode*` dangling (see "## Findings"). The class Inodes.InodeLayer and the rest of the model follow the corrected behaviour, in which slots do not move; the as-written pointers are modelled only on values (InodeTable.Handle, InodeTable.IgetAsWritten).
- Inodes.InodeLayer.BlockAlloc and Bitmap.BlockAllocSpec: block_alloc scans with `int b, bi` (src/inode.c:199-204), while `sb.size` is a `uint`. On a disk of more than 2^31 blocks whose first 2^31 blocks are in use, `b += BPB` overflows `int`; in practice `b` wraps negative and `BBLOCK(b)` names the wrong bitmap block. The model's unbounded scan does not show this and returns the lowest free block for every size.
- `idup`, `iput` and `ilock` on a null pointer are not modelled: in the class, slots are indices into the table.

## Findings

| source | as written | input that shows it | evidently intended | confidence | as-written member | corrected member |
|---|---|---|---|---|---|---|
| src/inode.c:29 | itable_grow `realloc`s the table, which may move it, while every slot is referenced, so every `struct inode*` that iget, idup or ialloc handed out points into freed memory. Later `ip->ref`, `ip->lock` and `ip->addrs` go through those pointers. | NINODE_INIT (30) inodes held, then one more `iget` of a new inode number. | Keep slots in place: grow by adding a separately allocated chunk, or keep a table of pointers to individually allocated inodes. | medium (whether realloc moves is the allocator's choice), not executed | InodeTable.IgetAsWrittenDangles | InodeTable.IgetKeepsHandles |
| src/inode.c:360-362 | The direct-slot loop calls `block_free` on every slot, including slots that hold 0. | Any inode with nlink 0 and two empty direct slots, such as one just allocated and then locked. The first `block_free(0)` clears the boot block's bit, and the second fails with "freeing free block". | Free only non-zero slots, as the indirect loops do. | high, not executed | Truncate.TruncAsWrittenFailsOnEmptySlots | Truncate.FreeDirectFrees |
| src/inode.c:388 | In the double-indirect loop, `logged_relse(bp)` releases the parent buffer instead of the child's `bp2`. | An inode whose `addrs[NDIRECT + 1]` is non-zero with a non-zero entry 0. The child's buffer stays held, and the parent's is released once per child. | `logged_relse(bp2)`. | high, not executed | Truncate.FreeTreeLeaksChild | Truncate.TruncKeepsHeld |
| src/inode.c:416 | The triple-indirect loop makes the same `bp`-for-`bp2` release. | An inode whose `addrs[NDIRECT + 2]` is non-zero with a non-zero entry 0. | `logged_relse(bp2)`. | high, not executed | Truncate.FreeLevelLeaksChild | Inodes.InodeLayer.ItruncFixed |
| src/inode.c:71-77 | ialloc returns after `logged_write(bp)` without releasing `bp`. | Any successful ialloc: the buffer of `IBLOCK(inum)` stays held. | `logged_relse(bp)` before `return iget(inum)`. | medium (the log's code is not part of this model), not executed | Inodes.InodeLayer.IallocAsWritten | Inodes.InodeLayer.Ialloc |
| src/inode.c:172-174 | iput writes the freed inode back with its old size and addresses, because itrunc does not clear them. | An unlinked inode with blocks, on its last iput: the on-disk inode is T_UNUSE but still lists freed blocks. | itrunc sets `addrs` to 0 and `size` to 0, as xv6 does. | high, not executed | InodeSpec.IputAsWrittenKeepsAddrs | InodeSpec.IputFreesInode |
| mkfs/mkfs.myfuse.c:149-151 | The last bitmap block is written over data_buf as the full blocks left it (all 0xFF), and only its first bytes are rewritten. | A disk of 1000000 blocks with nlog 30: nmeta is 10156, and blocks 10160 .. 16383 are marked in use though they are free data blocks. | Zero data_buf before writing the last bitmap block. | high, not executed | MkfsLayout.FormatAsWrittenMarksData | MkfsLayout.FormatMarksExactly |
| mkfs/mkfs.myfuse.c:128-151 | With no full bitmap block, the last bitmap block is written over the superblock image still in data_buf. | A disk of 10000 blocks with nlog 30: nmeta is 135 and bmapstart is 133, so blocks 161, 197, 224, 226 and 231 are marked in use though they are data blocks. | Zero data_buf before writing the last bitmap block. | high, not executed | MkfsLayout.FormatAsWrittenMarksSuperblockBits | Mkfs.Formatter.Format |
| src/directory.c:38 | `de.inum = inum` stores a `uint` in a `ushort` and keeps the low 16 bits. | Linking inode 65536 (a disk of 1000000 blocks has 160016 inodes): the entry reads as free and the name is not found. | Refuse inode numbers that do not fit an entry. | low (the on-disk entry format fixes the width), not executed | Directory.DirLinkAsWrittenLosesEntry | Directory.DirFile.DirLink |
