/** Blocks and inodes of an ext2 file system, allocated, freed, read and written (fs/ext2/ext2_internal.c). */
module BlockGroups {
  import opened Disks
  import opened Bitmaps
  import opened InodeSlots
  import opened Products

  const ENOENT: int := 2

  /** A bitmap bit that alloc_block may take. */
  ghost predicate Open(geo: Geometry, s: seq<Byte>, i: nat, ib: nat) {
    && i < |geo.groups| && geo.groups[i].freeBlocks != 0 && ib < geo.blocksPerGroup
    && geo.BlockBitmapAt(i) + ib / 8 < |s| && !Marked(s, geo.BlockBitmapAt(i), ib)
  }

  /** The first group, and the lowest bit in it. */
  ghost predicate First(geo: Geometry, s: seq<Byte>, i: nat, ib: nat) {
    && Open(geo, s, i, ib)
    && forall j: nat, jb: nat :: Open(geo, s, j, jb) ==> i < j || (i == j && ib <= jb)
  }

  function Number(geo: Geometry, i: nat, ib: nat): nat { ib + i * geo.blocksPerGroup }

  /** alloc_block sets exactly the first open bit, or does nothing and answers 0. */
  ghost predicate Allocated(geo: Geometry, s: seq<Byte>, t: seq<Byte>, blk: nat) {
    || ((forall i: nat, ib: nat :: !Open(geo, s, i, ib)) && t == s && blk == 0)
    || exists i: nat, ib: nat :: First(geo, s, i, ib) && t == Mark(s, geo.BlockBitmapAt(i), ib) && blk == Number(geo, i, ib)
  }

  ghost predicate OpenInode(geo: Geometry, maps: seq<seq<Byte>>, i: nat, ib: nat) {
    && i < |geo.groups| && i < |maps| && geo.groups[i].freeInodes != 0 && ib < geo.inodesPerGroup
    && ib / 8 < |maps[i]| && !Marked(maps[i], 0, ib)
  }

  ghost predicate FirstInode(geo: Geometry, maps: seq<seq<Byte>>, i: nat, ib: nat) {
    && OpenInode(geo, maps, i, ib)
    && forall j: nat, jb: nat :: OpenInode(geo, maps, j, jb) ==> i < j || (i == j && ib <= jb)
  }

  /** Everything the superblock and the descriptors point to is on the disk. */
  ghost predicate OnDisk(geo: Geometry, n: nat)
  {
    && geo.Valid()
    && forall i :: 0 <= i < |geo.groups| ==>
         && geo.BlockBitmapAt(i) + geo.blockSize <= n && geo.InodeBitmapAt(i) + geo.blockSize <= n
         && geo.TableAt(i) + geo.TableSize() <= n
  }

  class Ext2 {
    const disk: Disk
    const geo: Geometry
    var inodeBitmaps: seq<seq<Byte>>

    constructor (disk: Disk, geo: Geometry, inodeBitmaps: seq<seq<Byte>>)
      ensures this.disk == disk && this.geo == geo && this.inodeBitmaps == inodeBitmaps
    {
      this.disk, this.geo, this.inodeBitmaps := disk, geo, inodeBitmaps;
    }

    /** The inner loop of alloc_block: the lowest clear bit of a bitmap in memory, -1 if there is none. */
    static method FirstClear(bitmap: seq<Byte>, n: nat) returns (ib: int)
      requires n <= 8 * |bitmap|
      ensures -1 <= ib < n
      ensures ib >= 0 ==> !Marked(bitmap, 0, ib) && forall k :: 0 <= k < ib ==> Marked(bitmap, 0, k)
      ensures ib < 0 ==> forall k :: 0 <= k < n ==> Marked(bitmap, 0, k)
    {
      for k := 0 to n
        invariant forall j :: 0 <= j < k ==> Marked(bitmap, 0, j)
      {
        if !HasBit(bitmap[k / 8], k % 8) {
          return k;
        }
      }
      ib := -1;
    }

    /** alloc_block. */
    method AllocBlock() returns (blk: nat)
      requires OnDisk(geo, |disk.bytes|)
      modifies disk
      ensures Allocated(geo, old(disk.bytes), disk.bytes, blk)
      ensures FirstFreeBitSet(geo, old(disk.bytes), disk.bytes, blk)
    {
      hide *;
      ghost var s := disk.bytes;
      ValidGeometry(geo, |s|);
      NoneBefore(geo, s);
      for i := 0 to |geo.groups|
        invariant disk.bytes == s && NoneOpen(geo, s, i)
      {
        if geo.groups[i].freeBlocks != 0 {
          BitmapOnDisk(geo, s, i);
          var base := geo.BlockBitmapAt(i);
          var bitmap := disk.Read(base, geo.blockSize);
          SameBits(s, base, bitmap);
          var ib := FirstClear(bitmap, geo.blocksPerGroup);
          if ib >= 0 {
            var byte := WithBit(bitmap[ib / 8], ib % 8);
            MarkIsWrite(s, base, ib);
            FirstFound(geo, s, i, ib, bitmap);
            disk.Write(base + ib / 8, [byte]);
            blk := ib + i * geo.blocksPerGroup;
            AllocatedThere(geo, s, disk.bytes, i, ib);
            AllocatedMeans(geo, s, disk.bytes, blk);
            return;
          }
          GroupIsFull(geo, s, i, bitmap);
        } else {
          GroupIsClosed(geo, s, i);
        }
      }
      AllClosed(geo, s);
      blk := 0;
      AllocatedMeans(geo, s, s, blk);
    }

    /** free_block. */
    method FreeBlock(blk: nat)
      requires OnDisk(geo, |disk.bytes|) && geo.blocksPerGroup > 0 && blk / geo.blocksPerGroup < |geo.groups|
      modifies disk
      ensures Freed(geo, old(disk.bytes), disk.bytes, blk)
      ensures BlockBitCleared(geo, old(disk.bytes), disk.bytes, blk)
    {
      hide *;
      ghost var s := disk.bytes;
      ValidGeometry(geo, |s|);
      Divides(geo, s, blk);
      var i := blk / geo.blocksPerGroup;
      var ib := blk - geo.blocksPerGroup * i;
      var base := geo.BlockBitmapAt(i);
      var byte := disk.Read(base + ib / 8, 1);
      FirstByte(s, base + ib / 8, byte);
      disk.Write(base + ib / 8, [WithoutBit(byte[0], ib % 8)]);
      UnmarkIsWrite(s, base, ib);
      FreedThere(geo, s, disk.bytes, i, ib);
      SwapFactors(i, geo.blocksPerGroup);
      FreedMeans(geo, s, disk.bytes, blk);
    }

    /** read_inode. */
    method ReadInode(inum: int) returns (buf: seq<Byte>)
      requires OnDisk(geo, |disk.bytes|) && geo.HasInode(inum)
      ensures |buf| == INODE_STRUCT && IsInode(geo, disk.bytes, inum, buf)
      ensures InodeBytes(geo, disk.bytes, inum, buf)
    {
      hide *;
      ghost var s := disk.bytes;
      InodeOnDisk(geo, s, inum);
      var perBlock := geo.PerBlock();
      var group := (inum - 1) / geo.inodesPerGroup;
      var inGroup := (inum - 1) % geo.inodesPerGroup;
      var bnum := geo.groups[group].inodeTable + inGroup / perBlock;
      var inBlock := inGroup % perBlock;
      var block := disk.Read(bnum * geo.blockSize, geo.blockSize);
      var p := inBlock * geo.inodeSize;
      var n := if geo.inodeSize <= INODE_STRUCT then geo.inodeSize else INODE_STRUCT;
      buf := block[p..p + n];
      SliceOfCopy(s, bnum * geo.blockSize, block, p, buf);
      IsInodeThere(geo, s, inum, buf);
      SlotMeans(geo, s, inum);
      InodeIsThere(geo, s, inum, buf);
    }

    /** write_inode. */
    method WriteInode(inum: int, inode: seq<Byte>) returns (ret: int)
      requires OnDisk(geo, |disk.bytes|) && (inum > 0 ==> geo.HasInode(inum)) && |inode| == INODE_STRUCT
      modifies disk
      ensures ret == if inum > 0 then 0 else -ENOENT
      ensures inum > 0 ==> InodeWritten(geo, old(disk.bytes), disk.bytes, inum, inode)
      ensures inum <= 0 ==> disk.bytes == old(disk.bytes)
      ensures inum > 0 ==> InodeBytes(geo, disk.bytes, inum, inode) && OnlyInode(geo, old(disk.bytes), disk.bytes, inum)
    {
      hide *;
      if inum > 0 {
        ghost var s := disk.bytes;
        InodeOnDisk(geo, s, inum);
        var perBlock := geo.PerBlock();
        var group := (inum - 1) / geo.inodesPerGroup;
        var inGroup := (inum - 1) % geo.inodesPerGroup;
        var bnum := geo.groups[group].inodeTable + inGroup / perBlock;
        var offset := inGroup % perBlock * geo.inodeSize;
        disk.Write(bnum * geo.blockSize + offset, inode);
        WrittenThere(geo, s, inum, inode);
        SlotMeans(geo, s, inum);
        OnlyInodeWritten(geo, s, disk.bytes, inum, inode);
        return 0;
      }
      ret := -ENOENT;
    }

    /** The part of alloc_inode on the bit found. */
    method TakeInode(inode: seq<Byte>, i: nat, ib: nat) returns (n: nat)
      requires OnDisk(geo, |disk.bytes|) && MapsFit(geo, inodeBitmaps) && |inode| == INODE_STRUCT && i < |geo.groups|
      requires ib < geo.inodesPerGroup && FirstInode(geo, inodeBitmaps, i, ib)
      modifies this, disk
      ensures InodeAllocated(geo, old(disk.bytes), old(inodeBitmaps), disk.bytes, inodeBitmaps, inode, n)
    {
      hide *;
      ghost var s, maps := disk.bytes, inodeBitmaps;
      MapsFitFacts(geo, maps);
      InodeMapOnDisk(geo, s, maps, i);
      PackedInTable(geo, ib);
      disk.Write(geo.TableAt(i) + INODE_STRUCT * ib, inode);
      var byte := WithBit(inodeBitmaps[i][ib / 8], ib % 8);
      var bits: seq<Byte> := inodeBitmaps[i][ib / 8 := byte];
      MarkIsUpdate(inodeBitmaps[i], ib);
      inodeBitmaps := inodeBitmaps[i := bits];
      disk.Write(geo.InodeBitmapAt(i) + ib / 8, [byte]);
      n := i * geo.inodesPerGroup + ib + 1;
      InodeAllocatedThere(geo, s, maps, disk.bytes, inodeBitmaps, inode, i, ib);
    }

    /** alloc_inode. */
    method AllocInode(inode: seq<Byte>) returns (n: nat)
      requires OnDisk(geo, |disk.bytes|) && MapsFit(geo, inodeBitmaps) && |inode| == INODE_STRUCT
      modifies this, disk
      ensures InodeAllocated(geo, old(disk.bytes), old(inodeBitmaps), disk.bytes, inodeBitmaps, inode, n)
      ensures FirstFreeInodeTaken(geo, old(disk.bytes), old(inodeBitmaps), disk.bytes, inodeBitmaps, inode, n)
    {
      hide *;
      ghost var s, maps := disk.bytes, inodeBitmaps;
      ValidGeometry(geo, |s|);
      NoInodeBefore(geo, maps);
      MapsFitFacts(geo, maps);
      for i := 0 to |geo.groups|
        invariant disk.bytes == s && inodeBitmaps == maps && NoInodeOpen(geo, maps, i)
      {
        if geo.groups[i].freeInodes != 0 {
          InodeMapOnDisk(geo, s, maps, i);
          var ib := FirstClear(inodeBitmaps[i], geo.inodesPerGroup);
          if ib >= 0 {
            FirstInodeFound(geo, maps, i, ib);
            n := TakeInode(inode, i, ib);
            InodeAllocatedMeans(geo, s, maps, disk.bytes, inodeBitmaps, inode, n);
            return;
          }
          InodeGroupIsFull(geo, maps, i);
        } else {
          InodeGroupIsClosed(geo, maps, i);
        }
      }
      NoInodeAtAll(geo, s, maps, inode);
      n := 0;
      InodeAllocatedMeans(geo, s, maps, s, maps, inode, 0);
    }
  }

  // ---- Places on the disk, in numbers ----

  /** One bit of one byte was clear and is set, and nothing else changed. */
  ghost predicate BitSet(s: seq<Byte>, t: seq<Byte>, p: int, w: nat) {
    && 0 <= p < |s| == |t| && w > 0 && s[p] / w % 2 == 0 && t[p] == s[p] + w
    && forall k :: 0 <= k < |s| && k != p ==> t[k] == s[k]
  }

  /** One bit of one byte is clear, and nothing else changed. */
  ghost predicate BitCleared(s: seq<Byte>, t: seq<Byte>, p: int, w: nat) {
    && 0 <= p < |s| == |t| && w > 0 && t[p] == (if s[p] / w % 2 == 1 then s[p] - w else s[p])
    && forall k :: 0 <= k < |s| && k != p ==> t[k] == s[k]
  }

  /** The bit of the block is set in the bitmap of its group. */
  ghost predicate BlockBitSet(geo: Geometry, s: seq<Byte>, t: seq<Byte>, blk: nat)
    requires geo.blocksPerGroup > 0
  {
    var i, ib := blk / geo.blocksPerGroup, blk % geo.blocksPerGroup;
    && 0 <= i < |geo.groups| && 0 <= ib && geo.groups[i].freeBlocks != 0
    && BitSet(s, t, geo.groups[i].blockBitmap * geo.blockSize + ib / 8, WEIGHTS[ib % 8])
  }

  ghost predicate BlockBitCleared(geo: Geometry, s: seq<Byte>, t: seq<Byte>, blk: nat)
    requires geo.blocksPerGroup > 0
  {
    var i, ib := blk / geo.blocksPerGroup, blk % geo.blocksPerGroup;
    && 0 <= i < |geo.groups| && 0 <= ib
    && BitCleared(s, t, geo.groups[i].blockBitmap * geo.blockSize + ib / 8, WEIGHTS[ib % 8])
  }

  ghost predicate NotAfter(geo: Geometry, blk: nat, i: nat, ib: nat) { blk <= ib + i * geo.blocksPerGroup }

  /** If any bit is free, the first one is set, and its number is the answer; otherwise nothing changes. */
  ghost predicate FirstFreeBitSet(geo: Geometry, s: seq<Byte>, t: seq<Byte>, blk: nat)
    requires geo.blocksPerGroup > 0
  {
    && (t != s ==> BlockBitSet(geo, s, t, blk)) && (t == s ==> blk == 0)
    && forall i: nat, ib: nat :: FreeBit(geo, s, i, ib) ==> t != s && NotAfter(geo, blk, i, ib)
  }

  ghost predicate FirstFreeInodeTaken(geo: Geometry, s: seq<Byte>, maps: seq<seq<Byte>>, t: seq<Byte>,
                                      maps': seq<seq<Byte>>, inode: seq<Byte>, n: nat)
    requires geo.inodesPerGroup > 0
  {
    && (if n == 0 then t == s && maps' == maps else InodeTaken(geo, s, maps, t, maps', inode, n))
    && forall i: nat, ib: nat :: FreeInodeBit(geo, maps, i, ib) ==> n != 0 && InodeNotAfter(geo, n, i, ib)
  }

  ghost predicate InodeNotAfter(geo: Geometry, n: nat, i: nat, ib: nat) { n <= ib + i * geo.inodesPerGroup + 1 }

  /** The 128 bytes of an inode: row and column of its rank in the table of its group. */
  ghost predicate SlotIs(geo: Geometry, inum: int, at: int)
    requires geo.inodesPerGroup > 0 && geo.inodeSize > 0
  {
    var i, g, n := (inum - 1) / geo.inodesPerGroup, (inum - 1) % geo.inodesPerGroup, geo.blockSize / geo.inodeSize;
    n > 0 && 0 <= i < |geo.groups| && at == (geo.groups[i].inodeTable + g / n) * geo.blockSize + g % n * geo.inodeSize
  }

  ghost predicate InodeBytes(geo: Geometry, s: seq<Byte>, inum: int, buf: seq<Byte>)
    requires geo.inodesPerGroup > 0 && geo.inodeSize > 0
  {
    exists at :: SlotIs(geo, inum, at) && 0 <= at <= |s| - 128 && buf == s[at..at + 128]
  }

  ghost predicate OnlyInode(geo: Geometry, s: seq<Byte>, t: seq<Byte>, inum: int)
    requires geo.inodesPerGroup > 0 && geo.inodeSize > 0
  {
    exists at :: SlotIs(geo, inum, at) && |t| == |s| && forall k :: 0 <= k < |s| && !(at <= k < at + 128) ==> t[k] == s[k]
  }

  /** A block of a group with free blocks whose bit is clear: bit ib % 8 of byte ib / 8 of the bitmap's block. */
  ghost predicate FreeBit(geo: Geometry, s: seq<Byte>, i: nat, ib: nat) {
    && i < |geo.groups| && geo.groups[i].freeBlocks != 0 && ib < geo.blocksPerGroup
    && geo.groups[i].blockBitmap * geo.blockSize + ib / 8 < |s|
    && s[geo.groups[i].blockBitmap * geo.blockSize + ib / 8] / WEIGHTS[ib % 8] % 2 == 0
  }

  ghost predicate FreeInodeBit(geo: Geometry, maps: seq<seq<Byte>>, i: nat, ib: nat) {
    && i < |geo.groups| && i < |maps| && geo.groups[i].freeInodes != 0 && ib < geo.inodesPerGroup
    && ib / 8 < |maps[i]| && maps[i][ib / 8] / WEIGHTS[ib % 8] % 2 == 0
  }

  /** The bit of the inode is set in the copy and in the block of the inode bitmap, and the inode is written at its
      packed place in the table; if the two overlap, the bitmap is written last. */
  ghost predicate InodeTakenAt(geo: Geometry, s: seq<Byte>, maps: seq<seq<Byte>>, t: seq<Byte>, maps': seq<seq<Byte>>,
                               inode: seq<Byte>, i: int, ib: int)
  {
    && 0 <= i < |geo.groups| == |maps| == |maps'| && geo.groups[i].freeInodes != 0 && 0 <= ib / 8
    && (forall j :: 0 <= j < |maps| && j != i ==> maps'[j] == maps[j])
    && BitSet(maps[i], maps'[i], ib / 8, WEIGHTS[ib % 8])
    && var p, at := geo.groups[i].inodeBitmap * geo.blockSize + ib / 8, geo.groups[i].inodeTable * geo.blockSize + 128 * ib;
       && |t| == |s| && 0 <= p < |s| && 0 <= at && at + |inode| <= |s| && t[p] == maps'[i][ib / 8]
       && forall k :: 0 <= k < |s| && k != p ==> t[k] == if at <= k < at + |inode| then inode[k - at] else s[k]
  }

  ghost predicate InodeTaken(geo: Geometry, s: seq<Byte>, maps: seq<seq<Byte>>, t: seq<Byte>, maps': seq<seq<Byte>>,
                             inode: seq<Byte>, n: nat)
    requires geo.inodesPerGroup > 0
  {
    InodeTakenAt(geo, s, maps, t, maps', inode, (n - 1) / geo.inodesPerGroup, (n - 1) % geo.inodesPerGroup)
  }

  lemma OpenIsFree(geo: Geometry, s: seq<Byte>, i: nat, ib: nat)
    ensures Open(geo, s, i, ib) <==> FreeBit(geo, s, i, ib)
  {
    if i < |geo.groups| && geo.BlockBitmapAt(i) + ib / 8 < |s| {
      BitWeight(s[geo.BlockBitmapAt(i) + ib / 8], ib % 8);
    }
    hide HasBit, WithBit, WithoutBit;
  }

  lemma MarkIsSet(s: seq<Byte>, base: nat, ib: nat)
    requires base + ib / 8 < |s| && !Marked(s, base, ib)
    ensures BitSet(s, Mark(s, base, ib), base + ib / 8, WEIGHTS[ib % 8])
  {
    BitWeight(s[base + ib / 8], ib % 8);
    hide HasBit, WithBit, WithoutBit;
  }

  lemma NumberParts(geo: Geometry, i: nat, ib: nat)
    requires ib < geo.blocksPerGroup
    ensures Number(geo, i, ib) / geo.blocksPerGroup == i && Number(geo, i, ib) % geo.blocksPerGroup == ib
  {
    var n := geo.blocksPerGroup;
    SwapFactors(i, n);
    QuotientIs(Number(geo, i, ib), n, i, ib);
    Divided(Number(geo, i, ib), n);
  }

  lemma AllocatedMeans(geo: Geometry, s: seq<Byte>, t: seq<Byte>, blk: nat)
    requires OnDisk(geo, |s|) && Allocated(geo, s, t, blk) && geo.blocksPerGroup > 0
    ensures FirstFreeBitSet(geo, s, t, blk)
  {
    hide OnDisk, Mark, Marked, Number, FreeBit, BlockBitSet, NotAfter;
    if (forall i: nat, ib: nat :: !Open(geo, s, i, ib)) && t == s {
      forall i: nat, ib: nat ensures !FreeBit(geo, s, i, ib) {
        OpenIsFree(geo, s, i, ib);
      }
    } else {
      var i: nat, ib: nat :| First(geo, s, i, ib) && t == Mark(s, geo.BlockBitmapAt(i), ib) && blk == Number(geo, i, ib);
      AllocatedOne(geo, s, t, i, ib);
      forall j: nat, jb: nat | FreeBit(geo, s, j, jb) ensures NotAfter(geo, blk, j, jb) {
        OpenIsFree(geo, s, j, jb);
        NumbersInOrder(geo, s, i, ib, j, jb);
      }
    }
  }

  lemma AllocatedOne(geo: Geometry, s: seq<Byte>, t: seq<Byte>, i: nat, ib: nat)
    requires First(geo, s, i, ib) && t == Mark(s, geo.BlockBitmapAt(i), ib)
    ensures geo.blocksPerGroup > 0 && t != s && BlockBitSet(geo, s, t, Number(geo, i, ib))
  {
    NumberParts(geo, i, ib);
    MarkIsSet(s, geo.BlockBitmapAt(i), ib);
    hide Mark, Marked, Number;
  }

  lemma NumbersInOrder(geo: Geometry, s: seq<Byte>, i: nat, ib: nat, j: nat, jb: nat)
    requires First(geo, s, i, ib) && Open(geo, s, j, jb)
    ensures NotAfter(geo, Number(geo, i, ib), j, jb)
  {
    if i < j {
      Times(i + 1, j, geo.blocksPerGroup);
      Plus(i, geo.blocksPerGroup);
    }
    hide Marked;
  }

  lemma FreedMeans(geo: Geometry, s: seq<Byte>, t: seq<Byte>, blk: nat)
    requires Freed(geo, s, t, blk) && geo.blocksPerGroup > 0
    ensures BlockBitCleared(geo, s, t, blk)
  {
    var i: nat, ib: nat :| InGroup(geo, s, i, ib) && blk == Number(geo, i, ib) && t == Unmark(s, geo.BlockBitmapAt(i), ib);
    NumberParts(geo, i, ib);
    BitWeight(s[geo.BlockBitmapAt(i) + ib / 8], ib % 8);
    hide HasBit, WithBit, WithoutBit, Number;
  }

  /** Where an inode is, with the products written out. */
  lemma SlotMeans(geo: Geometry, s: seq<Byte>, inum: int)
    requires OnDisk(geo, |s|) && geo.HasInode(inum)
    ensures geo.inodesPerGroup > 0 && geo.inodeSize > 0 && SlotIs(geo, inum, geo.SlotAt(inum)) && geo.SlotAt(inum) + 128 <= |s|
  {
    InodeOnDisk(geo, s, inum);
    PerBlockIs(geo);
    hide geo.SlotAt, OnDisk, geo.PerBlock;
  }

  lemma PerBlockIs(geo: Geometry)
    requires geo.Valid()
    ensures geo.PerBlock() == geo.blockSize / geo.inodeSize
  {}

  lemma InodeIsThere(geo: Geometry, s: seq<Byte>, inum: int, buf: seq<Byte>)
    requires geo.Valid() && geo.HasInode(inum) && IsInode(geo, s, inum, buf) && SlotIs(geo, inum, geo.SlotAt(inum))
    ensures InodeBytes(geo, s, inum, buf)
  {
    hide geo.SlotAt, SlotIs, geo.Valid, geo.HasInode;
  }

  lemma OnlyInodeWritten(geo: Geometry, s: seq<Byte>, t: seq<Byte>, inum: int, inode: seq<Byte>)
    requires geo.Valid() && geo.HasInode(inum) && InodeWritten(geo, s, t, inum, inode) && |inode| == INODE_STRUCT
    requires geo.inodesPerGroup > 0 && geo.inodeSize > 0 && SlotIs(geo, inum, geo.SlotAt(inum))
    ensures InodeBytes(geo, t, inum, inode) && OnlyInode(geo, s, t, inum)
  {
    hide geo.SlotAt, SlotIs, geo.Valid, geo.HasInode, Overwritten;
  }

  lemma ValidGeometry(geo: Geometry, n: nat)
    requires OnDisk(geo, n)
    ensures geo.Valid() && geo.blocksPerGroup > 0 && geo.inodesPerGroup > 0
  {}

  lemma BitmapOnDisk(geo: Geometry, s: seq<Byte>, i: nat)
    requires OnDisk(geo, |s|) && i < |geo.groups|
    ensures geo.blocksPerGroup <= 8 * geo.blockSize && geo.BlockBitmapAt(i) + geo.blockSize <= |s|
  {}

  lemma SameBits(s: seq<Byte>, base: nat, bitmap: seq<Byte>)
    requires CopyOf(bitmap, s, base) && base + |bitmap| <= |s|
    ensures forall k: nat :: k < 8 * |bitmap| ==> base + k / 8 < |s| && (Marked(bitmap, 0, k) <==> Marked(s, base, k))
    ensures forall k: nat :: k < |bitmap| ==> bitmap[k] == s[base + k]
  {
    hide HasBit;
  }

  lemma MarkIsWrite(s: seq<Byte>, base: nat, ib: nat)
    requires base + ib / 8 < |s|
    ensures Overwritten(s, base + ib / 8, [WithBit(s[base + ib / 8], ib % 8)]) == Mark(s, base, ib)
  {}

  lemma UnmarkIsWrite(s: seq<Byte>, base: nat, ib: nat)
    requires base + ib / 8 < |s|
    ensures Overwritten(s, base + ib / 8, [WithoutBit(s[base + ib / 8], ib % 8)]) == Unmark(s, base, ib)
  {}

  lemma FirstByte(s: seq<Byte>, p: nat, buf: seq<Byte>)
    requires p < |s| && |buf| == 1 && CopyOf(buf, s, p)
    ensures buf[0] == s[p]
  {}

  // ---- The search of alloc_block ----

  ghost predicate NoneOpen(geo: Geometry, s: seq<Byte>, i: nat) {
    forall j: nat, jb: nat :: j < i ==> !Open(geo, s, j, jb)
  }

  lemma NoneBefore(geo: Geometry, s: seq<Byte>)
    ensures NoneOpen(geo, s, 0)
  {}

  lemma GroupIsClosed(geo: Geometry, s: seq<Byte>, i: nat)
    requires NoneOpen(geo, s, i) && i < |geo.groups| && geo.groups[i].freeBlocks == 0
    ensures NoneOpen(geo, s, i + 1)
  {}

  lemma GroupIsFull(geo: Geometry, s: seq<Byte>, i: nat, bitmap: seq<Byte>)
    requires NoneOpen(geo, s, i) && i < |geo.groups| && geo.blocksPerGroup <= 8 * |bitmap|
    requires forall k: nat :: k < 8 * |bitmap| ==>
               geo.BlockBitmapAt(i) + k / 8 < |s| && (Marked(bitmap, 0, k) <==> Marked(s, geo.BlockBitmapAt(i), k))
    requires forall k :: 0 <= k < geo.blocksPerGroup ==> Marked(bitmap, 0, k)
    ensures NoneOpen(geo, s, i + 1)
  {
    hide Marked;
  }

  lemma FirstFound(geo: Geometry, s: seq<Byte>, i: nat, ib: nat, bitmap: seq<Byte>)
    requires NoneOpen(geo, s, i) && i < |geo.groups| && geo.groups[i].freeBlocks != 0
    requires ib < geo.blocksPerGroup <= 8 * |bitmap|
    requires forall k: nat :: k < 8 * |bitmap| ==>
               geo.BlockBitmapAt(i) + k / 8 < |s| && (Marked(bitmap, 0, k) <==> Marked(s, geo.BlockBitmapAt(i), k))
    requires !Marked(bitmap, 0, ib) && forall k :: 0 <= k < ib ==> Marked(bitmap, 0, k)
    ensures First(geo, s, i, ib)
  {
    hide Marked;
  }

  lemma AllocatedThere(geo: Geometry, s: seq<Byte>, t: seq<Byte>, i: nat, ib: nat)
    requires First(geo, s, i, ib) && t == Mark(s, geo.BlockBitmapAt(i), ib)
    ensures Allocated(geo, s, t, ib + i * geo.blocksPerGroup)
  {
    assert Number(geo, i, ib) == ib + i * geo.blocksPerGroup;
    hide Mark, Open;
  }

  lemma AllClosed(geo: Geometry, s: seq<Byte>)
    requires NoneOpen(geo, s, |geo.groups|)
    ensures Allocated(geo, s, s, 0)
  {
    forall i: nat, ib: nat ensures !Open(geo, s, i, ib) {}
  }

  // ---- Freeing ----

  /** free_block clears one bit, that of the block. */
  ghost predicate Freed(geo: Geometry, s: seq<Byte>, t: seq<Byte>, blk: nat) {
    exists i: nat, ib: nat :: InGroup(geo, s, i, ib) && blk == Number(geo, i, ib)
                              && t == Unmark(s, geo.BlockBitmapAt(i), ib)
  }

  ghost predicate InGroup(geo: Geometry, s: seq<Byte>, i: nat, ib: nat) {
    i < |geo.groups| && ib < geo.blocksPerGroup && geo.BlockBitmapAt(i) + ib / 8 < |s|
  }

  lemma Divides(geo: Geometry, s: seq<Byte>, blk: nat)
    requires OnDisk(geo, |s|) && geo.blocksPerGroup > 0 && blk / geo.blocksPerGroup < |geo.groups|
    ensures geo.blocksPerGroup * (blk / geo.blocksPerGroup) <= blk
    ensures InGroup(geo, s, blk / geo.blocksPerGroup, blk - geo.blocksPerGroup * (blk / geo.blocksPerGroup))
  {
    Divided(blk, geo.blocksPerGroup);
  }

  lemma FreedThere(geo: Geometry, s: seq<Byte>, t: seq<Byte>, i: nat, ib: nat)
    requires InGroup(geo, s, i, ib) && t == Unmark(s, geo.BlockBitmapAt(i), ib)
    ensures Freed(geo, s, t, ib + i * geo.blocksPerGroup)
  {
    assert Number(geo, i, ib) == ib + i * geo.blocksPerGroup;
  }

  lemma OnePlace(geo: Geometry, i: nat, ib: nat, j: nat, jb: nat)
    requires ib < geo.blocksPerGroup && jb < geo.blocksPerGroup && Number(geo, i, ib) == Number(geo, j, jb)
    ensures i == j && ib == jb
  {
    if i < j {
      Times(i + 1, j, geo.blocksPerGroup);
      Plus(i, geo.blocksPerGroup);
    } else if j < i {
      Times(j + 1, i, geo.blocksPerGroup);
      Plus(j, geo.blocksPerGroup);
    }
  }

  /** A block allocated and then freed leaves the disk as it was, all bitmaps included. */
  lemma AllocThenFree(geo: Geometry, s: seq<Byte>, t: seq<Byte>, u: seq<Byte>, blk: nat)
    requires Allocated(geo, s, t, blk) && t != s && Freed(geo, t, u, blk)
    ensures u == s
  {
    hide Marked, Mark, Unmark, Number, First, Allocated;
    var i, ib := AllocatedAt(geo, s, t, blk);
    var j: nat, jb: nat :| InGroup(geo, t, j, jb) && blk == Number(geo, j, jb) && u == Unmark(t, geo.BlockBitmapAt(j), jb);
    OnePlace(geo, i, ib, j, jb);
    UnmarkAfterMark(s, geo.BlockBitmapAt(i), ib);
  }

  /** Allocation sets one bit of the bitmaps of all the groups, which was clear: no block is handed out twice. */
  lemma AllocSetsOne(geo: Geometry, s: seq<Byte>, t: seq<Byte>, blk: nat, j: nat, jb: nat)
    requires OnDisk(geo, |s|) && Allocated(geo, s, t, blk) && t != s && InGroup(geo, s, j, jb)
    requires forall k, l :: 0 <= k < l < |geo.groups| ==> geo.groups[k].blockBitmap != geo.groups[l].blockBitmap
    ensures |t| == |s| && (Marked(t, geo.BlockBitmapAt(j), jb) <==>
                             blk == Number(geo, j, jb) || Marked(s, geo.BlockBitmapAt(j), jb))
    ensures blk == Number(geo, j, jb) ==> !Marked(s, geo.BlockBitmapAt(j), jb)
  {
    hide Marked, Mark, Number, Allocated, OnDisk, First;
    var i, ib := AllocatedAt(geo, s, t, blk);
    MarkLength(s, geo.BlockBitmapAt(i), ib);
    if blk == Number(geo, j, jb) {
      OnePlace(geo, i, ib, j, jb);
    }
    if i == j {
      MarkSetsOne(s, geo.BlockBitmapAt(i), ib, jb);
    } else {
      ByteInBlock(geo, |s|, ib);
      ByteInBlock(geo, |s|, jb);
      BlocksApart(geo.groups[i].blockBitmap, geo.groups[j].blockBitmap, geo.blockSize, ib / 8, jb / 8);
      OtherByte(s, geo.BlockBitmapAt(i), ib, geo.BlockBitmapAt(j), jb);
    }
  }

  lemma AllocatedAt(geo: Geometry, s: seq<Byte>, t: seq<Byte>, blk: nat) returns (i: nat, ib: nat)
    requires Allocated(geo, s, t, blk) && t != s
    ensures First(geo, s, i, ib) && InGroup(geo, s, i, ib) && !Marked(s, geo.BlockBitmapAt(i), ib)
    ensures t == Mark(s, geo.BlockBitmapAt(i), ib) && blk == Number(geo, i, ib)
  {
    hide Marked, Mark, Number;
    i, ib :| First(geo, s, i, ib) && t == Mark(s, geo.BlockBitmapAt(i), ib) && blk == Number(geo, i, ib);
  }

  lemma ByteInBlock(geo: Geometry, n: nat, ib: nat)
    requires OnDisk(geo, n) && ib < geo.blocksPerGroup
    ensures ib / 8 < geo.blockSize
  {}

  lemma MarkLength(s: seq<Byte>, base: nat, ib: nat)
    requires base + ib / 8 < |s|
    ensures |Mark(s, base, ib)| == |s|
  {}

  lemma OtherByte(s: seq<Byte>, base: nat, ib: nat, other: nat, jb: nat)
    requires base + ib / 8 < |s| && other + jb / 8 < |s| && base + ib / 8 != other + jb / 8
    ensures Marked(Mark(s, base, ib), other, jb) <==> Marked(s, other, jb)
  {
    hide HasBit;
  }

  lemma BlocksApart(a: nat, b: nat, size: nat, x: nat, y: nat)
    requires a != b && x < size && y < size
    ensures a * size + x != b * size + y
  {
    if a < b {
      Times(a + 1, b, size);
      Plus(a, size);
    } else {
      Times(b + 1, a, size);
      Plus(b, size);
    }
  }

  // ---- Inodes ----

  ghost predicate IsInode(geo: Geometry, s: seq<Byte>, inum: int, inode: seq<Byte>)
    requires geo.Valid() && geo.HasInode(inum)
  {
    geo.SlotAt(inum) + INODE_STRUCT <= |s| && s[geo.SlotAt(inum)..geo.SlotAt(inum) + INODE_STRUCT] == inode
  }

  ghost predicate InodeWritten(geo: Geometry, s: seq<Byte>, t: seq<Byte>, inum: int, inode: seq<Byte>)
    requires geo.Valid() && geo.HasInode(inum)
  {
    geo.SlotAt(inum) + |inode| <= |s| && t == Overwritten(s, geo.SlotAt(inum), inode)
  }

  lemma InodeOnDisk(geo: Geometry, s: seq<Byte>, inum: int)
    requires OnDisk(geo, |s|) && geo.HasInode(inum)
    ensures geo.Valid() && geo.inodesPerGroup > 0 && inum > 0 && geo.blockSize > 0
    ensures 0 <= (inum - 1) / geo.inodesPerGroup < |geo.groups| && INODE_STRUCT <= geo.inodeSize <= geo.blockSize
    ensures var g, n := (inum - 1) % geo.inodesPerGroup, geo.PerBlock();
            && 0 <= g && 0 <= g / n && 0 <= g % n && 0 <= g % n * geo.inodeSize <= geo.blockSize - geo.inodeSize
    ensures var g, n := (inum - 1) % geo.inodesPerGroup, geo.PerBlock();
            var at := (geo.groups[(inum - 1) / geo.inodesPerGroup].inodeTable + g / n) * geo.blockSize;
            0 <= at <= |s| - geo.blockSize && geo.SlotAt(inum) == at + g % n * geo.inodeSize
    ensures geo.SlotAt(inum) + INODE_STRUCT <= |s|
  {
    hide geo.PerBlock, geo.TableSize, geo.SlotAt, geo.Place, geo.TableAt, OnDisk;
    ValidGeometry(geo, |s|);
    var i, g, n := (inum - 1) / geo.inodesPerGroup, (inum - 1) % geo.inodesPerGroup, geo.PerBlock();
    Divided(inum - 1, geo.inodesPerGroup);
    Divided(g, n);
    RowInTable(geo, g);
    InRow(geo, g);
    TableOnDisk(geo, |s|, i);
    SlotParts(geo, inum);
    Times(0, g / n, geo.blockSize);
  }

  lemma TableOnDisk(geo: Geometry, n: nat, i: nat)
    requires OnDisk(geo, n) && i < |geo.groups|
    ensures geo.TableAt(i) + geo.TableSize() <= n
  {}

  lemma SlotParts(geo: Geometry, inum: int)
    requires geo.Valid() && geo.HasInode(inum)
    ensures var i, g, n := (inum - 1) / geo.inodesPerGroup, (inum - 1) % geo.inodesPerGroup, geo.PerBlock();
            && i >= 0 && g >= 0
            && (geo.groups[i].inodeTable + g / n) * geo.blockSize == geo.TableAt(i) + g / n * geo.blockSize
            && geo.SlotAt(inum) == geo.TableAt(i) + g / n * geo.blockSize + g % n * geo.inodeSize
  {
    var i, g, n := (inum - 1) / geo.inodesPerGroup, (inum - 1) % geo.inodesPerGroup, geo.PerBlock();
    Divided(inum - 1, geo.inodesPerGroup);
    Distributes(geo.groups[i].inodeTable, g / n, geo.blockSize);
    hide geo.PerBlock;
  }

  lemma InRow(geo: Geometry, g: nat)
    requires geo.Valid()
    ensures 0 <= g % geo.PerBlock() * geo.inodeSize <= geo.blockSize - geo.inodeSize
  {
    var n := geo.PerBlock();
    Divided(g, n);
    Plus(g % n, geo.inodeSize);
    Times(g % n + 1, n, geo.inodeSize);
    Times(0, g % n, geo.inodeSize);
  }

  lemma SliceOfCopy(s: seq<Byte>, base: nat, block: seq<Byte>, p: nat, buf: seq<Byte>)
    requires CopyOf(block, s, base) && base + |block| <= |s| && p + |buf| <= |block| && buf == block[p..p + |buf|]
    ensures s[base + p..base + p + |buf|] == buf
  {
    var a := s[base + p..base + p + |buf|];
    forall i | 0 <= i < |buf| ensures a[i] == buf[i] {
      assert block[p + i] == s[base + (p + i)];
    }
  }

  lemma IsInodeThere(geo: Geometry, s: seq<Byte>, inum: int, inode: seq<Byte>)
    requires geo.Valid() && geo.HasInode(inum) && geo.SlotAt(inum) + INODE_STRUCT <= |s|
    requires s[geo.SlotAt(inum)..geo.SlotAt(inum) + INODE_STRUCT] == inode
    ensures IsInode(geo, s, inum, inode)
  {}

  lemma WrittenThere(geo: Geometry, s: seq<Byte>, inum: int, inode: seq<Byte>)
    requires geo.Valid() && geo.HasInode(inum) && geo.SlotAt(inum) + |inode| <= |s|
    ensures InodeWritten(geo, s, Overwritten(s, geo.SlotAt(inum), inode), inum, inode)
  {}

  /** An inode written is the one read back, and no other inode changes. */
  lemma WriteThenRead(geo: Geometry, s: seq<Byte>, t: seq<Byte>, inum: int, inode: seq<Byte>, other: int, o: seq<Byte>)
    requires OnDisk(geo, |s|) && geo.TablesApart() && geo.HasInode(inum) && geo.HasInode(other)
    requires |inode| == INODE_STRUCT && InodeWritten(geo, s, t, inum, inode)
    ensures IsInode(geo, t, inum, inode)
    ensures other != inum ==> (IsInode(geo, t, other, o) <==> IsInode(geo, s, other, o))
  {
    InodeOnDisk(geo, s, inum);
    InodeOnDisk(geo, s, other);
    if other < inum {
      SlotsApart(geo, other, inum);
    } else if inum < other {
      SlotsApart(geo, inum, other);
    }
    if other != inum {
      Elsewhere(s, geo.SlotAt(inum), inode, geo.SlotAt(other), INODE_STRUCT);
    }
  }

  lemma Elsewhere(s: seq<Byte>, p: nat, data: seq<Byte>, q: nat, n: nat)
    requires p + |data| <= |s| && q + n <= |s| && (p + |data| <= q || q + n <= p)
    ensures Overwritten(s, p, data)[q..q + n] == s[q..q + n]
  {
    var t := Overwritten(s, p, data);
    var a, b := t[q..q + n], s[q..q + n];
    forall i | 0 <= i < n ensures a[i] == b[i] {
      assert a[i] == t[q + i] && b[i] == s[q + i];
    }
  }

  // ---- The search of alloc_inode ----

  /** The copies of the inode bitmaps hold one bit for each inode of a group. */
  ghost predicate MapsFit(geo: Geometry, maps: seq<seq<Byte>>) {
    |maps| == |geo.groups| && forall i :: 0 <= i < |maps| ==> 8 * |maps[i]| == geo.inodesPerGroup
  }

  function InodeNumber(geo: Geometry, i: nat, ib: nat): int { i * geo.inodesPerGroup + ib + 1 }

  /** alloc_inode takes the first clear bit of the copies, on the disk too, and writes the inode where 128-byte inodes
      without gaps would be. */
  ghost predicate InodeAllocated(geo: Geometry, s: seq<Byte>, maps: seq<seq<Byte>>, t: seq<Byte>, maps': seq<seq<Byte>>,
                                 inode: seq<Byte>, n: nat)
  {
    || ((forall i: nat, ib: nat :: !OpenInode(geo, maps, i, ib)) && t == s && maps' == maps && n == 0)
    || exists i: nat, ib: nat :: FirstInode(geo, maps, i, ib) && n == InodeNumber(geo, i, ib)
                                 && TakenInode(geo, s, maps, t, maps', inode, i, ib)
  }

  ghost predicate TakenInode(geo: Geometry, s: seq<Byte>, maps: seq<seq<Byte>>, t: seq<Byte>, maps': seq<seq<Byte>>,
                             inode: seq<Byte>, i: nat, ib: nat)
  {
    && i < |geo.groups| && i < |maps| && ib / 8 < |maps[i]|
    && geo.TableAt(i) + INODE_STRUCT * ib + |inode| <= |s| && geo.InodeBitmapAt(i) + ib / 8 < |s|
    && maps' == maps[i := Mark(maps[i], 0, ib)]
    && t == Overwritten(Overwritten(s, geo.TableAt(i) + INODE_STRUCT * ib, inode), geo.InodeBitmapAt(i) + ib / 8,
                        [Mark(maps[i], 0, ib)[ib / 8]])
  }

  ghost predicate NoInodeOpen(geo: Geometry, maps: seq<seq<Byte>>, i: nat) {
    forall j: nat, jb: nat :: j < i ==> !OpenInode(geo, maps, j, jb)
  }

  lemma NoInodeBefore(geo: Geometry, maps: seq<seq<Byte>>)
    ensures NoInodeOpen(geo, maps, 0)
  {}

  lemma MapsFitFacts(geo: Geometry, maps: seq<seq<Byte>>)
    requires MapsFit(geo, maps)
    ensures |maps| == |geo.groups|
  {}

  lemma InodeMapOnDisk(geo: Geometry, s: seq<Byte>, maps: seq<seq<Byte>>, i: nat)
    requires OnDisk(geo, |s|) && MapsFit(geo, maps) && i < |geo.groups|
    ensures geo.Valid() && geo.inodesPerGroup == 8 * |maps[i]| && |maps[i]| <= geo.blockSize
    ensures geo.InodeBitmapAt(i) + geo.blockSize <= |s| && geo.TableAt(i) + geo.TableSize() <= |s|
  {}

  lemma InodeGroupIsClosed(geo: Geometry, maps: seq<seq<Byte>>, i: nat)
    requires NoInodeOpen(geo, maps, i) && i < |geo.groups| && geo.groups[i].freeInodes == 0
    ensures NoInodeOpen(geo, maps, i + 1)
  {}

  lemma InodeGroupIsFull(geo: Geometry, maps: seq<seq<Byte>>, i: nat)
    requires NoInodeOpen(geo, maps, i) && i < |geo.groups| && i < |maps| && geo.inodesPerGroup == 8 * |maps[i]|
    requires forall k :: 0 <= k < geo.inodesPerGroup ==> Marked(maps[i], 0, k)
    ensures NoInodeOpen(geo, maps, i + 1)
  {
    hide Marked;
  }

  lemma FirstInodeFound(geo: Geometry, maps: seq<seq<Byte>>, i: nat, ib: nat)
    requires NoInodeOpen(geo, maps, i) && i < |geo.groups| && i < |maps| && geo.groups[i].freeInodes != 0
    requires ib < geo.inodesPerGroup == 8 * |maps[i]|
    requires !Marked(maps[i], 0, ib) && forall k :: 0 <= k < ib ==> Marked(maps[i], 0, k)
    ensures FirstInode(geo, maps, i, ib)
  {
    hide Marked;
  }

  lemma InodeAllocatedThere(geo: Geometry, s: seq<Byte>, maps: seq<seq<Byte>>, t: seq<Byte>, maps': seq<seq<Byte>>,
                            inode: seq<Byte>, i: nat, ib: nat)
    requires FirstInode(geo, maps, i, ib) && i < |geo.groups| && i < |maps| && ib / 8 < |maps[i]|
    requires geo.TableAt(i) + INODE_STRUCT * ib + |inode| <= |s| && geo.InodeBitmapAt(i) + ib / 8 < |s|
    requires maps' == maps[i := Mark(maps[i], 0, ib)]
    requires var byte := WithBit(maps[i][ib / 8], ib % 8);
             t == Overwritten(Overwritten(s, geo.TableAt(i) + INODE_STRUCT * ib, inode), geo.InodeBitmapAt(i) + ib / 8, [byte])
    ensures InodeAllocated(geo, s, maps, t, maps', inode, i * geo.inodesPerGroup + ib + 1)
  {
    hide FirstInode, Overwritten, WithBit;
    assert TakenInode(geo, s, maps, t, maps', inode, i, ib);
    assert InodeNumber(geo, i, ib) == i * geo.inodesPerGroup + ib + 1;
    hide TakenInode;
  }

  lemma OpenInodeIsFree(geo: Geometry, maps: seq<seq<Byte>>, i: nat, ib: nat)
    ensures OpenInode(geo, maps, i, ib) <==> FreeInodeBit(geo, maps, i, ib)
  {
    if i < |maps| && ib / 8 < |maps[i]| {
      BitWeight(maps[i][ib / 8], ib % 8);
    }
    hide HasBit, WithBit, WithoutBit;
  }

  lemma InodeAllocatedMeans(geo: Geometry, s: seq<Byte>, maps: seq<seq<Byte>>, t: seq<Byte>, maps': seq<seq<Byte>>,
                            inode: seq<Byte>, n: nat)
    requires OnDisk(geo, |s|) && MapsFit(geo, maps) && |inode| == INODE_STRUCT && geo.inodesPerGroup > 0
    requires InodeAllocated(geo, s, maps, t, maps', inode, n)
    ensures FirstFreeInodeTaken(geo, s, maps, t, maps', inode, n)
  {
    hide OnDisk, MapsFit, TakenInode, OpenInode, FreeInodeBit, InodeTakenAt, InodeNumber, InodeNotAfter;
    if n == 0 {
      NothingTaken(geo, s, maps, t, maps', inode);
      NoneWasOpen(geo, s, maps, t, maps', inode);
    } else {
      var i, ib := InodeAllocatedAt(geo, s, maps, t, maps', inode, n);
      InodeNumberParts(geo, i, ib);
      TakenIsTaken(geo, s, maps, t, maps', inode, i, ib);
      forall j: nat, jb: nat | FreeInodeBit(geo, maps, j, jb) ensures InodeNotAfter(geo, n, j, jb) {
        OpenInodeIsFree(geo, maps, j, jb);
        InodesInOrder(geo, maps, i, ib, j, jb);
      }
    }
  }

  lemma NoneWasOpen(geo: Geometry, s: seq<Byte>, maps: seq<seq<Byte>>, t: seq<Byte>, maps': seq<seq<Byte>>,
                    inode: seq<Byte>)
    requires InodeAllocated(geo, s, maps, t, maps', inode, 0)
    ensures forall i: nat, ib: nat :: !FreeInodeBit(geo, maps, i, ib)
  {
    hide TakenInode, FirstInode, OpenInode, FreeInodeBit;
    forall i: nat, ib: nat ensures InodeNumber(geo, i, ib) > 0 {
      Times(0, i, geo.inodesPerGroup);
    }
    forall i: nat, ib: nat ensures !FreeInodeBit(geo, maps, i, ib) {
      OpenInodeIsFree(geo, maps, i, ib);
    }
  }

  lemma InodeNumberParts(geo: Geometry, i: nat, ib: nat)
    requires ib < geo.inodesPerGroup
    ensures var n := InodeNumber(geo, i, ib) - 1; n >= 0 && n / geo.inodesPerGroup == i && n % geo.inodesPerGroup == ib
  {
    var m := geo.inodesPerGroup;
    Times(0, i, m);
    SwapFactors(i, m);
    QuotientIs(i * m + ib, m, i, ib);
    Divided(i * m + ib, m);
  }

  lemma InodesInOrder(geo: Geometry, maps: seq<seq<Byte>>, i: nat, ib: nat, j: nat, jb: nat)
    requires FirstInode(geo, maps, i, ib) && OpenInode(geo, maps, j, jb)
    ensures InodeNumber(geo, i, ib) >= 0 && InodeNotAfter(geo, InodeNumber(geo, i, ib), j, jb)
  {
    Times(0, i, geo.inodesPerGroup);
    if i < j {
      Times(i + 1, j, geo.inodesPerGroup);
      Plus(i, geo.inodesPerGroup);
    }
    hide Marked;
  }

  lemma TakenIsTaken(geo: Geometry, s: seq<Byte>, maps: seq<seq<Byte>>, t: seq<Byte>, maps': seq<seq<Byte>>,
                     inode: seq<Byte>, i: nat, ib: nat)
    requires FirstInode(geo, maps, i, ib) && TakenInode(geo, s, maps, t, maps', inode, i, ib) && MapsFit(geo, maps)
    ensures InodeTakenAt(geo, s, maps, t, maps', inode, i, ib)
  {
    MarkIsSet(maps[i], 0, ib);
    hide Mark, Marked, HasBit;
    var p, at := geo.InodeBitmapAt(i) + ib / 8, geo.TableAt(i) + INODE_STRUCT * ib;
    var u := Overwritten(s, at, inode);
    forall k | 0 <= k < |s| && k != p ensures t[k] == if at <= k < at + |inode| then inode[k - at] else s[k] {
      if at <= k < at + |inode| { assert u[at..at + |inode|][k - at] == u[k]; }
    }
    assert t[p..p + 1][0] == t[p];
  }

  lemma MarkIsUpdate(bits: seq<Byte>, ib: nat)
    requires ib / 8 < |bits|
    ensures Mark(bits, 0, ib) == bits[ib / 8 := WithBit(bits[ib / 8], ib % 8)]
  {}

  lemma NoInodeAtAll(geo: Geometry, s: seq<Byte>, maps: seq<seq<Byte>>, inode: seq<Byte>)
    requires NoInodeOpen(geo, maps, |geo.groups|)
    ensures InodeAllocated(geo, s, maps, s, maps, inode, 0)
  {
    forall i: nat, ib: nat ensures !OpenInode(geo, maps, i, ib) {}
  }

  /** The inode bitmaps and the tables do not overlap, nor do two inode bitmaps. */
  ghost predicate MapsApart(geo: Geometry)
    requires geo.Valid()
  {
    && (forall i, j :: 0 <= i < |geo.groups| && 0 <= j < |geo.groups| ==>
          geo.InodeBitmapAt(i) + geo.blockSize <= geo.TableAt(j) || geo.TableAt(j) + geo.TableSize() <= geo.InodeBitmapAt(i))
    && (forall i, j :: 0 <= i < j < |geo.groups| ==> geo.groups[i].inodeBitmap != geo.groups[j].inodeBitmap)
  }

  /** The copies of the inode bitmaps are what is on the disk. */
  ghost predicate Synced(geo: Geometry, s: seq<Byte>, maps: seq<seq<Byte>>) {
    && |maps| == |geo.groups|
    && forall i :: 0 <= i < |maps| ==>
         geo.InodeBitmapAt(i) + |maps[i]| <= |s| && s[geo.InodeBitmapAt(i)..geo.InodeBitmapAt(i) + |maps[i]|] == maps[i]
  }

  lemma InodeAllocatedAt(geo: Geometry, s: seq<Byte>, maps: seq<seq<Byte>>, t: seq<Byte>, maps': seq<seq<Byte>>,
                         inode: seq<Byte>, n: nat) returns (i: nat, ib: nat)
    requires InodeAllocated(geo, s, maps, t, maps', inode, n) && n != 0
    ensures FirstInode(geo, maps, i, ib) && n == InodeNumber(geo, i, ib)
    ensures TakenInode(geo, s, maps, t, maps', inode, i, ib) && ib < geo.inodesPerGroup && i < |geo.groups|
  {
    hide TakenInode, InodeNumber;
    i, ib :| FirstInode(geo, maps, i, ib) && n == InodeNumber(geo, i, ib)
             && TakenInode(geo, s, maps, t, maps', inode, i, ib);
  }

  lemma NumberToSlot(geo: Geometry, i: nat, ib: nat)
    requires geo.Valid() && i < |geo.groups| && ib < geo.inodesPerGroup
    ensures geo.HasInode(InodeNumber(geo, i, ib))
    ensures geo.SlotAt(InodeNumber(geo, i, ib)) == geo.TableAt(i) + geo.Place(ib)
  {
    var n := InodeNumber(geo, i, ib);
    var m := geo.inodesPerGroup;
    Times(0, i, m);
    Divided(n - 1, m);
    SwapFactors(i, m);
    if (n - 1) / m < i {
      Times((n - 1) / m + 1, i, m);
      Plus((n - 1) / m, m);
      SwapFactors((n - 1) / m, m);
    } else if (n - 1) / m > i {
      Times(i + 1, (n - 1) / m, m);
      Plus(i, m);
      SwapFactors((n - 1) / m, m);
    }
    hide geo.Place, geo.TableAt, InodeNumber;
  }

  /** An inode allocated is read back under its number when inodes are 128 bytes, or when it is the first of its
      group. No other answer is possible for its place: see AllocatedSlot. */
  lemma AllocatedInodeIsRead(geo: Geometry, s: seq<Byte>, maps: seq<seq<Byte>>, t: seq<Byte>, maps': seq<seq<Byte>>,
                             inode: seq<Byte>, n: nat)
    requires OnDisk(geo, |s|) && MapsFit(geo, maps) && MapsApart(geo) && |inode| == INODE_STRUCT && n != 0
    requires InodeAllocated(geo, s, maps, t, maps', inode, n)
    requires geo.inodeSize == INODE_STRUCT || (n - 1) % geo.inodesPerGroup == 0
    ensures geo.HasInode(n) && IsInode(geo, t, n, inode)
  {
    hide InodeAllocated, FirstInode, OnDisk, MapsFit, MapsApart, InodeNumber, Overwritten, HasBit, SetBit;
    hide geo.SlotAt, geo.Place, geo.TableAt, geo.TableSize, geo.InodeBitmapAt, geo.PerBlock, geo.HasInode;
    var i, ib := InodeAllocatedAt(geo, s, maps, t, maps', inode, n);
    ValidGeometry(geo, |s|);
    NumberToSlot(geo, i, ib);
    RankOf(geo, i, ib);
    AllocatedSlot(geo, ib);
    PackedInTable(geo, ib);
    InodeMapOnDisk(geo, s, maps, i);
    BitmapOutside(geo, i, ib, INODE_STRUCT * ib);
    var slot := geo.TableAt(i) + INODE_STRUCT * ib;
    var u := Overwritten(s, slot, inode);
    Elsewhere(u, geo.InodeBitmapAt(i) + ib / 8, [Mark(maps[i], 0, ib)[ib / 8]], slot, INODE_STRUCT);
  }

  lemma RankOf(geo: Geometry, i: nat, ib: nat)
    requires geo.Valid() && ib < geo.inodesPerGroup
    ensures (InodeNumber(geo, i, ib) - 1) % geo.inodesPerGroup == ib
  {
    var n, m := InodeNumber(geo, i, ib) - 1, geo.inodesPerGroup;
    Times(0, i, m);
    Divided(n, m);
    SwapFactors(i, m);
    if n / m < i {
      Times(n / m + 1, i, m);
      Plus(n / m, m);
      SwapFactors(n / m, m);
    } else if n / m > i {
      Times(i + 1, n / m, m);
      Plus(i, m);
      SwapFactors(n / m, m);
    }
  }

  lemma BitmapOutside(geo: Geometry, i: nat, ib: nat, p: nat)
    requires geo.Valid() && MapsApart(geo) && i < |geo.groups| && ib < geo.inodesPerGroup
    requires p + INODE_STRUCT <= geo.TableSize()
    ensures var at, slot := geo.InodeBitmapAt(i) + ib / 8, geo.TableAt(i) + p;
            at + 1 <= slot || slot + INODE_STRUCT <= at
  {
    hide geo.TableSize, geo.TableAt, geo.InodeBitmapAt;
  }

  /** The copies of the inode bitmaps stay what is on the disk. */
  lemma AllocKeepsSync(geo: Geometry, s: seq<Byte>, maps: seq<seq<Byte>>, t: seq<Byte>, maps': seq<seq<Byte>>,
                       inode: seq<Byte>, n: nat)
    requires OnDisk(geo, |s|) && MapsFit(geo, maps) && MapsApart(geo) && |inode| == INODE_STRUCT && Synced(geo, s, maps)
    requires InodeAllocated(geo, s, maps, t, maps', inode, n)
    ensures Synced(geo, t, maps') && MapsFit(geo, maps')
  {
    hide InodeAllocated, FirstInode, OnDisk, InodeNumber, Overwritten, HasBit, SetBit, MapsApart;
    hide geo.SlotAt, geo.Place, geo.TableAt, geo.TableSize, geo.InodeBitmapAt, geo.PerBlock, geo.HasInode;
    if n == 0 {
      NothingTaken(geo, s, maps, t, maps', inode);
    } else {
      var i, ib := InodeAllocatedAt(geo, s, maps, t, maps', inode, n);
      ValidGeometry(geo, |s|);
      forall j | 0 <= j < |maps|
        ensures geo.InodeBitmapAt(j) + |maps'[j]| <= |t|
        ensures t[geo.InodeBitmapAt(j)..geo.InodeBitmapAt(j) + |maps'[j]|] == maps'[j]
      {
        AllocKeepsMap(geo, s, maps, t, maps', inode, i, ib, j);
      }
    }
  }

  lemma AllocKeepsMap(geo: Geometry, s: seq<Byte>, maps: seq<seq<Byte>>, t: seq<Byte>, maps': seq<seq<Byte>>,
                      inode: seq<Byte>, i: nat, ib: nat, j: nat)
    requires OnDisk(geo, |s|) && MapsFit(geo, maps) && geo.Valid() && MapsApart(geo) && |inode| == INODE_STRUCT
    requires ib < geo.inodesPerGroup && i < |geo.groups| && j < |geo.groups| == |maps|
    requires geo.InodeBitmapAt(j) + |maps[j]| <= |s| && s[geo.InodeBitmapAt(j)..geo.InodeBitmapAt(j) + |maps[j]|] == maps[j]
    requires TakenInode(geo, s, maps, t, maps', inode, i, ib)
    ensures |maps'| == |maps| && |maps'[j]| == |maps[j]| && geo.InodeBitmapAt(j) + |maps'[j]| <= |t|
    ensures t[geo.InodeBitmapAt(j)..geo.InodeBitmapAt(j) + |maps'[j]|] == maps'[j]
  {
    hide OnDisk, MapsFit, MapsApart, Overwritten, HasBit, SetBit;
    hide geo.Place, geo.TableAt, geo.TableSize, geo.InodeBitmapAt, geo.PerBlock;
    InodeMapOnDisk(geo, s, maps, i);
    InodeMapOnDisk(geo, s, maps, j);
    PackedInTable(geo, ib);
    MapOutsideTable(geo, i, j, INODE_STRUCT * ib);
    var at, slot := geo.InodeBitmapAt(j), geo.TableAt(i) + INODE_STRUCT * ib;
    var u := Overwritten(s, slot, inode);
    Elsewhere(s, slot, inode, at, |maps[j]|);
    if j == i {
      MarkedInPlace(u, at, maps[i], ib);
    } else {
      MapsDisjoint(geo, i, j);
      Elsewhere(u, geo.InodeBitmapAt(i) + ib / 8, [Mark(maps[i], 0, ib)[ib / 8]], at, |maps[j]|);
    }
  }

  lemma MapOutsideTable(geo: Geometry, i: nat, j: nat, p: nat)
    requires geo.Valid() && MapsApart(geo) && i < |geo.groups| && j < |geo.groups| && p + INODE_STRUCT <= geo.TableSize()
    ensures geo.InodeBitmapAt(j) + geo.blockSize <= geo.TableAt(i) + p
            || geo.TableAt(i) + p + INODE_STRUCT <= geo.InodeBitmapAt(j)
  {
    hide geo.TableSize, geo.TableAt, geo.InodeBitmapAt;
  }

  lemma NothingTaken(geo: Geometry, s: seq<Byte>, maps: seq<seq<Byte>>, t: seq<Byte>, maps': seq<seq<Byte>>,
                     inode: seq<Byte>)
    requires InodeAllocated(geo, s, maps, t, maps', inode, 0)
    ensures t == s && maps' == maps
  {
    hide TakenInode, FirstInode;
    forall i: nat, ib: nat ensures InodeNumber(geo, i, ib) > 0 {
      Times(0, i, geo.inodesPerGroup);
    }
  }

  lemma MarkedInPlace(u: seq<Byte>, at: nat, bits: seq<Byte>, ib: nat)
    requires at + |bits| <= |u| && u[at..at + |bits|] == bits && ib / 8 < |bits|
    ensures Overwritten(u, at + ib / 8, [Mark(bits, 0, ib)[ib / 8]])[at..at + |bits|] == Mark(bits, 0, ib)
  {
    var t := Overwritten(u, at + ib / 8, [Mark(bits, 0, ib)[ib / 8]]);
    forall k | 0 <= k < |bits| ensures t[at..at + |bits|][k] == Mark(bits, 0, ib)[k] {
      assert u[at..at + |bits|][k] == u[at + k];
      assert t[at + ib / 8..at + ib / 8 + 1][0] == t[at + ib / 8];
    }
  }

  lemma MapsDisjoint(geo: Geometry, i: nat, j: nat)
    requires geo.Valid() && MapsApart(geo) && i < |geo.groups| && j < |geo.groups| && i != j
    ensures geo.InodeBitmapAt(i) + geo.blockSize <= geo.InodeBitmapAt(j)
            || geo.InodeBitmapAt(j) + geo.blockSize <= geo.InodeBitmapAt(i)
  {
    var a, b := geo.groups[i].inodeBitmap, geo.groups[j].inodeBitmap;
    assert a != b;
    if a < b {
      Times(a + 1, b, geo.blockSize);
      Plus(a, geo.blockSize);
    } else {
      Times(b + 1, a, geo.blockSize);
      Plus(b, geo.blockSize);
    }
  }
}
