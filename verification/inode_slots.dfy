/** Where the inodes and the bitmaps of an ext2 file system are on the disk (fs/ext2/ext2_internal.c). */
module InodeSlots {
  import opened Products

  /** sizeof(struct ext2_inode). */
  const INODE_STRUCT: nat := 128

  /** A group descriptor: block numbers, and the two counts, which are only tested for 0. */
  datatype Group = Group(blockBitmap: nat, inodeBitmap: nat, inodeTable: nat, freeBlocks: nat, freeInodes: nat)

  /** The file system as its superblock describes it. */
  datatype Geometry = Geometry(blockSize: nat, blocksPerGroup: nat, inodesPerGroup: nat, inodeSize: nat,
                               groups: seq<Group>)
  {
    /** What the format promises. */
    ghost predicate Valid() {
      && INODE_STRUCT <= inodeSize <= blockSize && blockSize % INODE_STRUCT == 0
      && 0 < blocksPerGroup <= 8 * blockSize && 0 < inodesPerGroup <= 8 * blockSize
    }

    function PerBlock(): (n: nat)
      requires Valid()
      ensures n > 0 && n * inodeSize <= blockSize
    {
      DivisionFits(blockSize, inodeSize);
      blockSize / inodeSize
    }

    function BlockBitmapAt(i: nat): nat
      requires i < |groups|
    {
      groups[i].blockBitmap * blockSize
    }

    function InodeBitmapAt(i: nat): nat
      requires i < |groups|
    {
      groups[i].inodeBitmap * blockSize
    }

    function TableAt(i: nat): nat
      requires i < |groups|
    {
      groups[i].inodeTable * blockSize
    }

    /** Offset of the inode of rank `g` in the table of its group. */
    function Place(g: nat): nat
      requires Valid()
    {
      g / PerBlock() * blockSize + g % PerBlock() * inodeSize
    }

    predicate HasInode(inum: int)
      requires Valid()
    {
      inum > 0 && (inum - 1) / inodesPerGroup < |groups|
    }

    /** Address of an inode. */
    function SlotAt(inum: int): nat
      requires Valid() && HasInode(inum)
    {
      TableAt((inum - 1) / inodesPerGroup) + Place((inum - 1) % inodesPerGroup)
    }

    /** Size in bytes of the table of a group. */
    function TableSize(): nat
      requires Valid()
    {
      (inodesPerGroup - 1) / PerBlock() * blockSize + blockSize
    }

    /** The tables of different groups do not overlap. */
    ghost predicate TablesApart()
      requires Valid()
    {
      forall i, j :: 0 <= i < j < |groups| ==>
        TableAt(i) + TableSize() <= TableAt(j) || TableAt(j) + TableSize() <= TableAt(i)
    }
  }

  lemma DivisionFits(a: nat, b: nat)
    requires 0 < b <= a
    ensures a / b > 0 && a / b * b <= a
  {
    var q := a / b;
    assert a == q * b + a % b;
    if q <= 0 { Times(q, 0, b); }
  }

  /** Inodes of one table follow one another without overlap. */
  lemma PlacesApart(geo: Geometry, g: nat, h: nat)
    requires geo.Valid() && g < h
    ensures geo.Place(g) + geo.inodeSize <= geo.Place(h)
  {
    var n := geo.PerBlock();
    Divided(g, n);
    Divided(h, n);
    Lexicographic(n, g / n, g % n, h / n, h % n);
    SpacedApart(n, geo.inodeSize, geo.blockSize, g / n, g % n, h / n, h % n);
  }

  lemma Lexicographic(n: nat, q: nat, r: nat, q': nat, r': nat)
    requires r < n && r' < n && n * q + r < n * q' + r'
    ensures q < q' || (q == q' && r < r')
  {
    if q' < q {
      Times(q' + 1, q, n);
      Plus(q', n);
    }
  }

  lemma SpacedApart(n: nat, size: nat, b: nat, q: nat, r: nat, q': nat, r': nat)
    requires n * size <= b && r < n && r' < n && (q < q' || (q == q' && r < r'))
    ensures q * b + r * size + size <= q' * b + r' * size
  {
    Plus(r, size);
    if q == q' {
      Times(r + 1, r', size);
    } else {
      Times(r + 1, n, size);
      Times(q + 1, q', b);
      Plus(q, b);
      Times(0, r', size);
    }
  }

  /** An inode lies inside the table of its group. */
  lemma PlaceInTable(geo: Geometry, g: nat)
    requires geo.Valid() && g < geo.inodesPerGroup
    ensures geo.Place(g) + geo.inodeSize <= geo.TableSize()
  {
    var n, last := geo.PerBlock(), geo.inodesPerGroup - 1;
    Divided(g, n);
    Divided(last, n);
    if g / n > last / n {
      Times(last / n + 1, g / n, n);
      Plus(last / n, n);
    }
    Times(g / n, last / n, geo.blockSize);
    Plus(g % n, geo.inodeSize);
    Times(g % n + 1, n, geo.inodeSize);
  }

  /** Different inode numbers have different bytes. */
  lemma SlotsApart(geo: Geometry, a: int, b: int)
    requires geo.Valid() && geo.TablesApart() && geo.HasInode(a) && geo.HasInode(b) && a < b
    ensures geo.SlotAt(a) + geo.inodeSize <= geo.SlotAt(b) || geo.SlotAt(b) + geo.inodeSize <= geo.SlotAt(a)
  {
    var n := geo.inodesPerGroup;
    Divided(a - 1, n);
    Divided(b - 1, n);
    Lexicographic(n, (a - 1) / n, (a - 1) % n, (b - 1) / n, (b - 1) % n);
    if (a - 1) / n == (b - 1) / n {
      PlacesApart(geo, (a - 1) % n, (b - 1) % n);
    } else {
      PlaceInTable(geo, (a - 1) % n);
      PlaceInTable(geo, (b - 1) % n);
    }
  }

  /** alloc_inode takes the slots to be 128 bytes each without gaps. That is where the inode is looked for later
      exactly when inodes are 128 bytes, or for the first inode of a group. */
  lemma AllocatedSlot(geo: Geometry, ib: nat)
    requires geo.Valid()
    ensures INODE_STRUCT * ib == geo.Place(ib) <==> ib == 0 || geo.inodeSize == INODE_STRUCT
  {
    hide *;
    PlaceCovers(geo, ib);
    if geo.inodeSize == INODE_STRUCT {
      FullBlocks(geo, ib);
    }
    if geo.inodeSize != INODE_STRUCT && ib > 0 {
      StrictTimes(INODE_STRUCT, geo.inodeSize, ib);
    }
    FirstPlace(geo);
  }

  /** Blocks may have gaps at their end, so places are at least as far as without gaps. */
  lemma PlaceCovers(geo: Geometry, ib: nat)
    requires geo.Valid()
    ensures geo.Place(ib) >= geo.inodeSize * ib && geo.inodeSize >= INODE_STRUCT
  {
    var n, size, b := geo.PerBlock(), geo.inodeSize, geo.blockSize;
    Divided(ib, n);
    Times(n * size, b, ib / n);
    Regrouped(n, ib / n, ib % n, size);
  }

  lemma Regrouped(n: nat, q: nat, r: nat, size: nat)
    ensures n * size * q + r * size == size * (n * q + r)
  {}

  lemma FullBlocks(geo: Geometry, ib: nat)
    requires geo.Valid() && geo.inodeSize == INODE_STRUCT
    ensures geo.Place(ib) == INODE_STRUCT * ib
  {
    var n := geo.PerBlock();
    Divided(ib, n);
    assert n * INODE_STRUCT == geo.blockSize;
    Regrouped(n, ib / n, ib % n, INODE_STRUCT);
  }

  lemma FirstPlace(geo: Geometry)
    requires geo.Valid()
    ensures geo.Place(0) == 0
  {}

  /** The block that holds an inode is in the table. */
  lemma RowInTable(geo: Geometry, g: nat)
    requires geo.Valid() && g < geo.inodesPerGroup
    ensures g / geo.PerBlock() * geo.blockSize + geo.blockSize <= geo.TableSize()
  {
    var n, last := geo.PerBlock(), geo.inodesPerGroup - 1;
    Divided(g, n);
    Divided(last, n);
    if g / n > last / n {
      Times(last / n + 1, g / n, n);
      Plus(last / n, n);
    }
    Times(g / n, last / n, geo.blockSize);
  }

  /** Inodes of 128 bytes without gaps reach no further than the table. */
  lemma PackedInTable(geo: Geometry, ib: nat)
    requires geo.Valid() && ib < geo.inodesPerGroup
    ensures INODE_STRUCT * ib + INODE_STRUCT <= geo.TableSize()
  {
    hide *;
    PlaceInTable(geo, ib);
    PlaceCovers(geo, ib);
    Times(INODE_STRUCT, geo.inodeSize, ib);
  }

  /** With inodes of 256 bytes, the second inode of a group is looked for elsewhere. */
  lemma SecondInode(groups: seq<Group>)
    ensures var geo := Geometry(1024, 8192, 8192, 256, groups);
            geo.Valid() && geo.Place(1) == 256 && INODE_STRUCT * 1 == 128
  {
    var geo := Geometry(1024, 8192, 8192, 256, groups);
    assert geo.PerBlock() == 4;
  }
}
