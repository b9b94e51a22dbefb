/** Block devices and their partitions, and reading from them at any offset (block_dev.c). */
module BlockDevices {
  import opened Disks
  import opened Products

  const OK: int := 0
  const EINVAL: int := 22
  const EBUSY: int := 16
  const ENOMEM: int := 12

  /** struct blockdev_instance. Partitions share the block size and the operations of their parents; the index of the
      first block is counted on the disk. */
  datatype Device = Device(devClass: nat, devInstance: nat, blockSize: nat, numberOfBlocks: nat,
                           indexOfFirstBlock: nat, refCnt: int, uid: nat)
  {
    function Start(): nat { indexOfFirstBlock * blockSize }

    function Size(): nat { numberOfBlocks * blockSize }

    ghost predicate On(disk: seq<Byte>) {
      blockSize > 0 && Start() + Size() <= |disk|
    }

    /** The bytes of the device. */
    function Contents(disk: seq<Byte>): seq<Byte>
      requires Start() + Size() <= |disk|
    {
      disk[Start()..Start() + Size()]
    }
  }

  /** Up to `n` bytes from an offset on, fewer at the end and none after it. */
  function Part(s: seq<Byte>, offset: nat, n: nat): seq<Byte> {
    if offset >= |s| then [] else if offset + n <= |s| then s[offset..offset + n] else s[offset..]
  }

  /** memcpy into a buffer. */
  method CopyTo(buff: array<Byte>, p: nat, data: seq<Byte>)
    requires p + |data| <= buff.Length
    modifies buff
    ensures buff[..] == old(buff[..p]) + data + old(buff[p + |data|..])
  {
    forall k | 0 <= k < |data| {
      buff[p + k] := data[k];
    }
  }

  /** The part of one block that is wanted, from offset `at` of the device on, put at `p` in the buffer. */
  method ReadBlock(disk: Disk, d: Device, at: nat, buff: array<Byte>, p: nat, len: nat) returns (wrbytes: nat)
    requires d.On(disk.bytes) && d.blockSize > 0 && at / d.blockSize < d.numberOfBlocks && p < len <= buff.Length
    modifies buff
    ensures 0 < wrbytes <= len - p
    ensures d.Start() + d.Size() <= |disk.bytes| && at + wrbytes <= |d.Contents(disk.bytes)|
    ensures buff[..] == old(buff[..p]) + d.Contents(disk.bytes)[at..at + wrbytes] + old(buff[p + wrbytes..])
  {
    hide *;
    DeviceFacts(d, disk.bytes);
    BlockOf(d, disk.bytes, at);
    var blockId := at / d.blockSize;
    var blockData := disk.Read((blockId + d.indexOfFirstBlock) * d.blockSize, d.blockSize);
    var offsetInBlock := at % d.blockSize;
    wrbytes := d.blockSize - offsetInBlock;
    if len - p < wrbytes {
      wrbytes := len - p;
    }
    MoreOfView(d, disk.bytes, at, wrbytes, blockData);
    CopyTo(buff, p, blockData[offsetInBlock..offsetInBlock + wrbytes]);
  }

  /** What a read has done so far: `n` bytes of the device at the start of the buffer, the rest as before. */
  ghost predicate Copied(view: seq<Byte>, offset: nat, n: nat, before: seq<Byte>, now: seq<Byte>) {
    n <= |before| && |Part(view, offset, n)| == n && now == Part(view, offset, n) + before[n..]
  }

  /** A read of `len` bytes from an offset on: `n` bytes at the start of the buffer are those of the disk at that
      distance from the first block of the device, as many as wanted or left on the device; the others are as before. */
  ghost predicate IsRead(d: Device, disk: seq<Byte>, offset: nat, len: nat, n: nat, before: seq<Byte>, now: seq<Byte>) {
    var start, size := d.indexOfFirstBlock * d.blockSize, d.numberOfBlocks * d.blockSize;
    && n == (if size <= offset then 0 else if size - offset < len then size - offset else len)
    && n <= |now| == |before| && (n > 0 ==> 0 <= start + offset && start + offset + n <= |disk|)
    && (forall k :: 0 <= k < n ==> now[k] == disk[start + offset + k])
    && (forall k :: n <= k < |now| ==> now[k] == before[k])
  }

  lemma PartIsRead(d: Device, disk: seq<Byte>, offset: nat, len: nat, before: seq<Byte>, now: seq<Byte>)
    requires d.On(disk) && len <= |before| && d.Start() + d.Size() <= |disk|
    requires var want := Part(d.Contents(disk), offset, len);
             |want| <= |before| && now == want + before[|want|..]
    ensures IsRead(d, disk, offset, len, |Part(d.Contents(disk), offset, len)|, before, now)
  {
    var view, n := d.Contents(disk), |Part(d.Contents(disk), offset, len)|;
    assert d.Start() == d.indexOfFirstBlock * d.blockSize && d.Size() == d.numberOfBlocks * d.blockSize == |view|;
    forall k | 0 <= k < n ensures now[k] == disk[d.Start() + offset + k] {
      assert now[k] == view[offset + k] == disk[d.Start() + (offset + k)];
    }
  }

  /** blockdev_generic_read into a buffer: the answer is the number of bytes read. */
  method GenericRead(disk: Disk, d: Device, offset: nat, buff: array<Byte>, len: nat) returns (rdbytes: nat)
    requires d.On(disk.bytes) && len <= buff.Length
    modifies buff
    ensures var want := Part(d.Contents(disk.bytes), offset, len);
            rdbytes == |want| && buff[..] == want + old(buff[..])[rdbytes..]
    ensures IsRead(d, disk.bytes, offset, len, rdbytes, old(buff[..]), buff[..])
  {
    hide *;
    DeviceFacts(d, disk.bytes);
    ghost var view, before := d.Contents(disk.bytes), buff[..];
    assert buff[..] == before;
    NothingRead(view, offset, before);
    rdbytes := 0;
    var at := offset;
    while rdbytes < len
      invariant rdbytes <= len && at == offset + rdbytes
      invariant Copied(view, offset, rdbytes, before, buff[..])
      decreases len - rdbytes
    {
      // Past the end of the device?
      BlockOf(d, disk.bytes, at);
      if at / d.blockSize >= d.numberOfBlocks {
        EndReached(view, offset, rdbytes, len, before, buff[..]);
        ReadEnds(view, offset, rdbytes, before, buff[..]);
        PartIsRead(d, disk.bytes, offset, len, before, buff[..]);
        return;
      }
      ghost var was := buff[..];
      var wrbytes := ReadBlock(disk, d, at, buff, rdbytes, len);
      CopiedMore(view, offset, rdbytes, wrbytes, before, was);
      rdbytes := rdbytes + wrbytes;
      at := at + wrbytes;
    }
    ReadEnds(view, offset, rdbytes, before, buff[..]);
    PartIsRead(d, disk.bytes, offset, len, before, buff[..]);
  }

  lemma DeviceFacts(d: Device, disk: seq<Byte>)
    requires d.On(disk)
    ensures d.blockSize > 0 && d.Start() + d.Size() <= |disk| && |d.Contents(disk)| == d.Size()
  {}

  lemma NothingRead(view: seq<Byte>, offset: nat, before: seq<Byte>)
    ensures Copied(view, offset, 0, before, before)
  {}

  /** The device ends where its blocks end. */
  lemma BlockOf(d: Device, disk: seq<Byte>, at: nat)
    requires d.On(disk)
    ensures d.blockSize > 0 && at / d.blockSize >= 0 && 0 <= at % d.blockSize < d.blockSize
    ensures at / d.blockSize >= d.numberOfBlocks <==> at >= d.Size()
    ensures at / d.blockSize < d.numberOfBlocks ==>
              var p := (at / d.blockSize + d.indexOfFirstBlock) * d.blockSize;
              && p + at % d.blockSize == d.Start() + at && p + d.blockSize <= d.Start() + d.Size() <= |disk| && p >= 0
  {
    var b, o := at / d.blockSize, at % d.blockSize;
    Divided(at, d.blockSize);
    Distributes(b, d.indexOfFirstBlock, d.blockSize);
    SwapFactors(b, d.blockSize);
    if b >= d.numberOfBlocks {
      Times(d.numberOfBlocks, b, d.blockSize);
    } else {
      Times(b + 1, d.numberOfBlocks, d.blockSize);
      Plus(b, d.blockSize);
    }
    Times(0, b + d.indexOfFirstBlock, d.blockSize);
  }

  lemma MoreOfView(d: Device, disk: seq<Byte>, at: nat, n: nat, block: seq<Byte>)
    requires d.On(disk) && at / d.blockSize < d.numberOfBlocks && 0 <= at % d.blockSize && at / d.blockSize >= 0
    requires |block| == d.blockSize && at % d.blockSize + n <= d.blockSize
    requires (at / d.blockSize + d.indexOfFirstBlock) * d.blockSize >= 0
    requires CopyOf(block, disk, (at / d.blockSize + d.indexOfFirstBlock) * d.blockSize)
    ensures at + n <= |d.Contents(disk)|
    ensures block[at % d.blockSize..at % d.blockSize + n] == d.Contents(disk)[at..at + n]
  {
    BlockOf(d, disk, at);
    var o, p := at % d.blockSize, (at / d.blockSize + d.indexOfFirstBlock) * d.blockSize;
    SameSlice(disk, block, p, o, n, d.Start(), d.Size(), at);
  }

  lemma SameSlice(disk: seq<Byte>, block: seq<Byte>, p: nat, o: nat, n: nat, start: nat, size: nat, at: nat)
    requires CopyOf(block, disk, p) && o + n <= |block| && p + |block| <= start + size <= |disk| && p + o == start + at
    ensures at + n <= size && block[o..o + n] == disk[start..start + size][at..at + n]
  {
    Stretch(disk, start, size, at, n);
    var a, b := block[o..o + n], disk[start + at..start + at + n];
    forall i | 0 <= i < n ensures a[i] == b[i] {
      assert block[o + i] == disk[p + (o + i)];
    }
  }

  lemma CopiedMore(view: seq<Byte>, offset: nat, n: nat, m: nat, before: seq<Byte>, was: seq<Byte>)
    requires Copied(view, offset, n, before, was) && m > 0 && offset + n + m <= |view| && n + m <= |before|
    ensures |was| == |before|
    ensures Copied(view, offset, n + m, before, was[..n] + view[offset + n..offset + n + m] + was[n + m..])
  {
    var now := was[..n] + view[offset + n..offset + n + m] + was[n + m..];
    assert was[..n] == view[offset..offset + n];
    assert was[n + m..] == before[n + m..];
    assert now == view[offset..offset + n + m] + before[n + m..];
  }

  lemma EndReached(view: seq<Byte>, offset: nat, n: nat, len: nat, before: seq<Byte>, now: seq<Byte>)
    requires Copied(view, offset, n, before, now) && n <= len && offset + n >= |view|
    ensures Part(view, offset, len) == Part(view, offset, n)
  {}

  lemma ReadEnds(view: seq<Byte>, offset: nat, n: nat, before: seq<Byte>, now: seq<Byte>)
    requires Copied(view, offset, n, before, now)
    ensures |Part(view, offset, n)| == n && now == Part(view, offset, n) + before[n..]
  {}

  // ---- Registration ----

  predicate Inside(d: Device, parent: Device, index: nat) {
    && d.blockSize == parent.blockSize && d.indexOfFirstBlock == parent.indexOfFirstBlock + index
    && index + d.numberOfBlocks <= parent.numberOfBlocks
  }

  /** A partition inside its parent is a stretch of the parent, whether that is a disk or itself a partition: reading
      it is reading the parent from the first byte of the partition on, cut at the end of the partition. */
  lemma PartitionIsPart(disk: seq<Byte>, parent: Device, d: Device, index: nat, offset: nat, n: nat)
    requires parent.On(disk) && Inside(d, parent, index)
    ensures d.On(disk) && d.Contents(disk) == Part(parent.Contents(disk), index * d.blockSize, d.Size())
    ensures offset < d.Size() ==>
              Part(d.Contents(disk), offset, n)
              == Part(parent.Contents(disk), index * d.blockSize + offset, if n < d.Size() - offset then n else d.Size() - offset)
    ensures offset >= d.Size() ==> Part(d.Contents(disk), offset, n) == []
  {
    StretchFits(parent, d, index);
    var p := index * d.blockSize;
    Stretch(disk, parent.Start(), parent.Size(), p, d.Size());
    if offset < d.Size() {
      var m := if n < d.Size() - offset then n else d.Size() - offset;
      Stretch(parent.Contents(disk), p, d.Size(), offset, m);
    }
  }

  lemma Stretch(s: seq<Byte>, p: nat, n: nat, o: nat, m: nat)
    requires p + n <= |s| && o + m <= n
    ensures s[p..p + n][o..o + m] == s[p + o..p + o + m]
  {
    var t := s[p..p + n];
    var a, b := t[o..o + m], s[p + o..p + o + m];
    forall i | 0 <= i < |a| ensures a[i] == b[i] {
      assert a[i] == t[o + i] == s[p + (o + i)];
    }
  }

  lemma StretchFits(parent: Device, d: Device, index: nat)
    requires Inside(d, parent, index)
    ensures d.Start() == parent.Start() + index * d.blockSize && index * d.blockSize + d.Size() <= parent.Size()
  {
    Distributes(parent.indexOfFirstBlock, index, d.blockSize);
    Distributes(index, d.numberOfBlocks, d.blockSize);
    Times(index + d.numberOfBlocks, parent.numberOfBlocks, d.blockSize);
    Times(0, index, d.blockSize);
  }

  class Registry {
    var devices: seq<Device>
    var lastUid: nat

    constructor ()
      ensures devices == [] && Valid()
    {
      devices, lastUid := [], 0;
    }

    /** No two devices have the same identity, and the unique numbers are unique. */
    ghost predicate Valid()
      reads this
    {
      && (forall i :: 0 <= i < |devices| ==> devices[i].uid < lastUid)
      && (forall i, j :: 0 <= i < j < |devices| ==> devices[i].uid != devices[j].uid && !SameId(devices[i], devices[j]))
    }

    /** lookup_blockdev_instance: the index of the device, -1 for none. */
    method Lookup(devClass: nat, devInstance: nat) returns (i: int)
      ensures -1 <= i < |devices|
      ensures i >= 0 ==> devices[i].devClass == devClass && devices[i].devInstance == devInstance
      ensures i < 0 ==> forall k :: 0 <= k < |devices| ==>
                          !(devices[k].devClass == devClass && devices[k].devInstance == devInstance)
    {
      for k := 0 to |devices|
        invariant forall j :: 0 <= j < k ==> !(devices[j].devClass == devClass && devices[j].devInstance == devInstance)
      {
        if devices[k].devClass != devClass {
          continue;
        }
        if devices[k].devInstance != devInstance {
          continue;
        }
        return k;
      }
      i := -1;
    }

    /** blockdev_register_disk; `left`: there is memory for the structure. */
    method RegisterDisk(devClass: nat, devInstance: nat, blockSize: int, numberOfBlocks: nat, left: bool) returns (ret: int)
      requires Valid()
      modifies this
      ensures Valid()
      ensures ret == -EBUSY <==> exists i :: 0 <= i < |old(devices)| && old(devices)[i].devClass == devClass
                                            && old(devices)[i].devInstance == devInstance
      ensures ret == if (exists i :: 0 <= i < |old(devices)| && HasId(old(devices)[i], devClass, devInstance)) then -EBUSY
                     else if blockSize <= 0 || numberOfBlocks == 0 then -EINVAL
                     else if !left then -ENOMEM
                     else OK
      ensures ret != OK ==> devices == old(devices)
      ensures ret == OK ==>
                devices == old(devices) + [Device(devClass, devInstance, blockSize, numberOfBlocks, 0, 1, old(lastUid))]
    {
      var i := Lookup(devClass, devInstance);
      if i >= 0 {
        assert HasId(devices[i], devClass, devInstance);
        return -EBUSY;
      }
      if blockSize <= 0 || numberOfBlocks == 0 {
        return -EINVAL;
      }
      if !left {
        return -ENOMEM;
      }
      devices := devices + [Device(devClass, devInstance, blockSize, numberOfBlocks, 0, 1, lastUid)];
      lastUid := lastUid + 1;
      ret := OK;
    }

    /** blockdev_register_partition, -1 standing for no parent. Nothing checks that the blocks are in the parent. */
    method RegisterPartition(devClass: nat, devInstance: nat, parent: int, index: nat, numberOfBlocks: nat, left: bool)
        returns (ret: int)
      requires Valid() && -1 <= parent < |devices|
      modifies this
      ensures Valid()
      ensures ret == -EBUSY <==> parent >= 0 && exists i :: 0 <= i < |old(devices)| && old(devices)[i].devClass == devClass
                                                            && old(devices)[i].devInstance == devInstance
      ensures ret == if parent < 0 then -EINVAL
                     else if (exists i :: 0 <= i < |old(devices)| && HasId(old(devices)[i], devClass, devInstance)) then -EBUSY
                     else if !left then -ENOMEM
                     else OK
      ensures ret != OK ==> devices == old(devices)
      ensures ret == OK ==>
                && |devices| == |old(devices)| + 1
                && var d := devices[|devices| - 1];
                   && d.devClass == devClass && d.devInstance == devInstance && d.refCnt == 1 && d.uid == old(lastUid)
                   && d.numberOfBlocks == numberOfBlocks && d.blockSize == devices[parent].blockSize
                   && d.indexOfFirstBlock == devices[parent].indexOfFirstBlock + index
                   && (Inside(d, devices[parent], index) <==> index + numberOfBlocks <= devices[parent].numberOfBlocks)
      ensures ret == OK ==> forall k :: 0 <= k < |old(devices)| ==>
                devices[k] == if k == parent then old(devices)[k].(refCnt := old(devices)[k].refCnt + 1) else old(devices)[k]
    {
      if parent < 0 {
        return -EINVAL;
      }
      var i := Lookup(devClass, devInstance);
      if i >= 0 {
        assert HasId(devices[i], devClass, devInstance);
        return -EBUSY;
      }
      if !left {
        return -ENOMEM;
      }
      devices := devices[parent := devices[parent].(refCnt := devices[parent].refCnt + 1)];
      var p := devices[parent];
      devices := devices + [Device(devClass, devInstance, p.blockSize, numberOfBlocks, p.indexOfFirstBlock + index, 1, lastUid)];
      lastUid := lastUid + 1;
      ret := OK;
    }
  }

  predicate HasId(d: Device, devClass: nat, devInstance: nat) {
    d.devClass == devClass && d.devInstance == devInstance
  }

  predicate SameId(d: Device, e: Device) {
    HasId(d, e.devClass, e.devInstance)
  }
}
