/** Directories (fs/ext2/ext2_internal.c): finding an entry in the blocks of a directory, adding one to a block and
    removing one from a block. Names are given without their final zero. */
module Directories {
  import opened Disks
  import opened DirectoryRecords

  /** The structure at a place in a block in memory, which may end before the structure does. */
  method StructAt(block: seq<Byte>, i: nat) returns (buf: seq<Byte>)
    ensures Holds(buf, block, i)
  {
    var beyond: seq<Byte> :| |beyond| == STRUCT_SIZE by {
      assert |seq<Byte>(STRUCT_SIZE, i => 0)| == STRUCT_SIZE;
    }
    buf := seq(STRUCT_SIZE, k requires 0 <= k < STRUCT_SIZE => if i + k < |block| then block[i + k] else beyond[k]);
  }

  /** The bytes from the start of a structure on, which may end before they do. */
  method BytesFrom(buf: seq<Byte>, n: nat) returns (data: seq<Byte>)
    ensures |data| == n && TakenFrom(data, buf)
  {
    var beyond: seq<Byte> :| |beyond| == n by {
      assert |seq<Byte>(n, i => 0)| == n;
    }
    data := seq(n, k requires 0 <= k < n => if k < |buf| then buf[k] else beyond[k]);
  }

  /** One record of a block in memory, compared with a name. */
  method Compare(block: seq<Byte>, i: nat, name: seq<Byte>) returns (different: int, dep: seq<Byte>)
    requires i < |block| && Chain(block, i, |block|) && 0 !in name
    ensures |dep| == STRUCT_SIZE && EntryAt(dep, 0) == EntryAt(block, i) && RecLen(dep, 0) == RecLen(block, i)
    ensures different == 0 <==> Named(EntryAt(block, i), name)
  {
    dep := StructAt(block, i);
    HeldRecord(dep, block, i);
    var n := NameLen(dep, 0);
    different := StrCmp(dep[HEADER..HEADER + n] + [0], name + [0]);
    NameCompared(dep, name);
  }

  /** The size of so many blocks. */
  function InBytes(blocks: nat, size: nat): nat {
    if blocks == 0 then 0 else InBytes(blocks - 1, size) + size
  }

  function Within(i: nat, size: nat): nat
    requires size > 0
  {
    i % size
  }

  /** find_dir_entry, in a directory of whole blocks. */
  method FindDirEntry(disk: Disk, blocks: seq<nat>, size: nat, name: seq<Byte>) returns (r: int, diren: seq<Byte>)
    requires size > 0 && |blocks| > 0 && 0 !in name && Chains(disk.bytes, blocks, size)
    ensures r == 0 || r == -1
    ensures r == 0 <==> Lists(Listing(disk.bytes, blocks, size), name)
    ensures r == 0 ==> FirstNamed(Listing(disk.bytes, blocks, size), name, diren)
  {
    hide Listing, Named, FirstNamed, Lists, Chain, Chains, LookingAt, CopyOf, EntryAt, InBytes, Within;
    hide Entries, RecLen, NameLen, Rest;
    ghost var s := disk.bytes;
    ghost var seen: seq<Entry> := [];
    ghost var base := 0;
    NothingSeen(size, name);
    diren := [];
    var i: nat, count: nat, logical: nat := 0, 0, 0;
    InBlock(s, blocks, size, 0);
    var block := disk.Read(blocks[0], size);
    FirstBlock(s, blocks, size, block);
    var dirSize := InBytes(|blocks|, size);
    while true
      invariant disk.bytes == s && i < size && count == base + i && base == InBytes(logical, size)
      invariant LookingAt(s, blocks, size, logical, block, i, seen) && !Lists(seen, name)
      decreases |blocks| - logical, size - i
    {
      ThisRecord(s, blocks, size, logical, block, i, seen);
      var different, dep := Compare(block, i, name);
      if different == 0 {
        Found(s, blocks, size, logical, block, i, seen, name, dep);
        return 0, dep;
      }
      NotFound(s, blocks, size, logical, block, i, seen, name);
      seen := seen + [EntryAt(block, i)];
      i := i + RecLen(dep, 0);
      count := count + RecLen(dep, 0);
      LastBlock(logical, |blocks|, size, i);
      if count >= dirSize {
        NoMore(s, blocks, size, logical, block, seen);
        return -1, diren;
      }
      if i >= size {
        ModSelf(size);
        i := Within(i, size);
        base := base + size;
        logical := logical + 1;
        InBlock(s, blocks, size, logical);
        ghost var was := block;
        block := disk.Read(blocks[logical], size);
        NextBlock(s, blocks, size, logical, was, block, seen);
      }
    }
  }

  /** What is still to be listed after place `i` of the copy of a block. */
  ghost function Rest(s: seq<Byte>, blocks: seq<nat>, size: nat, logical: nat, block: seq<Byte>, i: nat): seq<Entry>
    requires Chains(s, blocks, size) && logical < |blocks| && Chain(block, i, size)
  {
    Entries(block, i, size) + Listing(s, blocks[logical + 1..], size)
  }

  /** Looking for a name: `seen` are the records before place `i` of a copy of a block. */
  ghost predicate LookingAt(s: seq<Byte>, blocks: seq<nat>, size: nat, logical: nat, block: seq<Byte>, i: nat,
                            seen: seq<Entry>)
  {
    && Chains(s, blocks, size) && logical < |blocks| && |block| == size && Chain(block, i, size)
    && Listing(s, blocks, size) == seen + Rest(s, blocks, size, logical, block, i)
  }

  lemma NothingSeen(size: nat, name: seq<Byte>)
    ensures !Lists([], name) && InBytes(0, size) == 0
  {}

  lemma InBlock(s: seq<Byte>, blocks: seq<nat>, size: nat, i: nat)
    requires Chains(s, blocks, size) && i < |blocks|
    ensures Chain(s, blocks[i], blocks[i] + size) && blocks[i] + size <= |s|
  {}

  lemma FirstBlock(s: seq<Byte>, blocks: seq<nat>, size: nat, block: seq<Byte>)
    requires Chains(s, blocks, size) && blocks != [] && |block| == size
    requires CopyOf(block, s, blocks[0])
    ensures LookingAt(s, blocks, size, 0, block, 0, [])
  {
    hide Listing, Entries, Chain, EntryAt, CopyOf, Rest;
    InBlock(s, blocks, size, 0);
    SameBlock(s, blocks[0], size, block);
    RestAtStart(s, blocks, size, 0, block);
    assert blocks[0..] == blocks;
  }

  lemma NextBlock(s: seq<Byte>, blocks: seq<nat>, size: nat, logical: nat, was: seq<Byte>, block: seq<Byte>,
                  seen: seq<Entry>)
    requires 0 < logical < |blocks| && LookingAt(s, blocks, size, logical - 1, was, size, seen) && |block| == size
    requires CopyOf(block, s, blocks[logical])
    ensures LookingAt(s, blocks, size, logical, block, 0, seen)
  {
    InBlock(s, blocks, size, logical);
    SameBlock(s, blocks[logical], size, block);
    RestAtEnd(s, blocks, size, logical, was);
    RestAtStart(s, blocks, size, logical, block);
    hide Listing, Entries, Chain, Chains, CopyOf, Rest;
  }

  lemma RestAtEnd(s: seq<Byte>, blocks: seq<nat>, size: nat, logical: nat, was: seq<Byte>)
    requires 0 < logical < |blocks| && Chains(s, blocks, size) && |was| == size && Chain(was, size, size)
    ensures Rest(s, blocks, size, logical - 1, was, size) == Listing(s, blocks[logical..], size)
  {
    BlockDone(was, size);
  }

  lemma RestAtStart(s: seq<Byte>, blocks: seq<nat>, size: nat, logical: nat, block: seq<Byte>)
    requires logical < |blocks| && Chains(s, blocks, size) && |block| == size && Chain(block, 0, size)
    requires Entries(block, 0, size) == Entries(s, blocks[logical], blocks[logical] + size)
    ensures Rest(s, blocks, size, logical, block, 0) == Listing(s, blocks[logical..], size)
  {
    ListingFrom(s, blocks, size, logical);
  }

  lemma BlockDone(block: seq<Byte>, size: nat)
    requires |block| == size
    ensures Chain(block, size, size) && Entries(block, size, size) == []
  {}

  lemma ListingFrom(s: seq<Byte>, blocks: seq<nat>, size: nat, i: nat)
    requires Chains(s, blocks, size) && i < |blocks|
    ensures Listing(s, blocks[i..], size)
            == Entries(s, blocks[i], blocks[i] + size) + Listing(s, blocks[i + 1..], size)
  {
    assert blocks[i..][1..] == blocks[i + 1..];
    hide Entries, Chain;
  }

  lemma ThisRecord(s: seq<Byte>, blocks: seq<nat>, size: nat, logical: nat, block: seq<Byte>, i: nat, seen: seq<Entry>)
    requires LookingAt(s, blocks, size, logical, block, i, seen) && i < size
    ensures logical < |blocks| && |block| == size && Chain(block, i, size) && i + HEADER + NameLen(block, i) <= size
    ensures 0 < RecLen(block, i) <= size - i
    ensures LookingAt(s, blocks, size, logical, block, i + RecLen(block, i), seen + [EntryAt(block, i)])
  {
    hide Listing, EntryAt;
    Regroup(seen, EntryAt(block, i), Entries(block, i + RecLen(block, i), size), Listing(s, blocks[logical + 1..], size));
  }

  lemma Found(s: seq<Byte>, blocks: seq<nat>, size: nat, logical: nat, block: seq<Byte>, i: nat, seen: seq<Entry>,
              name: seq<Byte>, dep: seq<Byte>)
    requires LookingAt(s, blocks, size, logical, block, i, seen) && i < size
    requires |dep| == STRUCT_SIZE && EntryAt(dep, 0) == EntryAt(block, i)
    requires Named(EntryAt(block, i), name) && !Lists(seen, name)
    ensures Lists(Listing(s, blocks, size), name) && FirstNamed(Listing(s, blocks, size), name, dep)
  {
    hide Listing, EntryAt, Named;
    var l := Listing(s, blocks, size);
    var n := |seen|;
    assert l[n] == EntryAt(block, i) && forall j :: 0 <= j < n ==> l[j] == seen[j];
  }

  lemma NotFound(s: seq<Byte>, blocks: seq<nat>, size: nat, logical: nat, block: seq<Byte>, i: nat, seen: seq<Entry>,
                 name: seq<Byte>)
    requires LookingAt(s, blocks, size, logical, block, i, seen) && i < size
    requires !Named(EntryAt(block, i), name) && !Lists(seen, name)
    ensures !Lists(seen + [EntryAt(block, i)], name)
  {
    hide Entries, EntryAt, Named, Listing;
    ListsLonger(seen, EntryAt(block, i), name);
  }

  lemma NoMore(s: seq<Byte>, blocks: seq<nat>, size: nat, logical: nat, block: seq<Byte>, seen: seq<Entry>)
    requires logical + 1 == |blocks| && LookingAt(s, blocks, size, logical, block, size, seen)
    ensures Listing(s, blocks, size) == seen
  {
    assert Entries(block, size, size) == [];
  }

  ghost predicate Lists(l: seq<Entry>, name: seq<Byte>) {
    exists i :: 0 <= i < |l| && Named(l[i], name)
  }

  /** The structure is a copy of the first record with that name. */
  ghost predicate FirstNamed(l: seq<Entry>, name: seq<Byte>, diren: seq<Byte>) {
    && |diren| == STRUCT_SIZE
    && exists i :: 0 <= i < |l| && Named(l[i], name) && EntryAt(diren, 0) == l[i]
                   && forall j :: 0 <= j < i ==> !Named(l[j], name)
  }

  lemma SameBlock(s: seq<Byte>, b: nat, size: nat, block: seq<Byte>)
    requires Chain(s, b, b + size) && |block| == size
    requires CopyOf(block, s, b)
    ensures Chain(block, 0, size) && Entries(block, 0, size) == Entries(s, b, b + size)
  {
    assert s[b..b + size] == block[0..size];
    ChainShift(s, b, b + size, block, 0);
  }

  /** The comparison of a name taken out of a structure. */
  lemma NameCompared(dep: seq<Byte>, name: seq<Byte>)
    requires |dep| == STRUCT_SIZE && 0 !in name
    ensures var n := NameLen(dep, 0);
            Text(dep[HEADER..HEADER + n] + [0]) == Text(name + [0]) <==> Named(EntryAt(dep, 0), name)
  {
    WithZero(dep[HEADER..HEADER + NameLen(dep, 0)]);
    WithZero(name);
  }

  lemma WithZero(s: seq<Byte>)
    ensures Text(s + [0]) == Text(s)
  {
    assert (s + [0])[..|s|] == s;
    TextStops(s + [0], |s|);
  }

  lemma ListsLonger(l: seq<Entry>, x: Entry, name: seq<Byte>)
    ensures Lists(l + [x], name) <==> Lists(l, name) || Named(x, name)
  {
    if Named(x, name) { assert (l + [x])[|l|] == x; }
    if Lists(l, name) {
      var i :| 0 <= i < |l| && Named(l[i], name);
      assert (l + [x])[i] == l[i];
    }
  }

  lemma Regroup(a: seq<Entry>, x: Entry, b: seq<Entry>, c: seq<Entry>)
    ensures a + (([x] + b) + c) == (a + [x]) + (b + c)
  {}

  lemma ModSelf(n: nat)
    requires n > 0
    ensures Within(n, n) == 0
  {}

  lemma LastBlock(logical: nat, blocks: nat, size: nat, i: nat)
    requires logical < blocks && 0 < i <= size
    ensures InBytes(logical, size) + i >= InBytes(blocks, size) <==> logical + 1 == blocks && i == size
    ensures InBytes(logical + 1, size) == InBytes(logical, size) + size
  {
    MoreBlocks(logical + 1, blocks, size);
    if logical + 1 < blocks { MoreBlocks(logical + 2, blocks, size); }
  }

  lemma {:induction false} MoreBlocks(m: nat, n: nat, size: nat)
    requires m <= n
    ensures InBytes(m, size) <= InBytes(n, size)
  {
    if m < n {
      MoreBlocks(m, n - 1, size);
    }
  }
}
