/** kmalloc and kfree in terms of what callers hold (mem/kmalloc.c). */
module KmallocContracts {
  import opened Seqs
  import opened KernelState
  import opened Words
  import opened Wrappers
  import opened SlabLemmas
  import opened SlabBinding
  import opened RangeMoves
  import opened PageContents
  import opened AllocationCosts
  import opened KernelContracts

  const SIZES: seq<nat> := [8, 16, 32, 64, 128, 256, 1024, 2048, 4096, 8192, 16384]

  /** A call by a user of kmalloc: a 32-bit size, or which of its own blocks to free. */
  datatype Call = Alloc(size: Word) | Free(which: nat)

  /** The reserve is full, and each kmalloc cache has objects of at least its size and keeps no reserve. */
  ghost predicate KmallocReady(s: State, table: seq<nat>) {
    && s.rc in s.caches && Reserve(s) >= 2 && |table| == |SIZES|
    && forall i :: 0 <= i < |SIZES| ==>
         table[i] in s.caches && table[i] != s.rc && s.caches[table[i]].objSize == SIZES[i]
         && s.caches[table[i]].minFree == 0 && s.caches[table[i]].mapNow
  }

  /** The new object comes from the smallest size class that holds `size` bytes, which is less than four times as
      large unless the size is below the smallest class. */
  ghost predicate NewObject(s: State, t: State, table: seq<nat>, addr: nat, size: nat) {
    && addr !in Held(s) && Held(t) == Held(s) + {addr} && HeldRanges(t) == HeldRanges(s)
    && |table| == |SIZES|
    && exists i :: IsClass(i, size) && InCache(t, addr, table[i]) && table[i] in t.caches
                   && t.caches[table[i]].objSize >= size
                   && (if size <= 8 then t.caches[table[i]].objSize == 8 else t.caches[table[i]].objSize < 4 * size)
  }

  ghost predicate IsClass(i: int, size: nat) {
    0 <= i < |SIZES| && SIZES[i] >= size && forall j :: 0 <= j < i ==> SIZES[j] < size
  }

  ghost predicate NewPages(s: State, t: State, addr: nat, size: nat) {
    && Held(t) == Held(s)
    && exists x :: x !in HeldRanges(s) && HeldRanges(t) == HeldRanges(s) + {x} && x.base == addr
                   && size <= x.pages * PAGE_SIZE < size + PAGE_SIZE && FreshlyMapped(s, t, x)
  }

  /** Why kmalloc answers 0: the cache of the size class has no free object and cannot grow, or no free range has
      the pages, or too few physical pages are left. A size in the last page of 32 bits is rounded up to 0 pages. */
  ghost predicate OutOfMemory(s: State, table: seq<nat>, size: nat)
    requires size < WORD && s.rc in s.caches && |table| == |SIZES|
  {
    if size <= 16384 then exists i :: IsClass(i, size) && NoneLeft(s, table[i])
    else CannotTake(s, AlignSup(size) / PAGE_SIZE, true)
  }

  ghost predicate NoneLeft(s: State, c: nat) {
    c in s.caches && s.caches[c].nbFreeObj == 0 && CannotGrow(s, c)
  }

  /** What kmalloc promises: one new block of at least `size` bytes, on mapped pages, or nothing new when memory has
      run out. */
  ghost predicate KmallocDone(s: State, t: State, table: seq<nat>, size: nat, addr: nat) {
    && Quiet(t) && Common(s, t) && size < WORD && s.rc in s.caches && |table| == |SIZES|
    && if addr == 0 then Held(t) == Held(s) && HeldRanges(t) == HeldRanges(s) && OutOfMemory(s, table, size)
       else Backed(t, addr, size) && if size <= 16384 then NewObject(s, t, table, addr, size) else NewPages(s, t, addr, size)
  }

  /** What kfree promises: exactly the block at `v` is gone. */
  ghost predicate KfreeDone(s: State, t: State, v: nat) {
    && Quiet(t) && Common(s, t)
    && Held(t) == Held(s) - {v} && HeldRanges(t) == set x | x in HeldRanges(s) && x.base != v
  }

  lemma ReadyAfter(s: State, t: State, table: seq<nat>)
    requires KmallocReady(s, table) && SameShapes(s, t) && t.rc in t.caches && Reserve(t) >= 2
    ensures KmallocReady(t, table)
  {
    forall i | 0 <= i < |SIZES|
      ensures table[i] in t.caches && table[i] != t.rc && t.caches[table[i]].objSize == SIZES[i]
              && t.caches[table[i]].minFree == 0 && t.caches[table[i]].mapNow
    {
      SameCache(s, t, table[i]);
    }
  }

  /** Neighbouring classes are at most a factor of four apart. */
  lemma ClassIsClose(i: int, size: nat)
    requires IsClass(i, size)
    ensures if size <= 8 then SIZES[i] == 8 else SIZES[i] < 4 * size
  {
    if i > 0 {
      assert SIZES[i - 1] < size;
      assert SIZES[i] <= 4 * SIZES[i - 1];
    }
  }

  lemma KmallocObject(s: State, t: State, table: seq<nat>, i: nat, size: nat, addr: nat)
    requires Quiet(s) && KmallocReady(s, table) && IsClass(i, size) && AllocDone(s, t, table[i], addr)
    ensures KmallocDone(s, t, table, size, addr) && KmallocReady(t, table)
  {
    hide Inv, Bytes, Tiles, Held, HeldRanges, SameShapes, Homes, KeepsPages, PhysPages, Gapped, ObjectTaken, CannotGrow, Starved,
         Backed;
    ReadyAfter(s, t, table);
    SameCache(s, t, table[i]);
    ClassIsClose(i, size);
    if addr == 0 {
      ReadyCache(s, table[i]);
      StarvedWithoutMinimum(s, table[i]);
      assert IsClass(i, size) && NoneLeft(s, table[i]);
      assert size <= 16384;
    } else {
      ObjectIsBacked(t, addr);
      BackedLess(t, addr, t.caches[table[i]].objSize, size);
    }
  }

  lemma KmallocPages(s: State, t: State, table: seq<nat>, size: nat, r: Option<Range>)
    requires Quiet(s) && KmallocReady(s, table) && 16384 < size < WORD
    requires NewDone(s, t, AlignSup(size) / PAGE_SIZE, true, r)
    ensures KmallocDone(s, t, table, size, if r.None? then 0 else r.value.base) && KmallocReady(t, table)
  {
    hide CachesOK, SlabsOK, LiveOK, RefsOK, PagingOK, MappedOK, Bytes, Held, Homes, KeepsPages, PhysPages, Gapped, FirstFit,
         AllMapped, FreshlyMapped, Backed, CannotTake, Used, SameCaches;
    ReadyAfter(s, t, table);
    if r.Some? {
      var x := r.value;
      AlignSupIsEnough(size);
      assert x in HeldRanges(t) && x !in HeldRanges(s);
      BaseIsPositive(t, x);
      FreshIsMapped(s, t, x);
      assert x in Tiles(t) && InBounds(x);
      RangeIsBacked(t, x, x.base, size);
    }
  }

  lemma BaseIsPositive(s: State, x: Range)
    requires Inv(s) && x in HeldRanges(s)
    ensures x.base > 0 && x.Covers(x.base)
  {
    hide CachesOK, SlabsOK, LiveOK, RefsOK, PagingOK, MappedOK;
    assert x in Tiles(s) && InBounds(x) && x in Elems(s.used) + s.hand;
  }

  /** An address is an object that a caller holds or the base of a range that a caller holds, never both. */
  lemma HeldOnce(s: State, x: Range, v: nat)
    requires Inv(s) && x in HeldRanges(s) && x.base == v
    ensures v !in Held(s)
    ensures forall y :: y in HeldRanges(s) && y.base == v ==> y == x
  {
    hide CachesOK, SlabsOK, LiveOK, RefsOK, PagingOK, MappedOK;
    BaseIsPositive(s, x);
    PlainRangeIsEmpty(s, x, v);
    forall y | y in HeldRanges(s) && y.base == v ensures y == x {
      BaseIsPositive(s, y);
      OneUsedCovers(s, x, y, v);
    }
  }

  ghost predicate IsBase(s: State, v: nat) {
    exists x :: x in HeldRanges(s) && x.base == v
  }

  ghost predicate IsBaseOfSlab(s: State, v: nat) {
    exists u :: u in s.used && u.base == v && u.slab != 0
  }

  /** The two tests of kvmm_free accept exactly the bases of ranges bound to no slab. */
  lemma FreeAnswer(s: State, v: nat, r: Option<Range>)
    requires Inv(s) && (r.Some? ==> r.value in s.used && r.value.Covers(v))
    requires r.None? ==> forall u :: u in s.used ==> !u.Covers(v)
    ensures IsBase(s, v) <==> r.Some? && r.value.base == v && r.value.slab == 0
    ensures IsBaseOfSlab(s, v) <==> r.Some? && r.value.base == v && r.value.slab != 0
    ensures forall x :: x in HeldRanges(s) && x.base == v ==> r == Some(x)
    ensures IsBase(s, v) ==> r.value in HeldRanges(s)
  {
    hide CachesOK, SlabsOK, LiveOK, RefsOK, PagingOK, MappedOK;
    forall u | u in s.used && u.base == v ensures r == Some(u) {
      UsedCoversBase(s, u);
      OneUsedCovers(s, u, r.value, v);
    }
    assert forall x :: x in HeldRanges(s) <==> x in s.used && x.slab == 0;
    if r.Some? {
      assert r.value in s.used;
    }
  }

  lemma UsedCoversBase(s: State, u: Range)
    requires Layout(s) && u in s.used
    ensures u.Covers(u.base)
  {
    assert u in Elems(s.used) + s.hand;
  }

  /** The base of a range bound to no slab is no slot, so kvmm_cache_free leaves it to kvmm_free. */
  lemma BaseIsNoSlot(s: State, v: nat)
    requires Inv(s)
    ensures IsBase(s, v) ==> !IsSlot(s, v) && v !in Held(s)
  {
    hide CachesOK, SlabsOK, LiveOK, RefsOK, PagingOK, MappedOK;
    if IsBase(s, v) {
      var x :| x in HeldRanges(s) && x.base == v;
      BaseIsPositive(s, x);
      OwnerOfAddress(s, v, Some(x));
      if v in Held(s) { HeldIsSlot(s, v); }
    }
  }

  /** What a caller holds can be given back to kfree. */
  lemma KfreeKnown(s: State, v: nat)
    requires Inv(s) && (v in Held(s) || IsBase(s, v))
    ensures Resolvable(s, v) && NoWrongRelease(s, v)
  {
    hide Inv, Held, Slots, EmptiesSlab;
    if v in Held(s) {
      HeldIsSlot(s, v);
    } else {
      BaseIsNoSlot(s, v);
      var x :| x in HeldRanges(s) && x.base == v;
      BaseIsPositive(s, x);
    }
  }

  lemma KfreeObject(s: State, t: State, table: seq<nat>, v: nat)
    requires Quiet(s) && KmallocReady(s, table) && v in Held(s)
    requires ObjectReturned(s, t, v)
    ensures KfreeDone(s, t, v) && KmallocReady(t, table)
  {
    hide Inv, Bytes, Tiles, Held, HeldRanges, SameShapes, Homes, KeepsPages, PhysPages, Gapped;
    ReadyAfter(s, t, table);
    forall x | x in HeldRanges(s) ensures x.base != v {
      HeldOnce(s, x, x.base);
    }
  }

  lemma KfreePages(s: State, t: State, table: seq<nat>, v: nat)
    requires Quiet(s) && KmallocReady(s, table) && exists x :: x in HeldRanges(s) && x.base == v && Deleted(s, t, x)
    requires MinReserve(s, t, 0)
    ensures KfreeDone(s, t, v) && KmallocReady(t, table)
  {
    hide Inv, Bytes, Tiles, Held, HeldRanges, SameShapes, Homes, KeepsPages, PhysPages, Gapped, OnlyRangeSlabsGo, CascadeOf;
    ReadyAfter(s, t, table);
    var x :| x in HeldRanges(s) && x.base == v && Deleted(s, t, x);
    HeldOnce(s, x, v);
  }

  // ---- Runs ----

  /** The caller's addresses are exactly the objects and the bases of the ranges held now and not at the start. */
  ghost predicate Owns(s: State, t: State, mine: seq<nat>) {
    && Held(s) <= Held(t) && HeldRanges(s) <= HeldRanges(t) && Distinct(mine)
    && Elems(mine) == (Held(t) - Held(s)) + Bases(HeldRanges(t) - HeldRanges(s))
  }

  ghost function Bases(w: set<Range>): set<nat> {
    set x | x in w :: x.base
  }

  lemma OwnsNothing(s: State)
    requires Inv(s)
    ensures Owns(s, s, []) && Common(s, s)
  {
    hide Inv;
    CommonRefl(s);
  }

  lemma OwnsMore(s: State, m: State, t: State, mine: seq<nat>, table: seq<nat>, size: nat, addr: nat)
    requires Owns(s, m, mine) && Common(s, m) && KmallocDone(m, t, table, size, addr)
    ensures Common(s, t)
    ensures Owns(s, t, if addr == 0 then mine else mine + [addr])
  {
    hide Inv, Held, HeldRanges, Bytes, Tiles, Homes, KeepsPages, PhysPages, SameShapes, Gapped, FirstFit, AllMapped;
    CommonTrans(s, m, t);
    if addr != 0 {
      NewIsNotMine(s, m, t, mine, table, size, addr);
      assert Elems(mine + [addr]) == Elems(mine) + {addr};
      assert forall i :: 0 <= i < |mine| ==> mine[i] in Elems(mine);
    }
  }

  lemma NewIsNotMine(s: State, m: State, t: State, mine: seq<nat>, table: seq<nat>, size: nat, addr: nat)
    requires Owns(s, m, mine) && KmallocDone(m, t, table, size, addr) && addr != 0
    ensures addr !in Elems(mine)
    ensures (Held(t) - Held(s)) + Bases(HeldRanges(t) - HeldRanges(s)) == Elems(mine) + {addr}
    ensures Held(s) <= Held(t) && HeldRanges(s) <= HeldRanges(t)
  {
    hide Inv, Held, HeldRanges, Bytes, Tiles, Homes, KeepsPages, PhysPages, SameShapes, Gapped, FirstFit, AllMapped;
    forall x | x in HeldRanges(t) ensures x.base !in Held(t) && forall y :: y in HeldRanges(t) && y.base == x.base ==> y == x {
      HeldOnce(t, x, x.base);
    }
  }

  lemma OwnsIsHeld(s: State, m: State, mine: seq<nat>, i: nat)
    requires Owns(s, m, mine) && i < |mine|
    ensures mine[i] in Held(m) || IsBase(m, mine[i])
  {
    hide Held, HeldRanges;
    assert mine[i] in Elems(mine);
  }

  lemma OwnsLess(s: State, m: State, t: State, mine: seq<nat>, i: nat)
    requires Inv(m) && Owns(s, m, mine) && Common(s, m) && i < |mine| && KfreeDone(m, t, mine[i])
    ensures Common(s, t)
    ensures Owns(s, t, RemoveAt(mine, i))
  {
    hide Inv, Held, HeldRanges, Bytes, Tiles, Homes, KeepsPages, PhysPages, SameShapes, Gapped;
    CommonTrans(s, m, t);
    RemoveAtContents(mine, i);
    assert mine[i] in Elems(mine);
    forall x | x in HeldRanges(m) ensures x.base !in Held(m) && forall y :: y in HeldRanges(m) && y.base == x.base ==> y == x {
      HeldOnce(m, x, x.base);
    }
  }
}
