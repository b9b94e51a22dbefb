/** What the invariants of the kernel memory stack mean for its users. */
module KernelTheorems {
  import opened Seqs
  import opened KernelState
  import opened Words
  import opened Wrappers
  import opened SlabLemmas
  import opened SlabBinding
  import opened RangeMoves
  import opened PageContents
  import opened AllocationCosts
  import opened KernelContracts
  import opened KmallocContracts
  import SlabGeometry

  // ---- Live blocks never overlap ----

  /** A piece of memory in use: an object, the header of an on-slab slab, or a range of pages bound to no slab. */
  datatype Block = Object(v: nat) | Header(sa: nat) | Pages(u: Range)

  ghost predicate InUse(s: State, b: Block) {
    match b
    case Object(v) => v in s.live
    case Header(sa) => sa in s.slabs && sa !in OffSlabStructs(s)
    case Pages(u) => u in HeldRanges(s)
  }

  ghost function HomeOf(s: State, b: Block): Range
    requires Inv(s) && InUse(s, b)
  {
    match b
    case Object(v) => RangeOf(s, s.live[v])
    case Header(sa) => RangeOf(s, sa)
    case Pages(u) => u
  }

  ghost function First(s: State, b: Block): nat {
    match b
    case Object(v) => v
    case Header(sa) => sa
    case Pages(u) => u.base
  }

  ghost function Length(s: State, b: Block): nat
    requires Inv(s) && InUse(s, b)
  {
    match b
    case Object(v) => s.caches[s.slabs[s.live[v]].cache].objSize
    case Header(sa) => SIZEOF_KSLAB
    case Pages(u) => u.pages * PAGE_SIZE
  }

  /** Every block lies inside a used range, and objects lie below the header of their slab. */
  lemma BlockInside(s: State, b: Block)
    requires Inv(s) && InUse(s, b)
    ensures var h := HomeOf(s, b);
            && h in s.used && h.base <= First(s, b) && First(s, b) + Length(s, b) <= h.End() && Length(s, b) > 0
            && (b.Pages? <==> h.slab == 0)
            && (b.Object? && h.slab !in OffSlabStructs(s) ==> First(s, b) + Length(s, b) <= h.End() - SIZEOF_KSLAB)
  {
    hide RefsOK, PagingOK, MappedOK;
    match b
    case Object(v) =>
      LivePlace(s, v);
    case Header(sa) =>
      HeaderPlace(s, sa);
      assert SlabOK(s, sa);
    case Pages(u) =>
      assert u in Elems(s.used) + s.hand;
  }

  /** Live objects, on-slab headers and page ranges are pairwise disjoint. */
  lemma BlocksApart(s: State, b: Block, c: Block)
    requires Inv(s) && InUse(s, b) && InUse(s, c) && b != c
    ensures First(s, b) + Length(s, b) <= First(s, c) || First(s, c) + Length(s, c) <= First(s, b)
  {
    hide CachesOK, SlabsOK, RefsOK, PagingOK, MappedOK, LiveOK;
    BlockInside(s, b);
    BlockInside(s, c);
    var h, k := HomeOf(s, b), HomeOf(s, c);
    assert h in Tiles(s) && k in Tiles(s);
    assert h != k ==> Compat(h, k);
    if h == k && b.Object? && c.Object? {
      SameSlabApart(s, b.v, c.v);
    } else if h == k && b.Header? && c.Object? {
      HeaderPlace(s, b.sa);
    } else if h == k && c.Header? && b.Object? {
      HeaderPlace(s, c.sa);
    }
  }

  lemma SameSlabApart(s: State, v: nat, w: nat)
    requires Inv(s) && v in s.live && w in s.live && v != w && s.live[v] == s.live[w]
    ensures var n := s.caches[s.slabs[s.live[v]].cache].objSize; v + n <= w || w + n <= v
  {
    hide Layout, RefsOK, PagingOK, MappedOK;
    var b := s.slabs[s.live[v]];
    var k := s.caches[b.cache];
    assert CacheOK(s, b.cache);
    ObjectsApart(b.first, k.objSize, k.nbObj, v, w);
  }

  ghost predicate OnPage(s: State, b: Block, v: nat)
    requires Inv(s) && InUse(s, b)
  {
    v % PAGE_SIZE == 0 && v < First(s, b) + Length(s, b) && First(s, b) < v + PAGE_SIZE
  }

  /** Two pages that blocks in use lie on, if both are mapped, have different frames: what is written to one is not
      seen in the other. */
  lemma FramesApart(s: State, b: Block, c: Block, v: nat, w: nat)
    requires Inv(s) && InUse(s, b) && InUse(s, c) && OnPage(s, b, v) && OnPage(s, c, w)
    requires v != w && v in s.pt && w in s.pt
    ensures s.pt[v] != s.pt[w]
  {
    hide CachesOK, SlabsOK, LiveOK, RefsOK, PagingOK, Bytes;
    BlockInside(s, b);
    BlockInside(s, c);
    assert HomeOf(s, b) in Tiles(s) && HomeOf(s, c) in Tiles(s);
    PageInside(HomeOf(s, b), First(s, b), Length(s, b), v);
    PageInside(HomeOf(s, c), First(s, c), Length(s, c), w);
    InTiles(s, HomeOf(s, b), v);
    InTiles(s, HomeOf(s, c), w);
  }

  // ---- Pages are neither lost nor duplicated ----

  /** The free and the used ranges split the managed addresses in two. */
  lemma FreeAndUsedTile(s: State)
    requires Inv(s) && s.hand == {}
    ensures Bytes(Elems(s.free)) !! Bytes(Elems(s.used))
    ensures Bytes(Elems(s.free)) + Bytes(Elems(s.used)) == Bytes(Tiles(s))
  {
    hide CachesOK, SlabsOK, LiveOK, RefsOK, PagingOK, MappedOK;
    assert Tiles(s) == Elems(s.free) + Elems(s.used);
    BytesUnion(Elems(s.free), Elems(s.used));
    DisjointBytes(Tiles(s), Elems(s.free), Elems(s.used));
  }

  ghost predicate PairwiseCompat(w: set<Range>) {
    forall x, y {:trigger Compat(x, y)} :: x in w && y in w && x != y ==> Compat(x, y)
  }

  lemma DisjointBytes(w: set<Range>, a: set<Range>, b: set<Range>)
    requires PairwiseCompat(w) && a <= w && b <= w && a !! b
    ensures Bytes(a) !! Bytes(b)
  {
    forall v | v in Bytes(a) ensures v !in Bytes(b) {
      var x :| x in a && v in x.Span();
      forall y | y in b ensures v !in y.Span() {
        assert Compat(x, y);
      }
    }
  }

  /** kvmm_del_range frees the bytes of its range and of every slab of range structures that became empty, and
      those only: merging neighbours changes nothing in what is free. */
  lemma DeletedBytes(s: State, t: State, x: Range)
    requires Quiet(s) && x in HeldRanges(s) && Deleted(s, t, x)
    ensures Bytes(Elems(t.free)) == Bytes(Elems(s.free)) + x.Span() + Bytes(CascadeOf(s, t))
    ensures x !in CascadeOf(s, t) && CascadeOf(s, t) <= Elems(s.used)
  {
    hide CachesOK, LiveOK, RefsOK, PagingOK, MappedOK, Homes, KeepsPages, PhysPages, Common, OnlyRangeSlabsGo;
    var gone := CascadeOf(s, t);
    CascadeIsUsed(s, t);
    assert x in Elems(s.used);
    FreeAndUsedTile(s);
    assert Common(s, t);
    SameBytes(s, t);
    FreeAndUsedTile(t);
    var rest := Elems(t.used);
    assert Elems(s.used) == rest + ({x} + gone);
    BytesUnion(rest, {x} + gone);
    BytesUnion({x}, gone);
    BytesOne(x);
    assert PairwiseCompat(Tiles(s));
    DisjointBytes(Tiles(s), rest, {x} + gone);
  }

  /** At the end of a run of range calls the pages that the caller holds, the free pages and the pages in use since
      before the run are apart, and no byte is lost: together they are what was under management at the start. */
  lemma RunConserves(s: State, t: State, mine: seq<Range>)
    requires Quiet(s) && OwnsRanges(s, t, mine)
    ensures Bytes(Elems(mine)) !! Bytes(Elems(t.free)) && Bytes(Elems(mine)) !! Bytes(HeldRanges(s))
    ensures Bytes(Elems(t.free)) + Bytes(Elems(mine)) + Bytes(Elems(t.used) - Elems(mine)) == Bytes(Tiles(s))
  {
    hide CachesOK, SlabsOK, LiveOK, RefsOK, PagingOK, MappedOK, Homes, KeepsPages, PhysPages, SameShapes;
    assert Elems(mine) <= HeldRanges(t) <= Elems(t.used);
    FreeAndUsedTile(t);
    assert Elems(t.used) == Elems(mine) + (Elems(t.used) - Elems(mine));
    BytesUnion(Elems(mine), Elems(t.used) - Elems(mine));
    assert PairwiseCompat(Tiles(t));
    DisjointBytes(Tiles(t), Elems(mine), Elems(t.free));
    DisjointBytes(Tiles(t), Elems(mine), HeldRanges(s));
  }

  lemma SameBytes(s: State, t: State)
    requires Common(s, t)
    ensures Bytes(Tiles(t)) == Bytes(Tiles(s)) && Inv(t)
  {
    hide Inv, Homes, KeepsPages, PhysPages, SameShapes;
  }

  lemma CascadeIsUsed(s: State, t: State)
    requires SlabsOK(s)
    ensures CascadeOf(s, t) <= Elems(s.used)
    ensures forall x :: x in CascadeOf(s, t) && x.slab == 0 ==> 0 in s.slabs
    ensures 0 !in s.slabs
  {
    forall sa | sa in s.slabs ensures RangeOf(s, sa) in s.used && sa != 0 {
      assert SlabOK(s, sa);
    }
  }

  // ---- When an allocation succeeds ----

  /** A cache that keeps no minimum gives an object whenever it has a free one, or one free range and the pool of
      physical pages have what a growth can need at most. */
  lemma AllocSucceeds(s: State, t: State, c: nat, obj: nat)
    requires Quiet(s) && c in s.caches && c != s.rc && s.caches[c].minFree == 0 && AllocDone(s, t, c, obj)
    requires CanPop(s, c) || (HasCaches(s, c) && Fits(s.free, MaxPages(s, c)) && |s.frames| >= MaxFrames(s, c))
    ensures obj != 0
  {
    hide Inv, Common, Held, HeldRanges, ObjectTaken, Fits, MaxPages, MaxFrames, GrowPages, GrowFrames;
    HeadIsEnough(s, c);
    ReadyCache(s, c);
    StarvedWithoutMinimum(s, c);
    GrowAtMost(s, c);
    if !CanPop(s, c) {
      FitsLess(s.free, MaxPages(s, c), GrowPages(s, c));
    }
  }

  // ---- What freeing an address that nobody holds does ----

  /** A slot that is on the free list already gets there a second time. */
  lemma FreedTwice(s: State, v: nat, sa: nat)
    requires Inv(s) && sa in s.slabs && v in s.slabs[sa].free
    ensures SlotOf(s, v, sa) && Pushable(s, sa) && v !in Held(s) && !SlabOK(Pushed(s, sa, v), sa)
  {
    hide Layout, LiveOK, RefsOK, PagingOK, MappedOK, Slots, Held;
    assert SlabOK(s, sa);
    FreeIsNotHeld(s, v, sa);
    var f := Pushed(s, sa, v).slabs[sa].free;
    var j := IndexOf(s.slabs[sa].free, v);
    assert f[0] == v && f[j + 1] == v;
  }

  lemma FreeIsNotHeld(s: State, v: nat, sa: nat)
    requires Inv(s) && sa in s.slabs && v in s.slabs[sa].free
    ensures v !in Held(s)
  {
    hide Inv;
    FreeIsNotLive(s, sa, v);
  }

  /** The structure of a range is put on a free list while the range is still in use. */
  lemma FreedStructure(s: State, v: nat, sa: nat)
    requires Inv(s) && SlotOf(s, v, sa) && v in Refs(Tiles(s))
    ensures Pushable(s, sa) && !RefsOK(Pushed(s, sa, v))
  {
    hide Layout, CachesOK, LiveOK, PagingOK, MappedOK, Slots;
    SlotIsPushable(s, sa, v);
    var t := Pushed(s, sa, v);
    var x :| x in Tiles(s) && x.ref == v;
    assert x in Tiles(t) && x.ref !in t.live;
  }

  /** The header of a slab is put on a free list while the slab is still in use. */
  lemma FreedHeader(s: State, v: nat, sa: nat)
    requires Inv(s) && SlotOf(s, v, sa) && v in OffSlabStructs(s)
    ensures Pushable(s, sa) && v in Pushed(s, sa, v).slabs && !SlabOK(Pushed(s, sa, v), v)
  {
    hide Layout, CachesOK, LiveOK, RefsOK, PagingOK, MappedOK, Slots;
    SlotIsPushable(s, sa, v);
    var t := Pushed(s, sa, v);
    assert t.slabs[v].cache == s.slabs[v].cache;
    assert !t.caches[t.slabs[v].cache].onSlab;
  }

  /** free_object keeps the invariants exactly when the object is held: the second free of an object, and the free
      of a range structure or slab header in use, are accepted and break them. */
  lemma FreedKeepsIff(s: State, v: nat, sa: nat)
    requires Inv(s) && SlotOf(s, v, sa)
    ensures Pushable(s, sa) && (Inv(Pushed(s, sa, v)) <==> v in Held(s))
  {
    hide Layout, CachesOK, LiveOK, RefsOK, PagingOK, MappedOK, Slots, SlabOK, Held, SlotOf;
    SlotIsPushable(s, sa, v);
    SlotCases(s, v, sa);
    if v in s.slabs[sa].free {
      FreedTwice(s, v, sa);
    } else if v in Refs(Tiles(s)) {
      FreedStructure(s, v, sa);
    } else if v in OffSlabStructs(s) {
      FreedHeader(s, v, sa);
    } else {
      PushIsFine(s, sa, v);
    }
  }

  lemma SlotCases(s: State, v: nat, sa: nat)
    requires Inv(s) && SlotOf(s, v, sa)
    ensures v !in s.slabs[sa].free ==> v in s.live && s.live[v] == sa
    ensures v in Held(s) <==> v !in s.slabs[sa].free && v !in Refs(Tiles(s)) && v !in OffSlabStructs(s)
  {
    hide Layout, CachesOK, SlabsOK, RefsOK, PagingOK, MappedOK, Slots;
    if v in s.slabs[sa].free {
      FreeIsNotHeld(s, v, sa);
    } else {
      assert IsLive(s, v, sa);
    }
  }

  // ---- The ranges made at boot ----

  /** kvmm_create_range: no range for less than a page. */
  function Created(ref: nat, base: nat, top: nat, slab: nat): Option<Range>
    requires base <= top
  {
    if top - base < PAGE_SIZE then None else Some(Range(ref, base, (top - base) / PAGE_SIZE, slab))
  }

  /** kvmm_setup makes a used range from the end of the bootstrap stack to the first slab of ranges, and one more for
      the page before that, the first slab of caches. They overlap whenever the first of them is made, that is when
      the stack ends no later than the kernel, so the range lists of the running kernel never meet `Layout`. */
  lemma SetupOverlaps(s: State, coreTop: Word, stackTop: nat, x: Option<Range>, y: Option<Range>)
    requires AlignSup(coreTop) > 0 && stackTop % PAGE_SIZE == 0 && stackTop <= AlignSup(coreTop) + PAGE_SIZE
    requires x.Some? ==> x == Created(x.value.ref, stackTop, AlignSup(coreTop) + PAGE_SIZE, 0) && x.value in s.used
    requires x.None? ==> x == Created(0, stackTop, AlignSup(coreTop) + PAGE_SIZE, 0)
    requires y.Some? && y == Created(y.value.ref, AlignSup(coreTop), AlignSup(coreTop) + PAGE_SIZE, y.value.slab)
    requires y.value in s.used && (x.Some? ==> x.value.ref != y.value.ref)
    ensures x.Some? <==> stackTop <= AlignSup(coreTop)
    ensures stackTop <= AlignSup(coreTop) ==> !Layout(s)
  {
    AlignSupIsEnough(coreTop);
    if x.Some? {
      assert x.value in Tiles(s) && y.value in Tiles(s);
      assert !Compat(x.value, y.value);
    }
  }

  // ---- A well-formed start ----

  const FIRST_SLAB: nat := 0x5000 - SIZEOF_KSLAB
  const RANGE_SIZE: nat := 20
  const RANGES_PER_SLAB: nat := 203

  const RANGE_CACHE: Cache := Cache(RANGE_SIZE, RANGES_PER_SLAB, 1, 2, true, true, 0, [])
  const HEADER_CACHE: Cache := Cache(SIZEOF_KSLAB, 145, 1, 0, true, true, 0, [])

  /** Kmalloc_setup asks for a cache of every size with so many pages per slab, and gets these: only the two
      smallest sizes leave room for the header of a slab beside its objects. */
  function KmallocCache(i: nat): Cache
    requires i < |SIZES|
  {
    match i
    case 0 => Cache(8, 508, 1, 0, true, true, 0, [])
    case 1 => Cache(16, 254, 1, 0, true, true, 0, [])
    case 2 => Cache(32, 128, 1, 0, false, true, 0, [])
    case 3 => Cache(64, 64, 1, 0, false, true, 0, [])
    case 4 => Cache(128, 32, 1, 0, false, true, 0, [])
    case 5 => Cache(256, 32, 2, 0, false, true, 0, [])
    case 6 => Cache(1024, 8, 2, 0, false, true, 0, [])
    case 7 => Cache(2048, 6, 3, 0, false, true, 0, [])
    case 8 => Cache(4096, 4, 4, 0, false, true, 0, [])
    case 9 => Cache(8192, 4, 8, 0, false, true, 0, [])
    case _ => Cache(16384, 3, 12, 0, false, true, 0, [])
  }

  const SLAB_PAGES: seq<nat> := [1, 1, 1, 1, 1, 2, 2, 3, 4, 8, 12]

  lemma CacheFits(size: Word, nb: nat, pages: nat, onSlab: bool)
    requires SlabGeometry.SIZEOF_FREE_OBJ <= size <= 16384 && size % 4 == 0 && nb > 0
    requires var header := if size <= SIZEOF_KSLAB then SIZEOF_KSLAB else 0;
             nb * size + header <= pages * PAGE_SIZE < nb * size + size + header
    requires onSlab <==> nb * size + SIZEOF_KSLAB <= pages * PAGE_SIZE
    ensures var c := Cache(size, nb, pages, 0, onSlab, true, 0, []);
            SlabGeometry.Fitted(c, size, pages, 0, false, true) && Shaped(c)
  {
    hide SlabGeometry.AlignedSize;
    SlabGeometry.AlignedSizeWraps(size);
    assert (nb + 1) * size == nb * size + size;
  }

  /** It is what init_cache makes of the parameters. */
  lemma KmallocCacheFits(i: nat)
    requires i < |SIZES|
    ensures SlabGeometry.Fitted(KmallocCache(i), SIZES[i], SLAB_PAGES[i], 0, false, true) && Shaped(KmallocCache(i))
    ensures KmallocCache(i).objSize == SIZES[i] && KmallocCache(i).minFree == 0 && KmallocCache(i).mapNow
    ensures KmallocCache(i).slabList == [] && KmallocCache(i).nbFreeObj == 0
  {
    hide SlabGeometry.Fitted, Shaped, SlabGeometry.AlignedSize;
    match i
    case 0 => CacheFits(8, 508, 1, true);
    case 1 => CacheFits(16, 254, 1, true);
    case 2 => CacheFits(32, 128, 1, false);
    case 3 => CacheFits(64, 64, 1, false);
    case 4 => CacheFits(128, 32, 1, false);
    case 5 => CacheFits(256, 32, 2, false);
    case 6 => CacheFits(1024, 8, 2, false);
    case 7 => CacheFits(2048, 6, 3, false);
    case 8 => CacheFits(4096, 4, 4, false);
    case 9 => CacheFits(8192, 4, 8, false);
    case _ => CacheFits(16384, 3, 12, false);
  }

  lemma FirstCachesFit()
    ensures SlabGeometry.Fitted(RANGE_CACHE, RANGE_SIZE, 1, 2, true, true) && Shaped(RANGE_CACHE)
    ensures SlabGeometry.Fitted(HEADER_CACHE, SIZEOF_KSLAB, 1, 0, false, true) && Shaped(HEADER_CACHE)
  {}

  const RC: nat := |SIZES|
  const KC: nat := RC + 1

  ghost function StartCache(c: nat): Cache
    requires c <= KC
  {
    if c < RC then KmallocCache(c)
    else if c == RC then RANGE_CACHE.(nbFreeObj := RANGES_PER_SLAB - 2, slabList := [FIRST_SLAB])
    else HEADER_CACHE
  }

  ghost function StartTable(): seq<nat> {
    seq(|SIZES|, i => i)
  }

  /** One slab of range structures in one page frame, holding its own range and that of `pages` free pages after it,
      the cache of off-slab headers and the caches of kmalloc. */
  ghost function StartState(pages: nat, frame: nat, frames: set<nat>): State {
    var objs := ObjectsOf(0x4000, RANGE_SIZE, RANGES_PER_SLAB);
    State([Range(objs[1], 0x5000, pages, 0)], [Range(objs[0], 0x4000, 1, FIRST_SLAB)], {},
          map[FIRST_SLAB := Slab(RC, objs[0], 0x4000, objs[2..], RANGES_PER_SLAB - 2)],
          map c: nat | c <= KC :: StartCache(c),
          map[objs[0] := FIRST_SLAB, objs[1] := FIRST_SLAB], map[0x4000 := frame], map[frame := objs[0]], frames, RC, KC)
  }

  /** Such a state meets every invariant and is ready for kmalloc, so runs of the allocator have somewhere to start. */
  lemma StartIsQuiet(pages: nat, frame: nat, frames: set<nat>)
    requires pages <= 0x3_FFFB && 0 !in frames && frame > 0 && frame !in frames
    ensures Quiet(StartState(pages, frame, frames)) && KmallocReady(StartState(pages, frame, frames), StartTable())
  {
    hide *;
    StartIsReady(pages, frame, frames);
    StartLayout(pages, frame, frames);
    StartSlab(pages, frame, frames);
    StartObjects(pages, frame, frames);
    StartRest(pages, frame, frames);
    QuietParts(StartState(pages, frame, frames));
  }

  lemma QuietParts(s: State)
    requires Linked(s) && Layout(s) && CachesOK(s) && SlabsOK(s) && LiveOK(s) && RefsOK(s) && PagingOK(s)
    requires MappedOK(s) && s.hand == {} && |s.free| <= 1
    ensures Quiet(s)
  {
    hide Layout, CachesOK, SlabsOK, LiveOK, RefsOK, PagingOK, MappedOK;
  }

  /** The objects after the first two are free; the two are the structures of the two ranges. */
  lemma FirstTwo(objs: seq<nat>)
    requires objs == ObjectsOf(0x4000, RANGE_SIZE, RANGES_PER_SLAB)
    ensures Distinct(objs) && |objs| == RANGES_PER_SLAB && Distinct(objs[2..])
    ensures forall v :: v in objs <==> v == objs[0] || v == objs[1] || v in objs[2..]
    ensures objs[0] !in objs[2..] && objs[1] !in objs[2..] && objs[0] != objs[1]
  {
    ObjectsDistinct(0x4000, RANGE_SIZE, RANGES_PER_SLAB);
    hide ObjectsOf;
    assert objs == objs[..2] + objs[2..];
    assert forall v :: v in objs[..2] <==> v == objs[0] || v == objs[1];
  }

  lemma StartLayout(pages: nat, frame: nat, frames: set<nat>)
    requires pages <= 0x3_FFFB
    ensures Layout(StartState(pages, frame, frames))
  {
    var s := StartState(pages, frame, frames);
    FirstTwo(ObjectsOf(0x4000, RANGE_SIZE, RANGES_PER_SLAB));
    hide ObjectsOf;
    assert Tiles(s) == {s.free[0], s.used[0]};
  }

  lemma StartIsReady(pages: nat, frame: nat, frames: set<nat>)
    ensures KmallocReady(StartState(pages, frame, frames), StartTable())
  {
    hide ObjectsOf, KmallocCache;
    forall i | 0 <= i < |SIZES| ensures StartCache(i).objSize == SIZES[i] && StartCache(i).minFree == 0 && StartCache(i).mapNow {
      KmallocCacheFits(i);
    }
  }

  lemma StartSlab(pages: nat, frame: nat, frames: set<nat>)
    ensures var s := StartState(pages, frame, frames);
            Linked(s) && CachesOK(s) && SlabsOK(s) && Reserve(s) >= 2
  {
    var s := StartState(pages, frame, frames);
    FirstCachesFit();
    forall i | 0 <= i < |SIZES| ensures Shaped(StartCache(i)) && StartCache(i).slabList == [] && StartCache(i).nbFreeObj == 0 {
      KmallocCacheFits(i);
    }
    hide KmallocCache;
    FirstTwo(ObjectsOf(0x4000, RANGE_SIZE, RANGES_PER_SLAB));
    assert Slots(s, FIRST_SLAB) == ObjectsOf(0x4000, RANGE_SIZE, RANGES_PER_SLAB);
    hide ObjectsOf, Slots;
    assert SumFree([FIRST_SLAB], s.slabs) == RANGES_PER_SLAB - 2;
    assert SumFree([], s.slabs) == 0;
  }

  lemma StartObjects(pages: nat, frame: nat, frames: set<nat>)
    ensures var s := StartState(pages, frame, frames); Linked(s) && LiveOK(s)
  {
    var s := StartState(pages, frame, frames);
    var objs := ObjectsOf(0x4000, RANGE_SIZE, RANGES_PER_SLAB);
    FirstTwo(objs);
    assert Slots(s, FIRST_SLAB) == objs;
    hide ObjectsOf, Slots, Distinct;
    forall sa, v | sa in s.slabs && v in Slots(s, sa) && v !in s.slabs[sa].free ensures IsLive(s, v, sa) {}
  }

  lemma StartRest(pages: nat, frame: nat, frames: set<nat>)
    requires 0 !in frames && frame > 0 && frame !in frames
    ensures var s := StartState(pages, frame, frames); MappedOK(s) && RefsOK(s) && PagingOK(s) && s.hand == {} && |s.free| <= 1
  {
    var s := StartState(pages, frame, frames);
    assert Tiles(s) == {s.free[0], s.used[0]};
  }
}
