/** What each operation of the kernel memory stack promises, in terms of the state before and after it. */
module KernelContracts {
  import opened Seqs
  import opened KernelState
  import opened Words
  import opened Wrappers
  import opened SlabLemmas
  import opened SlabBinding
  import opened RangeMoves
  import opened PagingLemmas
  import opened PageContents
  import opened AllocationCosts

  /** What every operation keeps: the invariants, the cache parameters, the bytes under management, the physical
      pages, the cache of every held object, and the frames under everything that stays held. */
  ghost predicate Common(s: State, t: State) {
    && Inv(t) && SameShapes(s, t) && Bytes(Tiles(t)) == Bytes(Tiles(s)) && Homes(s, t)
    && KeepsPages(s, t) && PhysPages(t) == PhysPages(s)
  }

  lemma CommonTrans(s: State, m: State, t: State)
    requires Common(s, m) && Common(m, t)
    requires Held(s) * Held(t) <= Held(m) && HeldRanges(s) * HeldRanges(t) <= HeldRanges(m)
    ensures Common(s, t)
  {
    hide Inv, KeepsPages, Held, HeldRanges, Bytes, Tiles, InCache, PhysPages;
    LiveParts(m);
    KeepsPagesTrans(s, m, t);
    forall c | c in s.caches ensures Shape(s.caches[c]) == Shape(t.caches[c]) {
      assert Shape(s.caches[c]) == Shape(m.caches[c]);
    }
  }

  lemma LiveParts(s: State)
    requires Inv(s)
    ensures Linked(s) && LiveOK(s)
  {
    hide Layout, CachesOK, SlabsOK, LiveOK, RefsOK, PagingOK, MappedOK;
  }

  // ---- Contracts ----

  /** One turn of the do/while loop: `cur` is free, and the ranges emptied on the way wait their turn. */
  ghost predicate Turn(s: State, t: State, cur: Range, waiting: seq<Range>, waiting': seq<Range>) {
    && Common(s, t) && Gapped(t.free) && Held(t) == Held(s) && HeldRanges(t) == HeldRanges(s)
    && t.hand == Elems(waiting') && Distinct(waiting') && |t.used| + |waiting'| == |s.used| + |waiting|
    && Linked(s) && OnlyRangeSlabsGo(s, t) && Elems(t.used) == Elems(s.used) - CascadeOf(s, t)
    && MinReserve(s, t, if TouchesNext(s.free, cur) then 1 else 0)
  }

  /** One piece of work of kvmm_del_range: `more` new ranges are in hand, each from a slab that disappeared. */
  ghost predicate Stepped(s: State, t: State, more: set<Range>) {
    && Common(s, t) && Held(t) == Held(s) && HeldRanges(t) == HeldRanges(s)
    && |t.used| + |more| == |s.used|
    && Linked(s) && OnlyRangeSlabsGo(s, t) && Elems(t.used) == Elems(s.used) - CascadeOf(s, t)
  }

  /** The loop of kvmm_del_range: what is in hand is the current range and the ranges that wait. */
  ghost predicate Working(s: State, m: State, x: Range, cur: Range, waiting: seq<Range>, more: bool) {
    && Inv(m) && Gapped(m.free) && Deleting(s, m, x)
    && Distinct(waiting) && (if more then cur !in waiting else waiting == [])
    && m.hand == Elems(waiting) + (if more then {cur} else {})
    && MinReserve(s, m, if TouchesNext(s.free, x) && !(cur == x && m.free == s.free && more) then 1 else 0)
  }

  /** The range is free again, and so are the ranges of the slabs of structures that became empty. */
  ghost predicate Deleted(s: State, t: State, x: Range) {
    Quiet(t) && Deleting(s, t, x)
  }

  ghost predicate Deleting(s: State, t: State, x: Range) {
    && Common(s, t) && Held(t) == Held(s) && HeldRanges(t) == HeldRanges(s) - {x}
    && Linked(s) && OnlyRangeSlabsGo(s, t) && Elems(t.used) == Elems(s.used) - {x} - CascadeOf(s, t)
  }

  /** A cache may allocate: the reserve of range structures is at least two, or one while it is being restored. */
  ghost predicate Ready(s: State, c: nat) {
    && c in s.caches && s.rc in s.caches
    && (if c == s.rc then Reserve(s) >= 1 else Reserve(s) >= 2)
  }

  /** How deep an allocation may still nest. */
  ghost function Level(s: State, c: nat): nat {
    if c == s.rc then (if s.rc in s.caches && Reserve(s) >= 2 then 1 else 0) else if c == s.kc then 2 else 3
  }

  ghost predicate Obtained(s: State, t: State, c: nat, obj: nat) {
    && Common(s, t) && Held(t) == Held(s) + {obj} && obj !in Held(s) && HeldRanges(t) == HeldRanges(s)
    && InCache(t, obj, c) && obj > 0
  }

  ghost function SlabCount(s: State): nat
    requires s.rc in s.caches
  {
    |s.caches[s.rc].slabList|
  }

  /** Success adds exactly one held object, failure none, and the reserve is at two again either way. The answer
      is 0 only when the cache had to grow and there was too little to grow it. */
  ghost predicate AllocDone(s: State, t: State, c: nat, obj: nat) {
    && Quiet(t) && Common(s, t) && HeldRanges(t) == HeldRanges(s)
    && (if obj == 0 then Held(t) == Held(s) else obj !in Held(s) && Held(t) == Held(s) + {obj} && InCache(t, obj, c))
    && s.rc in s.caches && t.rc in t.caches && (Reserve(s) >= 2 ==> Reserve(t) >= 2)
    && if c == s.rc then RangeStructTaken(s, t, obj) else if obj == 0 then Starved(s, c) else ObjectTaken(s, t, c)
  }

  /** In the cache of range structures: nothing is grown while the reserve is being restored, and otherwise at
      most one slab, of one page. */
  ghost predicate RangeStructTaken(s: State, t: State, obj: nat)
    requires s.rc in s.caches && t.rc in t.caches
  {
    && (Reserve(s) == 1 ==> obj != 0 && Reserve(t) == 0 && t.free == s.free && t.frames == s.frames)
    && (obj != 0 ==> SlabCount(t) == SlabCount(s) + Extra(s) && Used(s, t, Extra(s), Extra(s)) && SameCaches(s, t, {s.rc}))
    && (obj == 0 ==> Reserve(s) == 2 && !(Fits(s.free, 1) && |s.frames| >= 1))
  }

  /** In any other cache: its count of free objects tells how often it grew, and nothing else moved if it did not. */
  ghost predicate ObjectTaken(s: State, t: State, c: nat) {
    && HasCaches(s, c) && c in t.caches && SameCaches(s, t, {s.rc, s.kc, c})
    && var g := Grows(s.caches[c]);
       && t.caches[c].nbFreeObj + 1 == s.caches[c].nbFreeObj + g * s.caches[c].nbObj
       && (g == 0 ==> SameRanges(s, t))
       && Used(s, t, g * MaxPages(s, c), g * MaxFrames(s, c))
  }

  /** `x` is the front of the first free range that is large enough, behind at most the `extra` pages that another
      allocation took from there meanwhile. */
  ghost predicate FirstFit(l: seq<Range>, n: nat, x: Range, extra: nat) {
    exists i :: FirstAt(l, n, x, extra, i)
  }

  ghost predicate FirstAt(l: seq<Range>, n: nat, x: Range, extra: nat, i: int) {
    && 0 <= i < |l| && l[i].pages >= n && (forall j :: 0 <= j < i ==> l[j].pages < n)
    && (x.base == l[i].base || x.base == l[i].base + extra * PAGE_SIZE) && x.End() <= l[i].End()
  }

  ghost predicate GrowDone(s: State, t: State, c: nat, ok: bool) {
    && Quiet(t) && Common(s, t) && HeldRanges(t) == HeldRanges(s) && Held(t) == Held(s) && (ok ==> CanPop(t, c))
    && s.rc in s.caches && t.rc in t.caches && (Reserve(s) >= 2 ==> Reserve(t) >= 2)
    && if c == s.rc then RangeSlabGrown(s, t, ok) else if ok then SlabGrown(s, t, c) else CannotGrow(s, c)
  }

  ghost predicate RangeSlabGrown(s: State, t: State, ok: bool)
    requires s.rc in s.caches && t.rc in t.caches
  {
    if ok then Reserve(t) >= 2 && SlabCount(t) == SlabCount(s) + 1 && Used(s, t, 1, 1) && SameCaches(s, t, {s.rc})
    else Reserve(t) >= 1 && !(Fits(s.free, 1) && |s.frames| >= 1)
  }

  ghost predicate SlabGrown(s: State, t: State, c: nat) {
    && HasCaches(s, c) && c in t.caches && SameCaches(s, t, {s.rc, s.kc, c})
    && t.caches[c].nbFreeObj == s.caches[c].nbFreeObj + s.caches[c].nbObj
    && Used(s, t, MaxPages(s, c), MaxFrames(s, c))
  }

  ghost predicate RangeTaken(s: State, t: State, n: nat, r: Option<Range>) {
    && Quiet(t) && Common(s, t) && Held(t) == Held(s) && s.rc in s.caches && t.rc in t.caches
    && HeldRanges(t) == HeldRanges(s) + Opt(r) && Opt(r) !! HeldRanges(s)
    && (Reserve(s) >= 2 ==> Reserve(t) >= 2)
    && (r.Some? ==> r.value.pages == n && FirstFit(s.free, n, r.value, Extra(s))
                    && Used(s, t, n + Extra(s), Extra(s)) && SameCaches(s, t, {s.rc}) && Bare(t, r.value))
    && (r.None? ==> !(Fits(s.free, n) && |s.frames| >= Extra(s)))
    && (r.None? && Reserve(s) == 1 ==> Reserve(t) >= 1)
    && (r.Some? && Reserve(s) == 1 ==> SlabCount(t) == SlabCount(s) && (Reserve(t) >= 1 || TouchesNext(t.free, r.value)))
  }

  /** A range comes from the first fit and is mapped if asked. */
  ghost predicate NewDone(s: State, t: State, n: nat, mapNow: bool, r: Option<Range>) {
    && Quiet(t) && Common(s, t) && Held(t) == Held(s) && s.rc in s.caches && t.rc in t.caches
    && HeldRanges(t) == HeldRanges(s) + Opt(r) && Opt(r) !! HeldRanges(s)
    && (Reserve(s) >= 2 ==> Reserve(t) >= 2)
    && (r.Some? ==> r.value.pages == n && n > 0 && FirstFit(s.free, n, r.value, Extra(s))
                    && if mapNow then FreshlyMapped(s, t, r.value) else Bare(t, r.value))
    && (r.Some? ==> Used(s, t, n + Extra(s), (if mapNow then n else 0) + Extra(s)) && SameCaches(s, t, {s.rc}))
    && (r.None? ==> CannotTake(s, n, mapNow))
    && (Reserve(s) == 1 ==> if r.Some? then SlabCount(t) == SlabCount(s) else Reserve(t) >= 1)
  }

  /** Why there is no new range: no page was asked for, no free range is large enough, or there are too few
      physical pages for its own pages and for the slab of range structures that it may call for. */
  ghost predicate CannotTake(s: State, n: nat, mapNow: bool)
    requires s.rc in s.caches
  {
    n == 0 || !Fits(s.free, n) || |s.frames| < (if mapNow then n else 0) + Extra(s)
  }

  /** Only the page table, the owners and the pool of frames changed. */
  ghost predicate Mapped(s: State, t: State) {
    && Inv(t) && Common(s, t) && Held(t) == Held(s) && HeldRanges(t) == HeldRanges(s)
    && t == s.(pt := t.pt, owner := t.owner, frames := t.frames)
  }

  /** The reserve of free range structures is back at two, or at least `k` larger than before. */
  ghost predicate MinReserve(s: State, t: State, k: nat) {
    && s.rc in s.caches && t.rc in t.caches
    && (Reserve(t) >= 2 || Reserve(t) >= Reserve(s) + k)
  }

  /** Slab `sa` is gone and its range is bound to nothing. */
  ghost predicate SlabGone(s: State, t: State, sa: nat, range: Range) {
    && Removable(s, sa) && t == SlabRemoved(s, sa) && range == RangeOf(s, sa).(slab := 0)
  }

  /** The ranges of the slabs that disappear between two states. */
  ghost function CascadeOf(s: State, t: State): set<Range>
    requires Linked(s)
  {
    set sa | sa in s.slabs && sa !in t.slabs :: RangeOf(s, sa)
  }

  /** Slabs may only disappear, and only those of range structures. */
  ghost predicate OnlyRangeSlabsGo(s: State, t: State) {
    && t.slabs.Keys <= s.slabs.Keys
    && (forall sa :: sa in t.slabs ==> t.slabs[sa].cache == s.slabs[sa].cache && t.slabs[sa].range == s.slabs[sa].range
                                       && t.slabs[sa].first == s.slabs[sa].first)
    && (forall sa :: sa in s.slabs && sa !in t.slabs ==> s.slabs[sa].cache == s.rc)
  }

  ghost function Opt(e: Option<Range>): set<Range> {
    if e.Some? then {e.value} else {}
  }

  ghost predicate StructReleased(s: State, t: State, e: Option<Range>) {
    && Linked(s) && OnlyRangeSlabsGo(s, t) && |t.used| == |s.used|
    && HeldRanges(t) == HeldRanges(s) + Opt(e) && Opt(e) !! Elems(s.used)
    && Elems(t.used) == Elems(s.used) - CascadeOf(s, t) + Opt(e)
    && (e.None? ==> t.slabs.Keys == s.slabs.Keys)
  }

  ghost predicate Pushable(s: State, sa: nat) {
    sa in s.slabs && s.slabs[sa].cache in s.caches && sa in s.caches[s.slabs[sa].cache].slabList
  }

  /** Giving `v` back makes its slab empty, and the cache keeps enough free objects without that slab. */
  ghost predicate Empties(s: State, v: nat) {
    v in s.live && EmptiesSlab(s, v, s.live[v])
  }

  /** Freeing the address does not make a slab look empty because of a slot that nobody holds. */
  ghost predicate NoWrongRelease(s: State, v: nat) {
    v in Held(s) || forall sa :: SlotOf(s, v, sa) ==> !EmptiesSlab(s, v, sa)
  }

  /** kvmm_cache_free on an object that a caller holds. */
  ghost predicate ObjectReturned(s: State, t: State, v: nat) {
    && Common(s, t) && Quiet(t) && Held(t) == Held(s) - {v} && HeldRanges(t) == HeldRanges(s)
    && t.slabs.Keys <= s.slabs.Keys && v in s.live && (s.live[v] !in t.slabs <==> Empties(s, v))
    && MinReserve(s, t, if InCache(s, v, s.rc) then 1 else 0)
  }

  /** kvmm_cache_free on any other address: its slot, if it is one, is put on the free list. */
  ghost predicate WronglyFreed(s: State, t: State, v: nat) {
    && (!IsSlot(s, v) ==> t == s)
    && (forall sa :: SlotOf(s, v, sa) ==> Pushable(s, sa) && t == Pushed(s, sa, v))
  }

  ghost predicate EmptiesSlab(s: State, v: nat, sa: nat) {
    Pushable(s, sa) && Releasable(Pushed(s, sa, v), sa)
  }

  /** free_object on an object that a caller holds. */
  ghost predicate HeldFreed(s: State, t: State, v: nat, emptySlab: nat) {
    PushedFrom(s, t, v) && s.live[v] > 0 && emptySlab == (if Empties(s, v) then s.live[v] else 0)
  }

  /** free_object: any slot goes to the front of the free list of its slab, whatever it was before; the slab is
      named when it can be released. Any other address is refused. */
  ghost predicate ObjectFreed(s: State, t: State, v: nat, err: int, emptySlab: nat) {
    && (err == 0 <==> IsSlot(s, v))
    && (err != 0 ==> err == -3 && emptySlab == 0 && t == s)
    && forall sa: nat :: SlotOf(s, v, sa) ==>
         Pushable(s, sa) && t == Pushed(s, sa, v) && emptySlab == if EmptiesSlab(s, v, sa) then sa else 0
  }

  /** `v` went back to its slab and nothing else changed. */
  ghost predicate PushedFrom(s: State, t: State, v: nat) {
    && v in s.live && Common(s, t) && Held(t) == Held(s) - {v} && HeldRanges(t) == HeldRanges(s)
    && Pushable(s, s.live[v]) && t == Pushed(s, s.live[v], v)
    && SameRanges(s, t) && SamePlaces(s, t) && Linked(s) && s.live[v] in s.slabs
    && (forall c :: c in s.caches ==>
          t.caches[c].nbFreeObj == s.caches[c].nbFreeObj + (if c == s.slabs[s.live[v]].cache then 1 else 0))
  }

  /** The slab that was given an object back is named when all its objects are free and the cache keeps its minimum
      without it. */
  ghost predicate NamesEmpty(t: State, sa: nat, emptySlab: nat) {
    && sa in t.slabs && t.slabs[sa].cache in t.caches
    && var b, k := t.slabs[sa], t.caches[t.slabs[sa].cache];
       emptySlab == if b.nbFree >= k.nbObj && k.nbFreeObj >= b.nbFree + k.minFree then sa else 0
  }

  /** free_object's test: the slab is empty and the cache keeps enough free objects without it. */
  ghost predicate Releasable(s: State, sa: nat) {
    && Linked(s) && sa in s.slabs && Empty(s, sa)
    && s.caches[s.slabs[sa].cache].nbFreeObj >= s.slabs[sa].nbFree + s.caches[s.slabs[sa].cache].minFree
  }

  // ---- Lemmas about objects ----

  /** A page mapped at the address belongs to a range in use, as lookup_range expects. */
  ghost predicate Resolvable(s: State, v: nat) {
    PageOf(v) in s.pt ==> exists u :: u in s.used && u.Covers(v)
  }

  /** The address is where an object of a slab starts, allocated or not. */
  ghost predicate IsSlot(s: State, v: nat) {
    exists sa :: SlotOf(s, v, sa)
  }

  ghost predicate SlotOf(s: State, v: nat, sa: nat) {
    sa in s.slabs && s.slabs[sa].cache in s.caches && v in Slots(s, sa)
  }

  /** Every address under management can be resolved. */
  lemma ManagedIsResolvable(s: State, v: nat)
    requires Inv(s) && s.hand == {} && v in Bytes(Tiles(s))
    ensures Resolvable(s, v)
  {
    hide CachesOK, SlabsOK, LiveOK, RefsOK, MappedOK;
    var x :| x in Tiles(s) && v in x.Span();
    assert InBounds(x);
    PageInRange(x, v);
    if x in s.free {
      assert PageOf(v) !in s.pt;
    } else {
      assert x in s.used;
    }
  }

  /** The address of a slot is covered by the range of its slab. */
  lemma SlotIsUsed(s: State, v: nat, sa: nat)
    requires Inv(s) && SlotOf(s, v, sa)
    ensures RangeOf(s, sa) in s.used && RangeOf(s, sa).slab == sa && RangeOf(s, sa).Covers(v) && sa > 0 && Resolvable(s, v)
  {
    hide Layout, LiveOK, RefsOK, PagingOK, MappedOK;
    assert SlabOK(s, sa);
    SlotInside(s, sa, v);
  }

  lemma NotReleased(s: State, t: State, v: nat, emptySlab: nat)
    requires v !in Held(s) && NoWrongRelease(s, v) && ObjectFreed(s, t, v, 0, emptySlab)
    ensures WronglyFreed(s, t, v) && emptySlab == 0
  {
    hide Held, Slots, Pushed, EmptiesSlab;
  }

  lemma HeldIsSlot(s: State, v: nat)
    requires Inv(s) && v in Held(s)
    ensures v in s.live && SlotOf(s, v, s.live[v]) && IsSlot(s, v) && Resolvable(s, v)
  {
    hide Layout, CachesOK, SlabsOK, RefsOK, PagingOK, MappedOK;
    assert SlotOf(s, v, s.live[v]);
    SlotIsUsed(s, v, s.live[v]);
  }

  /** The range found for an address decides whether it is a slot, and free_object's two tests accept slots. */
  lemma OwnerOfAddress(s: State, v: nat, r: Option<Range>)
    requires Inv(s) && (r.Some? ==> r.value in s.used && r.value.Covers(v))
    requires r.None? ==> forall u :: u in s.used ==> !u.Covers(v)
    ensures r.None? || r.value.slab == 0 ==> !IsSlot(s, v)
    ensures r.Some? && r.value.slab != 0 ==>
              var sa := r.value.slab;
              && sa in s.slabs && s.slabs[sa].cache in s.caches
              && (forall sb :: SlotOf(s, v, sb) ==> sb == sa)
              && var b := s.slabs[sa]; var k := s.caches[b.cache];
              && k.objSize > 0 && b.first <= v
              && (IsSlot(s, v) <==> (v - b.first) % k.objSize == 0 && (v - b.first) / k.objSize < k.nbObj)
  {
    hide LiveOK, RefsOK, PagingOK, MappedOK, Slots;
    forall sb | SlotOf(s, v, sb) ensures r.Some? && r.value.slab == sb && sb != 0 {
      SlotIsUsed(s, v, sb);
      OneUsedCovers(s, r.value, RangeOf(s, sb), v);
    }
    if r.Some? && r.value.slab != 0 {
      var sa := r.value.slab;
      assert SlabOfRange(s, r.value) && CacheOK(s, s.slabs[sa].cache);
      SlotTest(s, sa, v);
    }
  }

  lemma SlotIsOwned(s: State, v: nat, sa: nat)
    requires IsSlot(s, v) && forall sb :: SlotOf(s, v, sb) ==> sb == sa
    ensures SlotOf(s, v, sa)
  {
    hide SlotOf;
  }

  lemma SlotTest(s: State, sa: nat, v: nat)
    requires sa in s.slabs && s.slabs[sa].cache in s.caches && s.caches[s.slabs[sa].cache].objSize > 0 && s.slabs[sa].first <= v
    ensures var b := s.slabs[sa]; var k := s.caches[b.cache];
            SlotOf(s, v, sa) <==> (v - b.first) % k.objSize == 0 && (v - b.first) / k.objSize < k.nbObj
  {
    IsObject(s.slabs[sa].first, s.caches[s.slabs[sa].cache].objSize, s.caches[s.slabs[sa].cache].nbObj, v);
  }

  /** A slot can be put on the free list of its slab, whether or not that is right; the unsigned subtraction in
      free_object's test never wraps. */
  lemma SlotIsPushable(s: State, sa: nat, v: nat)
    requires Inv(s) && SlotOf(s, v, sa)
    ensures Pushable(s, sa) && sa > 0
    ensures var t := Pushed(s, sa, v);
            Linked(t) && sa in t.slabs && t.caches[t.slabs[sa].cache].nbFreeObj >= t.slabs[sa].nbFree
  {
    SlabCounted(s, sa);
  }

  lemma PushedHomes(s: State, sa: nat, v: nat)
    requires Linked(s) && sa in s.slabs && s.slabs[sa].cache in s.caches && sa in s.caches[s.slabs[sa].cache].slabList
    ensures Homes(s, Pushed(s, sa, v))
  {
    forall w, c | w in Held(s) && w in Held(Pushed(s, sa, v)) && InCache(s, w, c)
      ensures InCache(Pushed(s, sa, v), w, c)
    {}
  }

  lemma PushIsFine(s: State, sa: nat, v: nat)
    requires Inv(s) && v in Held(s) && s.live[v] == sa
    ensures sa in s.slabs && s.slabs[sa].cache in s.caches && sa in s.caches[s.slabs[sa].cache].slabList
    ensures var t := Pushed(s, sa, v); Inv(t) && PushedFrom(s, t, v)
  {
    hide Layout, CachesOK, SlabsOK, LiveOK, RefsOK, PagingOK, MappedOK, Held, HeldRanges, SameShapes, Homes, KeepsPages, PhysPages;
    PushKeeps(s, sa, v);
    PushedHomes(s, sa, v);
    SamePages(s, Pushed(s, sa, v));
    HeldIsLive(s, v);
    assert Tiles(Pushed(s, sa, v)) == Tiles(s);
  }

  lemma HeldIsLive(s: State, v: nat)
    requires v in Held(s)
    ensures v in s.live
  {}

  lemma NotFreed(s: State, v: nat)
    requires !IsSlot(s, v)
    ensures ObjectFreed(s, s, v, -3, 0)
  {
    hide Slots;
  }

  /** The slot is on the free list of its slab, and the last test of free_object has told whether to release it. */
  lemma SlotFreed(s: State, v: nat, sa: nat, emptySlab: nat)
    requires Inv(s) && SlotOf(s, v, sa) && forall sb :: SlotOf(s, v, sb) ==> sb == sa
    requires Pushable(s, sa) && Linked(Pushed(s, sa, v)) && sa in Pushed(s, sa, v).slabs
    requires var t := Pushed(s, sa, v); var b := t.slabs[sa]; var k := t.caches[b.cache];
             emptySlab == if b.nbFree >= k.nbObj && k.nbFreeObj >= b.nbFree + k.minFree then sa else 0
    ensures ObjectFreed(s, Pushed(s, sa, v), v, 0, emptySlab)
    ensures v in Held(s) ==> HeldFreed(s, Pushed(s, sa, v), v, emptySlab)
  {
    hide Inv, Held, Slots, PushedFrom, SlotOf;
    assert IsSlot(s, v);
    if v in Held(s) {
      HeldIsSlot(s, v);
      SlotIsPushable(s, sa, v);
      PushIsFine(s, sa, v);
    }
  }

  lemma RemovedHomes(s: State, sa: nat)
    requires Inv(s) && Removable(s, sa) && Empty(s, sa)
    ensures Homes(s, SlabRemoved(s, sa))
  {
    hide Layout, RefsOK, PagingOK, MappedOK;
    var t := SlabRemoved(s, sa);
    forall v, c | v in Held(s) && v in Held(t) && InCache(s, v, c) ensures InCache(t, v, c) {
      EmptyHasNoLive(s, sa, v);
    }
  }

  lemma RemovedReserve(s: State, sa: nat)
    requires CachesOK(s) && Releasable(s, sa) && Removable(s, sa)
    ensures MinReserve(s, SlabRemoved(s, sa), 0)
  {}

  /** An object of a cache that keeps its slab headers on the slabs. */
  ghost predicate OnSlabObject(s: State, v: nat) {
    v in s.live && s.live[v] in s.slabs && s.slabs[s.live[v]].cache in s.caches
    && s.caches[s.slabs[s.live[v]].cache].onSlab
  }

  lemma HeaderIsOnSlabObject(s: State, sa: nat)
    requires CachesOK(s) && SlabsOK(s) && Removable(s, sa)
    ensures sa in OffSlabStructs(s) ==> OnSlabObject(SlabRemoved(s, sa), sa)
    ensures sa in OffSlabStructs(s) <==> !s.caches[s.slabs[sa].cache].onSlab
  {
    assert SlabOK(s, sa);
  }

  lemma RemoveIsFine(s: State, sa: nat)
    requires Inv(s) && Releasable(s, sa)
    ensures Linked(s) && Removable(s, sa) && MinReserve(s, SlabRemoved(s, sa), 0)
    ensures sa in OffSlabStructs(s) <==> !s.caches[s.slabs[sa].cache].onSlab
    ensures var t := SlabRemoved(s, sa); var u := RangeOf(s, sa).(slab := 0);
            && Common(s, t) && Held(t) == Held(s) + (if sa in OffSlabStructs(s) then {sa} else {})
            && HeldRanges(t) == HeldRanges(s) + {u} && u !in HeldRanges(s)
            && (Quiet(s) ==> Quiet(t))
            && (sa in OffSlabStructs(s) ==> OnSlabObject(t, sa) && sa !in Held(s))
  {
    hide Layout, CachesOK, SlabsOK, LiveOK, RefsOK, PagingOK, MappedOK;
    RemoveSlabKeeps(s, sa);
    HeaderIsOnSlabObject(s, sa);
    RemovedHomes(s, sa);
    RemovedReserve(s, sa);
  }

  lemma RangeSlabsAreOnSlab(s: State, sa: nat)
    requires CachesOK(s) && Linked(s) && sa in s.slabs && s.slabs[sa].cache == s.rc
    ensures sa !in OffSlabStructs(s)
  {}

  /** Releasing one slab of range structures, seen from the used list. */
  lemma GoneIsReleased(s: State, m: State, t: State, sa: nat, range: Range)
    requires Inv(m) && SlabGone(m, t, sa, range) && Linked(s) && SamePlaces(s, m) && SameRanges(s, m) && SameShapes(s, m)
    requires HeldRanges(m) == HeldRanges(s) && HeldRanges(t) == HeldRanges(m) + {range} && s.slabs[sa].cache == s.rc
    requires sa != 0
    ensures StructReleased(s, t, Some(range))
  {
    hide Layout, CachesOK, SlabsOK, LiveOK, RefsOK, PagingOK, MappedOK, Slots, HeldRanges, Delete;
    SameSlots(s, m, sa);
    ReboundTiles(m, RangeOf(m, sa), 0);
    assert CascadeOf(s, t) == {RangeOf(s, sa)};
    assert RangeOf(m, sa) in Elems(m.used);
  }

  lemma MergeIsFine(s: State, i: nat)
    requires Inv(s) && CanMerge(s, i)
    ensures var t := Merged(s, i); var r := s.free[i + 1].ref;
            && i + 1 < |s.free| && Common(s, t) && Inv(t) && Held(t) == Held(s) + {r} && r !in Held(s)
            && HeldRanges(t) == HeldRanges(s) && InCache(t, r, s.rc) && s.rc in s.caches
  {
    hide Layout, SlabsOK, LiveOK, RefsOK, PagingOK, MappedOK;
    MergedKeeps(s, i);
  }

  lemma TakeIsFine(s: State, x: Range)
    requires Inv(s) && x in HeldRanges(s)
    ensures x in s.used && x !in s.hand
    ensures var t := UsedTaken(s, x);
            && Common(s, t) && Inv(t) && Held(t) == Held(s) && HeldRanges(t) == HeldRanges(s) - {x}
            && Elems(t.used) == Elems(s.used) - {x} && |t.used| == |s.used| - 1 && s.rc in s.caches
  {
    hide Layout, SlabsOK, LiveOK, RefsOK, PagingOK, MappedOK;
    UsedTakenKeeps(s, x);
  }

  lemma SameCascade(s: State, m: State, n: State, t: State)
    requires Linked(s) && Linked(m) && m.slabs == s.slabs && m.caches == s.caches && m.rc == s.rc
    requires t.slabs == n.slabs && t.caches == n.caches && t.rc == n.rc
    ensures CascadeOf(s, t) == CascadeOf(m, n) && (OnlyRangeSlabsGo(s, t) <==> OnlyRangeSlabsGo(m, n))
  {
    assert forall sa :: sa in s.slabs ==> RangeOf(s, sa) == RangeOf(m, sa);
  }

  lemma MergeSteps(s: State, i: nat, n: State, t: State, e: Option<Range>)
    requires i + 1 < |s.free| && Common(s, t) && Linked(s)
    requires StructReleased(Merged(s, i), n, e)
    requires e.None? ==> t == n
    requires e.Some? ==> t == n.(used := t.used, hand := t.hand)
                         && Elems(t.used) == Elems(n.used) - {e.value} && |t.used| == |n.used| - 1
    requires Held(t) == Held(s) && HeldRanges(t) == HeldRanges(n) - Opt(e) && HeldRanges(Merged(s, i)) == HeldRanges(s)
    requires HeldRanges(s) <= Elems(s.used)
    ensures Stepped(s, t, Opt(e))
  {
    hide Inv, Common, Held, HeldRanges, Bytes, Tiles, Elems, CascadeOf, OnlyRangeSlabsGo, RangeOf;
    SameCascade(s, Merged(s, i), n, t);
  }

  lemma HeldRangesAreUsed(s: State)
    ensures HeldRanges(s) <= Elems(s.used)
  {}

  lemma FreeIsSorted(s: State)
    requires Inv(s)
    ensures Sorted(s.free) && Sorted(s.used)
  {
    hide CachesOK, SlabsOK, LiveOK, RefsOK, PagingOK, MappedOK;
  }

  lemma CommonRefl(s: State)
    requires Inv(s)
    ensures Common(s, s) && MinReserve(s, s, 0)
  {}

  lemma PushedRank(s: State, m: State, v: nat)
    requires PushedFrom(s, m, v)
    ensures s.live[v] in m.slabs && (s.live[v] in OffSlabStructs(m) ==> !OnSlabObject(s, v))
  {
    var c := s.slabs[s.live[v]].cache;
    if c in s.caches { assert Shape(s.caches[c]) == Shape(m.caches[c]); }
  }

  lemma PushedReserve(s: State, m: State, v: nat)
    requires PushedFrom(s, m, v) && s.rc in s.caches
    ensures MinReserve(s, m, if InCache(s, v, s.rc) then 1 else 0)
  {}

  lemma SteppedRefl(s: State)
    requires Inv(s)
    ensures Stepped(s, s, {}) && MinReserve(s, s, 0)
  {}

  lemma CascadeTrans(s: State, m: State, t: State)
    requires Linked(s) && Linked(m) && SameShapes(s, m) && OnlyRangeSlabsGo(s, m) && OnlyRangeSlabsGo(m, t)
    ensures OnlyRangeSlabsGo(s, t) && CascadeOf(s, t) == CascadeOf(s, m) + CascadeOf(m, t)
  {
    forall sa | sa in m.slabs ensures RangeOf(m, sa) == RangeOf(s, sa) {
      assert Shape(s.caches[s.slabs[sa].cache]) == Shape(m.caches[s.slabs[sa].cache]);
    }
  }

  lemma StepTrans(s: State, m: State, t: State, a: set<Range>, b: set<Range>)
    requires Stepped(s, m, a) && Stepped(m, t, b) && a !! b
    ensures Stepped(s, t, a + b)
  {
    hide Inv, SameShapes, Homes, KeepsPages, PhysPages, OnlyRangeSlabsGo, CascadeOf, Held, HeldRanges, Bytes, Tiles, Elems;
    CommonTrans(s, m, t);
    CascadeTrans(s, m, t);
    assert |a + b| == |a| + |b|;
  }

  /** The range is on the free list and nothing is mapped in it; only its neighbours may touch it. */
  lemma PutIsFine(s: State, m: State, cur: Range, k: nat)
    requires Inv(s) && Gapped(s.free) && cur in s.hand && PlaceFor(s.free, cur.base, k)
    requires m == FreePut(Unmapped(s, cur.base, cur.pages), cur, k)
    ensures Inv(m) && Stepped(s, m, {}) && MinReserve(s, m, 0) && GappedAround(m.free, k)
    ensures TouchesNext(s.free, cur) ==> EndsAtNext(m.free, k)
  {
    hide CachesOK, SlabsOK, LiveOK, RefsOK, PagingOK, MappedOK;
    assert cur in Tiles(s) && cur in Elems(s.used) + s.hand;
    UnmappedKeeps(s, cur);
    FreePutKeeps(Unmapped(s, cur.base, cur.pages), cur, k);
    InsertedAround(s.free, k, cur);
    InsertedTouches(s.free, k, cur);
    UnmappedKeepsPages(s, cur);
    KeepsPagesAlike(s, Unmapped(s, cur.base, cur.pages), m);
    PutSteps(s, m);
  }

  lemma PutSteps(s: State, m: State)
    requires Inv(s) && Inv(m) && SameShapes(s, m) && Tiles(m) == Tiles(s) && m.slabs == s.slabs && m.live == s.live
    requires m.used == s.used && m.caches == s.caches && KeepsPages(s, m) && PhysPages(m) == PhysPages(s)
    ensures Stepped(s, m, {}) && MinReserve(s, m, 0)
  {
    hide Layout, SlabsOK, LiveOK, RefsOK, PagingOK, MappedOK, KeepsPages, PhysPages;
  }

  lemma AroundCanMerge(s: State, k: nat, i: int)
    requires GappedAround(s.free, k) && (i == k || i + 1 == k) && 0 <= i && i + 1 < |s.free|
    requires s.free[i].End() == s.free[i + 1].base
    ensures CanMerge(s, i)
  {}

  lemma MergedFreeSorted(m: State, t: State, p: nat)
    requires CanMerge(m, p) && Inv(t) && t.free == Merged(m, p).free
    ensures Sorted(Merged(m, p).free)
  {
    FreeIsSorted(t);
  }

  lemma WaitingGrows(w: seq<Range>, a: Option<Range>)
    requires Distinct(w) && Opt(a) !! Elems(w)
    ensures var w' := w + (if a.Some? then [a.value] else []);
            Distinct(w') && Elems(w') == Elems(w) + Opt(a) && |w'| == |w| + |Opt(a)|
  {
    assert forall i :: 0 <= i < |w| ==> w[i] in Elems(w);
  }

  lemma Starting(s: State, m: State, x: Range)
    requires Quiet(s) && x in HeldRanges(s) && m == UsedTaken(s, x) && Common(s, m) && Held(m) == Held(s)
    requires HeldRanges(m) == HeldRanges(s) - {x} && Elems(m.used) == Elems(s.used) - {x}
    ensures Working(s, m, x, x, [], true)
  {
    hide Layout, SlabsOK, LiveOK, RefsOK, PagingOK, MappedOK;
    assert CascadeOf(s, m) == {};
  }

  lemma OneTurn(s: State, m: State, t: State, x: Range, cur: Range, w: seq<Range>, w': seq<Range>)
    requires Working(s, m, x, cur, w, true) && Turn(m, t, cur, w, w')
    requires TouchesNext(m.free, cur) || !(cur == x && m.free == s.free) || !TouchesNext(s.free, x)
    ensures Inv(t) && Gapped(t.free) && Deleting(s, t, x)
    ensures MinReserve(s, t, if TouchesNext(s.free, x) then 1 else 0)
  {
    hide Inv, SameShapes, Homes, KeepsPages, PhysPages, OnlyRangeSlabsGo, CascadeOf, Held, HeldRanges, Bytes, Tiles, Elems, Gapped;
    CommonTrans(s, m, t);
    CascadeTrans(s, m, t);
  }

  lemma TurnDone(s: State, t: State, cur: Range, w: seq<Range>, w': seq<Range>, prec: Option<Range>, succ: Option<Range>)
    requires Stepped(s, t, Opt(prec) + Opt(succ)) && Gapped(t.free) && |w'| == |w| + |Opt(prec)| + |Opt(succ)|
    requires t.hand == Elems(w') && Distinct(w') && Opt(prec) !! Opt(succ)
    requires MinReserve(s, t, if TouchesNext(s.free, cur) then 1 else 0)
    ensures Turn(s, t, cur, w, w')
  {
    hide Inv, SameShapes, Homes, KeepsPages, PhysPages, OnlyRangeSlabsGo, CascadeOf, Held, HeldRanges, Bytes, Tiles, Elems, Gapped, TouchesNext;
    assert |Opt(prec) + Opt(succ)| == |Opt(prec)| + |Opt(succ)|;
  }

  // ---- Lemmas about allocation ----

  lemma PopIsFine(s: State, c: nat)
    requires Inv(s) && CanPop(s, c)
    ensures s.slabs[s.caches[c].slabList[0]].nbFree > 0 && s.caches[c].nbFreeObj > 0
    ensures var t := Popped(s, c); var v := s.slabs[s.caches[c].slabList[0]].free[0];
            Obtained(s, t, c, v) && SameRanges(s, t)
  {
    hide Layout, CachesOK, SlabsOK, LiveOK, RefsOK, PagingOK, MappedOK;
    PopKeeps(s, c);
    assert Tiles(Popped(s, c)) == Tiles(s);
  }

  lemma HeadIsEnough(s: State, c: nat)
    requires Inv(s) && c in s.caches
    ensures (s.caches[c].slabList == [] || s.caches[c].slabList[0] in s.slabs)
    ensures CanPop(s, c) <==> s.caches[c].nbFreeObj > 0
  {
    hide Layout, LiveOK, RefsOK, PagingOK, MappedOK;
    HeadTestIsEnough(s, c);
    assert CacheOK(s, c);
    assert s.caches[c].slabList != [] ==> s.caches[c].slabList[0] in s.caches[c].slabList;
  }

  lemma ReadyCache(s: State, c: nat)
    requires Inv(s) && c in s.caches
    ensures s.rc in s.caches && s.kc in s.caches && s.rc != s.kc && s.caches[c].slabPages > 0
    ensures s.caches[s.rc].minFree == 2 && s.caches[s.rc].onSlab && s.caches[s.kc].onSlab && s.caches[s.rc].slabPages == 1
  {
    hide Layout, SlabsOK, LiveOK, RefsOK, PagingOK, MappedOK;
    assert CacheOK(s, c);
  }

  lemma AddIsFine(s: State, c: nat, u: Range, sa: nat)
    requires Inv(s) && CanAddSlab(s, c, u, sa)
    ensures c in s.caches && u in s.used
    ensures var t := SlabAdded(s, c, u, sa);
            && Inv(t) && Common(s, t) && Held(t) == Held(s) - {sa} && HeldRanges(t) == HeldRanges(s) - {u} && CanPop(t, c)
            && (s.caches[c].onSlab ==> sa !in Held(s))
  {
    hide Layout, CachesOK, SlabsOK, LiveOK, RefsOK, PagingOK, MappedOK;
    AddSlabKeeps(s, c, u, sa);
    HeaderIsNew(s, c, u, sa);
  }

  /** One more page of the range gets a frame. */
  lemma MapIsFine(s: State, x: Range, i: nat, f: nat)
    requires Inv(s) && x in s.used && i < x.pages && f in s.frames && PageAt(x.base, i) !in s.pt
    ensures Mapped(s, PageMapped(s, PageAt(x.base, i), f, x.ref)) && x.Covers(PageAt(x.base, i))
  {
    hide CachesOK, SlabsOK, LiveOK, RefsOK, MappedOK, KeepsPages, PhysPages;
    var v := PageAt(x.base, i);
    assert x in Tiles(s) && InBounds(x);
    PageMappedKeeps(s, x, v, f);
    MappedKeepsPages(s, x, v, f);
    SameHomes(s, PageMapped(s, v, f, x.ref));
  }

  /** The loop of kvmm_new_range that maps: the first `i` pages have frames of their own from the pool, the others
      have none yet, and no other page changed. */
  ghost predicate Mapping(s: State, m: State, x: Range, i: nat) {
    && Mapped(s, m) && x in m.used && i <= x.pages && |m.frames| >= |s.frames| - i
    && Extends(s, m) && FreshlyMapped(s, m, x.(pages := i)) && OnlyMaps(s, m, x)
    && forall j: nat :: i <= j < x.pages ==> PageAt(x.base, j) !in m.pt
  }

  /** Pages outside the range are mapped as before. */
  ghost predicate OnlyMaps(s: State, t: State, x: Range) {
    forall v, f :: !x.Covers(v) ==> (Maps(t.pt, v, f) <==> Maps(s.pt, v, f))
  }

  lemma MappingStarts(s: State, x: Range)
    requires Inv(s) && x in s.used && Bare(s, x)
    ensures Mapping(s, s, x, 0)
  {
    hide Inv;
    MappedRefl(s);
    forall j: nat | j < x.pages ensures x.Covers(PageAt(x.base, j)) {
      PageOfRange(x, j);
    }
  }

  lemma PageOfRange(x: Range, j: nat)
    requires j < x.pages
    ensures x.Covers(PageAt(x.base, j))
  {}

  lemma MappingGoesOn(s: State, m: State, x: Range, i: nat, f: nat)
    requires Mapping(s, m, x, i) && i < x.pages && f in m.frames
    ensures Mapping(s, PageMapped(m, PageAt(x.base, i), f, x.ref), x, i + 1)
    ensures Unmap(m.pt, m.frames, PageAt(x.base, i)) == (m.pt, m.frames)
  {
    hide Inv, Mapped, FreshlyMapped, OnlyMaps;
    MappedInv(s, m);
    MapIsFine(m, x, i, f);
    MappedTrans(s, m, PageMapped(m, PageAt(x.base, i), f, x.ref));
    FreshGrows(s, m, x, i, f);
    OnlyMapsMore(s, m, x, PageAt(x.base, i), f);
  }

  lemma MappedInv(s: State, m: State)
    requires Mapped(s, m)
    ensures Inv(m)
  {
    hide Inv, Common;
  }

  lemma FreshGrows(s: State, m: State, x: Range, i: nat, f: nat)
    requires Inv(m) && Extends(s, m) && FreshlyMapped(s, m, x.(pages := i)) && f in m.frames && i < x.pages
    requires PageAt(x.base, i) !in m.pt
    ensures FreshlyMapped(s, PageMapped(m, PageAt(x.base, i), f, x.ref), x.(pages := i + 1))
  {
    hide Layout, CachesOK, SlabsOK, LiveOK, RefsOK, MappedOK;
    forall j: nat | j < i ensures PageAt(x.base, j) != PageAt(x.base, i) {}
  }

  lemma OnlyMapsMore(s: State, m: State, x: Range, v: nat, f: nat)
    requires OnlyMaps(s, m, x) && x.Covers(v)
    ensures OnlyMaps(s, PageMapped(m, v, f, x.ref), x)
  {}

  /** `obj` was taken from the head slab of cache `c` and every other cache is as it was. */
  ghost predicate Took(s: State, t: State, c: nat, obj: nat) {
    && Obtained(s, t, c, obj) && SameRanges(s, t) && c in s.caches && c in t.caches
    && t.caches[c].nbFreeObj == s.caches[c].nbFreeObj - 1 && |t.caches[c].slabList| == |s.caches[c].slabList|
    && (forall d :: d in s.caches && d != c ==> d in t.caches && t.caches[d] == s.caches[d])
  }

  /** The state before the first object is taken: grown if the cache had none left. */
  ghost predicate Prepared(s: State, m: State, c: nat) {
    c in s.caches && if s.caches[c].nbFreeObj > 0 then m == s else c != s.rc && GrowDone(s, m, c, true)
  }

  lemma GrowIsReady(s: State, m: State, n: State, c: nat, obj: nat)
    requires Quiet(s) && Ready(s, c) && Prepared(s, m, c) && Took(m, n, c, obj) && Common(s, m) && Quiet(m)
    requires Below(n.caches[c])
    ensures Quiet(n) && Ready(n, c) && (c == n.rc ==> Reserve(n) == 1)
    ensures c == s.rc ==> Reserve(s) == 2
  {
    hide Layout, SlabsOK, LiveOK, RefsOK, PagingOK, MappedOK;
  }

  lemma AllocEnds(s: State, m: State, n: State, t: State, c: nat, obj: nat)
    requires Quiet(s) && Ready(s, c) && Prepared(s, m, c) && Took(m, n, c, obj) && Common(s, m) && Quiet(m)
    requires Common(s, n) && Common(s, t)
    requires if Below(n.caches[c]) then GrowDone(n, t, c, true) else t == n
    ensures AllocDone(s, t, c, obj)
  {
    hide Layout, SlabsOK, LiveOK, RefsOK, PagingOK, MappedOK, Bytes, Tiles, Held, HeldRanges, ObjectTaken, SlabGrown, Used, Persist;
    assert Homes(n, t) by { if t == n {} }
    assert n.rc == s.rc && t.rc == s.rc && s.rc in s.caches && s.rc in m.caches && s.rc in n.caches;
    if c == s.rc {
      TookStructure(s, n, t, obj);
    } else {
      TookObject(s, m, n, t, c, obj);
    }
  }

  /** An object taken from a cache that has its minimum of free objects leaves it with that minimum. */
  lemma MinimumKept(s: State, t: State, c: nat, obj: nat)
    requires Inv(s) && AllocDone(s, t, c, obj) && obj != 0 && c in s.caches && c in t.caches
    requires s.caches[c].nbFreeObj >= s.caches[c].minFree
    ensures t.caches[c].nbFreeObj >= t.caches[c].minFree
  {
    hide Layout, SlabsOK, LiveOK, RefsOK, PagingOK, MappedOK, Quiet, Common, Used, SameCaches, Held, HeldRanges, SameRanges;
    SameRoots(s, t);
    assert CacheOK(s, c) && Shape(s.caches[c]) == Shape(t.caches[c]);
  }

  lemma TookStructure(s: State, n: State, t: State, obj: nat)
    requires CachesOK(s) && Took(s, n, s.rc, obj) && Reserve(s) >= 1 && SameShapes(s, n) && t.rc == s.rc && obj != 0
    requires if Reserve(s) == 2 then GrowDone(n, t, s.rc, true) else t == n
    ensures s.rc in t.caches && RangeStructTaken(s, t, obj)
  {
    hide Obtained, Quiet, Common, Used, CacheOK, Held, HeldRanges;
    UsedRefl(s, n);
    if Reserve(s) == 2 {
      UsedTrans(s, n, t, 0, 0, 1, 1);
    }
  }

  /** Before an object is taken: the cache grew if it had no free object. */
  lemma FirstGrowth(s: State, m: State, c: nat)
    requires Inv(s) && c in s.caches && c != s.rc && Prepared(s, m, c)
    ensures HasCaches(s, c) && c in m.caches && SameCaches(s, m, {s.rc, s.kc, c})
    ensures var a := if s.caches[c].nbFreeObj == 0 then 1 else 0;
            && m.caches[c].nbFreeObj == s.caches[c].nbFreeObj + a * s.caches[c].nbObj
            && (a == 0 ==> m == s) && Used(s, m, a * MaxPages(s, c), a * MaxFrames(s, c))
  {
    hide Inv, Quiet, Common, Used, Held, HeldRanges;
    ReadyCache(s, c);
    if m == s {
      UsedRefl(s, s);
    }
  }

  /** After an object is taken: the cache grew again if that brought it below its minimum. */
  lemma TookObject(s: State, m: State, n: State, t: State, c: nat, obj: nat)
    requires Inv(s) && c in s.caches && c != s.rc && Prepared(s, m, c) && Took(m, n, c, obj)
    requires SameShapes(s, m) && SameShapes(m, n)
    requires if Below(n.caches[c]) then GrowDone(n, t, c, true) else t == n
    ensures ObjectTaken(s, t, c)
  {
    hide Inv, Quiet, Common, Used, Held, HeldRanges, Obtained, MaxPages, MaxFrames, Below, Grows, SameCaches, SameShapes;
    FirstGrowth(s, m, c);
    TakenCounts(s, m, n, c, obj);
    TookSame(s, m, n, t, c, obj);
    var p, f := MaxPages(s, c), MaxFrames(s, c);
    if Below(n.caches[c]) {
      if s.caches[c].nbFreeObj == 0 {
        UsedTrans(s, n, t, p, f, p, f);
      } else {
        UsedTrans(s, n, t, 0, 0, p, f);
      }
    }
  }

  lemma TookSame(s: State, m: State, n: State, t: State, c: nat, obj: nat)
    requires SameCaches(s, m, {s.rc, s.kc, c}) && Took(m, n, c, obj) && SameShapes(s, m) && SameShapes(m, n)
    requires t == n || SameCaches(n, t, {n.rc, n.kc, c})
    ensures SameCaches(s, t, {s.rc, s.kc, c})
  {
    hide Inv, Common, Obtained, SameRanges, Shape;
  }

  /** The counts once the object is taken. */
  lemma TakenCounts(s: State, m: State, n: State, c: nat, obj: nat)
    requires HasCaches(s, c) && c in m.caches && Took(m, n, c, obj) && SameShapes(s, m) && SameShapes(m, n)
    requires var a := if s.caches[c].nbFreeObj == 0 then 1 else 0;
             && m.caches[c].nbFreeObj == s.caches[c].nbFreeObj + a * s.caches[c].nbObj
             && Used(s, m, a * MaxPages(s, c), a * MaxFrames(s, c))
    ensures Grows(s.caches[c]) == (if s.caches[c].nbFreeObj == 0 then 1 else 0) + (if Below(n.caches[c]) then 1 else 0)
    ensures HasCaches(n, c) && MaxPages(n, c) == MaxPages(s, c) && MaxFrames(n, c) == MaxFrames(s, c)
    ensures n.caches[c].nbObj == s.caches[c].nbObj && n.rc == s.rc && n.kc == s.kc
    ensures if s.caches[c].nbFreeObj == 0 then Used(s, n, MaxPages(s, c), MaxFrames(s, c)) else Used(s, n, 0, 0)
  {
    hide Inv, Quiet, Common, Used, Held, HeldRanges, Obtained, MaxPages, MaxFrames, Below, Grows;
    SameMost(s, m, c);
    SameMost(m, n, c);
    UsedRefl(m, n);
    var a := if s.caches[c].nbFreeObj == 0 then 1 else 0;
    UsedTrans(s, m, n, a * MaxPages(s, c), a * MaxFrames(s, c), 0, 0);
    assert Shape(s.caches[c]) == Shape(m.caches[c]) && Shape(m.caches[c]) == Shape(n.caches[c]);
    GrowsSplit(s.caches[c], n.caches[c]);
  }

  /** The cache had no free object and could not grow. */
  lemma FirstFails(s: State, c: nat)
    requires Inv(s) && c in s.caches && s.caches[c].nbFreeObj == 0 && CannotGrow(s, c)
    ensures Starved(s, c)
  {
    hide Inv, MaxPages, MaxFrames, GrowPages, GrowFrames, Fits;
    GrowAtMost(s, c);
    if Fits(s.free, 2 * MaxPages(s, c)) {
      FitsLess(s.free, 2 * MaxPages(s, c), GrowPages(s, c));
    }
  }

  /** No new range for a slab, so the cache cannot grow. */
  lemma RangeFails(s: State, m: State, c: nat)
    requires HasCaches(s, c) && s.caches[c].slabPages > 0
    requires NewDone(s, m, s.caches[c].slabPages, s.caches[c].mapNow, None)
    ensures CannotGrow(s, c)
  {
    hide Quiet, Common, Held, HeldRanges, FirstFit, AllMapped, Fits, Grows;
    if Fits(s.free, GrowPages(s, c)) {
      FitsLess(s.free, GrowPages(s, c), s.caches[c].slabPages);
    }
  }

  /** The second growth failed: what is left after the first is too little, so there was too little at the start. */
  lemma SecondFails(s: State, m: State, n: State, c: nat, obj: nat)
    requires Inv(s) && c in s.caches && c != s.rc && Prepared(s, m, c) && Took(m, n, c, obj)
    requires SameShapes(s, m) && SameShapes(m, n) && Below(n.caches[c]) && CannotGrow(n, c)
    ensures Starved(s, c)
  {
    hide Inv, Quiet, Common, Used, Held, HeldRanges, Obtained, MaxPages, MaxFrames, GrowPages, GrowFrames, Below, Grows,
         Fits, GrowDone, SlabGrown;
    FirstGrowth(s, m, c);
    TakenCounts(s, m, n, c, obj);
    GrowAtMost(n, c);
    ReadyCache(s, c);
    if s.caches[c].nbFreeObj > 0 {
      SameCost(s, n, c);
    } else {
      FirstWasAll(s, n, c);
    }
  }

  lemma FirstWasAll(s: State, n: State, c: nat)
    requires HasCaches(s, c) && HasCaches(n, c) && CannotGrow(n, c) && Used(s, n, MaxPages(s, c), MaxFrames(s, c))
    requires MaxPages(n, c) == MaxPages(s, c) && MaxFrames(n, c) == MaxFrames(s, c)
    ensures !(Fits(s.free, 2 * MaxPages(s, c)) && |s.frames| >= 2 * MaxFrames(s, c))
  {
    hide MaxPages, MaxFrames, GrowPages, GrowFrames, Fits, Persist;
    GrowAtMost(n, c);
    if Fits(s.free, 2 * MaxPages(s, c)) {
      FitsAfter(s.free, n.free, MaxPages(s, c), MaxPages(s, c));
      FitsLess(n.free, MaxPages(s, c), GrowPages(n, c));
    }
  }

  lemma SameCost(s: State, n: State, c: nat)
    requires HasCaches(s, c) && HasCaches(n, c) && c != s.rc && SameShapes(s, n) && SameCaches(s, n, {c})
    requires s.caches[s.kc].onSlab && s.rc != s.kc
    ensures GrowPages(n, c) == GrowPages(s, c) && GrowFrames(n, c) == GrowFrames(s, c)
  {
    assert Shape(s.caches[c]) == Shape(n.caches[c]);
  }

  lemma StillThere(s: State, m: State, f: Range, n: nat, obj: nat)
    requires AllocDone(s, m, s.rc, obj) && obj != 0 && f in s.free && f.pages > n >= 1
    requires s.rc in s.caches && Reserve(s) >= 1
    ensures exists x :: x in m.free && SameEnd(f, x, n, Extra(s))
    ensures exists x :: x in m.free && x.ref == f.ref
  {
    hide Quiet, Common, Held, HeldRanges, Extends, SameCaches;
    var k := Extra(s);
    assert Remains(f, m.free, k);
    hide Remains, Persist;
    var g :| g in m.free && g.ref == f.ref && g.pages + k >= f.pages && g.End() == f.End() && g.base >= f.base;
    FrontGone(f, g, n, k);
  }

  lemma FrontGone(f: Range, g: Range, n: nat, extra: nat)
    requires g.ref == f.ref && g.pages + extra >= f.pages && g.End() == f.End() && g.base >= f.base
    requires f.pages > n && extra <= 1
    ensures SameEnd(f, g, n, extra)
  {
    assert g.base == f.base + (f.pages - g.pages) * PAGE_SIZE;
    assert f.pages - g.pages == 0 || f.pages - g.pages == extra;
  }

  /** `g` is what is left of free range `f` after `extra` pages, and still has `n` pages. */
  ghost predicate SameEnd(f: Range, g: Range, n: nat, extra: nat) {
    && g.ref == f.ref && g.pages >= n && g.End() == f.End()
    && (g.base == f.base || g.base == f.base + extra * PAGE_SIZE)
  }

  /** The chosen range is in hand, ready for the used list. */
  ghost predicate Chosen(s: State, h: State, n: nat, x: Range) {
    && Inv(h) && Gapped(h.free) && Common(s, h) && Held(h) == Held(s) && HeldRanges(h) == HeldRanges(s)
    && s.rc in s.caches && h.rc in h.caches && h.hand == {x} && x.pages == n
    && (Reserve(s) >= 2 ==> Reserve(h) >= 2)
    && (Reserve(s) == 1 ==> SlabCount(h) == SlabCount(s) && (Reserve(h) >= 1 || TouchesNext(h.free, x)))
    && FirstFit(s.free, n, x, Extra(s)) && Used(s, h, n + Extra(s), Extra(s)) && SameCaches(s, h, {s.rc}) && Bare(h, x)
  }

  lemma SameHomes(s: State, t: State)
    requires t.live == s.live && t.slabs == s.slabs
    ensures Homes(s, t)
  {}

  lemma TakeFreeIsFine(s: State, i: nat)
    requires Quiet(s) && i < |s.free| && s.free[i].pages > 0 && s.rc in s.caches
    requires FirstAt(s.free, s.free[i].pages, s.free[i], Extra(s), i)
    ensures Chosen(s, FreeTaken(s, i), s.free[i].pages, s.free[i])
  {
    hide Layout, CachesOK, SlabsOK, LiveOK, RefsOK, PagingOK, MappedOK, Persist, Gapped, SameShapes, Homes, KeepsPages, PhysPages, Held, HeldRanges, Bytes, Tiles;
    FreeTakenKeeps(s, i);
    SameHomes(s, FreeTaken(s, i));
    SamePages(s, FreeTaken(s, i));
    TakenPersist(s, i);
    PersistMore(s.free, FreeTaken(s, i).free, s.free[i].pages, s.free[i].pages + Extra(s));
  }

  lemma CarveIsFine(s: State, m: State, f: Range, i: nat, j: nat, n: nat, obj: nat)
    requires AllocDone(s, m, s.rc, obj) && obj != 0 && f in s.free && f.pages > n >= 1 && Reserve(s) >= 1
    requires FirstAt(s.free, n, f.(pages := n), Extra(s), i) && s.free[i] == f
    requires s.rc in s.caches && m.hand == {}
    requires j < |m.free| && m.free[j].ref == f.ref
    ensures m.free[j].pages >= n && Chosen(s, Carved(m, j, n, obj), n, Front(m.free[j], n, obj))
  {
    hide Layout, CachesOK, SlabsOK, LiveOK, RefsOK, PagingOK, MappedOK, Used, SameCaches, Gapped, Bytes, Tiles, SameShapes, Homes, KeepsPages, PhysPages,
         Held, HeldRanges;
    SameRoots(s, m);
    StillThere(s, m, f, n, obj);
    var x :| x in m.free && SameEnd(f, x, n, Extra(s));
    OneRef(m, x, m.free[j]);
    var t := Carved(m, j, n, obj);
    CarvedKeeps(m, j, n, obj);
    CarvedUses(s, m, j, n, obj);
    CarvedCommon(m, j, n, obj);
    CommonTrans(s, m, t);
    assert t.free[j] == Back(m.free[j], n) && t.free[j] in t.free;
    assert Front(m.free[j], n, obj).End() == t.free[j].base;
    assert TouchesNext(t.free, Front(m.free[j], n, obj));
    assert FirstAt(s.free, n, Front(m.free[j], n, obj), Extra(s), i);
  }

  lemma TakenIsNew(s: State, t: State, n: nat, mapNow: bool, r: Option<Range>)
    requires RangeTaken(s, t, n, r) && n > 0 && (r.Some? ==> !mapNow)
    ensures NewDone(s, t, n, mapNow, r)
  {
    hide Quiet, Common, Held, HeldRanges, FirstFit, Fits, Persist, Extends, Bare, FreshlyMapped;
  }

  /** The range taken is mapped whole. */
  lemma MappedIsNew(s: State, m: State, t: State, n: nat, x: Range)
    requires RangeTaken(s, m, n, Some(x)) && n > 0 && Mapped(m, t) && Extends(m, t) && FreshlyMapped(m, t, x)
    requires |t.frames| >= |m.frames| - n
    ensures NewDone(s, t, n, true, Some(x))
  {
    hide Inv, SameShapes, Homes, KeepsPages, PhysPages, Bytes, Tiles, Held, HeldRanges, FirstFit, Fits, Persist, Bare;
    CommonTrans(s, m, t);
  }

  /** The pool ran out while the range was mapped, and the range was given back. */
  lemma MappingFails(s: State, m: State, q: State, t: State, n: nat, x: Range)
    requires RangeTaken(s, m, n, Some(x)) && n > 0 && Mapped(m, q) && |m.frames| < n && Deleted(q, t, x)
    requires MinReserve(q, t, if TouchesNext(q.free, x) then 1 else 0)
    ensures NewDone(s, t, n, true, None)
  {
    hide Inv, SameShapes, Homes, KeepsPages, PhysPages, Bytes, Tiles, Held, HeldRanges, FirstFit, Fits, Persist, Bare,
         CascadeOf, OnlyRangeSlabsGo, TouchesNext, Gapped;
    CommonTrans(s, m, q);
    CommonTrans(s, q, t);
  }

  lemma SplitFails(s: State, t: State, i: nat, n: nat)
    requires AllocDone(s, t, s.rc, 0) && i < |s.free| && s.free[i].pages > n > 0
    ensures RangeTaken(s, t, n, None)
  {
    hide Quiet, Common, Held, HeldRanges;
    assert s.free[i] in s.free && Fits(s.free, 1);
  }

  lemma CarvedUses(s: State, m: State, j: nat, n: nat, obj: nat)
    requires s.rc in s.caches && Used(s, m, Extra(s), Extra(s)) && SameCaches(s, m, {s.rc})
    requires j < |m.free| && n <= m.free[j].pages
    ensures Used(s, Carved(m, j, n, obj), n + Extra(s), Extra(s)) && SameCaches(s, Carved(m, j, n, obj), {s.rc})
  {
    CarvedPersist(m, j, n, obj);
    UsedTrans(s, m, Carved(m, j, n, obj), Extra(s), Extra(s), n, 0);
  }

  lemma CarvedCommon(m: State, j: nat, n: nat, obj: nat)
    requires Inv(m) && CanCarve(m, j, n, obj)
    ensures Common(m, Carved(m, j, n, obj))
  {
    hide Layout, CachesOK, SlabsOK, LiveOK, RefsOK, PagingOK, MappedOK;
    CarvedKeeps(m, j, n, obj);
  }

  lemma OneRef(s: State, x: Range, y: Range)
    requires Inv(s) && x in s.free && y in s.free && x.ref == y.ref
    ensures x == y
  {
    hide CachesOK, SlabsOK, LiveOK, RefsOK, PagingOK, MappedOK;
    assert x in Tiles(s) && y in Tiles(s);
    assert x == y || Compat(x, y);
  }

  lemma PutUsedIsFine(s: State, h: State, t: State, x: Range, k: nat)
    requires Quiet(s) && Chosen(s, h, x.pages, x) && PlaceFor(h.used, x.base, k) && t == UsedPut(h, x, k)
    ensures RangeTaken(s, t, x.pages, Some(x)) && x in t.used
  {
    hide Layout, CachesOK, SlabsOK, LiveOK, RefsOK, PagingOK, MappedOK, Persist, Gapped, PlaceFor, TouchesNext, SameShapes, Homes, KeepsPages, PhysPages,
         Held, HeldRanges, Bytes, Tiles, FirstFit;
    UsedPutKeeps(h, x, k);
    SameHomes(h, t);
    SamePages(h, t);
    CommonTrans(s, h, t);
  }

  lemma SameCache(s: State, m: State, c: nat)
    requires SameShapes(s, m) && c in s.caches
    ensures c in m.caches && Shape(m.caches[c]) == Shape(s.caches[c])
  {}

  lemma SameRoots(s: State, m: State)
    requires Common(s, m)
    ensures m.rc == s.rc && m.kc == s.kc && SameShapes(s, m)
  {
    hide Inv, Homes, KeepsPages, PhysPages;
  }

  lemma HeldIsUsed(s: State, x: Range)
    requires x in HeldRanges(s)
    ensures x in s.used && x.slab == 0
  {}

  lemma MappedRefl(s: State)
    requires Inv(s)
    ensures Mapped(s, s)
  {
    CommonRefl(s);
  }

  lemma MappedTrans(s: State, m: State, t: State)
    requires Mapped(s, m) && Mapped(m, t)
    ensures Mapped(s, t)
  {
    hide Inv;
    CommonTrans(s, m, t);
  }

  lemma StillHeld(n: State, q: State, obj: nat, c: nat)
    requires Homes(n, q) && Held(q) == Held(n) && obj in Held(n) && InCache(n, obj, c)
    ensures obj in Held(q) && InCache(q, obj, c)
  {}

  lemma AllocFails(s: State, m: State, n: State, q: State, t: State, c: nat, obj: nat)
    requires Quiet(s) && Ready(s, c) && Prepared(s, m, c) && Took(m, n, c, obj) && Common(s, m)
    requires GrowDone(n, q, c, false) && obj in Held(q) && InCache(q, obj, c) && (c == s.rc ==> Reserve(s) == 2)
    requires Below(n.caches[c])
    requires Common(s, t) && Quiet(t) && Held(t) == Held(q) - {obj} && HeldRanges(t) == HeldRanges(q)
    requires MinReserve(q, t, if InCache(q, obj, s.rc) then 1 else 0)
    ensures AllocDone(s, t, c, 0)
  {
    hide Inv, Homes, KeepsPages, PhysPages, Bytes, Tiles, Held, HeldRanges, InCache, Persist, Gapped, Starved, CannotGrow, Fits, Below;
    if c != s.rc {
      SecondFails(s, m, n, c, obj);
    }
  }

  lemma GrowCanAdd(s: State, m: State, q: State, c: nat, u: Range, sa: nat)
    requires CachesOK(s) && c in s.caches && SameShapes(s, q) && HeldRanges(q) == HeldRanges(m)
    requires u in HeldRanges(m) && u.pages == s.caches[c].slabPages
    requires if s.caches[c].onSlab then sa == u.End() - SIZEOF_KSLAB else sa in Held(q) && InCache(q, sa, s.kc)
    requires u.pages > 0 && (s.caches[c].mapNow ==> AllMapped(q, u))
    ensures CanAddSlab(q, c, u, sa) && c in q.caches && u in q.used && q.rc == s.rc
    ensures q.caches[c].onSlab == s.caches[c].onSlab
  {
    SameCache(s, q, c);
    assert u in HeldRanges(q);
  }

  lemma GrownReserve(s: State, q: State, c: nat, u: Range, sa: nat)
    requires CachesOK(q) && q.rc == s.rc && c in q.caches && u in q.used && s.rc in s.caches
    ensures var t := SlabAdded(q, c, u, sa);
            && t.rc in t.caches && (c == s.rc ==> Reserve(t) >= 2 && SlabCount(t) == SlabCount(q) + 1)
            && (c != s.rc ==> Reserve(t) == Reserve(q)) && t.free == q.free
  {}

  /** What the new range and the object for an off-slab header used up. */
  lemma GrowUses(s: State, m: State, q: State, c: nat, u: Range, sa: nat)
    requires Inv(s) && c in s.caches && (c == s.rc ==> Reserve(s) == 1)
    requires NewDone(s, m, s.caches[c].slabPages, s.caches[c].mapNow, Some(u))
    requires if s.caches[c].onSlab then q == m else AllocDone(m, q, s.kc, sa) && sa != 0
    ensures HasCaches(s, c) && SameCaches(s, q, {s.rc, s.kc})
    ensures c == s.rc ==> Used(s, q, 1, 1) && SameCaches(s, q, {s.rc})
    ensures c != s.rc ==> c in q.caches && q.caches[c] == s.caches[c] && Used(s, q, MaxPages(s, c), MaxFrames(s, c))
  {
    hide Inv, Quiet, Common, Held, HeldRanges, FirstFit, AllMapped, Used, Homes, KeepsPages, PhysPages, InCache, CannotTake, Grows, SameShapes;
    ReadyCache(s, c);
    SameRoots(s, m);
    var p, f := s.caches[c].slabPages + Extra(s), MappedPages(s.caches[c]) + Extra(s);
    if c == s.rc {
      UsedMore(s, m, p, f, 1, 1);
    } else if s.caches[c].onSlab {
      UsedMore(s, m, p, f, MaxPages(s, c), MaxFrames(s, c));
    } else {
      HeaderUses(s, m, q, sa);
      var kp, kf := s.caches[s.kc].slabPages + 1, MappedPages(s.caches[s.kc]) + 1;
      UsedTrans(s, m, q, p, f, 2 * kp, 2 * kf);
      UsedMore(s, q, p + 2 * kp, f + 2 * kf, MaxPages(s, c), MaxFrames(s, c));
    }
  }

  /** The pages of the new slab stay mapped while an object for its header is taken. */
  lemma GrowMaps(s: State, m: State, q: State, c: nat, u: Range, sa: nat)
    requires HasCaches(s, c) && s.rc != s.kc && s.caches[s.kc].onSlab
    requires NewDone(s, m, s.caches[c].slabPages, s.caches[c].mapNow, Some(u))
    requires if s.caches[c].onSlab then q == m else AllocDone(m, q, s.kc, sa) && sa != 0
    ensures s.caches[c].mapNow ==> AllMapped(q, u)
  {
    hide Inv, Quiet, Common, Held, HeldRanges, FirstFit, Persist, InCache, CannotTake, Grows;
    SameRoots(s, m);
    if s.caches[c].mapNow {
      FreshIsMapped(s, m, u);
    }
  }

  lemma HeaderUses(s: State, m: State, q: State, sa: nat)
    requires HasCaches(s, s.kc) && s.rc != s.kc && s.caches[s.kc].onSlab && AllocDone(m, q, s.kc, sa) && sa != 0
    requires SameCaches(s, m, {s.rc}) && m.kc == s.kc && m.rc == s.rc
    ensures SameCaches(m, q, {s.rc, s.kc})
    ensures Used(m, q, 2 * (s.caches[s.kc].slabPages + 1), 2 * (MappedPages(s.caches[s.kc]) + 1))
  {
    hide Inv, Quiet, Common, Held, HeldRanges, Used, Homes, KeepsPages, PhysPages, InCache, Grows;
    var g := Grows(s.caches[s.kc]);
    GrowsAtMostTwice(s.caches[s.kc]);
    var kp, kf := s.caches[s.kc].slabPages + 1, MappedPages(s.caches[s.kc]) + 1;
    assert MaxPages(m, s.kc) == kp && MaxFrames(m, s.kc) == kf;
    if g == 0 {
      UsedMore(m, q, 0, 0, 2 * kp, 2 * kf);
    } else if g == 1 {
      UsedMore(m, q, kp, kf, 2 * kp, 2 * kf);
    }
  }

  /** No object for an off-slab header: there was too little left, so there was too little at the start. */
  lemma HeaderFails(s: State, m: State, q: State, c: nat, u: Range)
    requires Inv(s) && c in s.caches && c != s.rc && !s.caches[c].onSlab
    requires NewDone(s, m, s.caches[c].slabPages, s.caches[c].mapNow, Some(u)) && AllocDone(m, q, s.kc, 0)
    ensures CannotGrow(s, c)
  {
    hide Inv, Quiet, Common, Held, HeldRanges, FirstFit, AllMapped, Homes, KeepsPages, PhysPages, InCache, CannotTake, Grows, Fits, Persist;
    ReadyCache(s, c);
    ReadyCache(s, s.kc);
    SameRoots(s, m);
    GrowsAtMostTwice(s.caches[s.kc]);
    var n := AllocPages(m, s.kc);
    if Fits(s.free, GrowPages(s, c)) {
      FitsAfter(s.free, m.free, s.caches[c].slabPages + Extra(s), n);
    }
  }

  /** The new range, and the object for an off-slab header, make a slab of cache `c`. */
  lemma GrowEnds(s: State, m: State, q: State, c: nat, u: Range, sa: nat)
    requires Quiet(s) && Ready(s, c) && (c == s.rc ==> Reserve(s) == 1)
    requires NewDone(s, m, s.caches[c].slabPages, s.caches[c].mapNow, Some(u)) && Common(s, q) && Quiet(q)
    requires if s.caches[c].onSlab then q == m && sa == u.End() - SIZEOF_KSLAB
             else AllocDone(m, q, s.kc, sa) && sa != 0
    ensures CanAddSlab(q, c, u, sa) && c in q.caches && u in q.used
    ensures var t := SlabAdded(q, c, u, sa); GrowDone(s, t, c, true)
  {
    hide Layout, CachesOK, SlabsOK, LiveOK, RefsOK, PagingOK, MappedOK, Bytes, Gapped, Used, Homes, KeepsPages, PhysPages, HeldRanges, Held, Tiles,
         CanAddSlab, SameShapes, SlabGrown, SameCaches, CannotGrow;
    ReadyCache(s, c);
    SameRoots(s, q);
    SameCache(s, q, c);
    GrowUses(s, m, q, c, u, sa);
    GrowMaps(s, m, q, c, u, sa);
    GrowCanAdd(s, m, q, c, u, sa);
    GrowCounts(s, q, c, u, sa);
    AddIsFine(q, c, u, sa);
    GrownReserve(s, q, c, u, sa);
    var t := SlabAdded(q, c, u, sa);
    CommonTrans(s, q, t);
    GrownRest(q, c, u, sa);
  }

  lemma GrowCounts(s: State, q: State, c: nat, u: Range, sa: nat)
    requires HasCaches(s, c) && SameCaches(s, q, {s.rc, s.kc}) && c in q.caches && u in q.used && q.rc == s.rc
    requires c == s.rc ==> Used(s, q, 1, 1) && SameCaches(s, q, {s.rc})
    requires c != s.rc ==> q.caches[c] == s.caches[c] && Used(s, q, MaxPages(s, c), MaxFrames(s, c))
    ensures var t := SlabAdded(q, c, u, sa);
            if c == s.rc then Used(s, t, 1, 1) && SameCaches(s, t, {s.rc}) else SlabGrown(s, t, c)
  {
    hide MaxPages, MaxFrames, Persist;
  }

  lemma GrownRest(q: State, c: nat, u: Range, sa: nat)
    requires Quiet(q) && c in q.caches && u in q.used && Inv(SlabAdded(q, c, u, sa))
    ensures Quiet(SlabAdded(q, c, u, sa))
  {
    hide Inv;
  }

  // ---- Runs of range calls ----

  /** A call by a user of ranges: how many pages and whether to map them at once, or which of its ranges to give back. */
  datatype RangeCall = Take(pages: nat, mapNow: bool) | Give(which: nat)

  /** The caller's ranges are exactly those held now and not at the start. */
  ghost predicate OwnsRanges(s: State, t: State, mine: seq<Range>) {
    && Quiet(t) && Common(s, t) && Held(t) == Held(s) && Distinct(mine)
    && HeldRanges(t) == HeldRanges(s) + Elems(mine) && HeldRanges(s) !! Elems(mine)
    && t.rc in t.caches && Reserve(t) >= 2
  }

  lemma OwnsRangesFirst(s: State)
    requires Quiet(s) && s.rc in s.caches && Reserve(s) >= 2
    ensures OwnsRanges(s, s, [])
  {
    hide Inv;
    CommonRefl(s);
  }

  lemma TookRange(s: State, m: State, t: State, mine: seq<Range>, n: nat, mapNow: bool, r: Option<Range>)
    requires OwnsRanges(s, m, mine) && NewDone(m, t, n, mapNow, r)
    ensures OwnsRanges(s, t, if r.Some? then mine + [r.value] else mine)
  {
    hide Quiet, Inv, SameShapes, Homes, KeepsPages, PhysPages, Held, HeldRanges, Bytes, Tiles, Used, FirstFit, AllMapped, CannotTake, SameCaches;
    CommonTrans(s, m, t);
    if r.Some? {
      assert forall i :: 0 <= i < |mine| ==> mine[i] in Elems(mine);
      assert Elems(mine + [r.value]) == Elems(mine) + {r.value};
    }
  }

  lemma GaveRange(s: State, m: State, t: State, mine: seq<Range>, i: nat)
    requires OwnsRanges(s, m, mine) && i < |mine| && Deleted(m, t, mine[i]) && MinReserve(m, t, 0)
    ensures mine[i] in HeldRanges(m) && OwnsRanges(s, t, RemoveAt(mine, i))
  {
    hide Quiet, Inv, SameShapes, Homes, KeepsPages, PhysPages, Held, HeldRanges, Bytes, Tiles, CascadeOf, OnlyRangeSlabsGo;
    CommonTrans(s, m, t);
    RemoveAtContents(mine, i);
    assert mine[i] in Elems(mine);
  }

  lemma FramesLeft(a: set<nat>, b: set<nat>, f: nat)
    requires a <= b && f in a
    ensures |b - {f}| >= |a| - 1
  {
    var c := b - a;
    assert b == a + c && |b| == |a| + |c|;
    assert |b - {f}| == |b| - 1;
  }

  lemma NoFit(l: seq<Range>, n: nat)
    requires forall j :: 0 <= j < |l| ==> l[j].pages < n
    ensures !Fits(l, n)
  {}
}
