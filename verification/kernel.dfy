/** The kernel memory stack as the source runs it: mem/kvmm.c, mem/kvmm_slab.c and mem/kmalloc.c. */
module KernelMemory {
  import opened Seqs
  import opened KernelState
  import opened Words
  import opened Wrappers
  import opened SlabLemmas
  import opened SlabBinding
  import opened RangeMoves
  import opened PagingLemmas
  import opened PageContents
  import opened AllocationCosts
  import opened KernelContracts
  import opened KmallocContracts

  class Kernel {
    var free: seq<Range>
    var used: seq<Range>
    var slabs: map<nat, Slab>
    var caches: map<nat, Cache>
    var pt: map<nat, nat>
    var owner: map<nat, nat>
    var frames: set<nat>
    const rangeCache: nat
    const kslabCache: nat
    const kmallocCaches: seq<nat>
    ghost var live: map<nat, nat>
    ghost var hand: set<Range>

    ghost function View(): State
      reads this
    {
      State(free, used, hand, slabs, caches, live, pt, owner, frames, rangeCache, kslabCache)
    }

    // ---- Searching the lists ----

    /** Index of the last range that starts no later than `vaddr`, -1 for none. */
    method GetClosestPreceding(list: seq<Range>, vaddr: nat) returns (i: int)
      requires Sorted(list)
      ensures -1 <= i < |list| && PlaceFor(list, vaddr, (i + 1) as nat)
    {
      i := -1;
      for k := 0 to |list|
        invariant i == k - 1
        invariant forall j :: 0 <= j < k ==> list[j].base <= vaddr
      {
        if vaddr < list[k].base {
          return;
        }
        i := k;
      }
    }

    /** First fit. */
    method FindSuitableFree(n: nat) returns (i: int)
      ensures -1 <= i < |free|
      ensures i >= 0 ==> free[i].pages >= n && forall j :: 0 <= j < i ==> free[j].pages < n
      ensures i < 0 ==> forall j :: 0 <= j < |free| ==> free[j].pages < n
    {
      for k := 0 to |free|
        invariant forall j :: 0 <= j < k ==> free[j].pages < n
      {
        if free[k].pages >= n {
          return k;
        }
      }
      i := -1;
    }

    /** Index of the range whose structure is at `ref`. */
    method Deref(list: seq<Range>, ref: nat) returns (i: nat)
      requires exists x :: x in list && x.ref == ref
      ensures i < |list| && list[i].ref == ref
    {
      i := 0;
      while list[i].ref != ref
        invariant i < |list|
        invariant exists x :: x in list[i..] && x.ref == ref
        decreases |list| - i
      {
        i := i + 1;
      }
    }

    /** The used range that owns an address, through the physical page when one is mapped there. */
    method LookupRange(vaddr: nat) returns (r: Option<Range>)
      requires Inv(View())
      requires Resolvable(View(), vaddr)
      ensures r.Some? ==> r.value in used && r.value.Covers(vaddr)
      ensures r.None? ==> forall u :: u in used ==> !u.Covers(vaddr)
    {
      hide CachesOK, SlabsOK, LiveOK, RefsOK, MappedOK;
      if PageOf(vaddr) in pt {
        ghost var u :| u in used && u.Covers(vaddr);
        LookupAgrees(View(), u, vaddr);
        var ref := owner[pt[PageOf(vaddr)]];
        var i := Deref(used, ref);
        r := Some(used[i]);
      } else {
        var i := GetClosestPreceding(used, vaddr);
        if i < 0 || !used[i].Covers(vaddr) {
          forall u | u in used ensures !u.Covers(vaddr) {
            var j := IndexOf(used, u);
            if i >= 0 && j < i { assert used[j].End() <= used[i].base; }
          }
          return None;
        }
        r := Some(used[i]);
      }
    }

    // ---- Objects ----

    /** The object goes to the front of the slab's free list, and a slab that was full to the head of its cache's. */
    method PushObject(sa: nat, vaddr: nat)
      requires Pushable(View(), sa)
      modifies this
      ensures View() == Pushed(old(View()), sa, vaddr)
      ensures slabs.Keys == old(slabs.Keys) && slabs[sa].free == [vaddr] + old(slabs[sa].free)
              && slabs[sa].nbFree == old(slabs[sa].nbFree) + 1
      ensures caches.Keys == old(caches.Keys) && old(slabs[sa].cache) in caches
      ensures var b, k := old(slabs[sa]), old(caches[slabs[sa].cache]);
              && caches[b.cache].nbFreeObj == k.nbFreeObj + 1
              && caches[b.cache].slabList == if b.free == [] then [sa] + Delete(k.slabList, sa) else k.slabList
    {
      var b := slabs[sa];
      var k := caches[b.cache];
      var list := k.slabList;
      if b.free == [] {
        list := [sa] + Delete(list, sa);
      }
      slabs := slabs[sa := b.(free := [vaddr] + b.free, nbFree := b.nbFree + 1)];
      caches := caches[b.cache := k.(nbFreeObj := k.nbFreeObj + 1, slabList := list)];
      live := live - {vaddr};
    }

    /** free_object: give an object back to its slab, or refuse an address where no object starts. */
    method FreeObject(vaddr: nat) returns (err: int, emptySlab: nat)
      requires Inv(View()) && Resolvable(View(), vaddr)
      modifies this
      ensures ObjectFreed(old(View()), View(), vaddr, err, emptySlab)
      ensures vaddr in old(Held(View())) ==> err == 0 && HeldFreed(old(View()), View(), vaddr, emptySlab)
      ensures err == 0 ==> exists sa :: SlotOf(old(View()), vaddr, sa) && NamesEmpty(View(), sa, emptySlab)
    {
      hide Inv, Held, HeldRanges, Tiles, Slots, HeldFreed, ObjectFreed, IsSlot, SlotOf, Delete, Linked;
      ghost var s := View();
      emptySlab := 0;
      var range := LookupRange(vaddr);
      OwnerOfAddress(s, vaddr, range);
      if vaddr in Held(s) { HeldIsSlot(s, vaddr); }
      if !IsSlot(s, vaddr) { NotFreed(s, vaddr); }
      if range.None? || range.value.slab == 0 {
        return -3, 0;
      }
      var sa := range.value.slab;
      var b := slabs[sa];
      var k := caches[b.cache];
      err := -3;
      if (vaddr - b.first) % k.objSize != 0 {
        return;
      }
      if (vaddr - b.first) / k.objSize >= k.nbObj {
        return;
      }
      SlotIsOwned(s, vaddr, sa);
      SlotIsPushable(s, sa, vaddr);
      PushObject(sa, vaddr);
      b := slabs[sa];
      k := caches[b.cache];
      if b.nbFree >= k.nbObj && k.nbFreeObj - b.nbFree >= k.minFree {
        emptySlab := sa;
      }
      err := 0;
      assert NamesEmpty(View(), sa, emptySlab);
      SlotFreed(s, vaddr, sa, emptySlab);
    }

    /** cache_release_slab: an empty slab leaves its cache, and with `mustDel` its range is deleted at once. */
    method CacheReleaseSlab(sa: nat, mustDel: bool) returns (ret: int, range: Range)
      requires Inv(View()) && Releasable(View(), sa)
      requires if mustDel then Quiet(View()) else sa !in OffSlabStructs(View())
      modifies this
      ensures ret == 0 && Common(old(View()), View()) && slabs.Keys <= old(slabs.Keys) - {sa}
      ensures !mustDel ==> SlabGone(old(View()), View(), sa, range) && Held(View()) == old(Held(View()))
                           && HeldRanges(View()) == old(HeldRanges(View())) + {range}
      ensures mustDel ==> Quiet(View()) && Held(View()) == old(Held(View())) && HeldRanges(View()) == old(HeldRanges(View()))
      ensures MinReserve(old(View()), View(), 0)
      decreases if sa in OffSlabStructs(View()) then 4 else if mustDel then 2 else 0
    {
      hide Inv, Held, HeldRanges, Tiles, Homes, KeepsPages, PhysPages, SameShapes, OffSlabStructs, Gapped, Empty, CachesOK, SlabsOK;
      ghost var s := View();
      RemoveIsFine(s, sa);
      var c := slabs[sa].cache;
      var k := caches[c];
      range := Range(slabs[sa].range, slabs[sa].first, k.slabPages, sa);
      var nbFree := slabs[sa].nbFree;
      caches := caches[c := k.(slabList := Delete(k.slabList, sa), nbFreeObj := k.nbFreeObj - nbFree)];
      slabs := slabs - {sa};
      used := used[PosOf(used, range) := range.(slab := 0)];
      range := range.(slab := 0);
      ghost var m := View();
      assert m == SlabRemoved(s, sa);
      if !k.onSlab {
        HeldIsSlot(m, sa);
        var _ := CacheFree(sa);
        CommonTrans(s, m, View());
      }
      ret := 0;
      if mustDel {
        ghost var n := View();
        ret := DelRange(range);
        CommonTrans(s, n, View());
      }
    }

    /** kvmm_cache_free. An address whose slot nobody holds is accepted as well, and only the free list changes. */
    method CacheFree(vaddr: nat) returns (ret: int)
      requires Quiet(View()) && Resolvable(View(), vaddr) && NoWrongRelease(View(), vaddr)
      modifies this
      ensures ret == 0 <==> old(IsSlot(View(), vaddr))
      ensures ret != 0 ==> ret == -3 && View() == old(View())
      ensures vaddr in old(Held(View())) ==> ret == 0 && ObjectReturned(old(View()), View(), vaddr)
      ensures vaddr !in old(Held(View())) ==> WronglyFreed(old(View()), View(), vaddr)
      decreases if OnSlabObject(View(), vaddr) then 3 else 5
    {
      hide Inv, Held, HeldRanges, Tiles, Homes, KeepsPages, PhysPages, SameShapes, OffSlabStructs, Gapped, Empty, CachesOK, SlabsOK, Slots,
           SlotOf;
      ghost var s := View();
      CommonRefl(s);
      if vaddr in Held(s) { HeldIsSlot(s, vaddr); }
      var err, sa := FreeObject(vaddr);
      if err != 0 {
        return err;
      }
      ghost var m := View();
      if vaddr in Held(s) {
        PushedReserve(s, m, vaddr);
      } else {
        NotReleased(s, m, vaddr, sa);
      }
      if sa != 0 {
        PushedRank(s, m, vaddr);
        var r, _ := CacheReleaseSlab(sa, true);
        CommonTrans(s, m, View());
        return r;
      }
      ret := 0;
    }

    /** kvmm_cache_release_struct_range: free a range structure; when that empties its slab, hand the slab's
        range to the caller instead of deleting it. */
    method ReleaseStructRange(ref: nat) returns (e: Option<Range>)
      requires Inv(View()) && ref in Held(View()) && InCache(View(), ref, rangeCache)
      modifies this
      ensures Common(old(View()), View()) && Held(View()) == old(Held(View())) - {ref}
      ensures free == old(free) && hand == old(hand) && pt == old(pt)
      ensures MinReserve(old(View()), View(), 1)
      ensures StructReleased(old(View()), View(), e) && (e.Some? <==> Empties(old(View()), ref))
      decreases 1, 0
    {
      hide Layout, CachesOK, SlabsOK, LiveOK, RefsOK, PagingOK, MappedOK, NamesEmpty, SlotOf, KeepsPages, PhysPages;
      ghost var s := View();
      HeldIsSlot(s, ref);
      var err, sa := FreeObject(ref);
      ghost var m := View();
      e := None;
      if sa != 0 {
        RangeSlabsAreOnSlab(m, sa);
        var ret, range := CacheReleaseSlab(sa, false);
        CommonTrans(s, m, View());
        GoneIsReleased(s, m, View(), sa, range);
        e := Some(range);
      }
    }

    /** paging_unmap on every page of a range. */
    method UnmapPages(range: Range)
      modifies this`pt, this`frames
      ensures (pt, frames) == UnmapMany(old(pt), old(frames), range.base, range.pages)
      ensures UnmapsPages(old(pt), old(frames), pt, frames, range.base, range.pages)
    {
      hide UnmapsPages;
      for i := 0 to range.pages
        invariant (pt, frames) == UnmapMany(old(pt), old(frames), range.base, i)
      {
        var r := Unmap(pt, frames, PageAt(range.base, i));
        pt, frames := r.0, r.1;
      }
      UnmapManyUnmaps(old(pt), old(frames), range.base, range.pages);
    }

    /** Free range i absorbs free range i + 1, whose structure is released. A range of structures that becomes
        empty by that leaves the used list and is returned. */
    method MergeAt(i: nat) returns (e: Option<Range>)
      requires Inv(View()) && CanMerge(View(), i)
      modifies this
      ensures Inv(View()) && free == Merged(old(View()), i).free
      ensures Stepped(old(View()), View(), Opt(e)) && MinReserve(old(View()), View(), 1)
      ensures Opt(e) !! old(hand) && hand == old(hand) + Opt(e)
      decreases 1, 1
    {
      hide Inv, Held, HeldRanges, Tiles, Homes, KeepsPages, PhysPages, SameShapes, CascadeOf, OnlyRangeSlabsGo, CanMerge, Elems, Refs, Bytes,
           Empties, InCache, Stepped;
      ghost var s := View();
      MergeIsFine(s, i);
      var next := free[i + 1];
      free := RemoveAt(free, i + 1)[i := free[i].(pages := free[i].pages + next.pages)];
      ghost var m := View();
      assert m == Merged(s, i);
      e := ReleaseStructRange(next.ref);
      CommonTrans(s, m, View());
      ghost var n := View();
      if e.Some? {
        TakeIsFine(n, e.value);
        used := Delete(used, e.value);
        hand := hand + {e.value};
        assert View() == UsedTaken(n, e.value);
        CommonTrans(s, n, View());
      }
      HeldRangesAreUsed(s);
      MergeSteps(s, i, n, View(), e);
    }

    /** Merge with the preceding free range. The list is circular, so there always is one. */
    method CoalescePrev(k: nat) returns (k': nat, e: Option<Range>)
      requires Inv(View()) && GappedAround(free, k)
      modifies this
      ensures Inv(View()) && Stepped(old(View()), View(), Opt(e)) && MinReserve(old(View()), View(), 0)
      ensures Opt(e) !! old(hand) && hand == old(hand) + Opt(e)
      ensures GappedAround(free, k') && ApartFromPrev(free, k')
      ensures EndsAtNext(old(free), k) ==> EndsAtNext(free, k')
      decreases 1, 2
    {
      hide Inv, Stepped, Merged, Sorted, CanMerge;
      ghost var m := View();
      PrevIsReal(free, k);
      k', e := k, None;
      var p := if k == 0 then |free| - 1 else k - 1;
      if free[p].End() == free[k].base {
        AroundCanMerge(m, k, p);
        e := MergeAt(p);
        MergedFreeSorted(m, View(), p);
        MergedPrevAround(m, k);
        k' := p;
      } else {
        SteppedRefl(m);
      }
    }

    /** Merge with the following free range. */
    method CoalesceNext(k: nat) returns (e: Option<Range>)
      requires Inv(View()) && GappedAround(free, k) && ApartFromPrev(free, k)
      modifies this
      ensures Stepped(old(View()), View(), Opt(e)) && Gapped(free)
      ensures MinReserve(old(View()), View(), if EndsAtNext(old(free), k) then 1 else 0)
      ensures Opt(e) !! old(hand) && hand == old(hand) + Opt(e)
      decreases 1, 2
    {
      hide Inv, Stepped, Merged, Sorted, CanMerge;
      ghost var m := View();
      NextIsReal(free, k);
      e := None;
      var q := if k + 1 == |free| then 0 else k + 1;
      if free[k].End() == free[q].base {
        AroundCanMerge(m, k, k);
        e := MergeAt(k);
        MergedNextGapped(m, k);
      } else {
        AroundApartIsGapped(free, k);
        SteppedRefl(m);
      }
    }

    /** Insert a range into the free list, unmap it, and merge it with the free ranges it touches. */
    method PutBack(cur: Range, waiting: seq<Range>) returns (waiting': seq<Range>)
      requires Inv(View()) && Gapped(free) && Distinct(waiting) && cur !in waiting && hand == Elems(waiting) + {cur}
      modifies this
      ensures Turn(old(View()), View(), cur, waiting, waiting')
      decreases 1, 3
    {
      hide Inv, Stepped, Gapped, Sorted, PlaceFor, TouchesNext, EndsAtNext, GappedAround, ApartFromPrev,
           Distinct, Turn;
      ghost var s := View();
      FreeIsSorted(s);
      var before := GetClosestPreceding(free, cur.base);
      var k := before + 1;
      free := InsertAt(free, k, cur);
      UnmapPages(cur);
      hand := hand - {cur};
      ghost var m := View();
      PutIsFine(s, m, cur, k);
      var k', prec := CoalescePrev(k);
      ghost var n := View();
      StepTrans(s, m, n, {}, Opt(prec));
      var succ := CoalesceNext(k');
      StepTrans(s, n, View(), Opt(prec), Opt(succ));
      WaitingGrows(waiting, prec);
      waiting' := waiting + (if prec.Some? then [prec.value] else []);
      WaitingGrows(waiting', succ);
      waiting' := waiting' + (if succ.Some? then [succ.value] else []);
      TurnDone(s, View(), cur, waiting, waiting', prec, succ);
    }

    /** kvmm_del_range. The worklist replaces an indirect recursion: a range of structures that becomes empty
        while neighbours are merged is freed in a later turn. */
    method DelRange(range: Range) returns (ret: int)
      requires Quiet(View()) && range in HeldRanges(View())
      modifies this
      ensures ret == 0 && Deleted(old(View()), View(), range)
      ensures MinReserve(old(View()), View(), if TouchesNext(old(free), range) then 1 else 0)
      decreases 1, 4
    {
      hide Inv, Held, HeldRanges, Tiles, Homes, KeepsPages, PhysPages, SameShapes, CascadeOf, OnlyRangeSlabsGo, Layout;
      ghost var s := View();
      var waiting: seq<Range> := [];
      TakeIsFine(s, range);
      used := Delete(used, range);
      hand := hand + {range};
      assert View() == UsedTaken(s, range);
      var cur := range;
      var more := true;
      Starting(s, View(), range);
      while more
        invariant Working(s, View(), range, cur, waiting, more)
        decreases |used| + |waiting| + (if more then 1 else 0)
      {
        ghost var m := View();
        ghost var w := waiting;
        waiting := PutBack(cur, waiting);
        OneTurn(s, m, View(), range, cur, w, waiting);
        if waiting == [] {
          more := false;
        } else {
          cur, waiting := waiting[0], waiting[1..];
        }
      }
      ret := 0;
    }

    // ---- Allocation ----

    /** Take the first object of the slab at the head of the cache's list; a slab that becomes full goes last. */
    method PopObject(c: nat) returns (obj: nat)
      requires Inv(View()) && CanPop(View(), c)
      modifies this
      ensures Took(old(View()), View(), c, obj)
      ensures obj == old(slabs[caches[c].slabList[0]].free[0])
      ensures var sa, list := old(caches[c].slabList[0]), old(caches[c].slabList);
              && sa in slabs && c in caches && slabs[sa].free == old(slabs[caches[c].slabList[0]].free[1..])
              && caches[c].slabList == if slabs[sa].free == [] then list[1..] + [sa] else list
    {
      hide Inv, Obtained, SameShapes, Held, HeldRanges, Tiles, Homes, KeepsPages, PhysPages;
      ghost var s := View();
      PopIsFine(s, c);
      var k := caches[c];
      var sa := k.slabList[0];
      var b := slabs[sa];
      obj := b.free[0];
      b := b.(free := b.free[1..], nbFree := b.nbFree - 1);
      var list := if b.free == [] then k.slabList[1..] + [sa] else k.slabList;
      slabs := slabs[sa := b];
      caches := caches[c := k.(nbFreeObj := k.nbFreeObj - 1, slabList := list)];
      live := live[obj := sa];
      assert View() == Popped(s, c);
    }

    /** kvmm_cache_alloc, 0 when out of memory. The test on the reserve is `==`, not `<`: for the cache of range
        structures, growing allocates one more structure while the reserve is being restored. */
    method CacheAlloc(c: nat) returns (obj: nat)
      requires Quiet(View()) && Ready(View(), c)
      modifies this
      ensures AllocDone(old(View()), View(), c, obj)
      decreases Level(View(), c), 2
    {
      hide Inv, SameShapes, Held, HeldRanges, Tiles, Homes, KeepsPages, PhysPages, Bytes, Gapped, Used, SameCaches, Fits;
      ghost var s := View();
      HeadIsEnough(s, c);
      CommonRefl(s);
      if caches[c].slabList == [] || slabs[caches[c].slabList[0]].free == [] {
        var ok := CacheGrow(c);
        if !ok {
          FirstFails(s, c);
          return 0;
        }
      }
      ghost var m := View();
      obj := PopObject(c);
      ghost var n := View();
      CommonTrans(s, m, n);
      if caches[c].minFree > 0 && caches[c].nbFreeObj == caches[c].minFree - 1 {
        GrowIsReady(s, m, n, c, obj);
        var ok := CacheGrow(c);
        CommonTrans(s, n, View());
        if !ok {
          ghost var q := View();
          StillHeld(n, q, obj, c);
          HeldIsSlot(q, obj);
          var _ := CacheFree(obj);
          CommonTrans(s, q, View());
          AllocFails(s, m, n, q, View(), c, obj);
          return 0;
        }
      }
      AllocEnds(s, m, n, View(), c, obj);
    }

    /** cache_grow. */
    method CacheGrow(c: nat) returns (ok: bool)
      requires Quiet(View()) && Ready(View(), c) && (c == rangeCache ==> Reserve(View()) == 1)
      modifies this
      ensures GrowDone(old(View()), View(), c, ok)
      decreases if c == rangeCache then 0 else Level(View(), c), if c == rangeCache then 6 else 1
    {
      hide Inv, SameShapes, Held, HeldRanges, Tiles, Homes, KeepsPages, PhysPages, Bytes, Gapped, Used, SameCaches, Fits, OffSlabStructs,
           CannotGrow, Starved;
      ghost var s := View();
      ReadyCache(s, c);
      var range := NewRange(caches[c].slabPages, caches[c].mapNow);
      ghost var m := View();
      if range.None? {
        RangeFails(s, m, c);
        return false;
      }
      SameCache(s, m, c);
      SameCache(s, m, kslabCache);
      var sa: nat;
      if caches[c].onSlab {
        sa := range.value.End() - SIZEOF_KSLAB;
      } else {
        sa := CacheAlloc(kslabCache);
        CommonTrans(s, m, View());
        if sa == 0 {
          ghost var q := View();
          HeaderFails(s, m, q, c, range.value);
          var _ := DelRange(range.value);
          CommonTrans(s, q, View());
          return false;
        }
      }
      ghost var q := View();
      GrowEnds(s, m, q, c, range.value, sa);
      AddSlab(c, range.value, sa);
      ok := true;
    }

    /** cache_add_slab: all the objects of the new slab are free, and it goes to the head of the cache's list. */
    method AddSlab(c: nat, range: Range, sa: nat)
      requires Inv(View()) && CanAddSlab(View(), c, range, sa)
      modifies this
      ensures Inv(View()) && View() == SlabAdded(old(View()), c, range, sa)
      ensures sa in slabs && c in caches && caches[c].slabList == [sa] + old(caches[c].slabList)
      ensures |slabs[sa].free| == slabs[sa].nbFree == caches[c].nbObj && slabs[sa].first == range.base
      ensures forall j :: 0 <= j < caches[c].nbObj ==> slabs[sa].free[j] == range.base + j * caches[c].objSize
    {
      hide Inv, CanAddSlab;
      ghost var s := View();
      AddIsFine(s, c, range, sa);
      var k := caches[c];
      var objs: seq<nat> := [];
      for i := 0 to k.nbObj
        invariant |objs| == i && forall j :: 0 <= j < i ==> objs[j] == range.base + j * k.objSize
      {
        objs := objs + [range.base + i * k.objSize];
      }
      assert objs == ObjectsOf(range.base, k.objSize, k.nbObj);
      slabs := slabs[sa := Slab(c, range.ref, range.base, objs, k.nbObj)];
      caches := caches[c := k.(nbFreeObj := k.nbFreeObj + k.nbObj, slabList := [sa] + k.slabList)];
      used := used[PosOf(used, range) := range.(slab := sa)];
    }

    /** Take `n` pages from the first free range that has them: the whole range, or a new one split from its front. */
    method ChooseRange(n: nat) returns (r: Option<Range>)
      requires Quiet(View()) && n > 0 && rangeCache in caches && Reserve(View()) >= 1
      modifies this
      ensures r.None? ==> RangeTaken(old(View()), View(), n, r)
      ensures r.Some? ==> Chosen(old(View()), View(), n, r.value)
      decreases if Reserve(View()) >= 2 then 1 else 0, 3
    {
      hide Inv, SameShapes, Held, HeldRanges, Tiles, Homes, KeepsPages, PhysPages, Bytes, Gapped, Chosen;
      ghost var s := View();
      CommonRefl(s);
      var i := FindSuitableFree(n);
      if i < 0 {
        NoFit(free, n);
        return None;
      }
      var range := free[i];
      if range.pages == n {
        assert FirstAt(s.free, n, range, Extra(s), i);
        TakeFreeIsFine(s, i);
        free := RemoveAt(free, i);
        hand := {range};
        assert View() == FreeTaken(s, i);
      } else {
        r := SplitRange(i, n);
        return;
      }
      r := Some(range);
    }

    /** The first `n` pages of free range i become a new range, for which a structure is allocated. The allocation
        may shrink the free range itself. */
    method SplitRange(i: nat, n: nat) returns (r: Option<Range>)
      requires Quiet(View()) && n > 0 && rangeCache in caches && Reserve(View()) >= 1
      requires i < |free| && free[i].pages > n && forall j :: 0 <= j < i ==> free[j].pages < n
      modifies this
      ensures r.None? ==> RangeTaken(old(View()), View(), n, r)
      ensures r.Some? ==> Chosen(old(View()), View(), n, r.value)
      decreases if Reserve(View()) >= 2 then 1 else 0, 3, 0
    {
      hide Inv, SameShapes, Held, HeldRanges, Tiles, Homes, KeepsPages, PhysPages, Bytes, Gapped, Used, SameCaches, Chosen, RangeTaken;
      ghost var s := View();
      var range := free[i];
      var obj := CacheAlloc(rangeCache);
      if obj == 0 {
        SplitFails(s, View(), i, n);
        return None;
      }
      ghost var m := View();
      StillThere(s, m, range, n, obj);
      var j := Deref(free, range.ref);
      assert FirstAt(s.free, n, range.(pages := n), Extra(s), i);
      CarveIsFine(s, m, range, i, j, n, obj);
      range := Range(obj, free[j].base, n, 0);
      free := free[j := free[j].(base := free[j].base + n * PAGE_SIZE, pages := free[j].pages - n)];
      hand := {range};
      assert View() == Carved(m, j, n, obj);
      r := Some(range);
    }

    /** The first half of kvmm_new_range: the chosen range is on the used list, bound to no slab. */
    method TakeRange(n: nat) returns (r: Option<Range>)
      requires Quiet(View()) && n > 0 && rangeCache in caches && Reserve(View()) >= 1
      modifies this
      ensures RangeTaken(old(View()), View(), n, r)
      decreases if Reserve(View()) >= 2 then 1 else 0, 4
    {
      hide Inv, RangeTaken, Common, Held, HeldRanges, Used, SameCaches, FirstFit, Bare, Gapped;
      ghost var s := View();
      r := ChooseRange(n);
      if r.Some? {
        var range := r.value;
        ghost var h := View();
        FreeIsSorted(h);
        var before := GetClosestPreceding(used, range.base);
        used := InsertAt(used, before + 1, range);
        hand := {};
        PutUsedIsFine(s, h, View(), range, before + 1);
      }
    }

    /** Give a physical page to every page of a range, until there are none left. Mapping itself never fails and takes
        no page for tables: the page tables of the kernel are there from the start. */
    method MapPages(range: Range) returns (ok: bool)
      requires Inv(View()) && range in used && Bare(View(), range)
      modifies this`pt, this`owner, this`frames
      ensures Mapped(old(View()), View()) && Extends(old(View()), View()) && OnlyMaps(old(View()), View(), range)
      ensures ok ==> FreshlyMapped(old(View()), View(), range) && |frames| >= |old(frames)| - range.pages
      ensures !ok ==> |old(frames)| < range.pages
    {
      hide Inv, Mapped, Extends, OnlyMaps, FreshlyMapped, Bare;
      ghost var s := View();
      MappingStarts(s, range);
      for i := 0 to range.pages
        invariant Mapping(s, View(), range, i)
      {
        if frames == {} {
          return false;
        }
        var f :| f in frames;
        MappingGoesOn(s, View(), range, i, f);
        var v := PageAt(range.base, i);
        ghost var m := View();
        var r := Unmap(pt, frames, v);
        pt, frames := r.0[v := f], r.1 - {f};
        owner := owner[f := range.ref];
        assert View() == PageMapped(m, v, f, range.ref);
      }
      ok := true;
    }

    /** kvmm_new_range: `n` contiguous pages, mapped at once if asked. */
    method NewRange(n: nat, mapNow: bool) returns (r: Option<Range>)
      requires Quiet(View()) && rangeCache in caches && Reserve(View()) >= 1
      modifies this
      ensures NewDone(old(View()), View(), n, mapNow, r)
      decreases if Reserve(View()) >= 2 then 1 else 0, 5
    {
      hide Inv, SameShapes, Held, HeldRanges, Tiles, Homes, KeepsPages, PhysPages, Bytes, Gapped, Persist, TouchesNext,
           FreshlyMapped, Extends, Bare, OnlyMaps, FirstFit;
      ghost var s := View();
      CommonRefl(s);
      if n == 0 {
        return None;
      }
      r := TakeRange(n);
      ghost var m := View();
      if r.Some? && mapNow {
        HeldIsUsed(m, r.value);
        var ok := MapPages(r.value);
        if !ok {
          ghost var q := View();
          var x := r.value;
          var _ := DelRange(x);
          MappingFails(s, m, q, View(), n, x);
          return None;
        }
        MappedIsNew(s, m, View(), n, r.value);
      } else {
        TakenIsNew(s, m, n, mapNow, r);
      }
    }

    /** Any run of kvmm_new_range and kvmm_del_range by a caller that gives back what it took: `mine` are the
        ranges it holds, whatever their sizes and whether or not they are mapped. */
    method RunRanges(calls: seq<RangeCall>) returns (mine: seq<Range>)
      requires Quiet(View()) && rangeCache in caches && Reserve(View()) >= 2
      modifies this
      ensures OwnsRanges(old(View()), View(), mine)
    {
      hide Inv, Held, HeldRanges, Bytes, Tiles, Gapped, SameShapes, Homes, KeepsPages, PhysPages, NewDone, Deleted;
      ghost var s := View();
      mine := [];
      OwnsRangesFirst(s);
      for i := 0 to |calls|
        invariant OwnsRanges(s, View(), mine)
      {
        ghost var m := View();
        match calls[i] {
          case Take(pages, mapNow) =>
            var r := NewRange(pages, mapNow);
            TookRange(s, m, View(), mine, pages, mapNow, r);
            if r.Some? {
              mine := mine + [r.value];
            }
          case Give(which) =>
            if which < |mine| {
              assert mine[which] in Elems(mine);
              var _ := DelRange(mine[which]);
              GaveRange(s, m, View(), mine, which);
              mine := RemoveAt(mine, which);
            }
        }
      }
    }

    // ---- kvmm_alloc, kvmm_free, kmalloc, kfree ----

    /** kvmm_free: only the base address of a range bound to no slab is accepted. */
    method KvmmFree(vaddr: nat) returns (ret: int)
      requires Quiet(View()) && Resolvable(View(), vaddr)
      modifies this
      ensures ret == 0 || ret == -1 || ret == -4
      ensures ret == -4 <==> old(IsBaseOfSlab(View(), vaddr))
      ensures ret == 0 <==> old(IsBase(View(), vaddr))
      ensures forall x :: x in old(HeldRanges(View())) && x.base == vaddr ==> Deleted(old(View()), View(), x)
      ensures ret != 0 ==> View() == old(View())
      ensures MinReserve(old(View()), View(), 0)
    {
      hide Inv, Deleted, Held, HeldRanges, Gapped;
      ghost var s := View();
      CommonRefl(s);
      var range := LookupRange(vaddr);
      FreeAnswer(s, vaddr, range);
      if range.None? || range.value.base != vaddr {
        return -1;
      }
      if range.value.slab != 0 {
        return -4;
      }
      ret := DelRange(range.value);
    }

    /** kmalloc, 0 when out of memory: the first cache whose objects are large enough, whole pages otherwise. */
    method Kmalloc(size: nat) returns (addr: nat)
      requires Quiet(View()) && KmallocReady(View(), kmallocCaches) && size < WORD
      modifies this
      ensures KmallocDone(old(View()), View(), kmallocCaches, size, addr) && KmallocReady(View(), kmallocCaches)
    {
      hide Inv, Held, HeldRanges, Bytes, Tiles, Gapped, SameShapes, Homes, KeepsPages, PhysPages;
      ghost var s := View();
      for i := 0 to |SIZES|
        invariant View() == s
        invariant forall j :: 0 <= j < i ==> SIZES[j] < size
      {
        if SIZES[i] >= size {
          addr := CacheAlloc(kmallocCaches[i]);
          assert IsClass(i, size);
          KmallocObject(s, View(), kmallocCaches, i, size, addr);
          return;
        }
      }
      assert SIZES[10] == 16384;
      var range := NewRange(AlignSup(size) / PAGE_SIZE, true);
      addr := if range.None? then 0 else range.value.base;
      KmallocPages(s, View(), kmallocCaches, size, range);
    }

    /** kfree: first as an object of a cache, then as a range of pages. */
    method Kfree(vaddr: nat) returns (ret: int)
      requires Quiet(View()) && KmallocReady(View(), kmallocCaches)
      requires Resolvable(View(), vaddr) && NoWrongRelease(View(), vaddr)
      modifies this
      ensures ret == 0 <==> old(IsSlot(View(), vaddr) || IsBase(View(), vaddr))
      ensures ret != 0 ==> (ret == -1 || ret == -4) && View() == old(View())
      ensures old(vaddr in Held(View()) || IsBase(View(), vaddr)) ==>
                KfreeDone(old(View()), View(), vaddr) && KmallocReady(View(), kmallocCaches)
      ensures vaddr !in old(Held(View())) && old(IsSlot(View(), vaddr)) ==> WronglyFreed(old(View()), View(), vaddr)
    {
      hide Inv, Held, HeldRanges, Bytes, Tiles, Gapped, SameShapes, Homes, KeepsPages, PhysPages, IsSlot, NoWrongRelease, Resolvable, WronglyFreed;
      ghost var s := View();
      BaseIsNoSlot(s, vaddr);
      if vaddr in Held(s) { HeldIsSlot(s, vaddr); }
      var err := CacheFree(vaddr);
      if err == 0 {
        if vaddr in Held(s) { KfreeObject(s, View(), kmallocCaches, vaddr); }
        return 0;
      }
      ret := KvmmFree(vaddr);
      if ret == 0 { KfreePages(s, View(), kmallocCaches, vaddr); }
    }

    /** Any run of kmalloc and kfree by a caller that frees what it was given: `mine` are the addresses it holds. */
    method Run(calls: seq<Call>) returns (mine: seq<nat>)
      requires Quiet(View()) && KmallocReady(View(), kmallocCaches)
      modifies this
      ensures Quiet(View()) && KmallocReady(View(), kmallocCaches)
      ensures Common(old(View()), View()) && Owns(old(View()), View(), mine)
    {
      hide Inv, Held, HeldRanges, Bytes, Tiles, Gapped, SameShapes, Homes, KeepsPages, PhysPages, Owns, KmallocReady, Common, NewObject, NewPages;
      ghost var s := View();
      mine := [];
      OwnsNothing(s);
      for i := 0 to |calls|
        invariant Quiet(View()) && KmallocReady(View(), kmallocCaches) && Common(s, View()) && Owns(s, View(), mine)
      {
        ghost var m := View();
        match calls[i] {
          case Alloc(size) =>
            var addr := Kmalloc(size);
            OwnsMore(s, m, View(), mine, kmallocCaches, size, addr);
            if addr != 0 {
              mine := mine + [addr];
            }
          case Free(which) =>
            if which < |mine| {
              OwnsIsHeld(s, m, mine, which);
              KfreeKnown(m, mine[which]);
              var _ := Kfree(mine[which]);
              OwnsLess(s, m, View(), mine, which);
              mine := RemoveAt(mine, which);
            }
        }
      }
    }
  }
}
