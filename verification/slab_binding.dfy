/** Binding a range to a new slab and releasing an empty slab keep every invariant of the kernel state. */
module SlabBinding {
  import opened Seqs
  import opened KernelState
  import opened SlabLemmas

  /** kvmm_set_slab: only the slab field of one used range changes. */
  ghost function Rebound(s: State, u: Range, sb: nat): State
    requires u in s.used
  {
    s.(used := s.used[PosOf(s.used, u) := u.(slab := sb)])
  }

  lemma SpanOfRebound(u: Range, sb: nat)
    ensures u.(slab := sb).Span() == u.Span()
  {
    forall a: nat ensures a in u.(slab := sb).Span() <==> a in u.Span() {
      assert u.Covers(a) <==> u.(slab := sb).Covers(a);
    }
  }

  lemma ReboundTiles(s: State, u: Range, sb: nat)
    requires Layout(s) && u in s.used
    ensures var t := Rebound(s, u, sb); var u' := u.(slab := sb);
            Distinct(t.used) && Elems(t.used) == Elems(s.used) - {u} + {u'} && Tiles(t) == Tiles(s) - {u} + {u'}
            && u' !in Tiles(s) - {u}
  {
    var u' := u.(slab := sb);
    assert u in Tiles(s);
    assert u' == u || !Compat(u, u');
    UpdateContents(s.used, PosOf(s.used, u), u');
  }

  lemma ReboundBytes(w: set<Range>, u: Range, sb: nat)
    requires u in w
    ensures var w' := w - {u} + {u.(slab := sb)}; Refs(w') == Refs(w) && Bytes(w') == Bytes(w)
  {
    var u' := u.(slab := sb);
    var w' := w - {u} + {u'};
    SpanOfRebound(u, sb);
    BytesUnion(w - {u}, {u});
    BytesUnion(w - {u}, {u'});
    assert w == (w - {u}) + {u};
    BytesOne(u);
    BytesOne(u');
    assert Refs(w') == Refs(w - {u}) + {u.ref};
    assert Refs(w) == Refs(w - {u}) + {u.ref};
  }

  lemma ReboundHeldRanges(s: State, u: Range, sb: nat)
    requires Layout(s) && u in s.used
    ensures HeldRanges(Rebound(s, u, sb)) == HeldRanges(s) - {u} + (if sb == 0 then {u.(slab := 0)} else {})
  {
    ReboundTiles(s, u, sb);
    var t := Rebound(s, u, sb);
    forall r ensures r in t.used <==> r in Elems(s.used) - {u} + {u.(slab := sb)} {
      assert r in t.used <==> r in Elems(t.used);
    }
  }

  lemma ReboundLayout(s: State, u: Range, sb: nat)
    requires Layout(s) && u in s.used
    ensures Layout(Rebound(s, u, sb))
  {
    var t := Rebound(s, u, sb);
    var u' := u.(slab := sb);
    ReboundTiles(s, u, sb);
    assert u in Tiles(s);
    forall x, y | x in Tiles(t) && y in Tiles(t) && x != y ensures Compat(x, y) {
      var x0 := if x == u' then u else x;
      var y0 := if y == u' then u else y;
      assert Compat(x0, y0);
    }
  }

  lemma ReboundPaging(s: State, u: Range, sb: nat)
    requires Layout(s) && PagingOK(s) && u in s.used
    ensures PagingOK(Rebound(s, u, sb))
  {
    var t := Rebound(s, u, sb);
    var u' := u.(slab := sb);
    ReboundTiles(s, u, sb);
    forall v, x | v in t.pt && x in Tiles(t) && x.Covers(v)
      ensures x !in t.free && t.pt[v] in t.owner && t.owner[t.pt[v]] == x.ref
    {
      var x0 := if x == u' then u else x;
      assert x0 in Tiles(s) && x0.Covers(v);
    }
  }

  // ---- A new slab ----

  /** cache_add_slab, then the links between the slab and its range. */
  ghost function SlabAdded(s: State, c: nat, u: Range, sa: nat): State
    requires c in s.caches && u in s.used
  {
    var k := s.caches[c];
    Rebound(s, u, sa).(
      slabs := s.slabs[sa := Slab(c, u.ref, u.base, ObjectsOf(u.base, k.objSize, k.nbObj), k.nbObj)],
      caches := s.caches[c := k.(nbFreeObj := k.nbFreeObj + k.nbObj, slabList := [sa] + k.slabList)])
  }

  /** Where the header of a new slab may be: at the end of the range, or in an object of the header cache. */
  ghost predicate CanAddSlab(s: State, c: nat, u: Range, sa: nat) {
    && c in s.caches && u in s.used && u.slab == 0 && u.pages == s.caches[c].slabPages
    && (s.caches[c].mapNow ==> AllMapped(s, u))
    && if s.caches[c].onSlab then sa + SIZEOF_KSLAB == u.End() else sa in Held(s) && InCache(s, sa, s.kc)
  }

  lemma LivePlace(s: State, v: nat)
    requires Layout(s) && CachesOK(s) && SlabsOK(s) && LiveOK(s) && v in s.live
    ensures var r := RangeOf(s, s.live[v]); var k := s.caches[s.slabs[s.live[v]].cache];
            r in s.used && r.slab != 0 && k.objSize > 0 && r.Covers(v)
            && v + k.objSize <= r.End() - (if k.onSlab then SIZEOF_KSLAB else 0)
  {
    assert SlabOK(s, s.live[v]);
    SlotInside(s, s.live[v], v);
    assert CacheOK(s, s.slabs[s.live[v]].cache);
  }

  lemma HeaderPlace(s: State, sa: nat)
    requires Layout(s) && CachesOK(s) && SlabsOK(s) && sa in s.slabs && sa !in OffSlabStructs(s)
    ensures var r := RangeOf(s, sa); r in s.used && r.slab == sa && r.Covers(sa) && sa + SIZEOF_KSLAB == r.End()
  {
    assert SlabOK(s, sa);
    assert RangeOf(s, sa) in Elems(s.used) + s.hand;
  }

  /** At most one used range covers an address. */
  lemma OneUsedCovers(s: State, x: Range, y: Range, a: nat)
    requires Layout(s) && x in s.used && y in s.used && x.Covers(a) && y.Covers(a)
    ensures x == y
  {
    assert x in Tiles(s) && y in Tiles(s);
    assert x == y || Compat(x, y);
  }

  /** An object is never a header that lies on a slab. */
  lemma ObjectIsNotHeader(s: State, v: nat)
    requires Inv(s) && v in s.live && v !in OffSlabStructs(s)
    ensures v !in s.slabs
  {
    hide RefsOK, PagingOK, MappedOK;
    LivePlace(s, v);
    if v in s.slabs {
      HeaderPlace(s, v);
      OneUsedCovers(s, RangeOf(s, v), RangeOf(s, s.live[v]), v);
    }
  }

  /** A range bound to no slab contains no object and no header. */
  lemma PlainRangeIsEmpty(s: State, u: Range, a: nat)
    requires Inv(s) && u in s.used && u.slab == 0 && u.Covers(a)
    ensures a !in s.live && a !in s.slabs
  {
    hide RefsOK, PagingOK, MappedOK;
    assert a in s.slabs ==> SlabOK(s, a);
    if a in s.live {
      LivePlace(s, a);
      OneUsedCovers(s, u, RangeOf(s, s.live[a]), a);
    } else if a in s.slabs {
      HeaderPlace(s, a);
      OneUsedCovers(s, u, RangeOf(s, a), a);
    }
  }

  lemma HeaderIsNew(s: State, c: nat, u: Range, sa: nat)
    requires Inv(s) && CanAddSlab(s, c, u, sa)
    ensures sa !in s.slabs && sa > 0 && (s.caches[c].onSlab ==> sa !in s.live)
  {
    hide RefsOK, PagingOK, MappedOK;
    assert u in Tiles(s) && u in Elems(s.used) + s.hand;
    if s.caches[c].onSlab {
      assert u.Covers(sa);
      PlainRangeIsEmpty(s, u, sa);
    } else {
      ObjectIsNotHeader(s, sa);
      LivePlace(s, sa);
      assert RangeOf(s, s.live[sa]) in Tiles(s);
    }
  }

  lemma AddedCaches(s: State, c: nat, u: Range, sa: nat)
    requires CachesOK(s) && Linked(s) && c in s.caches && u in s.used && sa !in s.slabs
    ensures CachesOK(SlabAdded(s, c, u, sa))
  {
    var t := SlabAdded(s, c, u, sa);
    forall d | d in t.caches ensures CacheOK(t, d) {
      assert CacheOK(s, d);
      var l := s.caches[d].slabList;
      SumFreeFrame(l, s.slabs, t.slabs);
      FullLastFrame(s, t, l);
      if d == c {
        assert t.caches[c].slabList[1..] == l;
        FullLastEnds(t, l, sa);
      }
    }
  }

  lemma AddedSlabs(s: State, c: nat, u: Range, sa: nat)
    requires Layout(s) && CachesOK(s) && SlabsOK(s) && CanAddSlab(s, c, u, sa) && sa !in s.slabs && sa > 0
    ensures SlabsOK(SlabAdded(s, c, u, sa))
    ensures SlabAdded(s, c, u, sa).slabs[sa].free != []
  {
    hide Layout, Held, Full, FullLast, SumFree;
    assert CacheOK(s, c);
    var t := SlabAdded(s, c, u, sa);
    var k := s.caches[c];
    ReboundTiles(s, u, sa);
    forall x | x in t.slabs ensures SlabOK(t, x) {
      if x == sa {
        ObjectsDistinct(u.base, k.objSize, k.nbObj);
        assert RangeOf(t, sa) == u.(slab := sa) && u.(slab := sa) in Elems(t.used);
      } else {
        assert SlabOK(s, x);
        assert RangeOf(t, x) == RangeOf(s, x) && RangeOf(s, x) in Elems(s.used) - {u};
        assert RangeOf(s, x) in Elems(t.used);
      }
    }
    forall r | r in t.used && r.slab != 0 ensures SlabOfRange(t, r) {
      assert r in Elems(t.used);
      if r != u.(slab := sa) {
        assert SlabOfRange(s, r);
      }
    }
  }

  lemma AddedLive(s: State, c: nat, u: Range, sa: nat)
    requires LiveIsFine(s) && Linked(s) && c in s.caches && u in s.used && sa !in s.slabs
    ensures LiveIsFine(SlabAdded(s, c, u, sa))
  {
    var t := SlabAdded(s, c, u, sa);
    forall x | x in s.slabs ensures Slots(t, x) == Slots(s, x) && t.slabs[x] == s.slabs[x] {}
    forall x, w | x in t.slabs && w in Slots(t, x) && w !in t.slabs[x].free ensures IsLive(t, w, x) {
      assert x != sa;
      assert IsLive(s, w, x);
    }
  }

  ghost predicate LiveIsFine(s: State) { Linked(s) && LiveOK(s) }

  lemma AddedRefs(s: State, c: nat, u: Range, sa: nat)
    requires Layout(s) && RefsOK(s) && Linked(s) && c in s.caches && u in s.used && sa !in s.slabs
    ensures RefsOK(SlabAdded(s, c, u, sa))
    ensures Refs(Tiles(SlabAdded(s, c, u, sa))) == Refs(Tiles(s))
    ensures Bytes(Tiles(SlabAdded(s, c, u, sa))) == Bytes(Tiles(s))
  {
    var t := SlabAdded(s, c, u, sa);
    ReboundTiles(s, u, sa);
    ReboundBytes(Tiles(s), u, sa);
    assert u in Tiles(s);
    forall x | x in Tiles(t)
      ensures x.ref in t.live && t.live[x.ref] in t.slabs && t.slabs[t.live[x.ref]].cache == t.rc
    {
      var x0 := if x == u.(slab := sa) then u else x;
      assert x0 in Tiles(s);
    }
  }

  lemma AddedMapped(s: State, c: nat, u: Range, sa: nat)
    requires MappedOK(s) && Linked(s) && CanAddSlab(s, c, u, sa) && sa !in s.slabs
    requires Bytes(Tiles(SlabAdded(s, c, u, sa))) == Bytes(Tiles(s))
    ensures MappedOK(SlabAdded(s, c, u, sa))
  {
    hide Tiles, Bytes;
    var t := SlabAdded(s, c, u, sa);
    forall x | x in t.slabs && t.slabs[x].cache in t.caches && t.caches[t.slabs[x].cache].mapNow
      ensures AllMapped(t, RangeOf(t, x))
    {
      if x != sa {
        assert RangeOf(t, x) == RangeOf(s, x);
        assert AllMapped(s, RangeOf(s, x));
      }
    }
  }

  /** Growing a cache by one slab: invariants hold, the range stops being held, and so does an off-slab header. */
  lemma AddSlabKeeps(s: State, c: nat, u: Range, sa: nat)
    requires Inv(s) && CanAddSlab(s, c, u, sa)
    ensures var t := SlabAdded(s, c, u, sa);
            Inv(t) && Held(t) == Held(s) - {sa} && HeldRanges(t) == HeldRanges(s) - {u}
            && Bytes(Tiles(t)) == Bytes(Tiles(s)) && SameShapes(s, t) && CanPop(t, c)
            && t.hand == s.hand && t.free == s.free && sa !in s.slabs
  {
    hide Layout, CachesOK, SlabsOK, LiveOK, RefsOK, PagingOK, MappedOK;
    HeaderIsNew(s, c, u, sa);
    var t := SlabAdded(s, c, u, sa);
    AddedCaches(s, c, u, sa);
    AddedSlabs(s, c, u, sa);
    AddedLive(s, c, u, sa);
    AddedRefs(s, c, u, sa);
    AddedMapped(s, c, u, sa);
    ReboundLayout(s, u, sa);
    ReboundPaging(s, u, sa);
    SameLayout(Rebound(s, u, sa), t);
    AddedHeld(s, c, u, sa);
  }

  lemma AddedHeld(s: State, c: nat, u: Range, sa: nat)
    requires Layout(s) && RefsOK(s) && Linked(s) && CanAddSlab(s, c, u, sa) && sa !in s.slabs && sa > 0
    requires s.caches[c].onSlab ==> sa !in s.live
    ensures var t := SlabAdded(s, c, u, sa);
            Held(t) == Held(s) - {sa} && HeldRanges(t) == HeldRanges(s) - {u} && SameShapes(s, t)
  {
    hide Layout, RefsOK, MappedOK, Refs, Tiles, InCache;
    var t := SlabAdded(s, c, u, sa);
    AddedRefs(s, c, u, sa);
    assert OffSlabStructs(t) == OffSlabStructs(s) + (if s.caches[c].onSlab then {} else {sa}) by {
      forall x | x in s.slabs ensures x in OffSlabStructs(t) <==> x in OffSlabStructs(s) {}
    }
    ReboundHeldRanges(s, u, sa);
  }

  // ---- Releasing an empty slab ----

  ghost predicate Removable(s: State, sa: nat) {
    && Linked(s) && sa in s.slabs && RangeOf(s, sa) in s.used && sa in s.caches[s.slabs[sa].cache].slabList
    && s.slabs[sa].nbFree <= s.caches[s.slabs[sa].cache].nbFreeObj
  }

  /** cache_release_slab without the deletion of the range: the range is bound to no slab any more. */
  ghost function SlabRemoved(s: State, sa: nat): State
    requires Removable(s, sa)
  {
    var b := s.slabs[sa];
    var k := s.caches[b.cache];
    Rebound(s, RangeOf(s, sa), 0).(
      slabs := s.slabs - {sa},
      caches := s.caches[b.cache := k.(nbFreeObj := k.nbFreeObj - b.nbFree, slabList := Delete(k.slabList, sa))])
  }

  ghost predicate Empty(s: State, sa: nat)
    requires Linked(s)
  {
    sa in s.slabs && s.slabs[sa].nbFree >= s.caches[s.slabs[sa].cache].nbObj
  }

  /** All the objects of an empty slab are on its free list, so none is live. */
  lemma EmptyHasNoLive(s: State, sa: nat, v: nat)
    requires CachesOK(s) && SlabsOK(s) && LiveOK(s) && Empty(s, sa) && v in s.live
    ensures s.live[v] != sa
  {
    var b := s.slabs[sa];
    var k := s.caches[b.cache];
    assert SlabOK(s, sa) && CacheOK(s, b.cache);
    var l := Slots(s, sa);
    ObjectsDistinct(b.first, k.objSize, k.nbObj);
    DistinctLength(l);
    DistinctLength(b.free);
    FewerAreAll(b.free, l);
    assert v in Elems(l) <==> v in Elems(b.free);
  }

  lemma FewerAreAll(a: seq<nat>, l: seq<nat>)
    requires Distinct(a) && Distinct(l) && |a| >= |l| && forall v :: v in a ==> v in l
    ensures Elems(a) == Elems(l)
  {
    DistinctLength(a);
    DistinctLength(l);
    var rest := Elems(l) - Elems(a);
    assert Elems(l) == Elems(a) + rest && |Elems(l)| == |Elems(a)| + |rest|;
    assert rest == {};
  }

  lemma SlabCounted(s: State, sa: nat)
    requires CachesOK(s) && SlabsOK(s) && sa in s.slabs
    ensures SlabOK(s, sa) && RangeOf(s, sa) in s.used && sa in s.caches[s.slabs[sa].cache].slabList
    ensures s.slabs[sa].nbFree <= s.caches[s.slabs[sa].cache].nbFreeObj
  {
    assert SlabOK(s, sa) && CacheOK(s, s.slabs[sa].cache);
    var l := s.caches[s.slabs[sa].cache].slabList;
    SumFreeRemove(l, PosOf(l, sa), s.slabs);
  }

  ghost predicate CanRemoveSlab(s: State, sa: nat) {
    CachesOK(s) && SlabsOK(s) && Removable(s, sa) && SlabOK(s, sa)
  }

  lemma RemovedCaches(s: State, sa: nat)
    requires CanRemoveSlab(s, sa)
    ensures CachesOK(SlabRemoved(s, sa))
    ensures var l := s.caches[s.slabs[sa].cache].slabList;
            Elems(SlabRemoved(s, sa).caches[s.slabs[sa].cache].slabList) == Elems(l) - {sa}
  {
    hide SlabsOK, MappedOK, SlabOK, CacheOK, RangeOf, FullLast, Distinct;
    var t := SlabRemoved(s, sa);
    var c := s.slabs[sa].cache;
    RemovedCache(s, sa);
    forall d | d in t.caches ensures CacheOK(t, d) {
      if d != c {
        OtherCache(s, sa, d);
      }
    }
  }

  /** The list of the cache that loses the slab. */
  lemma RemovedCache(s: State, sa: nat)
    requires CanRemoveSlab(s, sa)
    ensures var c := s.slabs[sa].cache; var t := SlabRemoved(s, sa);
            CacheOK(t, c) && Elems(t.caches[c].slabList) == Elems(s.caches[c].slabList) - {sa}
  {
    hide SlabsOK, MappedOK, SlabOK, RangeOf, FullLast, Full, RemoveAt;
    var t := SlabRemoved(s, sa);
    var c := s.slabs[sa].cache;
    var l, l' := s.caches[c].slabList, t.caches[c].slabList;
    var p := PosOf(l, sa);
    assert CacheOK(s, c);
    SumFreeRemove(l, p, s.slabs);
    RemoveAtContents(l, p);
    FullLastRemove(s, l, p);
    assert forall x :: x in l' <==> x in Elems(l');
    SameFull(s, t, sa);
    FullLastFrame(s, t, l');
    SumFreeFrame(l', s.slabs, t.slabs);
  }

  lemma SameFull(s: State, t: State, sa: nat)
    requires t.slabs == s.slabs - {sa}
    ensures forall x {:trigger Full(t, x)} :: x != sa ==> (Full(t, x) <==> Full(s, x))
  {}

  lemma OtherCache(s: State, sa: nat, d: nat)
    requires CanRemoveSlab(s, sa) && d in s.caches && d != s.slabs[sa].cache
    ensures CacheOK(SlabRemoved(s, sa), d)
  {
    hide SlabsOK, MappedOK, SlabOK, RangeOf, FullLast, Full;
    var t := SlabRemoved(s, sa);
    assert CacheOK(s, d);
    var l := s.caches[d].slabList;
    assert sa !in l;
    SameFull(s, t, sa);
    FullLastFrame(s, t, l);
    SumFreeFrame(l, s.slabs, t.slabs);
  }

  lemma RemovedSlabs(s: State, sa: nat)
    requires Layout(s) && CanRemoveSlab(s, sa) && LiveOK(s) && Empty(s, sa)
    ensures SlabsOK(SlabRemoved(s, sa))
  {
    hide Layout, LiveOK, MappedOK, Empty, CacheOK, Tiles;
    var t := SlabRemoved(s, sa);
    var u := RangeOf(s, sa);
    ReboundTiles(s, u, 0);
    RemovedCaches(s, sa);
    forall x | x in t.slabs ensures SlabOK(t, x) {
      assert SlabOK(s, x) && x != sa;
      assert x in Elems(s.caches[s.slabs[x].cache].slabList);
      assert x in Elems(t.caches[s.slabs[x].cache].slabList);
      assert RangeOf(t, x) == RangeOf(s, x) && RangeOf(s, x) in Elems(t.used);
      if x in s.live { EmptyHasNoLive(s, sa, x); }
    }
    forall r | r in t.used && r.slab != 0 ensures SlabOfRange(t, r) {
      assert r in Elems(t.used) && SlabOfRange(s, r);
      assert r.slab != sa;
    }
  }

  lemma RemovedLive(s: State, sa: nat)
    requires CanRemoveSlab(s, sa) && LiveOK(s) && Empty(s, sa)
    ensures LiveIsFine(SlabRemoved(s, sa))
  {
    var t := SlabRemoved(s, sa);
    forall v | v in t.live ensures t.live[v] != sa {
      EmptyHasNoLive(s, sa, v);
    }
    forall x | x in t.slabs ensures Slots(t, x) == Slots(s, x) {}
    forall x, w | x in t.slabs && w in Slots(t, x) && w !in t.slabs[x].free ensures IsLive(t, w, x) {
      assert IsLive(s, w, x);
    }
  }

  lemma RemovedRefs(s: State, sa: nat)
    requires Layout(s) && RefsOK(s) && CanRemoveSlab(s, sa) && LiveOK(s) && Empty(s, sa)
    ensures RefsOK(SlabRemoved(s, sa))
    ensures Refs(Tiles(SlabRemoved(s, sa))) == Refs(Tiles(s))
    ensures Bytes(Tiles(SlabRemoved(s, sa))) == Bytes(Tiles(s))
  {
    var t := SlabRemoved(s, sa);
    var u := RangeOf(s, sa);
    ReboundTiles(s, u, 0);
    assert u in Tiles(s);
    ReboundBytes(Tiles(s), u, 0);
    forall x | x in Tiles(t)
      ensures x.ref in t.live && t.live[x.ref] in t.slabs && t.slabs[t.live[x.ref]].cache == t.rc
    {
      var x0 := if x == u.(slab := 0) then u else x;
      assert x0 in Tiles(s);
      EmptyHasNoLive(s, sa, x.ref);
    }
  }

  lemma RemovedOffSlab(s: State, sa: nat)
    requires Removable(s, sa)
    ensures OffSlabStructs(SlabRemoved(s, sa)) == OffSlabStructs(s) - {sa}
  {
    hide RangeOf, Delete;
  }

  /** An off-slab header is an object of the cache of headers, so it is no range structure. */
  lemma HeaderHeldByCache(s: State, sa: nat)
    requires RefsOK(s) && CanRemoveSlab(s, sa)
    ensures sa in OffSlabStructs(s) ==> sa in s.live && sa !in Refs(Tiles(s))
  {
    hide SlabsOK, MappedOK, Tiles, RangeOf, CacheOK;
  }

  lemma RemovedHeldRanges(s: State, sa: nat)
    requires Layout(s) && CanRemoveSlab(s, sa)
    ensures HeldRanges(SlabRemoved(s, sa)) == HeldRanges(s) + {RangeOf(s, sa).(slab := 0)}
    ensures RangeOf(s, sa).(slab := 0) !in HeldRanges(s) && SameShapes(s, SlabRemoved(s, sa))
  {
    hide Layout, Delete, CachesOK, SlabsOK, MappedOK, Slots;
    var u := RangeOf(s, sa);
    ReboundTiles(s, u, 0);
    ReboundHeldRanges(s, u, 0);
    PlainIsTile(s, u);
  }

  lemma PlainIsTile(s: State, u: Range)
    requires u in s.used
    ensures u.slab != 0 ==> u !in HeldRanges(s)
    ensures HeldRanges(s) <= Tiles(s)
  {}

  lemma RemovedHeld(s: State, sa: nat)
    requires Layout(s) && RefsOK(s) && CanRemoveSlab(s, sa) && LiveOK(s) && Empty(s, sa)
    ensures var t := SlabRemoved(s, sa);
            && Held(t) == Held(s) + (if sa in OffSlabStructs(s) then {sa} else {})
            && HeldRanges(t) == HeldRanges(s) + {RangeOf(s, sa).(slab := 0)} && SameShapes(s, t)
            && RangeOf(s, sa).(slab := 0) !in HeldRanges(s)
  {
    hide Layout, RefsOK, MappedOK, LiveOK, CachesOK, SlabsOK, SlabOK, Tiles, Refs, OffSlabStructs, HeldRanges, Empty;
    var u := RangeOf(s, sa);
    RemovedRefs(s, sa);
    RemovedOffSlab(s, sa);
    HeaderHeldByCache(s, sa);
    RemovedHeldRanges(s, sa);
  }

  lemma RemovedPlaces(s: State, sa: nat)
    requires Removable(s, sa)
    ensures PlacesLeft(s, SlabRemoved(s, sa)) && SlabRemoved(s, sa).pt == s.pt
  {
    hide RangeOf, Delete;
  }

  /** Releasing an empty slab: invariants hold, its range and an off-slab header become held. */
  lemma RemoveSlabKeeps(s: State, sa: nat)
    requires Inv(s) && Empty(s, sa)
    ensures CanRemoveSlab(s, sa)
    ensures var t := SlabRemoved(s, sa); var u := RangeOf(s, sa).(slab := 0);
            && Inv(t) && Held(t) == Held(s) + (if sa in OffSlabStructs(s) then {sa} else {})
            && HeldRanges(t) == HeldRanges(s) + {u} && u !in HeldRanges(s)
            && Bytes(Tiles(t)) == Bytes(Tiles(s)) && SameShapes(s, t)
  {
    hide Layout, CachesOK, SlabsOK, LiveOK, RefsOK, PagingOK, MappedOK;
    SlabCounted(s, sa);
    RemovedCaches(s, sa);
    RemovedSlabs(s, sa);
    RemovedLive(s, sa);
    RemovedRefs(s, sa);
    RemovedHeld(s, sa);
    RemovedPlaces(s, sa);
    SameMapped(s, SlabRemoved(s, sa));
    ReboundLayout(s, RangeOf(s, sa), 0);
    ReboundPaging(s, RangeOf(s, sa), 0);
    SameLayout(Rebound(s, RangeOf(s, sa), 0), SlabRemoved(s, sa));
  }
}
