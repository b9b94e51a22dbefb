/** What an operation of the kernel memory stack does to the pages of others: whoever holds an object or a range keeps
    the frames under it, pages outside the managed addresses are left alone, and no physical page is lost. */
module PageContents {
  import opened Seqs
  import opened KernelState
  import opened Words
  import opened SlabLemmas
  import opened SlabBinding
  import opened RangeMoves
  import opened PagingLemmas

  /** The physical pages of the machine that the memory stack knows of: in the pool, or mapped. */
  ghost function PhysPages(s: State): set<nat> {
    s.frames + s.pt.Values
  }

  /** The page at `v` holds part of the object at `w`. */
  ghost predicate Touches(s: State, w: nat, v: nat) {
    && w in s.live && s.live[w] in s.slabs && s.slabs[s.live[w]].cache in s.caches
    && v < w + s.caches[s.slabs[s.live[w]].cache].objSize && w < v + PAGE_SIZE
  }

  ghost predicate SameFrame(s: State, t: State, v: nat) {
    v in s.pt ==> v in t.pt && t.pt[v] == s.pt[v]
  }

  /** Held ranges, held objects and everything outside the managed addresses keep their frames. */
  ghost predicate KeepsPages(s: State, t: State) {
    && (forall x, v :: x in HeldRanges(s) && x in HeldRanges(t) && x.Covers(v) ==> SameFrame(s, t, v))
    && (forall w, v :: w in Held(s) && w in Held(t) && Touches(s, w, v) ==> SameFrame(s, t, v))
    && (forall v :: v !in Bytes(Tiles(s)) ==> SameFrame(s, t, v) && SameFrame(t, s, v))
  }

  lemma SamePages(s: State, t: State)
    requires t.pt == s.pt && t.frames == s.frames
    ensures KeepsPages(s, t) && PhysPages(t) == PhysPages(s)
  {}

  /** An object held at both ends is the same object in between. */
  lemma KeepsPagesTrans(s: State, m: State, t: State)
    requires KeepsPages(s, m) && KeepsPages(m, t) && Homes(s, m) && SameShapes(s, m) && Linked(m) && LiveOK(m)
    requires Held(s) * Held(t) <= Held(m) && HeldRanges(s) * HeldRanges(t) <= HeldRanges(m)
    requires Bytes(Tiles(m)) == Bytes(Tiles(s))
    ensures KeepsPages(s, t)
  {
    hide Bytes, Tiles, HeldRanges, Slots;
    forall w, v | w in Held(s) && w in Held(t) && Touches(s, w, v) ensures SameFrame(s, t, v) {
      var c := s.slabs[s.live[w]].cache;
      assert InCache(s, w, c) && InCache(m, w, c);
      assert Shape(s.caches[c]) == Shape(m.caches[c]);
      assert Touches(m, w, v);
    }
  }

  /** A held object lies in a used range, with all the pages that it touches. */
  lemma ObjectPages(s: State, w: nat, v: nat)
    requires Inv(s) && w in Held(s) && Touches(s, w, v) && v % PAGE_SIZE == 0
    ensures RangeOf(s, s.live[w]) in s.used && RangeOf(s, s.live[w]).Covers(v)
  {
    hide RefsOK, PagingOK, MappedOK;
    LivePlace(s, w);
    var r := RangeOf(s, s.live[w]);
    assert r in Tiles(s) && InBounds(r);
    PageInside(r, w, s.caches[s.slabs[s.live[w]].cache].objSize, v);
  }

  lemma PageInside(r: Range, w: nat, size: nat, v: nat)
    requires InBounds(r) && r.base <= w && w + size <= r.End() && v < w + size && w < v + PAGE_SIZE && v % PAGE_SIZE == 0
    ensures r.Covers(v)
  {
    var i, j := v / PAGE_SIZE, r.base / PAGE_SIZE;
    assert v == i * PAGE_SIZE && r.base == j * PAGE_SIZE;
  }

  /** Unmapping a range in hand takes no page from anybody. */
  lemma UnmappedKeepsPages(s: State, x: Range)
    requires Inv(s) && x in s.hand
    ensures var t := Unmapped(s, x.base, x.pages); KeepsPages(s, t) && PhysPages(t) == PhysPages(s)
  {
    hide CachesOK, SlabsOK, LiveOK, RefsOK, MappedOK, UnmapMany, Bytes, Held, Touches;
    var t := Unmapped(s, x.base, x.pages);
    UnmapManyUnmaps(s.pt, s.frames, x.base, x.pages);
    assert Tiles(t) == Tiles(s);
    assert x in Tiles(s) && InBounds(x);
    forall v | v in s.pt && !x.Covers(v) ensures v in t.pt && t.pt[v] == s.pt[v] {
      PageInCovered(x, v);
      assert Maps(s.pt, v, s.pt[v]) && Maps(t.pt, v, s.pt[v]);
    }
    forall v | v in t.pt ensures v in s.pt && t.pt[v] == s.pt[v] {
      assert Maps(t.pt, v, t.pt[v]);
    }
    forall u, v | u in s.used && u.Covers(v) ensures !x.Covers(v) {
      assert u in Tiles(s) && u in Elems(s.used) && Compat(u, x);
    }
    forall w, v | w in Held(s) && Touches(s, w, v) ensures SameFrame(s, t, v) {
      if v in s.pt { ObjectPages(s, w, v); }
    }
    forall v | v !in Bytes(Tiles(s)) ensures !x.Covers(v) {
      InTiles(s, x, v);
    }
    UnmappedPages(s, x);
  }

  /** The pages of others depend on the page table and on who holds what. */
  lemma KeepsPagesAlike(s: State, u: State, m: State)
    requires KeepsPages(s, u) && m.pt == u.pt && Held(m) == Held(u) && HeldRanges(m) == HeldRanges(u)
    ensures KeepsPages(s, m)
  {
    hide Held, HeldRanges, Bytes, Tiles, Touches;
  }

  lemma InTiles(s: State, x: Range, v: nat)
    requires x in Tiles(s)
    ensures x.Covers(v) ==> v in Bytes(Tiles(s))
  {
    hide Tiles;
    assert x.Covers(v) ==> v in x.Span();
  }

  lemma PageInCovered(x: Range, v: nat)
    ensures PageIn(v, x.base, x.pages) ==> x.Covers(v)
  {}

  /** Every frame taken out of the page table is either still mapped elsewhere or back in the pool. */
  lemma UnmappedPages(s: State, x: Range)
    ensures PhysPages(Unmapped(s, x.base, x.pages)) == PhysPages(s)
  {
    hide UnmapMany;
    var t := Unmapped(s, x.base, x.pages);
    UnmapManyUnmaps(s.pt, s.frames, x.base, x.pages);
    forall f ensures f in PhysPages(t) <==> f in PhysPages(s) {
      ValueIsMapped(s.pt, f);
      ValueIsMapped(t.pt, f);
    }
  }

  lemma ValueIsMapped(pt: map<nat, nat>, f: nat)
    ensures f in pt.Values <==> exists v :: Maps(pt, v, f)
  {
    if f in pt.Values {
      var v :| v in pt && pt[v] == f;
      assert Maps(pt, v, f);
    }
  }

  /** A page that was not mapped gets a frame from the pool. */
  lemma MappedKeepsPages(s: State, x: Range, v: nat, f: nat)
    requires x in Tiles(s) && x.Covers(v) && f in s.frames && v !in s.pt
    ensures var t := PageMapped(s, v, f, x.ref); KeepsPages(s, t) && PhysPages(t) == PhysPages(s)
  {
    hide Held, HeldRanges, Bytes, Tiles;
    var t := PageMapped(s, v, f, x.ref);
    InTiles(s, x, v);
    forall g ensures g in PhysPages(t) <==> g in PhysPages(s) {
      ValueIsMapped(s.pt, g);
      ValueIsMapped(t.pt, g);
      assert Maps(t.pt, v, f);
      assert forall w :: Maps(t.pt, w, g) <==> Maps(s.pt, w, g) || (w == v && g == f);
    }
  }

  // ---- Pages mapped by an operation ----

  /** Nothing was unmapped, and frames only left the pool. */
  ghost predicate Extends(s: State, t: State) {
    t.frames <= s.frames && forall v :: v in s.pt ==> v in t.pt && t.pt[v] == s.pt[v]
  }

  /** Every page of the range has a frame of its own, all from the pool before. */
  ghost predicate FreshlyMapped(s: State, t: State, x: Range) {
    && (forall i: nat :: i < x.pages ==> PageAt(x.base, i) in t.pt && t.pt[PageAt(x.base, i)] in s.frames)
    && (forall i: nat, j: nat :: i < j < x.pages && PageAt(x.base, i) in t.pt && PageAt(x.base, j) in t.pt ==>
          t.pt[PageAt(x.base, i)] != t.pt[PageAt(x.base, j)])
  }

  lemma FreshIsMapped(s: State, t: State, x: Range)
    requires FreshlyMapped(s, t, x)
    ensures AllMapped(t, x)
  {}

  /** Every byte of the block is on a mapped page. */
  ghost predicate Backed(s: State, addr: nat, size: nat) {
    forall a: nat :: addr <= a < addr + size ==> PageOf(a) in s.pt
  }

  lemma RangeIsBacked(s: State, x: Range, addr: nat, size: nat)
    requires InBounds(x) && AllMapped(s, x) && x.base <= addr && addr + size <= x.End()
    ensures Backed(s, addr, size)
  {
    forall a: nat | addr <= a < addr + size ensures PageOf(a) in s.pt {
      var i := (a - x.base) / PAGE_SIZE;
      assert i < x.pages;
      PageOfByte(x.base, a);
    }
  }

  lemma PageOfByte(base: nat, a: nat)
    requires base % PAGE_SIZE == 0 && base <= a
    ensures PageAt(base, (a - base) / PAGE_SIZE) == PageOf(a)
  {
    var i := (a - base) / PAGE_SIZE;
    var k := base / PAGE_SIZE;
    assert base == k * PAGE_SIZE && a - base == i * PAGE_SIZE + (a - base) % PAGE_SIZE;
    assert a == (k + i) * PAGE_SIZE + (a - base) % PAGE_SIZE;
  }

  lemma BackedLess(s: State, addr: nat, size: nat, less: nat)
    requires Backed(s, addr, size) && less <= size
    ensures Backed(s, addr, less)
  {}

  /** An object of a cache whose slabs are mapped at once. */
  lemma ObjectIsBacked(s: State, w: nat)
    requires Inv(s) && w in s.live && s.live[w] in s.slabs && s.slabs[s.live[w]].cache in s.caches
    requires s.caches[s.slabs[s.live[w]].cache].mapNow
    ensures Backed(s, w, s.caches[s.slabs[s.live[w]].cache].objSize)
  {
    hide RefsOK, PagingOK, Backed;
    LivePlace(s, w);
    var r := RangeOf(s, s.live[w]);
    assert r in Tiles(s) && InBounds(r);
    RangeIsBacked(s, r, w, s.caches[s.slabs[s.live[w]].cache].objSize);
  }

  /** Nothing is mapped inside the range. */
  ghost predicate Bare(s: State, x: Range) {
    forall v :: v in s.pt ==> !x.Covers(v)
  }
}
