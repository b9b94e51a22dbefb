/** Mapping and unmapping one page keep the invariants, and both ways of looking a range up agree. */
module PagingLemmas {
  import opened Seqs
  import opened KernelState
  import opened Words
  import opened SlabLemmas
  import opened RangeMoves

  function PageOf(v: nat): nat { v - v % PAGE_SIZE }

  /** physmem_ref_physpage_new, paging_map and physmem_set_kvmm_range for one page of the range at `ref`. */
  ghost function PageMapped(s: State, v: nat, f: nat, ref: nat): State {
    s.(pt := s.pt[v := f], owner := s.owner[f := ref], frames := s.frames - {f})
  }

  /** paging_unmap: the frame can be handed out again when nothing else maps it. */
  function Unmap(pt: map<nat, nat>, frames: set<nat>, v: nat): (map<nat, nat>, set<nat>) {
    if v !in pt then (pt, frames)
    else
      var rest := pt - {v};
      (rest, if exists w :: w in rest && rest[w] == pt[v] then frames else frames + {pt[v]})
  }

  /** paging_unmap on the first `n` pages from `base`, in order. */
  ghost function UnmapMany(pt: map<nat, nat>, frames: set<nat>, base: nat, n: nat): (map<nat, nat>, set<nat>) {
    if n == 0 then (pt, frames)
    else
      var (p, f) := UnmapMany(pt, frames, base, n - 1);
      Unmap(p, f, PageAt(base, n - 1))
  }

  ghost function Unmapped(s: State, base: nat, n: nat): State {
    var (p, f) := UnmapMany(s.pt, s.frames, base, n);
    s.(pt := p, frames := f)
  }

  ghost predicate PageIn(v: nat, base: nat, n: nat) {
    exists i: nat :: i < n && v == PageAt(base, i)
  }

  /** The pages of the range are no longer mapped and the others are as before; the frames that were mapped there,
      and are mapped nowhere now, can be handed out. */
  ghost predicate UnmapsPages(pt: map<nat, nat>, frames: set<nat>, pt': map<nat, nat>, frames': set<nat>, base: nat, n: nat) {
    && (forall v, f :: Maps(pt', v, f) <==> Maps(pt, v, f) && !PageIn(v, base, n))
    && (forall f :: f in frames' <==> f in frames || ((exists v :: Maps(pt, v, f) && PageIn(v, base, n))
                                                      && forall v :: !Maps(pt', v, f)))
  }

  lemma {:induction false} UnmapManyUnmaps(pt: map<nat, nat>, frames: set<nat>, base: nat, n: nat)
    ensures var (p, f) := UnmapMany(pt, frames, base, n); UnmapsPages(pt, frames, p, f, base, n)
  {
    if n > 0 {
      UnmapManyUnmaps(pt, frames, base, n - 1);
      var (p, f) := UnmapMany(pt, frames, base, n - 1);
      var w := PageAt(base, n - 1);
      forall v ensures PageIn(v, base, n) <==> PageIn(v, base, n - 1) || v == w {
        assert v == w ==> n - 1 < n && v == PageAt(base, n - 1);
      }
      UnmapOne(p, f, w);
    }
  }

  lemma UnmapOne(pt: map<nat, nat>, frames: set<nat>, w: nat)
    ensures var r := Unmap(pt, frames, w);
            && (forall v, f :: Maps(r.0, v, f) <==> Maps(pt, v, f) && v != w)
            && (forall f :: f in r.1 <==> f in frames || (Maps(pt, w, f) && forall v :: !Maps(r.0, v, f)))
  {
    var r := Unmap(pt, frames, w);
    if w in pt && forall v :: !Maps(r.0, v, pt[w]) {
      forall v | v in r.0 ensures r.0[v] != pt[w] {
        assert !Maps(r.0, v, pt[w]);
      }
    }
  }

  lemma PageMappedKeeps(s: State, x: Range, v: nat, f: nat)
    requires Inv(s) && x in s.used && x.Covers(v) && f in s.frames && v % PAGE_SIZE == 0 && v !in s.pt
    ensures var t := PageMapped(s, v, f, x.ref);
            Inv(t) && Held(t) == Held(s) && HeldRanges(t) == HeldRanges(s) && Tiles(t) == Tiles(s) && SameShapes(s, t)
  {
    hide Layout, CachesOK, SlabsOK, LiveOK, RefsOK, MappedOK;
    var t := PageMapped(s, v, f, x.ref);
    MappedPaging(s, x, v, f);
    OneMoreMapped(s, v, f, x.ref);
    PagingOnly(s, t);
  }

  /** The new frame was in the pool, so no page has it. */
  lemma OneMoreMapped(s: State, v: nat, f: nat, ref: nat)
    requires MappedOK(s) && PagingOK(s) && f in s.frames && v !in s.pt
    ensures MappedOK(PageMapped(s, v, f, ref))
  {
    hide Bytes;
    var t := PageMapped(s, v, f, ref);
    assert Tiles(t) == Tiles(s);
    forall sa | sa in t.slabs && t.slabs[sa].cache in t.caches && t.caches[t.slabs[sa].cache].mapNow
      ensures AllMapped(t, RangeOf(t, sa))
    {
      assert AllMapped(s, RangeOf(s, sa));
    }
  }

  /** What is unmapped belongs to no slab. */
  lemma StillMapped(s: State, x: Range)
    requires Inv(s) && x in s.hand
    ensures MappedOK(Unmapped(s, x.base, x.pages))
  {
    hide CachesOK, LiveOK, RefsOK, PagingOK, Bytes, UnmapMany;
    var t := Unmapped(s, x.base, x.pages);
    UnmapManyUnmaps(s.pt, s.frames, x.base, x.pages);
    assert Tiles(t) == Tiles(s);
    forall v | v in t.pt ensures v in s.pt && t.pt[v] == s.pt[v] {
      assert Maps(t.pt, v, t.pt[v]);
    }
    forall sa | sa in t.slabs && t.slabs[sa].cache in t.caches && t.caches[t.slabs[sa].cache].mapNow
      ensures AllMapped(t, RangeOf(t, sa))
    {
      var u := RangeOf(s, sa);
      assert SlabOK(s, sa) && AllMapped(s, u) && u in Tiles(s) && x in Tiles(s) && u != x && Compat(u, x);
      forall i: nat | i < u.pages ensures PageAt(u.base, i) in t.pt {
        var v := PageAt(u.base, i);
        PagesApart(u, x, i);
        assert Maps(s.pt, v, s.pt[v]);
        assert Maps(t.pt, v, s.pt[v]);
      }
    }
  }

  lemma PagesApart(u: Range, x: Range, i: nat)
    requires i < u.pages && (u.End() <= x.base || x.End() <= u.base)
    ensures !PageIn(PageAt(u.base, i), x.base, x.pages)
  {}

  lemma MappedPaging(s: State, x: Range, v: nat, f: nat)
    requires Layout(s) && PagingOK(s) && x in s.used && x.Covers(v) && f in s.frames && v % PAGE_SIZE == 0
    ensures PagingOK(PageMapped(s, v, f, x.ref))
  {
    var t := PageMapped(s, v, f, x.ref);
    assert x in Tiles(s) && x in Elems(s.used);
    forall w, y | w in t.pt && y in Tiles(t) && y.Covers(w)
      ensures y !in t.free && t.pt[w] in t.owner && t.owner[t.pt[w]] == y.ref
    {
      assert y in Tiles(s);
      assert w == v && y != x ==> !Compat(x, y);
      assert y in Elems(s.free) <==> y in s.free;
    }
  }

  /** After the pages of a range are unmapped nothing is mapped inside it, and every invariant still holds. */
  lemma UnmappedKeeps(s: State, x: Range)
    requires Inv(s) && x in s.hand
    ensures var t := Unmapped(s, x.base, x.pages);
            && Inv(t) && Held(t) == Held(s) && HeldRanges(t) == HeldRanges(s) && Tiles(t) == Tiles(s) && SameShapes(s, t)
            && (forall v :: v in t.pt ==> !x.Covers(v)) && t.pt.Keys <= s.pt.Keys
  {
    hide CachesOK, SlabsOK, LiveOK, RefsOK, MappedOK;
    var t := Unmapped(s, x.base, x.pages);
    assert x in Tiles(s) && InBounds(x);
    UnmappedMany(s, x.base, x.pages);
    StillMapped(s, x);
    PagingOnly(s, t);
    forall v | v in t.pt ensures !x.Covers(v) {
      if x.Covers(v) { PageNumber(x, v); }
    }
  }

  lemma PageNumber(x: Range, v: nat)
    requires InBounds(x) && x.Covers(v) && v % PAGE_SIZE == 0
    ensures exists i: nat :: i < x.pages && v == PageAt(x.base, i)
  {
    var i := (v - x.base) / PAGE_SIZE;
    assert v == PageAt(x.base, i);
  }

  lemma {:induction false} UnmappedMany(s: State, base: nat, n: nat)
    requires PagingOK(s)
    ensures var t := Unmapped(s, base, n);
            && PagingOK(t) && t.pt.Keys <= s.pt.Keys
            && forall v, i: nat :: v in t.pt && i < n ==> v != PageAt(base, i)
  {
    var t := Unmapped(s, base, n);
    assert Tiles(t) == Tiles(s);
    if n > 0 {
      UnmappedMany(s, base, n - 1);
      var m := Unmapped(s, base, n - 1);
      assert Tiles(m) == Tiles(s);
    }
  }

  /** When only the page table and the frames change, the other invariants carry over. */
  lemma PagingOnly(s: State, t: State)
    requires Inv(s) && PagingOK(t) && MappedOK(t) && t == s.(pt := t.pt, owner := t.owner, frames := t.frames)
    ensures Inv(t) && Held(t) == Held(s) && HeldRanges(t) == HeldRanges(s) && Tiles(t) == Tiles(s) && SameShapes(s, t)
  {
    hide Layout, CachesOK, SlabsOK, LiveOK, RefsOK, PagingOK, MappedOK;
    assert Tiles(t) == Tiles(s);
    PagingOnlyLayout(s, t);
    ListsMoveKeeps(s, t);
  }

  lemma PagingOnlyLayout(s: State, t: State)
    requires Layout(s) && t == s.(pt := t.pt, owner := t.owner, frames := t.frames)
    ensures Layout(t)
  {
    assert Tiles(t) == Tiles(s);
    forall x, y | x in Tiles(t) && y in Tiles(t) && x != y ensures Compat(x, y) {}
  }

  /** A page of a used range and every address on it lie in the same range. */
  lemma PageInRange(x: Range, v: nat)
    requires InBounds(x) && x.Covers(v)
    ensures x.Covers(PageOf(v))
  {}

  /** The frame's descriptor names the one used range that the scan of the sorted list would find. */
  lemma LookupAgrees(s: State, x: Range, v: nat)
    requires Inv(s) && x in s.used && x.Covers(v) && PageOf(v) in s.pt
    ensures s.pt[PageOf(v)] in s.owner && s.owner[s.pt[PageOf(v)]] == x.ref
    ensures forall y :: y in s.used && y.ref == x.ref ==> y == x
    ensures forall y :: y in s.used && y.Covers(v) ==> y == x
  {
    hide CachesOK, SlabsOK, LiveOK, RefsOK, MappedOK;
    assert x in Tiles(s) && x in Elems(s.used);
    PageInRange(x, v);
    forall y | y in s.used && y != x ensures y.ref != x.ref && !y.Covers(v) {
      assert y in Tiles(s) && Compat(x, y);
    }
  }
}
