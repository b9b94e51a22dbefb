/** Moving, splitting and merging ranges keep every invariant of the kernel state. */
module RangeMoves {
  import opened Seqs
  import opened KernelState
  import opened Words
  import opened SlabLemmas

  /** Slabs, caches and objects are the same, and every range bound to a slab stays where it is. */
  ghost predicate ListsMove(s: State, t: State) {
    && t.slabs == s.slabs && t.caches == s.caches && t.live == s.live && t.rc == s.rc && t.kc == s.kc
    && (forall u: Range :: u.slab != 0 ==> (u in t.used <==> u in s.used))
    && (forall x :: x in Tiles(t) ==> x.ref in Refs(Tiles(s)) || InCache(s, x.ref, s.rc))
  }

  lemma ListsMoveCaches(s: State, t: State)
    requires CachesOK(s) && ListsMove(s, t)
    ensures CachesOK(t)
  {
    forall c | c in t.caches ensures CacheOK(t, c) {
      assert CacheOK(s, c);
      forall x | x in t.caches[c].slabList ensures Full(t, x) <==> Full(s, x) {}
    }
  }

  lemma ListsMoveSlabs(s: State, t: State)
    requires SlabsOK(s) && ListsMove(s, t)
    ensures SlabsOK(t)
  {
    forall sa | sa in t.slabs ensures SlabOK(t, sa) {
      assert SlabOK(s, sa);
      assert RangeOf(t, sa) == RangeOf(s, sa);
    }
    forall u | u in t.used && u.slab != 0 ensures SlabOfRange(t, u) {
      assert SlabOfRange(s, u);
    }
  }

  lemma ListsMoveLive(s: State, t: State)
    requires Linked(s) && LiveOK(s) && ListsMove(s, t)
    ensures LiveOK(t)
  {
    forall sa | sa in t.slabs ensures Slots(t, sa) == Slots(s, sa) {}
    forall sa, v | sa in t.slabs && v in Slots(t, sa) && v !in t.slabs[sa].free ensures IsLive(t, v, sa) {
      assert IsLive(s, v, sa);
    }
  }

  lemma ListsMoveKeeps(s: State, t: State)
    requires Inv(s) && ListsMove(s, t) && Layout(t) && PagingOK(t) && MappedOK(t)
    ensures Inv(t) && SameShapes(s, t) && OffSlabStructs(t) == OffSlabStructs(s)
  {
    hide Layout, PagingOK, MappedOK, RefsOK, CachesOK, SlabsOK, LiveOK;
    ListsMoveCaches(s, t);
    ListsMoveSlabs(s, t);
    ListsMoveLive(s, t);
    ListsMoveRefs(s, t);
  }

  lemma ListsMoveMapped(s: State, t: State)
    requires Inv(s) && ListsMove(s, t) && t.pt == s.pt && Bytes(Tiles(t)) == Bytes(Tiles(s))
    ensures MappedOK(t)
  {
    hide Layout, PagingOK, RefsOK, CachesOK, SlabsOK, LiveOK, Bytes, Tiles, MappedOK;
    SameMapped(s, t);
  }

  lemma ListsMoveRefs(s: State, t: State)
    requires RefsOK(s) && ListsMove(s, t)
    ensures RefsOK(t)
  {
    forall x | x in Tiles(t)
      ensures x.ref in t.live && t.live[x.ref] in t.slabs && t.slabs[t.live[x.ref]].cache == t.rc
    {
      if x.ref in Refs(Tiles(s)) {
        var y :| y in Tiles(s) && y.ref == x.ref;
      }
    }
  }

  /** Moves between the lists and the hand leave the set of tiles alone. */
  lemma SameTilesPaging(s: State, t: State)
    requires PagingOK(s) && Tiles(t) == Tiles(s) && t.pt == s.pt && t.owner == s.owner && t.frames == s.frames
    requires forall x, v :: x in t.free && v in t.pt && x.Covers(v) ==> x in s.free
    ensures PagingOK(t)
  {}

  lemma SameTilesLayout(s: State, t: State)
    requires Layout(s) && Tiles(t) == Tiles(s)
    requires Sorted(t.free) && Sorted(t.used) && Distinct(t.free) && Distinct(t.used)
    requires Elems(t.free) !! Elems(t.used) && Elems(t.free) !! t.hand && Elems(t.used) !! t.hand
    requires forall x :: x in Elems(t.used) + t.hand ==> x.pages > 0
    requires forall x :: x in Elems(t.free) + t.hand ==> x.slab == 0
    ensures Layout(t)
  {
    forall x, y | x in Tiles(t) && y in Tiles(t) && x != y ensures Compat(x, y) {}
  }

  lemma SortedRemove(l: seq<Range>, k: nat)
    requires k < |l|
    ensures Sorted(l) ==> Sorted(RemoveAt(l, k))
    ensures Gapped(l) ==> Gapped(RemoveAt(l, k))
  {
    var r := RemoveAt(l, k);
    forall i, j | 0 <= i < j < |r|
      ensures Sorted(l) ==> r[i].End() <= r[j].base
      ensures Gapped(l) ==> r[i].End() < r[j].base
    {
      var i', j' := if i < k then i else i + 1, if j < k then j else j + 1;
      assert l[i'] == r[i] && l[j'] == r[j] && i' < j';
    }
  }

  /** The position where insert_range puts a range: after the last one that starts no later. */
  ghost predicate PlaceFor(l: seq<Range>, base: nat, k: nat) {
    && k <= |l|
    && (forall i :: 0 <= i < k ==> l[i].base <= base)
    && (forall i :: k <= i < |l| ==> base < l[i].base)
  }

  lemma SortedInsert(l: seq<Range>, x: Range, k: nat)
    requires Sorted(l) && PlaceFor(l, x.base, k) && x.pages > 0
    requires forall y :: y in l ==> Compat(y, x) || Compat(x, y)
    ensures Sorted(InsertAt(l, k, x))
  {
    var r := InsertAt(l, k, x);
    forall i | 0 <= i < |l| ensures if i < k then l[i].End() <= x.base else x.End() <= l[i].base {
      assert l[i] in l;
    }
    forall i, j | 0 <= i < j < |r| ensures r[i].End() <= r[j].base {
      assert i < k ==> r[i] == l[i];
      assert i > k ==> r[i] == l[i - 1];
      assert j < k ==> r[j] == l[j];
      assert j > k ==> r[j] == l[j - 1];
    }
  }

  // ---- The moves ----

  /** The chosen free range is used whole. */
  ghost function FreeTaken(s: State, i: nat): State
    requires i < |s.free|
  {
    s.(free := RemoveAt(s.free, i), hand := s.hand + {s.free[i]})
  }

  lemma FreeTakenKeeps(s: State, i: nat)
    requires Inv(s) && i < |s.free| && s.free[i].pages > 0
    ensures var t := FreeTaken(s, i);
            Inv(t) && Tiles(t) == Tiles(s) && Held(t) == Held(s) && HeldRanges(t) == HeldRanges(s) && SameShapes(s, t)
            && (Gapped(s.free) ==> Gapped(t.free)) && s.free[i] !in s.hand && s.free[i] !in s.used
            && (forall v :: v in s.pt ==> !s.free[i].Covers(v))
  {
    hide CachesOK, SlabsOK, LiveOK, RefsOK, MappedOK, Bytes;
    var t := FreeTaken(s, i);
    var x := s.free[i];
    RemoveAtContents(s.free, i);
    SortedRemove(s.free, i);
    assert x in Elems(s.free) && x in Tiles(s);
    assert Tiles(t) == Tiles(s);
    SameTilesLayout(s, t);
    forall y | y in t.free ensures y in s.free { assert y in Elems(t.free); }
    SameTilesPaging(s, t);
    ListsMoveMapped(s, t);
    ListsMoveKeeps(s, t);
  }

  /** A used range bound to no slab leaves the used list. */
  ghost function UsedTaken(s: State, u: Range): State
    requires u in s.used
  {
    s.(used := Delete(s.used, u), hand := s.hand + {u})
  }

  lemma UsedTakenKeeps(s: State, u: Range)
    requires Inv(s) && u in HeldRanges(s)
    ensures var t := UsedTaken(s, u);
            Inv(t) && Tiles(t) == Tiles(s) && Held(t) == Held(s) && HeldRanges(t) == HeldRanges(s) - {u}
            && SameShapes(s, t) && u !in s.hand && Elems(t.used) == Elems(s.used) - {u} && |t.used| == |s.used| - 1
  {
    hide CachesOK, SlabsOK, LiveOK, RefsOK, MappedOK, Bytes;
    var t := UsedTaken(s, u);
    var k := PosOf(s.used, u);
    RemoveAtContents(s.used, k);
    SortedRemove(s.used, k);
    assert u in Elems(s.used);
    assert Tiles(t) == Tiles(s);
    SameTilesLayout(s, t);
    SameTilesPaging(s, t);
    forall x ensures x in t.used <==> x in s.used && x != u {
      assert x in t.used <==> x in Elems(t.used);
    }
    ListsMoveMapped(s, t);
    ListsMoveKeeps(s, t);
  }

  /** insert_range on the used list. */
  ghost function UsedPut(s: State, x: Range, k: nat): State
    requires k <= |s.used|
  {
    s.(used := InsertAt(s.used, k, x), hand := s.hand - {x})
  }

  lemma UsedPutKeeps(s: State, x: Range, k: nat)
    requires Inv(s) && x in s.hand && PlaceFor(s.used, x.base, k)
    ensures var t := UsedPut(s, x, k);
            Inv(t) && Tiles(t) == Tiles(s) && Held(t) == Held(s) && HeldRanges(t) == HeldRanges(s) + {x}
            && SameShapes(s, t) && x !in HeldRanges(s) && x in t.used
  {
    hide CachesOK, SlabsOK, LiveOK, RefsOK, MappedOK, Bytes;
    var t := UsedPut(s, x, k);
    assert x in Tiles(s) && x !in Elems(s.used);
    InsertAtContents(s.used, k, x);
    assert x in Elems(s.used) + s.hand;
    forall y | y in s.used ensures Compat(y, x) {
      assert y in Elems(s.used) && y in Tiles(s);
    }
    SortedInsert(s.used, x, k);
    assert Tiles(t) == Tiles(s);
    SameTilesLayout(s, t);
    SameTilesPaging(s, t);
    forall y ensures y in t.used <==> y in s.used || y == x {
      assert y in t.used <==> y in Elems(t.used);
    }
    ListsMoveMapped(s, t);
    ListsMoveKeeps(s, t);
  }

  /** insert_range on the free list, once no page of the range is mapped. */
  ghost function FreePut(s: State, x: Range, k: nat): State
    requires k <= |s.free|
  {
    s.(free := InsertAt(s.free, k, x), hand := s.hand - {x})
  }

  lemma FreePutKeeps(s: State, x: Range, k: nat)
    requires Inv(s) && x in s.hand && PlaceFor(s.free, x.base, k) && forall v :: v in s.pt ==> !x.Covers(v)
    ensures var t := FreePut(s, x, k);
            Inv(t) && Tiles(t) == Tiles(s) && Held(t) == Held(s) && HeldRanges(t) == HeldRanges(s) && SameShapes(s, t)
  {
    hide CachesOK, SlabsOK, LiveOK, RefsOK, MappedOK, Bytes;
    var t := FreePut(s, x, k);
    assert x in Tiles(s) && x !in Elems(s.free);
    InsertAtContents(s.free, k, x);
    assert x in Elems(s.used) + s.hand;
    forall y | y in s.free ensures Compat(y, x) {
      assert y in Elems(s.free) && y in Tiles(s);
    }
    SortedInsert(s.free, x, k);
    assert Tiles(t) == Tiles(s);
    SameTilesLayout(s, t);
    forall y | y in t.free ensures y in s.free || y == x { assert y in Elems(t.free); }
    SameTilesPaging(s, t);
    ListsMoveMapped(s, t);
    ListsMoveKeeps(s, t);
  }

  // ---- Splitting and merging ----

  /** { new_range | free_range }: `n` pages leave the front of free range `i` under the structure at `ref`. */
  ghost function Front(x: Range, n: nat, ref: nat): Range { Range(ref, x.base, n, 0) }

  ghost function Back(x: Range, n: nat): Range
    requires n <= x.pages
  {
    x.(base := x.base + n * PAGE_SIZE, pages := x.pages - n)
  }

  ghost function Carved(s: State, i: nat, n: nat, ref: nat): State
    requires i < |s.free| && n <= s.free[i].pages
  {
    s.(free := s.free[i := Back(s.free[i], n)], hand := s.hand + {Front(s.free[i], n, ref)})
  }

  ghost predicate CanCarve(s: State, i: nat, n: nat, ref: nat) {
    i < |s.free| && 0 < n <= s.free[i].pages && ref in Held(s) && InCache(s, ref, s.rc)
  }

  lemma CarvedTiles(s: State, i: nat, n: nat, ref: nat)
    requires Layout(s) && CanCarve(s, i, n, ref)
    ensures var t := Carved(s, i, n, ref); var x := s.free[i]; var y, z := Back(x, n), Front(x, n, ref);
            && x in Tiles(s) && y !in Tiles(s) && z !in Tiles(s) && y != z
            && Tiles(t) == Tiles(s) - {x} + {y, z}
            && Distinct(t.free) && Elems(t.free) == Elems(s.free) - {x} + {y}
            && Elems(t.free) !! Elems(t.used) && Elems(t.free) !! t.hand && Elems(t.used) !! t.hand
  {
    var x := s.free[i];
    var y, z := Back(x, n), Front(x, n, ref);
    assert x in Elems(s.free) && x in Tiles(s);
    assert ref !in Refs(Tiles(s));
    assert y in Tiles(s) ==> Compat(x, y);
    UpdateContents(s.free, i, y);
    var t := Carved(s, i, n, ref);
    assert y.ref in Refs(Tiles(s)) && z.ref !in Refs(Tiles(s));
  }

  lemma CarvedBounds(x: Range, n: nat, ref: nat)
    requires InBounds(x) && 0 < n <= x.pages
    ensures InBounds(Back(x, n)) && InBounds(Front(x, n, ref))
  {
    assert (x.base + n * PAGE_SIZE) % PAGE_SIZE == 0;
  }

  /** The two parts of a carved range are apart from each other and from all that the range was apart from. */
  lemma CarvedCompat(s: State, i: nat, n: nat, ref: nat)
    requires Layout(s) && CanCarve(s, i, n, ref)
    ensures var w := Tiles(Carved(s, i, n, ref));
            forall p, q {:trigger Compat(p, q)} :: p in w && q in w && p != q ==> Compat(p, q)
  {
    hide Carved, InCache, Elems, Sorted;
    var t := Carved(s, i, n, ref);
    var x := s.free[i];
    var y, z := Back(x, n), Front(x, n, ref);
    CarvedTiles(s, i, n, ref);
    assert ref !in Refs(Tiles(s));
    forall p, q | p in Tiles(t) && q in Tiles(t) && p != q ensures Compat(p, q) {
      assert p.ref in Refs(Tiles(s)) || p == z;
      assert q.ref in Refs(Tiles(s)) || q == z;
      var p0 := if p == y || p == z then x else p;
      var q0 := if q == y || q == z then x else q;
      assert p0 != q0 ==> Compat(p0, q0);
    }
  }

  lemma CarvedLayout(s: State, i: nat, n: nat, ref: nat)
    requires Layout(s) && CanCarve(s, i, n, ref)
    ensures Layout(Carved(s, i, n, ref))
    ensures Gapped(s.free) ==> Gapped(Carved(s, i, n, ref).free)
  {
    hide Held, InCache, Elems;
    var t := Carved(s, i, n, ref);
    var x := s.free[i];
    CarvedTiles(s, i, n, ref);
    CarvedCompat(s, i, n, ref);
    forall j, k | 0 <= j < k < |t.free| ensures t.free[j].End() <= t.free[k].base {
      assert s.free[j].End() == t.free[j].End() && s.free[k].base <= t.free[k].base;
    }
    CarvedBounds(x, n, ref);
  }

  lemma CarvedBytes(w: set<Range>, x: Range, n: nat, ref: nat)
    requires x in w && n <= x.pages
    ensures Bytes(w - {x} + {Back(x, n), Front(x, n, ref)}) == Bytes(w)
  {
    var y, z := Back(x, n), Front(x, n, ref);
    BytesUnion(w - {x}, {x});
    assert w == (w - {x}) + {x};
    BytesUnion(w - {x}, {y, z});
    BytesUnion({y}, {z});
    assert {y, z} == {y} + {z};
    BytesOne(x);
    BytesOne(y);
    BytesOne(z);
    forall a: nat ensures a in x.Span() <==> a in y.Span() || a in z.Span() {
      assert x.Covers(a) <==> y.Covers(a) || z.Covers(a);
    }
  }

  lemma CarvedPaging(s: State, i: nat, n: nat, ref: nat)
    requires Layout(s) && PagingOK(s) && CanCarve(s, i, n, ref)
    ensures PagingOK(Carved(s, i, n, ref))
    ensures forall v :: v in s.pt ==> !Front(s.free[i], n, ref).Covers(v)
  {
    var t := Carved(s, i, n, ref);
    var x := s.free[i];
    var y, z := Back(x, n), Front(x, n, ref);
    CarvedTiles(s, i, n, ref);
    assert x in s.free && x in Tiles(s);
    forall v, p | v in t.pt && p in Tiles(t) && p.Covers(v)
      ensures p !in t.free && t.pt[v] in t.owner && t.owner[t.pt[v]] == p.ref
    {
      assert p == y || p == z ==> x.Covers(v);
      assert p in Elems(t.free) <==> p in t.free;
    }
    forall v | v in s.pt ensures !z.Covers(v) {
      assert z.Covers(v) ==> x.Covers(v);
    }
  }

  lemma CarvedRefs(s: State, i: nat, n: nat, ref: nat)
    requires Layout(s) && CanCarve(s, i, n, ref)
    ensures Refs(Tiles(Carved(s, i, n, ref))) == Refs(Tiles(s)) + {ref}
  {
    var t := Carved(s, i, n, ref);
    var x := s.free[i];
    CarvedTiles(s, i, n, ref);
    assert Front(x, n, ref) in Tiles(t) && Back(x, n) in Tiles(t);
    forall p | p in Tiles(s) ensures p.ref in Refs(Tiles(t)) {
      assert p == x || p in Tiles(t);
    }
  }

  lemma CarvedKeeps(s: State, i: nat, n: nat, ref: nat)
    requires Inv(s) && CanCarve(s, i, n, ref)
    ensures var t := Carved(s, i, n, ref); var z := Front(s.free[i], n, ref);
            && Inv(t) && Bytes(Tiles(t)) == Bytes(Tiles(s)) && Held(t) == Held(s) - {ref}
            && HeldRanges(t) == HeldRanges(s) && SameShapes(s, t)
            && (Gapped(s.free) ==> Gapped(t.free)) && z !in s.hand && z !in s.used
            && (forall v :: v in s.pt ==> !z.Covers(v))
  {
    hide Layout, CachesOK, SlabsOK, LiveOK, RefsOK, PagingOK, MappedOK;
    var t := Carved(s, i, n, ref);
    CarvedTiles(s, i, n, ref);
    CarvedLayout(s, i, n, ref);
    CarvedBytes(Tiles(s), s.free[i], n, ref);
    CarvedPaging(s, i, n, ref);
    CarvedRefs(s, i, n, ref);
    ListsMoveMapped(s, t);
    ListsMoveKeeps(s, t);
  }

  /** Free range i + 1 touches free range i and is merged into it; its structure is no longer a tile. */
  ghost function Joined(a: Range, b: Range): Range { a.(pages := a.pages + b.pages) }

  ghost function Merged(s: State, i: nat): State
    requires i + 1 < |s.free|
  {
    s.(free := RemoveAt(s.free, i + 1)[i := Joined(s.free[i], s.free[i + 1])])
  }

  ghost predicate CanMerge(s: State, i: nat) {
    i + 1 < |s.free| && s.free[i].End() == s.free[i + 1].base && s.free[i + 1].pages + s.free[i].pages > 0
  }

  lemma MergedTiles(s: State, i: nat)
    requires Layout(s) && CanMerge(s, i)
    ensures var t := Merged(s, i); var a, b := s.free[i], s.free[i + 1]; var x := Joined(a, b);
            && a in Tiles(s) && b in Tiles(s) && a != b && (x == a || x !in Tiles(s)) && a.ref != b.ref
            && Tiles(t) == Tiles(s) - {a, b} + {x}
            && Distinct(t.free) && Elems(t.free) == Elems(s.free) - {a, b} + {x}
            && Elems(t.free) !! Elems(t.used) && Elems(t.free) !! t.hand
  {
    var t := Merged(s, i);
    var a, b := s.free[i], s.free[i + 1];
    var x := Joined(a, b);
    assert a in Elems(s.free) && b in Elems(s.free) && a in Tiles(s) && b in Tiles(s);
    assert Compat(a, b);
    assert x in Tiles(s) && x != a ==> Compat(a, x);
    var r := RemoveAt(s.free, i + 1);
    RemoveAtContents(s.free, i + 1);
    assert r[i] == a;
    UpdateContents(r, i, x);
  }

  lemma MergedSorted(s: State, i: nat)
    requires Sorted(s.free) && CanMerge(s, i)
    ensures Sorted(Merged(s, i).free)
  {
    var t := Merged(s, i);
    SortedRemove(s.free, i + 1);
    var r := RemoveAt(s.free, i + 1);
    forall j, k | 0 <= j < k < |t.free| ensures t.free[j].End() <= t.free[k].base {
      assert r[j].End() <= r[k].base;
      if j == i { assert t.free[k] == s.free[k + 1]; }
    }
  }

  lemma MergedLayout(s: State, i: nat)
    requires Layout(s) && CanMerge(s, i)
    ensures Layout(Merged(s, i))
  {
    var t := Merged(s, i);
    var a, b := s.free[i], s.free[i + 1];
    var x := Joined(a, b);
    MergedTiles(s, i);
    MergedSorted(s, i);
    hide Sorted, Merged;
    forall p, q | p in Tiles(t) && q in Tiles(t) && p != q ensures Compat(p, q) {
      var p0, p1 := if p == x then a else p, if p == x then b else p;
      var q0, q1 := if q == x then a else q, if q == x then b else q;
      assert Compat(p0, q0) && Compat(p1, q1);
    }
  }

  lemma MergedBytes(w: set<Range>, a: Range, b: Range)
    requires a in w && b in w && a != b && a.End() == b.base
    ensures Bytes(w - {a, b} + {Joined(a, b)}) == Bytes(w)
  {
    var x := Joined(a, b);
    BytesUnion(w - {a, b}, {a, b});
    assert w == (w - {a, b}) + {a, b};
    BytesUnion(w - {a, b}, {x});
    BytesUnion({a}, {b});
    assert {a, b} == {a} + {b};
    BytesOne(x);
    BytesOne(a);
    BytesOne(b);
    forall v: nat ensures v in x.Span() <==> v in a.Span() || v in b.Span() {
      assert x.Covers(v) <==> a.Covers(v) || b.Covers(v);
    }
  }

  lemma MergedKeeps(s: State, i: nat)
    requires Inv(s) && CanMerge(s, i)
    ensures var t := Merged(s, i); var r := s.free[i + 1].ref;
            && Inv(t) && Bytes(Tiles(t)) == Bytes(Tiles(s)) && Held(t) == Held(s) + {r} && r !in Held(s)
            && HeldRanges(t) == HeldRanges(s) && SameShapes(s, t) && InCache(t, r, s.rc)
  {
    hide CachesOK, SlabsOK, LiveOK, MappedOK;
    var t := Merged(s, i);
    var a, b := s.free[i], s.free[i + 1];
    var x := Joined(a, b);
    MergedTiles(s, i);
    MergedLayout(s, i);
    MergedBytes(Tiles(s), a, b);
    forall v, p | v in t.pt && p in Tiles(t) && p.Covers(v)
      ensures p !in t.free && t.pt[v] in t.owner && t.owner[t.pt[v]] == p.ref
    {
      assert p == x ==> a.Covers(v) || b.Covers(v);
      assert p in Elems(t.free) <==> p in t.free;
    }
    assert b.ref in s.live;
    MergedRefs(s, i);
    ListsMoveMapped(s, t);
    ListsMoveKeeps(s, t);
    assert b.ref !in OffSlabStructs(s) by { HeaderIsNotRef(s, b); }
  }

  lemma MergedRefs(s: State, i: nat)
    requires Layout(s) && CanMerge(s, i)
    ensures Refs(Tiles(Merged(s, i))) == Refs(Tiles(s)) - {s.free[i + 1].ref}
  {
    var t := Merged(s, i);
    var a, b := s.free[i], s.free[i + 1];
    var x := Joined(a, b);
    MergedTiles(s, i);
    forall p | p in Tiles(s) && p != b ensures p.ref in Refs(Tiles(t)) && p.ref != b.ref {
      assert Compat(p, b);
      assert p == a || p in Tiles(t);
      assert x in Tiles(t);
    }
    forall p | p in Tiles(t) ensures p.ref in Refs(Tiles(s)) && p.ref != b.ref {
      var p0 := if p == x then a else p;
      assert p0 in Tiles(s) && p0 != b && Compat(p0, b);
    }
  }

  /** A range structure is never a slab structure: they come from different caches. */
  lemma HeaderIsNotRef(s: State, x: Range)
    requires CachesOK(s) && SlabsOK(s) && RefsOK(s) && x in Tiles(s)
    ensures x.ref !in OffSlabStructs(s)
  {
    assert x.ref in s.slabs ==> SlabOK(s, x.ref);
  }

  // ---- No two free ranges touch ----

  /** Gapped, except that the range at `k` may touch its neighbours. */
  ghost predicate GappedAround(l: seq<Range>, k: nat) {
    && k < |l| && Sorted(l) && l[k].pages > 0
    && forall i, j :: 0 <= i < j < |l| && i != k && j != k ==> l[i].End() < l[j].base
  }

  ghost predicate ApartFromPrev(l: seq<Range>, k: nat)
    requires k < |l|
  {
    k > 0 ==> l[k - 1].End() < l[k].base
  }

  ghost predicate EndsAtNext(l: seq<Range>, k: nat) {
    k + 1 < |l| && l[k].End() == l[k + 1].base
  }

  ghost predicate TouchesNext(l: seq<Range>, x: Range) {
    exists f :: f in l && x.End() == f.base
  }

  lemma InsertedTouches(l: seq<Range>, k: nat, x: Range)
    requires k <= |l| && PlaceFor(l, x.base, k) && Sorted(InsertAt(l, k, x)) && x.pages > 0
    ensures TouchesNext(l, x) ==> EndsAtNext(InsertAt(l, k, x), k)
  {
    var r := InsertAt(l, k, x);
    if TouchesNext(l, x) {
      var f :| f in l && x.End() == f.base;
      var j := IndexOf(l, f);
      assert j >= k && r[k + 1] == l[k];
      assert r[k].End() <= r[k + 1].base;
      if j > k {
        assert r[k + 1].End() <= r[j + 1].base && r[j + 1] == f;
      }
    }
  }

  lemma InsertedAround(l: seq<Range>, k: nat, x: Range)
    requires k <= |l| && Gapped(l) && Sorted(InsertAt(l, k, x)) && x.pages > 0
    ensures GappedAround(InsertAt(l, k, x), k)
  {
    var r := InsertAt(l, k, x);
    forall i, j | 0 <= i < j < |r| && i != k && j != k ensures r[i].End() < r[j].base {
      var i', j' := if i < k then i else i - 1, if j < k then j else j - 1;
      assert r[i] == l[i'] && r[j] == l[j'] && i' < j';
    }
  }

  /** The circular "previous" test at the head of the list is false, since the range has pages. */
  lemma PrevIsReal(l: seq<Range>, k: nat)
    requires GappedAround(l, k)
    ensures var p := if k == 0 then |l| - 1 else k - 1;
            if l[p].End() == l[k].base then k > 0 else ApartFromPrev(l, k)
  {}

  /** The circular "next" test at the tail of the list is false, since the range has pages. */
  lemma NextIsReal(l: seq<Range>, k: nat)
    requires GappedAround(l, k)
    ensures var q := if k + 1 == |l| then 0 else k + 1;
            if l[k].End() == l[q].base then k + 1 < |l| else k + 1 < |l| ==> l[k].End() < l[k + 1].base
  {}

  lemma MergedPrevAround(s: State, k: nat)
    requires GappedAround(s.free, k) && k > 0 && s.free[k - 1].End() == s.free[k].base
    requires Sorted(Merged(s, k - 1).free)
    ensures GappedAround(Merged(s, k - 1).free, k - 1) && ApartFromPrev(Merged(s, k - 1).free, k - 1)
    ensures EndsAtNext(s.free, k) ==> EndsAtNext(Merged(s, k - 1).free, k - 1)
  {
    var l := s.free;
    var r := Merged(s, k - 1).free;
    forall i, j | 0 <= i < j < |r| && i != k - 1 && j != k - 1 ensures r[i].End() < r[j].base {
      var i', j' := if i < k then i else i + 1, if j < k then j else j + 1;
      assert r[i] == l[i'] && r[j] == l[j'] && i' < j' && i' != k && j' != k;
    }
  }

  /** The gaps that are known around a range that touches the next one. */
  lemma GapsAround(l: seq<Range>, k: nat, i: nat, j: nat)
    requires GappedAround(l, k) && ApartFromPrev(l, k) && k + 1 < |l| && l[k].End() == l[k + 1].base
    ensures i < j < |l| && (i != k || j != k + 1) ==> l[i].End() < l[j].base
  {}

  lemma MergedNextGapped(s: State, k: nat)
    requires GappedAround(s.free, k) && ApartFromPrev(s.free, k)
    requires k + 1 < |s.free| && s.free[k].End() == s.free[k + 1].base
    ensures Gapped(Merged(s, k).free)
  {
    hide GappedAround, ApartFromPrev;
    var l, r := s.free, Merged(s, k).free;
    assert r == l[..k] + [Joined(l[k], l[k + 1])] + l[k + 2..];
    assert forall i :: 0 <= i < |r| ==> r[i] == if i < k then l[i] else if i == k then Joined(l[k], l[k + 1]) else l[i + 1];
    hide Merged;
    forall i, j | 0 <= i < j < |r| ensures r[i].End() < r[j].base {
      GapsAround(l, k, if i < k then i else i + 1, j + 1);
      if j <= k { GapsAround(l, k, i, j); }
    }
  }

  lemma AroundApartIsGapped(l: seq<Range>, k: nat)
    requires GappedAround(l, k) && ApartFromPrev(l, k)
    requires k + 1 < |l| ==> l[k].End() < l[k + 1].base
    ensures Gapped(l)
  {
    forall i, j | 0 <= i < j < |l| ensures l[i].End() < l[j].base {
      if j == k && i < k - 1 { assert l[i].End() < l[k - 1].base; }
      if i == k && j > k + 1 { assert l[k + 1].End() < l[j].base; }
    }
  }

  // ---- Objects keep their cache ----

  /** An object held in both states is in the same cache in both. */
  ghost predicate Homes(s: State, t: State) {
    forall v, c :: v in Held(s) && v in Held(t) && InCache(s, v, c) ==> InCache(t, v, c)
  }

  /** Every free range of more than `k` pages is still there, with at most `k` pages less at the front. */
  ghost predicate Persist(a: seq<Range>, b: seq<Range>, k: nat) {
    forall f :: f in a && f.pages > k ==> Remains(f, b, k)
  }

  ghost predicate Remains(f: Range, b: seq<Range>, k: nat) {
    exists g :: g in b && g.ref == f.ref && g.pages + k >= f.pages && g.End() == f.End() && g.base >= f.base
  }

  lemma CarvedPersist(s: State, i: nat, n: nat, ref: nat)
    requires i < |s.free| && n <= s.free[i].pages
    ensures Persist(s.free, Carved(s, i, n, ref).free, n)
  {
    var t := Carved(s, i, n, ref);
    forall f | f in s.free ensures Remains(f, t.free, n) {
      var j := IndexOf(s.free, f);
      assert t.free[j] in t.free && t.free[j].ref == f.ref;
    }
  }

  lemma TakenPersist(s: State, i: nat)
    requires i < |s.free|
    ensures Persist(s.free, FreeTaken(s, i).free, s.free[i].pages)
  {
    var t := FreeTaken(s, i);
    forall f | f in s.free && f.pages > s.free[i].pages ensures Remains(f, t.free, s.free[i].pages) {
      var j := IndexOf(s.free, f);
      assert t.free[if j < i then j else j - 1] == f;
      assert f in t.free;
    }
  }
}
