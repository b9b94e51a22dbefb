/** Taking an object from a slab and giving it back keep every invariant of the kernel state. */
module SlabLemmas {
  import opened Seqs
  import opened KernelState

  // ---- Geometry of the objects of a slab ----

  lemma ProductStep(i: nat, nb: nat, size: nat)
    requires i < nb
    ensures i * size + size <= nb * size
  {
    assert nb * size == (i + 1) * size + (nb - 1 - i) * size;
    assert (nb - 1 - i) * size >= 0;
  }

  lemma ObjectPlace(first: nat, size: nat, nb: nat, i: nat)
    requires i < nb && size > 0
    ensures ObjectsOf(first, size, nb)[i] == first + i * size
    ensures first + i * size + size <= first + nb * size
  {
    ProductStep(i, nb, size);
  }

  /** The alignment and bound tests of free_object accept exactly the addresses where an object starts. */
  lemma IsObject(first: nat, size: nat, nb: nat, v: nat)
    requires size > 0 && first <= v
    ensures v in ObjectsOf(first, size, nb) <==> (v - first) % size == 0 && (v - first) / size < nb
  {
    var l := ObjectsOf(first, size, nb);
    if v in l {
      var i := IndexOf(l, v);
      assert v - first == i * size;
      MultipleDivMod(i, size);
    }
    if (v - first) % size == 0 && (v - first) / size < nb {
      var i := (v - first) / size;
      assert v - first == size * i + (v - first) % size;
      assert l[i] == first + i * size == v;
    }
  }

  lemma MulAtLeast(k: int, size: nat)
    requires k >= 1
    ensures k * size >= size
  {
    assert k * size == size + (k - 1) * size;
  }

  lemma MultipleDivMod(i: nat, size: nat)
    requires size > 0
    ensures (i * size) / size == i && (i * size) % size == 0
  {
    var a := i * size;
    var q, r := a / size, a % size;
    assert a == size * q + r;
    assert (i - q) * size == r;
    if q < i {
      MulAtLeast(i - q, size);
    }
    if q > i {
      MulAtLeast(q - i, size);
    }
  }

  lemma ObjectSpan(first: nat, size: nat, nb: nat, v: nat)
    requires v in ObjectsOf(first, size, nb) && size > 0
    ensures first <= v && v + size <= first + nb * size
  {
    var i := IndexOf(ObjectsOf(first, size, nb), v);
    ObjectPlace(first, size, nb, i);
  }

  /** Two objects of one slab never overlap. */
  lemma ObjectsApart(first: nat, size: nat, nb: nat, v: nat, w: nat)
    requires v in ObjectsOf(first, size, nb) && w in ObjectsOf(first, size, nb) && v != w && size > 0
    ensures v + size <= w || w + size <= v
  {
    var i := IndexOf(ObjectsOf(first, size, nb), v);
    var j := IndexOf(ObjectsOf(first, size, nb), w);
    if i < j {
      ProductStep(i, j, size);
    } else {
      ProductStep(j, i, size);
    }
  }

  lemma ObjectsDistinct(first: nat, size: nat, nb: nat)
    requires size > 0
    ensures Distinct(ObjectsOf(first, size, nb))
  {
    var l := ObjectsOf(first, size, nb);
    forall i, j | 0 <= i < j < nb ensures l[i] != l[j] {
      ProductStep(i, j, size);
    }
  }

  // ---- Where the objects of the state are ----

  /** Every object of a slab lies inside the slab's range, below the header when the header is on the slab. */
  lemma SlotInside(s: State, sa: nat, v: nat)
    requires CachesOK(s) && sa in s.slabs && SlabOK(s, sa) && v in Slots(s, sa)
    ensures var k := s.caches[s.slabs[sa].cache];
            var top := RangeOf(s, sa).End() - (if k.onSlab then SIZEOF_KSLAB else 0);
            RangeOf(s, sa).Covers(v) && v + k.objSize <= top
  {
    var b := s.slabs[sa];
    assert CacheOK(s, b.cache);
    ObjectSpan(b.first, s.caches[b.cache].objSize, s.caches[b.cache].nbObj, v);
  }

  /** No address is an object of two slabs. */
  lemma SlotsApart(s: State, sa: nat, sb: nat, v: nat)
    requires Layout(s) && CachesOK(s) && SlabsOK(s)
    requires sa in s.slabs && sb in s.slabs && sa != sb && v in Slots(s, sa)
    ensures v !in Slots(s, sb)
  {
    assert SlabOK(s, sa) && SlabOK(s, sb);
    assert RangeOf(s, sa) in Tiles(s) && RangeOf(s, sb) in Tiles(s);
    assert Compat(RangeOf(s, sa), RangeOf(s, sb));
    SlotInside(s, sa, v);
    if v in Slots(s, sb) {
      SlotInside(s, sb, v);
    }
  }

  lemma {:induction false} SumFreeFrame(list: seq<nat>, m: map<nat, Slab>, m': map<nat, Slab>)
    requires forall x :: x in list ==> (x in m <==> x in m') && (x in m ==> m[x].nbFree == m'[x].nbFree)
    ensures SumFree(list, m) == SumFree(list, m')
  {
    if list != [] {
      SumFreeFrame(list[1..], m, m');
    }
  }

  lemma {:induction false} SumFreeAppend(a: seq<nat>, b: seq<nat>, m: map<nat, Slab>)
    ensures SumFree(a + b, m) == SumFree(a, m) + SumFree(b, m)
  {
    if a == [] {
      assert a + b == b;
    } else {
      assert (a + b)[1..] == a[1..] + b;
      SumFreeAppend(a[1..], b, m);
    }
  }

  lemma SumFreeRemove(list: seq<nat>, i: nat, m: map<nat, Slab>)
    requires i < |list| && list[i] in m
    ensures SumFree(list, m) == m[list[i]].nbFree + SumFree(RemoveAt(list, i), m)
  {
    assert list == list[..i] + ([list[i]] + list[i + 1..]);
    SumFreeAppend(list[..i], [list[i]] + list[i + 1..], m);
    SumFreeAppend([list[i]], list[i + 1..], m);
    SumFreeAppend(list[..i], list[i + 1..], m);
    assert SumFree([list[i]], m) == m[list[i]].nbFree;
  }

  /** One full slab at the head means that the cache has no free object left: testing the head alone is enough. */
  lemma HeadTestIsEnough(s: State, c: nat)
    requires CachesOK(s) && SlabsOK(s) && c in s.caches
    ensures var l := s.caches[c].slabList;
            (l == [] || Full(s, l[0])) <==> s.caches[c].nbFreeObj == 0
  {
    var l := s.caches[c].slabList;
    assert CacheOK(s, c);
    forall i | 0 <= i < |l| ensures l[i] in s.slabs && SlabOK(s, l[i]) {
      assert l[i] in l;
    }
    if l != [] {
      SumFreeRemove(l, 0, s.slabs);
      if s.slabs[l[0]].free == [] {
        assert Full(s, l[0]);
        AllFullSum(s, l);
      }
    }
  }

  lemma {:induction false} AllFullSum(s: State, l: seq<nat>)
    requires forall i :: 0 <= i < |l| ==> l[i] in s.slabs && SlabOK(s, l[i]) && Full(s, l[i])
    ensures SumFree(l, s.slabs) == 0
  {
    if l != [] {
      AllFullSum(s, l[1..]);
    }
  }

  // ---- Taking an object ----

  /** kvmm_cache_alloc on a cache whose head slab has a free object. */
  ghost function Popped(s: State, c: nat): State
    requires c in s.caches && s.caches[c].slabList != []
    requires var sa := s.caches[c].slabList[0]; sa in s.slabs && s.slabs[sa].free != [] && s.slabs[sa].nbFree > 0
    requires s.caches[c].nbFreeObj > 0
  {
    var k := s.caches[c];
    var sa := k.slabList[0];
    var b := s.slabs[sa];
    var b' := b.(free := b.free[1..], nbFree := b.nbFree - 1);
    var list := if b'.free == [] then k.slabList[1..] + [sa] else k.slabList;
    s.(slabs := s.slabs[sa := b'],
       caches := s.caches[c := k.(nbFreeObj := k.nbFreeObj - 1, slabList := list)],
       live := s.live[b.free[0] := sa])
  }

  ghost predicate CanPop(s: State, c: nat) {
    c in s.caches && s.caches[c].slabList != [] && s.caches[c].slabList[0] in s.slabs
    && s.slabs[s.caches[c].slabList[0]].free != []
  }

  ghost predicate SameShapes(s: State, t: State) {
    && s.rc == t.rc && s.kc == t.kc && s.caches.Keys == t.caches.Keys
    && forall c :: c in s.caches ==> Shape(s.caches[c]) == Shape(t.caches[c])
  }

  function Shape(c: Cache): Cache { c.(nbFreeObj := 0, slabList := []) }

  /** The parts of the state that a change of free lists leaves alone. */
  ghost predicate SameRanges(s: State, t: State) {
    && t.free == s.free && t.used == s.used && t.hand == s.hand
    && t.pt == s.pt && t.owner == s.owner && t.frames == s.frames
  }

  /** Every slab keeps its cache, range and first object. */
  ghost predicate SamePlaces(s: State, t: State) {
    && t.slabs.Keys == s.slabs.Keys
    && forall sa :: sa in s.slabs ==>
         t.slabs[sa].cache == s.slabs[sa].cache && t.slabs[sa].range == s.slabs[sa].range
         && t.slabs[sa].first == s.slabs[sa].first
  }

  lemma SameSlots(s: State, t: State, sa: nat)
    requires SameShapes(s, t) && SamePlaces(s, t) && sa in s.slabs && s.slabs[sa].cache in s.caches
    ensures Slots(t, sa) == Slots(s, sa) && RangeOf(t, sa) == RangeOf(s, sa)
  {
    var c := s.slabs[sa].cache;
    assert Shape(s.caches[c]) == Shape(t.caches[c]);
  }

  lemma RefusedSum(s: State, c: nat)
    requires CachesOK(s) && SlabsOK(s) && CanPop(s, c)
    ensures s.slabs[s.caches[c].slabList[0]].nbFree > 0 && s.caches[c].nbFreeObj > 0
  {
    var l := s.caches[c].slabList;
    assert CacheOK(s, c) && l[0] in l && SlabOK(s, l[0]);
    SumFreeRemove(l, 0, s.slabs);
  }

  /** A change confined to object `v` of slab `sa`: it moves between the slab's free list and `live`. */
  ghost predicate OneObjectMoves(s: State, t: State, sa: nat, v: nat)
    requires Linked(s)
  {
    && sa in s.slabs && v in Slots(s, sa)
    && SameRanges(s, t) && SamePlaces(s, t) && SameShapes(s, t)
    && (forall x :: x in s.slabs && x != sa ==> t.slabs[x] == s.slabs[x])
    && (forall c :: c in s.caches && c != s.slabs[sa].cache ==> t.caches[c] == s.caches[c])
    && Elems(t.caches[s.slabs[sa].cache].slabList) == Elems(s.caches[s.slabs[sa].cache].slabList)
    && Distinct(t.slabs[sa].free) && t.slabs[sa].nbFree == |t.slabs[sa].free|
    && (forall w :: w != v ==> (w in t.slabs[sa].free <==> w in s.slabs[sa].free))
    && (forall w, x :: w != v ==> (IsLive(t, w, x) <==> IsLive(s, w, x)))
    && (forall x :: IsLive(t, v, x) <==> x == sa && v !in t.slabs[sa].free)
  }

  lemma OneObjectMovesCaches(s: State, t: State, sa: nat, v: nat)
    requires CachesOK(s) && SlabsOK(s) && OneObjectMoves(s, t, sa, v)
    requires CacheOK(t, s.slabs[sa].cache)
    ensures CachesOK(t)
  {
    forall c | c in t.caches ensures CacheOK(t, c) {
      if c != s.slabs[sa].cache {
        assert CacheOK(s, c);
        assert sa !in s.caches[c].slabList;
        SumFreeFrame(s.caches[c].slabList, s.slabs, t.slabs);
        forall x | x in s.caches[c].slabList ensures Full(t, x) <==> Full(s, x) {
          assert x != sa;
        }
      }
    }
    assert Shape(s.caches[s.rc]) == Shape(t.caches[s.rc]) && Shape(s.caches[s.kc]) == Shape(t.caches[s.kc]);
  }

  lemma OneObjectMovesSlabs(s: State, t: State, sa: nat, v: nat)
    requires CachesOK(s) && SlabsOK(s) && LiveOK(s) && OneObjectMoves(s, t, sa, v)
    requires v !in OffSlabStructs(s)
    ensures SlabsOK(t)
  {
    forall x | x in t.slabs ensures SlabOK(t, x) {
      assert SlabOK(s, x);
      SameSlots(s, t, x);
      assert Shape(s.caches[s.slabs[x].cache]) == Shape(t.caches[s.slabs[x].cache]);
      assert x in Elems(s.caches[s.slabs[x].cache].slabList);
      assert x in Elems(t.caches[s.slabs[x].cache].slabList);
      if x in OffSlabStructs(s) {
        assert x != v && IsLive(s, x, s.live[x]);
        assert IsLive(t, x, s.live[x]);
      }
      forall w | w in t.slabs[x].free ensures w in Slots(t, x) {
        if x == sa && w != v { assert w in s.slabs[x].free; }
      }
    }
    forall u | u in t.used && u.slab != 0 ensures SlabOfRange(t, u) {
      assert SlabOfRange(s, u);
      SameSlots(s, t, u.slab);
    }
  }

  lemma OneObjectMovesLive(s: State, t: State, sa: nat, v: nat)
    requires Layout(s) && CachesOK(s) && SlabsOK(s) && LiveOK(s) && OneObjectMoves(s, t, sa, v)
    requires Linked(t)
    ensures LiveOK(t)
  {
    forall x | x in s.slabs ensures Slots(t, x) == Slots(s, x) {
      SameSlots(s, t, x);
    }
    forall w | w in t.live
      ensures t.live[w] in t.slabs && w in Slots(t, t.live[w]) && w !in t.slabs[t.live[w]].free
    {
      assert IsLive(t, w, t.live[w]);
      if w != v {
        assert IsLive(s, w, t.live[w]);
      }
    }
    forall x, w | x in t.slabs && w in Slots(t, x) && w !in t.slabs[x].free ensures IsLive(t, w, x) {
      if w == v {
        if x != sa { SlotsApart(s, sa, x, v); }
      } else {
        assert IsLive(s, w, x);
      }
    }
  }

  lemma OneObjectMovesRefs(s: State, t: State, sa: nat, v: nat)
    requires Linked(s) && LiveOK(s) && RefsOK(s) && OneObjectMoves(s, t, sa, v)
    requires v !in Refs(Tiles(s))
    ensures RefsOK(t)
  {
    hide Slots, Distinct;
    forall x | x in Tiles(t)
      ensures x.ref in t.live && t.live[x.ref] in t.slabs && t.slabs[t.live[x.ref]].cache == t.rc
    {
      assert x.ref in Refs(Tiles(s));
      assert IsLive(s, x.ref, s.live[x.ref]) && IsLive(t, x.ref, s.live[x.ref]);
    }
  }

  lemma OneObjectMovesHeld(s: State, t: State, sa: nat, v: nat)
    requires Linked(s) && OneObjectMoves(s, t, sa, v)
    requires v !in Refs(Tiles(s)) && v !in OffSlabStructs(s)
    ensures Tiles(t) == Tiles(s) && HeldRanges(t) == HeldRanges(s)
    ensures Held(t) == if v in t.slabs[sa].free then Held(s) - {v} else Held(s) + {v}
  {
    forall x | x in s.slabs ensures x in OffSlabStructs(t) <==> x in OffSlabStructs(s) {
      assert Shape(s.caches[s.slabs[x].cache]) == Shape(t.caches[s.slabs[x].cache]);
    }
    assert OffSlabStructs(t) == OffSlabStructs(s);
    forall w | w != v ensures w in t.live <==> w in s.live {
      if w in t.live { assert IsLive(t, w, t.live[w]) && IsLive(s, w, t.live[w]); }
      if w in s.live { assert IsLive(s, w, s.live[w]) && IsLive(t, w, s.live[w]); }
    }
    assert IsLive(t, v, sa) <==> v !in t.slabs[sa].free;
    assert v in t.live ==> IsLive(t, v, t.live[v]);
  }

  lemma SameLayout(s: State, t: State)
    requires SameRanges(s, t)
    ensures Layout(s) ==> Layout(t)
    ensures PagingOK(s) ==> PagingOK(t)
  {
    assert Tiles(t) == Tiles(s);
    if Layout(s) {
      forall x, y | x in Tiles(t) && y in Tiles(t) && x != y ensures Compat(x, y) {}
    }
  }

  /** The slabs that are left stay where they are. */
  ghost predicate PlacesLeft(s: State, t: State) {
    forall sa :: sa in t.slabs ==> sa in s.slabs && t.slabs[sa].cache == s.slabs[sa].cache
                                   && t.slabs[sa].range == s.slabs[sa].range && t.slabs[sa].first == s.slabs[sa].first
  }

  lemma SameMapped(s: State, t: State)
    requires MappedOK(s) && Linked(s) && t.pt == s.pt && Bytes(Tiles(t)) == Bytes(Tiles(s))
    requires SameShapes(s, t) && PlacesLeft(s, t)
    ensures MappedOK(t)
  {
    hide Tiles, Bytes;
    forall sa | sa in t.slabs && t.slabs[sa].cache in t.caches && t.caches[t.slabs[sa].cache].mapNow
      ensures AllMapped(t, RangeOf(t, sa))
    {
      assert Shape(s.caches[s.slabs[sa].cache]) == Shape(t.caches[s.slabs[sa].cache]);
      assert AllMapped(s, RangeOf(s, sa));
    }
  }

  lemma OneObjectMovesKeeps(s: State, t: State, sa: nat, v: nat)
    requires Inv(s) && OneObjectMoves(s, t, sa, v)
    requires CacheOK(t, s.slabs[sa].cache)
    requires v !in Refs(Tiles(s)) && v !in OffSlabStructs(s)
    ensures Inv(t)
  {
    hide Layout, CachesOK, LiveOK, RefsOK, MappedOK;
    OneObjectMovesCaches(s, t, sa, v);
    SameMapped(s, t);
    OneObjectMovesSlabs(s, t, sa, v);
    OneObjectMovesLive(s, t, sa, v);
    OneObjectMovesRefs(s, t, sa, v);
    assert Tiles(t) == Tiles(s);
    SameLayout(s, t);
  }

  lemma FreeIsNotLive(s: State, sa: nat, v: nat)
    requires Inv(s) && sa in s.slabs && v in s.slabs[sa].free
    ensures v !in s.live && v !in Refs(Tiles(s)) && v !in OffSlabStructs(s)
  {
    hide CachesOK, PagingOK, MappedOK;
    assert SlabOK(s, sa);
    assert v in s.live ==> s.live[v] != sa;
    if v in s.live {
      SlotsApart(s, sa, s.live[v], v);
    }
    assert v in s.slabs ==> SlabOK(s, v);
  }

  lemma PoppedSum(s: State, c: nat)
    requires CachesOK(s) && SlabsOK(s) && CanPop(s, c)
    requires s.slabs[s.caches[c].slabList[0]].nbFree > 0 && s.caches[c].nbFreeObj > 0
    ensures SumFree(Popped(s, c).caches[c].slabList, Popped(s, c).slabs) == Popped(s, c).caches[c].nbFreeObj
  {
    var t := Popped(s, c);
    var l := s.caches[c].slabList;
    var sa := l[0];
    assert CacheOK(s, c);
    SumFreeRemove(l, 0, s.slabs);
    assert RemoveAt(l, 0) == l[1..];
    assert sa !in l[1..];
    SumFreeFrame(l[1..], s.slabs, t.slabs);
    SumFreeAppend(l[1..], [sa], t.slabs);
    SumFreeAppend([sa], l[1..], t.slabs);
    assert l == [sa] + l[1..];
    assert SumFree([sa], t.slabs) == t.slabs[sa].nbFree;
  }

  // How the order "full slabs last" survives the moves of a slab.

  lemma FullLastFrame(s: State, t: State, l: seq<nat>)
    requires FullLast(s, l) && forall x :: x in l ==> (Full(t, x) <==> Full(s, x))
    ensures FullLast(t, l)
  {
    hide Full;
    forall i, j | 0 <= i < j < |l| && Full(t, l[i]) ensures Full(t, l[j]) {
      assert l[i] in l && l[j] in l;
    }
  }

  lemma FullLastRemove(s: State, l: seq<nat>, p: nat)
    requires FullLast(s, l) && p < |l|
    ensures FullLast(s, RemoveAt(l, p))
  {
    hide Full;
    var r := RemoveAt(l, p);
    forall i, j | 0 <= i < j < |r| && Full(s, r[i]) ensures Full(s, r[j]) {
      var i', j' := if i < p then i else i + 1, if j < p then j else j + 1;
      assert l[i'] == r[i] && l[j'] == r[j] && i' < j';
    }
  }

  lemma FullLastEnds(s: State, r: seq<nat>, x: nat)
    requires FullLast(s, r)
    ensures Full(s, x) ==> FullLast(s, r + [x])
    ensures !Full(s, x) ==> FullLast(s, [x] + r)
  {
    hide Full;
    if !Full(s, x) {
      var l := [x] + r;
      forall i, j | 0 <= i < j < |l| && Full(s, l[i]) ensures Full(s, l[j]) {
        assert i > 0;
        assert l[i] == r[i - 1] && l[j] == r[j - 1];
      }
    }
  }

  /** Moving the head to the end when it has become full. */
  lemma PoppedOrder(s: State, t: State, l: seq<nat>, l': seq<nat>)
    requires l != [] && Distinct(l) && FullLast(s, l)
    requires forall x :: x in l[1..] ==> (Full(t, x) <==> Full(s, x))
    requires l' == if Full(t, l[0]) then l[1..] + [l[0]] else l
    ensures Distinct(l') && FullLast(t, l') && Elems(l') == Elems(l)
  {
    hide Full, FullLast;
    var r := l[1..];
    assert r == RemoveAt(l, 0);
    FullLastRemove(s, l, 0);
    FullLastFrame(s, t, r);
    FullLastEnds(t, r, l[0]);
    assert l == [l[0]] + r;
    if Full(t, l[0]) {
      MovedToEnd(l);
    }
  }

  lemma MovedToEnd(l: seq<nat>)
    requires l != [] && Distinct(l)
    ensures Distinct(l[1..] + [l[0]]) && Elems(l[1..] + [l[0]]) == Elems(l)
  {
    var r := RemoveAt(l, 0);
    assert r == l[1..];
    RemoveAtContents(l, 0);
    assert l[0] !in Elems(r);
    InsertAtContents(r, |r|, l[0]);
    assert InsertAt(r, |r|, l[0]) == r + [l[0]];
  }

  lemma PoppedList(s: State, c: nat)
    requires CachesOK(s) && SlabsOK(s) && CanPop(s, c)
    requires s.slabs[s.caches[c].slabList[0]].nbFree > 0 && s.caches[c].nbFreeObj > 0
    ensures CacheOK(Popped(s, c), c)
    ensures Elems(Popped(s, c).caches[c].slabList) == Elems(s.caches[c].slabList)
  {
    var t := Popped(s, c);
    var l := s.caches[c].slabList;
    var l' := t.caches[c].slabList;
    assert CacheOK(s, c);
    PoppedSum(s, c);
    assert l[0] !in l[1..];
    PoppedOrder(s, t, l, l');
    forall x | x in l' ensures x in t.slabs && t.slabs[x].cache == c {
      assert x in Elems(l') && x in l;
    }
  }

  lemma PoppedMoves(s: State, c: nat)
    requires Linked(s) && CanPop(s, c) && s.caches[c].nbFreeObj > 0
    requires var sa := s.caches[c].slabList[0]; var f := s.slabs[sa].free;
             && s.slabs[sa].cache == c && s.slabs[sa].nbFree == |f| && Distinct(f) && f[0] in Slots(s, sa)
             && f[0] !in s.live
    requires Elems(Popped(s, c).caches[c].slabList) == Elems(s.caches[c].slabList)
    ensures var sa := s.caches[c].slabList[0]; OneObjectMoves(s, Popped(s, c), sa, s.slabs[sa].free[0])
  {
    hide Linked, Slots, Elems;
    var f := s.slabs[s.caches[c].slabList[0]].free;
    assert f == [f[0]] + f[1..] && f[0] !in f[1..];
    forall w | w != f[0] ensures w in f[1..] <==> w in f {}
  }

  lemma PopMoves(s: State, c: nat)
    requires CachesOK(s) && SlabsOK(s) && CanPop(s, c)
    requires s.slabs[s.caches[c].slabList[0]].free[0] !in s.live
    ensures s.slabs[s.caches[c].slabList[0]].nbFree > 0 && s.caches[c].nbFreeObj > 0
    ensures var sa := s.caches[c].slabList[0];
            s.slabs[sa].cache == c && OneObjectMoves(s, Popped(s, c), sa, s.slabs[sa].free[0])
            && CacheOK(Popped(s, c), c)
  {
    hide OneObjectMoves;
    RefusedSum(s, c);
    var sa := s.caches[c].slabList[0];
    assert CacheOK(s, c) && sa in s.caches[c].slabList && SlabOK(s, sa) && s.slabs[sa].free[0] in s.slabs[sa].free;
    PoppedList(s, c);
    PoppedMoves(s, c);
  }

  lemma SlotPositive(s: State, sa: nat, v: nat)
    requires Inv(s) && sa in s.slabs && v in Slots(s, sa)
    ensures v >= KVMM_BASE
  {
    assert SlabOK(s, sa);
    SlotInside(s, sa, v);
    assert RangeOf(s, sa) in Tiles(s);
  }

  /** Taking the head object: every invariant holds again and exactly that object becomes held. */
  lemma PopKeeps(s: State, c: nat)
    requires Inv(s) && CanPop(s, c)
    ensures s.slabs[s.caches[c].slabList[0]].nbFree > 0 && s.caches[c].nbFreeObj > 0
    ensures var t := Popped(s, c); var v := s.slabs[s.caches[c].slabList[0]].free[0];
            Inv(t) && Held(t) == Held(s) + {v} && v !in s.live && HeldRanges(t) == HeldRanges(s)
            && SameRanges(s, t) && SameShapes(s, t) && InCache(t, v, c) && v > 0
  {
    hide Layout, CachesOK, LiveOK, RefsOK, PagingOK, MappedOK;
    var sa := s.caches[c].slabList[0];
    var v := s.slabs[sa].free[0];
    assert v in s.slabs[sa].free;
    FreeIsNotLive(s, sa, v);
    PopMoves(s, c);
    assert v !in Popped(s, c).slabs[sa].free by {
      assert IsLive(Popped(s, c), v, sa);
    }
    assert SlabOK(s, sa);
    SlotPositive(s, sa, v);
    OneObjectMovesKeeps(s, Popped(s, c), sa, v);
    OneObjectMovesHeld(s, Popped(s, c), sa, v);
  }

  // ---- Giving an object back ----

  /** free_object once the slab is found: a full slab goes to the head of its cache's list. */
  ghost function Pushed(s: State, sa: nat, v: nat): State
    requires sa in s.slabs && s.slabs[sa].cache in s.caches && sa in s.caches[s.slabs[sa].cache].slabList
  {
    var b := s.slabs[sa];
    var k := s.caches[b.cache];
    var list := if b.free == [] then [sa] + Delete(k.slabList, sa) else k.slabList;
    s.(slabs := s.slabs[sa := b.(free := [v] + b.free, nbFree := b.nbFree + 1)],
       caches := s.caches[b.cache := k.(nbFreeObj := k.nbFreeObj + 1, slabList := list)],
       live := s.live - {v})
  }

  lemma PushedSum(s: State, sa: nat, v: nat)
    requires CachesOK(s) && SlabsOK(s) && sa in s.slabs && SlabOK(s, sa)
    ensures var t := Pushed(s, sa, v); var c := s.slabs[sa].cache;
            t.caches[c].nbFreeObj == SumFree(t.caches[c].slabList, t.slabs)
  {
    var t := Pushed(s, sa, v);
    var c := s.slabs[sa].cache;
    var l := s.caches[c].slabList;
    assert CacheOK(s, c);
    var i := PosOf(l, sa);
    SumFreeRemove(l, i, s.slabs);
    SumFreeRemove(l, i, t.slabs);
    RemoveAtContents(l, i);
    var rest := RemoveAt(l, i);
    assert sa !in Elems(rest);
    SumFreeFrame(rest, s.slabs, t.slabs);
    SumFreeAppend([sa], rest, t.slabs);
    assert SumFree([sa], t.slabs) == t.slabs[sa].nbFree;
  }

  /** Moving a slab that stops being full to the head. */
  lemma DeleteKeeps(s: State, l: seq<nat>, sa: nat)
    requires sa in l && Distinct(l) && FullLast(s, l)
    ensures var r := Delete(l, sa); FullLast(s, r) && Distinct(r) && sa !in r && Elems(r) == Elems(l) - {sa}
  {
    hide FullLast, RemoveAt;
    var p := PosOf(l, sa);
    RemoveAtContents(l, p);
    FullLastRemove(s, l, p);
    assert sa !in Elems(RemoveAt(l, p));
  }

  lemma AtHead(r: seq<nat>, x: nat)
    ensures InsertAt(r, 0, x) == [x] + r
  {}

  lemma SameFullness(s: State, t: State, r: seq<nat>, sa: nat)
    requires sa !in r && forall x :: x in r && x != sa ==> (Full(t, x) <==> Full(s, x))
    ensures forall x :: x in r ==> (Full(t, x) <==> Full(s, x))
  {}

  lemma MovedToHead(s: State, t: State, l: seq<nat>, sa: nat)
    requires sa in l && Distinct(l) && FullLast(s, l) && !Full(t, sa)
    requires forall x :: x in l && x != sa ==> (Full(t, x) <==> Full(s, x))
    ensures var l' := [sa] + Delete(l, sa); Distinct(l') && FullLast(t, l') && Elems(l') == Elems(l)
  {
    hide Full, FullLast, Distinct, RemoveAt, InsertAt;
    var r := Delete(l, sa);
    DeleteKeeps(s, l, sa);
    InsertAtContents(r, 0, sa);
    AtHead(r, sa);
    assert forall x :: x in r ==> x in Elems(r);
    SameFullness(s, t, r, sa);
    FullLastFrame(s, t, r);
    FullLastEnds(t, r, sa);
  }

  lemma PushedOrder(s: State, t: State, l: seq<nat>, l': seq<nat>, sa: nat)
    requires sa in l && Distinct(l) && FullLast(s, l) && !Full(t, sa)
    requires forall x :: x in l && x != sa ==> (Full(t, x) <==> Full(s, x))
    requires l' == if Full(s, sa) then [sa] + Delete(l, sa) else l
    ensures Distinct(l') && FullLast(t, l') && Elems(l') == Elems(l)
  {
    hide Full, FullLast, Delete, Elems, Distinct;
    if Full(s, sa) {
      MovedToHead(s, t, l, sa);
    } else {
      FullLastFrame(s, t, l);
    }
  }

  lemma PushedList(s: State, sa: nat, v: nat)
    requires CachesOK(s) && SlabsOK(s) && sa in s.slabs && SlabOK(s, sa)
    ensures var t := Pushed(s, sa, v); var c := s.slabs[sa].cache;
            CacheOK(t, c) && Elems(t.caches[c].slabList) == Elems(s.caches[c].slabList)
  {
    var t := Pushed(s, sa, v);
    var c := s.slabs[sa].cache;
    assert CacheOK(s, c);
    PushedSum(s, sa, v);
    PushedOrder(s, t, s.caches[c].slabList, t.caches[c].slabList, sa);
    forall x | x in t.caches[c].slabList ensures x in t.slabs && t.slabs[x].cache == c {
      assert x in Elems(t.caches[c].slabList);
    }
  }

  /** Giving a held object back: every invariant holds again and exactly that object is no longer held. */
  lemma PushKeeps(s: State, sa: nat, v: nat)
    requires Inv(s) && v in Held(s) && s.live[v] == sa
    ensures sa in s.slabs && SlabOK(s, sa) && v !in s.slabs[sa].free && CacheOK(s, s.slabs[sa].cache)
    ensures var t := Pushed(s, sa, v);
            Inv(t) && Held(t) == Held(s) - {v} && HeldRanges(t) == HeldRanges(s)
            && SameRanges(s, t) && SameShapes(s, t) && SamePlaces(s, t)
  {
    hide Layout, RefsOK, PagingOK, MappedOK;
    assert SlabOK(s, sa) && CacheOK(s, s.slabs[sa].cache);
    PushMoves(s, sa, v);
    OneObjectMovesKeeps(s, Pushed(s, sa, v), sa, v);
    OneObjectMovesHeld(s, Pushed(s, sa, v), sa, v);
  }

  lemma PushedMoves(s: State, sa: nat, v: nat)
    requires Linked(s) && sa in s.slabs && sa in s.caches[s.slabs[sa].cache].slabList && v in Slots(s, sa)
    requires v !in s.slabs[sa].free && Distinct(s.slabs[sa].free) && s.slabs[sa].nbFree == |s.slabs[sa].free|
    requires IsLive(s, v, sa)
    requires var c := s.slabs[sa].cache; Elems(Pushed(s, sa, v).caches[c].slabList) == Elems(s.caches[c].slabList)
    ensures OneObjectMoves(s, Pushed(s, sa, v), sa, v)
  {
    hide Slots, Delete, Full;
    var f := s.slabs[sa].free;
    var t := Pushed(s, sa, v);
    forall w | w != v ensures w in [v] + f <==> w in f {}
    forall i, j | 0 <= i < j < |[v] + f| ensures ([v] + f)[i] != ([v] + f)[j] {
      if i > 0 { assert f[i - 1] != f[j - 1]; }
    }
    assert Distinct(t.slabs[sa].free);
  }

  lemma PushMoves(s: State, sa: nat, v: nat)
    requires CachesOK(s) && SlabsOK(s) && LiveOK(s) && IsLive(s, v, sa) && sa in s.slabs && SlabOK(s, sa)
    ensures OneObjectMoves(s, Pushed(s, sa, v), sa, v) && CacheOK(Pushed(s, sa, v), s.slabs[sa].cache)
  {
    hide OneObjectMoves;
    PushedList(s, sa, v);
    PushedMoves(s, sa, v);
  }
}
