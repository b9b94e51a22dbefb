/** The state of the kernel memory stack: ranges (mem/kvmm.c), slabs and caches (mem/kvmm_slab.c),
    and the page table with the owner stored in each physical page descriptor.

    A structure is known by its address, so `ref` is the address of a `struct kvmm_range` and the keys
    of `slabs` and `caches` are the addresses of the `struct kslab` and `struct kslab_cache`. */
module KernelState {
  import opened Seqs
  import opened Words

  const SIZEOF_KSLAB: nat := 28
  const KVMM_BASE: nat := 0x4000
  const KVMM_TOP: nat := 0x4000_0000

  datatype Range = Range(ref: nat, base: nat, pages: nat, slab: nat) {
    function End(): nat { base + pages * PAGE_SIZE }

    predicate Covers(a: nat) { base <= a < End() }

    ghost function Span(): set<nat> { set a: nat | base <= a < End() && Covers(a) }
  }

  datatype Slab = Slab(cache: nat, range: nat, first: nat, free: seq<nat>, nbFree: nat)

  datatype Cache = Cache(objSize: nat, nbObj: nat, slabPages: nat, minFree: nat, onSlab: bool, mapNow: bool,
                         nbFreeObj: nat, slabList: seq<nat>)

  /** `hand` holds the ranges that are on neither list for the moment, `live` sends each allocated object to
      its slab, `frames` are the physical pages that can still be handed out. */
  datatype State = State(free: seq<Range>, used: seq<Range>, hand: set<Range>,
                         slabs: map<nat, Slab>, caches: map<nat, Cache>, live: map<nat, nat>,
                         pt: map<nat, nat>, owner: map<nat, nat>, frames: set<nat>,
                         rc: nat, kc: nat)

  // ---- Objects of a slab ----

  function ObjectsOf(first: nat, size: nat, nb: nat): (r: seq<nat>)
    ensures |r| == nb
  {
    seq(nb, i => first + i * size)
  }

  ghost function Slots(s: State, sa: nat): seq<nat>
    requires sa in s.slabs && s.slabs[sa].cache in s.caches
  {
    var b := s.slabs[sa];
    ObjectsOf(b.first, s.caches[b.cache].objSize, s.caches[b.cache].nbObj)
  }

  /** The range a slab occupies, rebuilt from the slab's own fields. */
  ghost function RangeOf(s: State, sa: nat): Range
    requires sa in s.slabs && s.slabs[sa].cache in s.caches
  {
    var b := s.slabs[sa];
    Range(b.range, b.first, s.caches[b.cache].slabPages, sa)
  }

  ghost predicate Linked(s: State) {
    forall sa :: sa in s.slabs ==> s.slabs[sa].cache in s.caches
  }

  ghost predicate Full(s: State, sa: nat) {
    sa in s.slabs ==> s.slabs[sa].free == []
  }

  ghost function SumFree(list: seq<nat>, slabs: map<nat, Slab>): nat {
    if list == [] then 0
    else (if list[0] in slabs then slabs[list[0]].nbFree else 0) + SumFree(list[1..], slabs)
  }

  // ---- Invariants ----

  ghost function Tiles(s: State): set<Range> {
    Elems(s.free) + Elems(s.used) + s.hand
  }

  ghost function Bytes(w: set<Range>): set<nat> {
    set x, a | x in w && a in x.Span() :: a
  }

  lemma BytesUnion(v: set<Range>, w: set<Range>)
    ensures Bytes(v + w) == Bytes(v) + Bytes(w)
  {}

  lemma BytesOne(x: Range)
    ensures Bytes({x}) == x.Span()
  {}

  ghost predicate Compat(x: Range, y: Range) {
    x.ref != y.ref && (x.End() <= y.base || y.End() <= x.base)
  }

  /** Ascending, each range ending no later than the next one starts. */
  ghost predicate Sorted(l: seq<Range>) {
    forall i, j :: 0 <= i < j < |l| ==> l[i].End() <= l[j].base
  }

  /** Ascending with room between neighbours: no two ranges touch. */
  ghost predicate Gapped(l: seq<Range>) {
    forall i, j :: 0 <= i < j < |l| ==> l[i].End() < l[j].base
  }

  predicate InBounds(x: Range) {
    KVMM_BASE <= x.base && x.End() <= KVMM_TOP && x.base % PAGE_SIZE == 0
  }

  /** The two lists and the ranges in hand are sorted and pairwise disjoint. A free range may have zero pages. */
  ghost predicate Layout(s: State) {
    && Sorted(s.free) && Sorted(s.used) && Distinct(s.free) && Distinct(s.used)
    && Elems(s.free) !! Elems(s.used) && Elems(s.free) !! s.hand && Elems(s.used) !! s.hand
    && (forall x :: x in Tiles(s) ==> InBounds(x))
    && (forall x :: x in Elems(s.used) + s.hand ==> x.pages > 0)
    && (forall x :: x in Elems(s.free) + s.hand ==> x.slab == 0)
    && (forall x, y {:trigger Compat(x, y)} :: x in Tiles(s) && y in Tiles(s) && x != y ==> Compat(x, y))
  }

  ghost predicate Shaped(c: Cache) {
    && c.objSize > 0 && c.nbObj > 0 && c.slabPages > 0
    && c.nbObj * c.objSize + (if c.onSlab then SIZEOF_KSLAB else 0) <= c.slabPages * PAGE_SIZE
  }

  ghost predicate FullLast(s: State, list: seq<nat>) {
    forall i, j :: 0 <= i < j < |list| && Full(s, list[i]) ==> Full(s, list[j])
  }

  ghost predicate CacheOK(s: State, c: nat)
    requires c in s.caches
  {
    var k := s.caches[c];
    && Shaped(k) && Distinct(k.slabList)
    && (forall sa :: sa in k.slabList ==> sa in s.slabs && s.slabs[sa].cache == c)
    && FullLast(s, k.slabList)
    && k.nbFreeObj == SumFree(k.slabList, s.slabs)
  }

  ghost predicate SlabOK(s: State, sa: nat)
    requires sa in s.slabs
  {
    var b := s.slabs[sa];
    && b.cache in s.caches && sa in s.caches[b.cache].slabList
    && Distinct(b.free) && b.nbFree == |b.free|
    && (forall v :: v in b.free ==> v in Slots(s, sa))
    && RangeOf(s, sa) in s.used
    && sa > 0
    && if s.caches[b.cache].onSlab then sa + SIZEOF_KSLAB == RangeOf(s, sa).End()
       else sa in s.live && s.live[sa] in s.slabs && s.slabs[s.live[sa]].cache == s.kc
  }

  ghost predicate IsLive(s: State, v: nat, sa: nat) {
    v in s.live && s.live[v] == sa
  }

  /** `live` is exactly the set of slots that are on no free list. */
  ghost predicate LiveOK(s: State)
    requires Linked(s)
  {
    && (forall v :: v in s.live ==> s.live[v] in s.slabs)
    && (forall v :: v in s.live ==> v in Slots(s, s.live[v]) && v !in s.slabs[s.live[v]].free)
    && (forall sa, v :: sa in s.slabs && v in Slots(s, sa) && v !in s.slabs[sa].free ==> IsLive(s, v, sa))
  }

  ghost predicate RefsOK(s: State) {
    forall x :: x in Tiles(s) ==>
      x.ref in s.live && s.live[x.ref] in s.slabs && s.slabs[s.live[x.ref]].cache == s.rc
  }

  /** A page mapped inside a kernel range is in a used one, and its frame's descriptor names that range. */
  ghost predicate PagingOK(s: State) {
    && (forall v, x :: v in s.pt && x in Tiles(s) && x.Covers(v) ==>
          x !in s.free && s.pt[v] in s.owner && s.owner[s.pt[v]] == x.ref)
    && (forall v :: v in s.pt ==> s.pt[v] !in s.frames && s.pt[v] != 0 && v % PAGE_SIZE == 0)
    && 0 !in s.frames
  }

  function PageAt(base: nat, i: nat): nat { base + i * PAGE_SIZE }

  ghost predicate Maps(pt: map<nat, nat>, v: nat, f: nat) {
    v in pt && pt[v] == f
  }

  /** Every page of the range is mapped. */
  ghost predicate AllMapped(s: State, x: Range) {
    forall i: nat :: i < x.pages ==> PageAt(x.base, i) in s.pt
  }

  /** No two pages under management share a frame. */
  ghost predicate FramesOK(s: State) {
    forall v, w {:trigger v in s.pt, w in s.pt} ::
      v in s.pt && w in s.pt && v != w && v in Bytes(Tiles(s)) && w in Bytes(Tiles(s)) ==> s.pt[v] != s.pt[w]
  }

  /** The slabs of the caches that ask for it are mapped whole. */
  ghost predicate BackedOK(s: State) {
    forall sa :: sa in s.slabs && s.slabs[sa].cache in s.caches && s.caches[s.slabs[sa].cache].mapNow ==>
      AllMapped(s, RangeOf(s, sa))
  }

  ghost predicate MappedOK(s: State) {
    FramesOK(s) && BackedOK(s)
  }

  ghost predicate CachesOK(s: State) {
    && s.rc in s.caches && s.kc in s.caches && s.rc != s.kc
    && s.caches[s.rc].minFree == 2 && s.caches[s.rc].onSlab && s.caches[s.rc].nbObj >= 2
    && s.caches[s.rc].slabPages == 1
    && s.caches[s.kc].onSlab
    && (forall c {:trigger CacheOK(s, c)} :: c in s.caches ==> CacheOK(s, c))
  }

  ghost predicate SlabOfRange(s: State, u: Range) {
    u.slab in s.slabs && s.slabs[u.slab].cache in s.caches && RangeOf(s, u.slab) == u
  }

  ghost predicate SlabsOK(s: State) {
    && Linked(s)
    && (forall sa {:trigger SlabOK(s, sa)} :: sa in s.slabs ==> SlabOK(s, sa))
    && (forall u {:trigger SlabOfRange(s, u)} :: u in s.used && u.slab != 0 ==> SlabOfRange(s, u))
  }

  ghost predicate Inv(s: State) {
    Linked(s) && Layout(s) && CachesOK(s) && SlabsOK(s) && LiveOK(s) && RefsOK(s) && PagingOK(s)
    && MappedOK(s)
  }

  /** Between two calls: nothing in hand, and no two free ranges are adjacent. */
  ghost predicate Quiet(s: State) {
    Inv(s) && s.hand == {} && Gapped(s.free)
  }

  // ---- What the rest of the kernel owns ----

  ghost function Refs(w: set<Range>): set<nat> {
    set x | x in w :: x.ref
  }

  ghost function OffSlabStructs(s: State): set<nat> {
    set sa | sa in s.slabs && s.slabs[sa].cache in s.caches && !s.caches[s.slabs[sa].cache].onSlab
  }

  /** Objects held by callers: allocated, and neither a range structure in use nor a slab structure in use. */
  ghost function Held(s: State): set<nat> {
    s.live.Keys - Refs(Tiles(s)) - OffSlabStructs(s)
  }

  /** Page ranges held by callers: used, and bound to no slab. */
  ghost function HeldRanges(s: State): set<Range> {
    set u | u in s.used && u.slab == 0
  }

  ghost predicate InCache(s: State, v: nat, c: nat) {
    v in s.live && s.live[v] in s.slabs && s.slabs[s.live[v]].cache == c
  }

  function Reserve(s: State): nat
    requires s.rc in s.caches
  {
    s.caches[s.rc].nbFreeObj
  }
}
