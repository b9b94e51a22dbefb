/** How many pages and physical pages an allocation may need: the growths of a cache, the off-slab header of a
    new slab, and the slab of range structures that splitting a range may call for (mem/kvmm_slab.c). */
module AllocationCosts {
  import opened KernelState
  import opened RangeMoves
  import opened SlabLemmas
  import opened PageContents

  ghost predicate Fits(l: seq<Range>, n: nat) {
    exists f :: f in l && f.pages >= n
  }

  ghost predicate HasCaches(s: State, c: nat) {
    c in s.caches && s.rc in s.caches && s.kc in s.caches
  }

  /** The page that splitting a range costs when the reserve of range structures has to be restored. */
  function Extra(s: State): nat
    requires s.rc in s.caches
  {
    if Reserve(s) == 2 then 1 else 0
  }

  /** How many slabs one allocation adds to a cache: one when it has no free object, and one when the object
      taken brings it below its minimum. */
  function Grows(k: Cache): nat {
    var left := if k.nbFreeObj == 0 then k.nbObj else k.nbFreeObj;
    (if k.nbFreeObj == 0 then 1 else 0) + (if k.minFree > 0 && left == k.minFree then 1 else 0)
  }

  function MappedPages(k: Cache): nat {
    if k.mapNow then k.slabPages else 0
  }

  function Needed(growths: nat, one: nat, most: nat): nat {
    if growths == 0 then 0 else if growths == 1 then one else 2 * most
  }

  /** At most what one growth uses up, whatever is in reserve. */
  ghost function MaxPages(s: State, c: nat): nat
    requires HasCaches(s, c)
  {
    s.caches[c].slabPages + 1 + (if s.caches[c].onSlab then 0 else 2 * (s.caches[s.kc].slabPages + 1))
  }

  ghost function MaxFrames(s: State, c: nat): nat
    requires HasCaches(s, c)
  {
    MappedPages(s.caches[c]) + 1 + (if s.caches[c].onSlab then 0 else 2 * (MappedPages(s.caches[s.kc]) + 1))
  }

  ghost predicate TakesHeader(s: State, c: nat)
    requires HasCaches(s, c)
  {
    !s.caches[c].onSlab && Grows(s.caches[s.kc]) > 0
  }

  /** A free range of that many pages is enough for one growth. */
  ghost function GrowPages(s: State, c: nat): nat
    requires HasCaches(s, c)
  {
    var p := s.caches[s.kc].slabPages;
    s.caches[c].slabPages + (if TakesHeader(s, c) then Extra(s) + Needed(Grows(s.caches[s.kc]), p, p + 1) else 0)
  }

  ghost function GrowFrames(s: State, c: nat): nat
    requires HasCaches(s, c)
  {
    var f := MappedPages(s.caches[s.kc]);
    MappedPages(s.caches[c]) + Extra(s) + (if TakesHeader(s, c) then Needed(Grows(s.caches[s.kc]), f + 1, f + 1) else 0)
  }

  ghost function AllocPages(s: State, c: nat): nat
    requires HasCaches(s, c)
  {
    Needed(Grows(s.caches[c]), GrowPages(s, c), MaxPages(s, c))
  }

  ghost function AllocFrames(s: State, c: nat): nat
    requires HasCaches(s, c)
  {
    Needed(Grows(s.caches[c]), GrowFrames(s, c), MaxFrames(s, c))
  }

  /** One more slab for the cache may be out of reach. */
  ghost predicate CannotGrow(s: State, c: nat) {
    HasCaches(s, c) && !(Fits(s.free, GrowPages(s, c)) && |s.frames| >= GrowFrames(s, c))
  }

  /** One object may be out of reach: the cache has to grow, and there is too little to grow it. */
  ghost predicate Starved(s: State, c: nat) {
    && HasCaches(s, c) && Grows(s.caches[c]) > 0
    && !(Fits(s.free, AllocPages(s, c)) && |s.frames| >= AllocFrames(s, c))
  }

  /** Only the caches in `w` changed. */
  ghost predicate SameCaches(s: State, t: State, w: set<nat>) {
    forall d :: d in s.caches && d !in w ==> d in t.caches && t.caches[d] == s.caches[d]
  }

  /** No more than that was taken from the free ranges and from the physical pages, and nothing was unmapped. */
  ghost predicate Used(s: State, t: State, pages: nat, frames: nat) {
    Persist(s.free, t.free, pages) && |t.frames| + frames >= |s.frames| && Extends(s, t)
  }

  // ---- Lemmas ----

  lemma PersistRefl(l: seq<Range>, k: nat)
    ensures Persist(l, l, k)
  {
    forall f | f in l ensures Remains(f, l, k) {}
  }

  lemma PersistMore(a: seq<Range>, b: seq<Range>, k: nat, k': nat)
    requires Persist(a, b, k) && k <= k'
    ensures Persist(a, b, k')
  {
    forall f | f in a && f.pages > k' ensures Remains(f, b, k') {
      assert Remains(f, b, k);
    }
  }

  lemma PersistTrans(a: seq<Range>, m: seq<Range>, b: seq<Range>, k: nat, k': nat)
    requires Persist(a, m, k) && Persist(m, b, k')
    ensures Persist(a, b, k + k')
  {
    forall f | f in a && f.pages > k + k' ensures Remains(f, b, k + k') {
      assert Remains(f, m, k);
      var g :| g in m && g.ref == f.ref && g.pages + k >= f.pages && g.End() == f.End() && g.base >= f.base;
      assert Remains(g, b, k');
    }
  }

  lemma FitsAfter(a: seq<Range>, b: seq<Range>, k: nat, n: nat)
    requires Persist(a, b, k) && Fits(a, n + k) && n > 0
    ensures Fits(b, n)
  {
    var f :| f in a && f.pages >= n + k;
    assert Remains(f, b, k);
  }

  lemma FitsLess(a: seq<Range>, n: nat, n': nat)
    requires Fits(a, n) && n' <= n
    ensures Fits(a, n')
  {
    var f :| f in a && f.pages >= n;
    assert f.pages >= n';
  }

  lemma UsedTrans(s: State, m: State, t: State, p: nat, f: nat, p': nat, f': nat)
    requires Used(s, m, p, f) && Used(m, t, p', f')
    ensures Used(s, t, p + p', f + f')
  {
    PersistTrans(s.free, m.free, t.free, p, p');
  }

  lemma UsedMore(s: State, t: State, p: nat, f: nat, p': nat, f': nat)
    requires Used(s, t, p, f) && p <= p' && f <= f'
    ensures Used(s, t, p', f')
  {
    PersistMore(s.free, t.free, p, p');
  }

  lemma UsedRefl(s: State, t: State)
    requires t.free == s.free && t.frames == s.frames && t.pt == s.pt
    ensures Used(s, t, 0, 0)
  {
    PersistRefl(s.free, 0);
  }

  lemma SameMost(s: State, t: State, c: nat)
    requires SameShapes(s, t) && HasCaches(s, c)
    ensures HasCaches(t, c) && MaxPages(t, c) == MaxPages(s, c) && MaxFrames(t, c) == MaxFrames(s, c)
  {
    assert Shape(s.caches[c]) == Shape(t.caches[c]) && Shape(s.caches[s.kc]) == Shape(t.caches[s.kc]);
  }

  /** One growth before the object is taken, one after it. */
  lemma GrowsSplit(k: Cache, k': Cache)
    requires Shape(k) == Shape(k') && k'.nbFreeObj + 1 == if k.nbFreeObj == 0 then k.nbObj else k.nbFreeObj
    ensures Grows(k) == (if k.nbFreeObj == 0 then 1 else 0) + (if Below(k') then 1 else 0)
  {}

  /** The cache has one free object less than its minimum. */
  predicate Below(k: Cache) {
    k.minFree > 0 && k.nbFreeObj == k.minFree - 1
  }

  lemma GrowsAtMostTwice(k: Cache)
    ensures Grows(k) <= 2
  {}

  /** A cache that keeps no reserve fails to give an object exactly when it has none and cannot grow. */
  lemma StarvedWithoutMinimum(s: State, c: nat)
    requires HasCaches(s, c) && s.caches[c].minFree == 0
    ensures Starved(s, c) <==> s.caches[c].nbFreeObj == 0 && CannotGrow(s, c)
  {
    hide GrowPages, GrowFrames, MaxPages, MaxFrames, Fits;
  }

  lemma GrowAtMost(s: State, c: nat)
    requires HasCaches(s, c)
    ensures GrowPages(s, c) <= MaxPages(s, c) && GrowFrames(s, c) <= MaxFrames(s, c) && MaxPages(s, c) > 0
  {
    GrowsAtMostTwice(s.caches[s.kc]);
  }
}
