/** init_cache: how many objects fit in a slab, and where the header goes (mem/kvmm_slab.c). */
module SlabGeometry {
  import opened Products
  import opened KernelState
  import opened Words

  const SIZEOF_FREE_OBJ: nat := 8
  const MAX_PAGES_PER_SLAB: nat := 32

  /** ALIGN_SUP(size, 4) on 32 bits, after the minimum for a free-list node. */
  function AlignedSize(objSize: Word): Word {
    var size := if objSize < SIZEOF_FREE_OBJ then SIZEOF_FREE_OBJ else objSize;
    ((size - 1) / 4 * 4 + 4) % WORD
  }

  /** The aligned size is the next multiple of 4, except that the last three sizes wrap to 0. */
  lemma AlignedSizeWraps(objSize: Word)
    ensures AlignedSize(objSize) == 0 <==> objSize > WORD - 4
    ensures AlignedSize(objSize) != 0 ==> objSize <= AlignedSize(objSize) && SIZEOF_FREE_OBJ <= AlignedSize(objSize)
                                          && (AlignedSize(objSize) < objSize + 4 || objSize < SIZEOF_FREE_OBJ)
    ensures AlignedSize(objSize) % 4 == 0 && (objSize <= 8 ==> AlignedSize(objSize) == 8)
  {
    var size := if objSize < SIZEOF_FREE_OBJ then SIZEOF_FREE_OBJ else objSize;
    var k := (size - 1) / 4;
    assert size - 1 == 4 * k + (size - 1) % 4 && WORD == 4 * 0x4000_0000;
    assert k <= 0x3FFF_FFFF;
    assert k < 0x3FFF_FFFF ==> (k * 4 + 4) % WORD == 4 * (k + 1);
  }

  /** `n` objects fit beside a header that was asked for or that small objects imply. */
  predicate Fits(n: nat, objSize: Word, pages: nat, onSlabAsked: bool) {
    var size := AlignedSize(objSize);
    n * size + (if onSlabAsked || size <= SIZEOF_KSLAB then SIZEOF_KSLAB else 0) <= pages * PAGE_SIZE
  }

  /** The cache that is wanted: as many objects as fit in a slab, and the header on the slab exactly when there is
      room for it beside them. */
  predicate Fitted(c: Cache, objSize: Word, pages: nat, minFree: nat, onSlabAsked: bool, mapNow: bool) {
    && c.objSize == AlignedSize(objSize) && c.slabPages == pages && c.minFree == minFree && c.mapNow == mapNow
    && (c.nbObj > 0 ==> Fits(c.nbObj, objSize, pages, onSlabAsked)) && !Fits(c.nbObj + 1, objSize, pages, onSlabAsked)
    && (c.onSlab <==> c.nbObj * c.objSize + SIZEOF_KSLAB <= pages * PAGE_SIZE)
    && c.nbFreeObj == 0 && c.slabList == []
  }

  /** The parameters leave no choice. */
  lemma FittedIsUnique(c: Cache, d: Cache, objSize: Word, pages: nat, minFree: nat, onSlabAsked: bool, mapNow: bool)
    requires Fitted(c, objSize, pages, minFree, onSlabAsked, mapNow)
    requires Fitted(d, objSize, pages, minFree, onSlabAsked, mapNow)
    ensures c == d
  {
    if c.nbObj < d.nbObj {
      Times(c.nbObj + 1, d.nbObj, c.objSize);
    } else if d.nbObj < c.nbObj {
      Times(d.nbObj + 1, c.nbObj, c.objSize);
    }
  }

  /** A cache that can hold an object has the shape that the slab allocator relies on. The one cache that is accepted
      and can hold nothing has a header that was asked for and no room beside it. */
  lemma FittedIsShaped(c: Cache, objSize: Word, pages: nat, minFree: nat, onSlabAsked: bool, mapNow: bool)
    requires Fitted(c, objSize, pages, minFree, onSlabAsked, mapNow) && 0 < AlignedSize(objSize) <= pages * PAGE_SIZE
    ensures c.nbObj > 0 <==> Shaped(c)
    ensures c.nbObj == 0 <==> onSlabAsked && c.objSize + SIZEOF_KSLAB > pages * PAGE_SIZE
    ensures c.nbObj > 0 && (onSlabAsked || c.objSize <= SIZEOF_KSLAB) ==> c.onSlab
  {
    if c.nbObj > 0 {
      Times(1, c.nbObj, c.objSize);
    }
  }

  /** The quotient is the largest number of objects that fit in the space. */
  lemma MostThatFit(space: nat, size: nat, n: nat)
    requires size > 0
    ensures var q := space / size; q * size <= space < (q + 1) * size && (n <= q <==> n * size <= space)
    ensures (space / size == 0 <==> space < size)
  {
    var q := space / size;
    Divided(space, size);
    SwapFactors(size, q);
    Plus(q, size);
    if n <= q {
      Times(n, q, size);
    } else {
      Times(q + 1, n, size);
    }
    if q > 0 {
      Times(1, q, size);
    }
  }

  /** A slab holds as many objects as fit, and the header shares the slab whenever there is room for both. A size
      that wraps to 0 passes the tests and is then divided by: `fault` tells that. */
  method InitCache(objSize: Word, pages: Word, minFree: Word, onSlabAsked: bool, mapNow: bool)
    returns (fault: bool, err: int, c: Cache)
    ensures fault <==> objSize > WORD - 4 && pages <= MAX_PAGES_PER_SLAB
    ensures !fault ==> (err == 0 <==> objSize > 0 && 0 < AlignedSize(objSize) <= pages * PAGE_SIZE
                                      && pages <= MAX_PAGES_PER_SLAB
                                      && (minFree > 0 ==> Fits(minFree, objSize, pages, onSlabAsked)))
    ensures !fault && err != 0 ==>
              err == if objSize > 0 && AlignedSize(objSize) <= pages * PAGE_SIZE % WORD && pages > MAX_PAGES_PER_SLAB
                     then -3 else -1
    ensures !fault && err == 0 ==> Fitted(c, objSize, pages, minFree, onSlabAsked, mapNow) && c.nbObj >= minFree
  {
    fault, c := false, Cache(0, 0, 0, 0, false, false, 0, []);
    AlignedSizeWraps(objSize);
    if objSize == 0 {
      return false, -1, c;
    }
    var size := AlignedSize(objSize);
    if size > pages * PAGE_SIZE % WORD {
      return false, -1, c;
    }
    if pages > MAX_PAGES_PER_SLAB {
      return false, -3, c;
    }
    var onSlab := onSlabAsked;
    if size <= SIZEOF_KSLAB {
      onSlab := true;
    }
    if size == 0 {
      return true, 0, c;
    }
    var space := pages * PAGE_SIZE;
    if onSlab {
      space := space - SIZEOF_KSLAB;
    }
    MostThatFit(space, size, minFree);
    var nb := space / size;
    var left := space - nb * size;
    if nb < minFree {
      return false, -1, c;
    }
    if left >= SIZEOF_KSLAB {
      onSlab := true;
    }
    c := Cache(size, nb, pages, minFree, onSlab, mapNow, 0, []);
    err := 0;
  }
}
