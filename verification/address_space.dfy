/** uvmm_unmap and uvmm_map on one address space, with its usage statistics (mem/uvmm.c). */
module AddressSpaces {
  import opened Words
  import opened Wrappers
  import opened Arenas
  import opened UsageStatistics
  import opened ArenaEdits

  class AddressSpace {
    var arenas: seq<Arena>
    var total: Usage
    var shrd: Usage

    ghost predicate StatsOK()
      reads this
    {
      Stats(arenas, total, shrd)
    }

    lemma StatsMeaning()
      ensures StatsOK() <==> Stats(arenas, total, shrd)
    {}

    /** First arena that ends after the address, -1 for none. */
    method FindEnclosingOrNext(uaddr: nat) returns (i: int)
      requires Valid(arenas) && uaddr <= TOP_USER
      ensures -1 <= i < |arenas|
      ensures i >= 0 ==> uaddr < arenas[i].End() && forall j :: 0 <= j < i ==> arenas[j].End() <= uaddr
      ensures i < 0 ==> forall j :: 0 <= j < |arenas| ==> arenas[j].End() <= uaddr
    {
      if uaddr > TOP_USER {
        return -1;
      }
      for k := 0 to |arenas|
        invariant forall j :: 0 <= j < k ==> arenas[j].End() <= uaddr
      {
        if uaddr <= arenas[k].start + (arenas[k].size - 1) {
          return k;
        }
      }
      i := -1;
    }

    /** One UPDATE_VMSTAT: a counter of the whole address space and, for a shared arena, of the shared part. */
    method Update(isShared: bool, k: Counter, size: nat, up: bool)
      requires size < WORD
      modifies this`total, this`shrd
      ensures total == Moved(old(total), k, if up then size as int else -(size as int))
      ensures shrd == if isShared then Moved(old(shrd), k, if up then size as int else -(size as int)) else old(shrd)
    {
      var d: int := size;
      if !up {
        d := -d;
      }
      if isShared {
        shrd := Moved(shrd, k, d);
      }
      total := Moved(total, k, d);
    }

    /** The part of as_account_change_of_arena_prot on reading and writing. */
    method AccountAccess(isShared: bool, size: nat, was: Rights, now: Rights)
      requires size < WORD && was != now
      modifies this`total, this`shrd
      ensures total == Moved(Moved(old(total), ReadOnly, Delta(size, Step(ReadOnly, was, now))),
                             Writable, Delta(size, Step(Writable, was, now)))
      ensures shrd == if isShared
                      then Moved(Moved(old(shrd), ReadOnly, Delta(size, Step(ReadOnly, was, now))),
                                 Writable, Delta(size, Step(Writable, was, now)))
                      else old(shrd)
    {
      hide Moved, Plus, Get;
      ghost var r, w := Delta(size, Step(ReadOnly, was, now)), Delta(size, Step(Writable, was, now));
      MovesCommute(total, r, w);
      MovesCommute(shrd, r, w);
      if now.write && !was.write {
        Update(isShared, Writable, size, true);
        if was.read {
          Update(isShared, ReadOnly, size, false);
        }
      } else if !now.write && was.write {
        if now.read {
          Update(isShared, ReadOnly, size, true);
        }
        Update(isShared, Writable, size, false);
      } else if now.read {
        Update(isShared, ReadOnly, size, true);
      } else if !now.read {
        Update(isShared, ReadOnly, size, false);
      }
    }

    /** The part on execution, and on having any right at all. */
    method AccountRest(isShared: bool, size: nat, was: Rights, now: Rights)
      requires size < WORD && was != now
      modifies this`total, this`shrd
      ensures total == Moved(Moved(old(total), Code, Delta(size, Step(Code, was, now))),
                             Overall, Delta(size, Step(Overall, was, now)))
      ensures shrd == if isShared
                      then Moved(Moved(old(shrd), Code, Delta(size, Step(Code, was, now))),
                                 Overall, Delta(size, Step(Overall, was, now)))
                      else old(shrd)
    {
      if now.exec && !was.exec {
        Update(isShared, Code, size, true);
      } else if !now.exec && was.exec {
        Update(isShared, Code, size, false);
      }
      if now != NO_RIGHTS && was == NO_RIGHTS {
        Update(isShared, Overall, size, true);
      } else if now == NO_RIGHTS && was != NO_RIGHTS {
        Update(isShared, Overall, size, false);
      }
    }

    /** as_account_change_of_arena_prot. */
    method AccountChange(isShared: bool, size: nat, was: Rights, now: Rights)
      requires size < WORD
      modifies this`total, this`shrd
      ensures forall k :: Get(total, k) == Plus(Get(old(total), k), Delta(size, Step(k, was, now)))
      ensures forall k :: Get(shrd, k) == Plus(Get(old(shrd), k), if isShared then Delta(size, Step(k, was, now)) else 0)
    {
      if was == now {
        return;
      }
      AccountAccess(isShared, size, was, now);
      AccountRest(isShared, size, was, now);
      AllMoved(old(total), total, size, was, now);
      if isShared {
        AllMoved(old(shrd), shrd, size, was, now);
      }
    }

    /** The body of the loop of uvmm_unmap, in its four cases. `more`: later arenas may meet the region too. */
    method CutArena(cur: nat, uaddr: nat, e: nat) returns (more: bool, next: int)
      requires Valid(arenas) && cur < |arenas| && Interval(uaddr, e) && Meets(arenas[cur], uaddr, e)
      modifies this
      ensures arenas == Splice(old(arenas), cur, cur + 1, Cut(old(arenas[cur]), uaddr, e))
      ensures old(StatsOK() && AllCountable(arenas)) ==> StatsOK() && AllCountable(arenas)
      ensures more <==> old(arenas[cur].End()) <= e
      ensures more ==> |arenas| == |old(arenas)| - (if old(arenas[cur].start) < uaddr then 0 else 1)
      ensures more ==> next == var k := if old(arenas[cur].start) < uaddr then cur + 1 else cur;
                               if k < |arenas| then k else if |arenas| == 0 then -1 else 0
    {
      hide Stats, AllCountable, Valid, Step, Delta, Plus, Get;
      ghost var l, tot, shr := arenas, total, shrd;
      ghost var counted := StatsOK() && AllCountable(arenas);
      var x := arenas[cur];
      more, next := false, cur;
      CutFits(l, cur);
      if x.start >= uaddr && x.End() <= e {
        // Totally unmapped.
        arenas := arenas[..cur] + arenas[cur + 1..];
        assert arenas == Splice(l, cur, cur + 1, []);
        AccountChange(x.flags.shared, x.size, x.rights, NO_RIGHTS);
        CutCounted(l, arenas, cur, uaddr, e, tot, shr, total, shrd, x.size, counted);
        more, next := true, if |arenas| == 0 then -1 else if cur < |arenas| then cur else 0;
      } else if x.start < uaddr && x.End() > e {
        // The region lies inside the arena, which is split in two.
        var right := x.(start := e, size := x.End() - e, offset := (x.offset + (e - x.start)) % WORD64);
        arenas := arenas[..cur] + [x.(size := uaddr - x.start), right] + arenas[cur + 1..];
        assert arenas == Splice(l, cur, cur + 1, [LeftOf(x, uaddr)] + [right]);
        AccountChange(x.flags.shared, e - uaddr, x.rights, NO_RIGHTS);
        CutCounted(l, arenas, cur, uaddr, e, tot, shr, total, shrd, e - uaddr, counted);
      } else if uaddr <= x.start {
        // Only the start of the arena is affected.
        var translation := e - x.start;
        arenas := arenas[cur := x.(size := x.size - translation, offset := (x.offset + translation) % WORD64,
                                   start := x.start + translation)];
        assert arenas == Splice(l, cur, cur + 1, [RightOf(x, e)]);
        AccountChange(x.flags.shared, translation, x.rights, NO_RIGHTS);
        CutCounted(l, arenas, cur, uaddr, e, tot, shr, total, shrd, translation, counted);
      } else {
        // Only the end of the arena is affected.
        var unmapped := x.End() - uaddr;
        arenas := arenas[cur := x.(size := uaddr - x.start)];
        assert arenas == Splice(l, cur, cur + 1, [LeftOf(x, uaddr)]);
        AccountChange(x.flags.shared, unmapped, x.rights, NO_RIGHTS);
        CutCounted(l, arenas, cur, uaddr, e, tot, shr, total, shrd, unmapped, counted);
        more, next := true, if cur + 1 < |arenas| then cur + 1 else 0;
      }
    }

    /** The loop of uvmm_unmap. The list is circular: after the last arena comes the first one again. */
    method UnmapInterval(uaddr: nat, e: nat)
      requires Valid(arenas) && Interval(uaddr, e)
      modifies this
      ensures Unmapped(old(arenas), arenas, uaddr, e)
      ensures AllCountable(old(arenas)) && old(StatsOK()) ==> AllCountable(arenas) && StatsOK()
    {
      hide Cutting, Cleared, Clear, Stats, AllCountable, Valid, Fine, Meets, Unmapped, Splice, Cut;
      ghost var s := arenas;
      ghost var counted := AllCountable(arenas) && StatsOK();
      var cur := FindEnclosingOrNext(uaddr);
      ghost var k: nat := if cur < 0 then |arenas| else cur;
      CutStarts(s, uaddr, e, k, cur);
      while cur >= 0
        invariant Cutting(s, arenas, uaddr, e, k) && -1 <= cur
        invariant cur >= 0 ==> |arenas| > 0 && cur == (if k < |arenas| then k else 0)
        invariant cur < 0 ==> Cleared(s, arenas, uaddr, e)
        invariant counted ==> AllCountable(arenas) && StatsOK()
        decreases |arenas| - k
      {
        var x := arenas[cur];
        // Went past the end of the circular list?
        if x.End() <= uaddr {
          PastTheEnd(s, arenas, uaddr, e, k, cur);
          break;
        }
        // Went beyond the region to unmap?
        if e <= x.start {
          Beyond(s, arenas, uaddr, e, k, cur);
          break;
        }
        CutStep(s, arenas, uaddr, e, k, cur);
        var more, next := CutArena(cur, uaddr, e);
        k := if x.start < uaddr then k + 1 else k;
        if !more {
          break;
        }
        NothingLeft(s, arenas, uaddr, e, k);
        cur := next;
      }
      AllCut(s, arenas, uaddr, e);
    }

    /** uvmm_unmap. */
    method Unmap(uaddr: Word, size: Word, arenaLeft: bool) returns (ret: int)
      requires Valid(arenas)
      modifies this
      ensures ret == UnmapAnswer(uaddr, size, arenaLeft)
      ensures ret != 0 ==> arenas == old(arenas) && total == old(total) && shrd == old(shrd)
      ensures ret == 0 ==> Unmapped(old(arenas), arenas, uaddr, uaddr + AlignSup(size))
      ensures ret == 0 && AllCountable(old(arenas)) && old(StatsOK()) ==> AllCountable(arenas) && StatsOK()
    {
      if uaddr % PAGE_SIZE != 0 {
        return -1;
      }
      if size == 0 {
        return -1;
      }
      var sz := AlignSup(size);
      AlignSupIsEnough(size);
      if uaddr < USER_OFFSET {
        return -1;
      }
      if uaddr > TOP_USER - sz {
        return -1;
      }
      if !arenaLeft {
        return -3;
      }
      EndIsAligned(uaddr, sz);
      UnmapInterval(uaddr, uaddr + sz);
      ret := 0;
    }

    // The four ways of uvmm_map to put a request into the list before the arena at `ni`.

    method WidenToBoth(ni: nat, y: Arena)
      requires 0 < ni < |arenas| && Before(arenas, ni, y) && After(arenas, ni, y)
      modifies this`arenas
      ensures arenas == Glued(old(arenas), ni, y)
    {
      hide *;
      ghost var l := arenas;
      arenas := arenas[ni - 1 := arenas[ni - 1].(size := arenas[ni - 1].size + (y.size + arenas[ni].size))];
      arenas := arenas[..ni] + arenas[ni + 1..];
      GluedBoth(l, ni, y, arenas);
    }

    method WidenPrev(ni: nat, y: Arena)
      requires 0 < ni <= |arenas| && Before(arenas, ni, y) && !After(arenas, ni, y)
      modifies this`arenas
      ensures arenas == Glued(old(arenas), ni, y)
    {
      hide *;
      ghost var l := arenas;
      arenas := arenas[ni - 1 := arenas[ni - 1].(size := arenas[ni - 1].size + y.size)];
      GluedPrev(l, ni, y, arenas);
    }

    method WidenNext(ni: nat, y: Arena)
      requires ni < |arenas| && !Before(arenas, ni, y) && After(arenas, ni, y)
      modifies this`arenas
      ensures arenas == Glued(old(arenas), ni, y)
    {
      hide *;
      ghost var l := arenas;
      RoomBefore(l, ni, y);
      arenas := arenas[ni := arenas[ni].(start := arenas[ni].start - y.size, size := arenas[ni].size + y.size)];
      GluedNext(l, ni, y, arenas);
    }

    method Insert(prev: int, y: Arena)
      requires -1 <= prev < |arenas| && !Before(arenas, prev + 1, y) && !After(arenas, prev + 1, y)
      modifies this`arenas
      ensures arenas == Glued(old(arenas), prev + 1, y)
    {
      hide *;
      ghost var l := arenas;
      arenas := if prev >= 0 then arenas[..prev + 1] + [y] + arenas[prev + 1..] else [y] + arenas;
      GluedNew(l, prev + 1, y, arenas);
    }

    /** uvmm_map between `prev` and `next`, if they exist, once the interval is free. */
    method Glue(y: Arena, prev: int, next: int)
      requires -1 <= prev && next < |arenas| && (if next >= 0 then prev == next - 1 else prev == |arenas| - 1)
      modifies this`arenas
      ensures arenas == Glued(old(arenas), prev + 1, y)
    {
      hide *;
      NeighbourTests(arenas, prev, next, y);
      var mergePrev := prev >= 0 && TouchesBefore(arenas[prev], y);
      var mergeNext := next >= 0 && TouchesAfter(y, arenas[next]);
      if mergePrev && mergeNext {
        WidenToBoth(next, y);
      } else if mergePrev {
        WidenPrev(prev + 1, y);
      } else if mergeNext {
        WidenNext(next, y);
      } else {
        Insert(prev, y);
      }
    }

    /** uvmm_map once the interval is free: the request is glued to its neighbours or inserted, and counted. */
    method MapInterval(y: Arena)
      requires Valid(arenas) && Fine(y) && Clear(arenas, y.start, y.End())
      modifies this
      ensures Mapped(old(arenas), arenas, y)
      ensures Countable(y.rights) && AllCountable(old(arenas)) && old(StatsOK()) ==> AllCountable(arenas) && StatsOK()
    {
      hide *;
      ghost var l, tot, shr := arenas, total, shrd;
      StatsMeaning();
      FineStart(y);
      var next := FindEnclosingOrNext(y.start);
      // The list is circular: the arena before the first one is the last one.
      var prev := if next > 0 then next - 1 else |arenas| - 1;
      if next >= 0 && arenas[prev].start > y.start {
        prev := -1;
      }
      RequestFits(l, y, next, prev);
      Glue(y, prev, next);
      AccountChange(y.flags.shared, y.size, NO_RIGHTS, y.rights);
      GluedIsMapped(l, prev + 1, y);
      GluedCounted(l, prev + 1, y, tot, shr, total, shrd);
      StatsMeaning();
    }

    /** uvmm_map at an imposed address (the flag ARENA_MAP_FIXED). `arenaLeft` and `cutLeft`: the cache of arena
        structs serves this call and the call of uvmm_unmap inside it. */
    method MapFixed(hint: Word, size: Word, rights: Rights, shared: bool, resource: Option<Resource>, offset: nat,
                    arenaLeft: bool, cutLeft: bool) returns (ret: int, uaddr: Word)
      requires Valid(arenas) && offset < WORD64
      modifies this
      ensures ret == MapAnswer(hint, size, rights, shared, resource, offset, arenaLeft, cutLeft)
      ensures ret != 0 ==> uaddr == 0 && arenas == old(arenas) && total == old(total) && shrd == old(shrd)
      ensures ret == 0 ==>
                var y := Arena(hint, AlignSup(size), rights, Flags(shared, true), resource.value.id,
                               if resource.value.anonymous then hint else offset);
                uaddr == hint && Placed(old(arenas), arenas, y) && Fine(y)
      ensures ret == 0 ==>
                var first := if resource.value.anonymous then hint else offset;
                GluedToNextAlone(old(arenas), hint, AlignSup(size), rights, Flags(shared, true), resource.value.id, first)
                || forall a: nat :: hint <= a < hint + AlignSup(size) ==>
                     At(arenas, a) == Some(Cell(resource.value.id, (first + (a - hint)) % 0x1_0000_0000_0000_0000, rights,
                                                Flags(shared, true)))
      ensures ret == 0 && Countable(rights) && AllCountable(old(arenas)) && old(StatsOK()) ==>
                AllCountable(arenas) && StatsOK()
    {
      hide Unmapped, Clear, Stats, AllCountable, Countable, Mapped, Fine, Valid;
      uaddr := 0;
      if resource.None? {
        return -1, 0;
      }
      var res := resource.value;
      if !res.hasMmap {
        return -6, 0;
      }
      if hint % PAGE_SIZE != 0 {
        return -1, 0;
      }
      if size == 0 {
        return -1, 0;
      }
      var sz := AlignSup(size);
      AlignSupIsEnough(size);
      if shared && ((rights.read && !res.allowed.read) || (rights.write && !res.allowed.write)
                    || (rights.exec && !res.allowed.exec)) {
        return -6, 0;
      }
      if !res.anonymous && (offset + sz) % WORD64 <= offset {
        return -1, 0;
      }
      if !arenaLeft {
        return -3, 0;
      }
      if hint < USER_OFFSET {
        return -1, 0;
      }
      if hint > TOP_USER - sz {
        return -1, 0;
      }
      ret := Unmap(hint, sz, cutLeft);
      if ret != 0 {
        return ret, 0;
      }
      AlignTwice(size);
      var offsetInResource := if res.anonymous then hint else offset;
      var y := Arena(hint, sz, rights, Flags(shared, true), res.id, offsetInResource);
      RequestIsFine(y);
      ghost var m := arenas;
      IntervalIsClear(old(arenas), m, hint, hint + sz);
      MapInterval(y);
      assert Unmapped(old(arenas), m, hint, y.End()) && Mapped(m, arenas, y);
      RequestIsShown(old(arenas), arenas, y);
      uaddr := hint;
    }

    /** Any run of uvmm_unmap and of uvmm_map at imposed addresses: the arenas stay sorted and disjoint, and as long
        as no mapping is for execution only, all the counters are the sums they stand for. */
    method Run(calls: seq<Call>)
      requires Valid(arenas) && AllCountable(arenas) && StatsOK()
      requires forall i :: 0 <= i < |calls| ==> calls[i].Proper()
      modifies this
      ensures Valid(arenas) && AllCountable(arenas)
      ensures total.overall == Sum(arenas, Overall, false) && shrd.overall == Sum(arenas, Overall, true)
      ensures total.ro == Sum(arenas, ReadOnly, false) && shrd.ro == Sum(arenas, ReadOnly, true)
      ensures total.rw == Sum(arenas, Writable, false) && shrd.rw == Sum(arenas, Writable, true)
      ensures total.code == Sum(arenas, Code, false) && shrd.code == Sum(arenas, Code, true)
    {
      hide Valid, Countable, AllCountable, MapAnswer;
      for i := 0 to |calls|
        invariant Valid(arenas) && AllCountable(arenas) && StatsOK()
      {
        hide Stats;
        assert calls[i].Proper();
        match calls[i] {
          case DoUnmap(u, size, left) =>
            var _ := Unmap(u, size, left);
          case DoMap(hint, size, rights, shared, resource, offset, left, cutLeft) =>
            var _, _ := MapFixed(hint, size, rights, shared, resource, offset, left, cutLeft);
        }
      }
      forall k ensures Get(total, k) == Sum(arenas, k, false) && Get(shrd, k) == Sum(arenas, k, true) {
        SumFits(arenas, k, false);
        SumFits(arenas, k, true);
      }
    }
  }

  /** A resource that can be mapped, as far as uvmm_map looks at it. */
  datatype Resource = Resource(id: nat, hasMmap: bool, allowed: Rights, anonymous: bool)

  datatype Call =
    | DoUnmap(uaddr: Word, size: Word, left: bool)
    | DoMap(hint: Word, size: Word, rights: Rights, shared: bool, resource: Option<Resource>, offset: nat,
            left: bool, cutLeft: bool)
  {
    predicate Proper() {
      DoMap? ==> offset < WORD64 && Countable(rights)
    }
  }

  /** The answers of uvmm_map at an imposed address, by what is wrong with the request. */
  function MapAnswer(hint: Word, size: Word, rights: Rights, shared: bool, resource: Option<Resource>, offset: nat,
                     arenaLeft: bool, cutLeft: bool): int
  {
    if resource.None? then -1
    else if !resource.value.hasMmap then -6
    else if hint % PAGE_SIZE != 0 || size == 0 then -1
    else if shared && !Within(rights, resource.value.allowed) then -6
    else if !resource.value.anonymous && (AlignSup(size) == 0 || offset + AlignSup(size) >= WORD64) then -1
    else if !arenaLeft then -3
    else if hint < USER_OFFSET || hint > TOP_USER - AlignSup(size) || AlignSup(size) == 0 then -1
    else if !cutLeft then -3
    else 0
  }

  predicate Within(r: Rights, allowed: Rights) {
    (r.read ==> allowed.read) && (r.write ==> allowed.write) && (r.exec ==> allowed.exec)
  }

  /** The mapping after the request continues it, and the one before does not continue into it. */
  ghost predicate GluedToNextAlone(l: seq<Arena>, start: nat, size: nat, rights: Rights, flags: Flags, resource: nat,
                                   offset: nat)
  {
    && At(l, start + size) == Some(Cell(resource, (offset + size) % WORD64, rights, flags))
    && !(start > 0 && At(l, start - 1) == Some(Cell(resource, (offset + WORD64 - 1) % WORD64, rights, flags)))
  }

  /** The pages of the request show the resource from the offset on that was asked for. */
  lemma RequestIsShown(s: seq<Arena>, t: seq<Arena>, y: Arena)
    requires Valid(s) && Fine(y) && Placed(s, t, y)
    ensures GluedToNextAlone(s, y.start, y.size, y.rights, y.flags, y.resource, y.offset)
            || forall a: nat :: y.start <= a < y.start + y.size ==>
                 At(t, a) == Some(Cell(y.resource, (y.offset + (a - y.start)) % WORD64, y.rights, y.flags))
  {
    hide Valid, Fine, Placed;
    PlacedOverrides(s, t, y);
    if ContinuesBefore(s, y) || !ContinuesAfter(s, y) {
      forall a: nat | y.start <= a < y.start + y.size
        ensures At(t, a) == Some(Cell(y.resource, (y.offset + (a - y.start)) % WORD64, y.rights, y.flags))
      {
        assert y.Covers(a);
      }
    }
  }

  /** Which maps are accepted: a positive size that does not wrap when it is rounded up, a page-aligned place below the
      top, an offset that does not wrap, and a resource that can be mapped with these rights. */
  lemma AcceptedMaps(hint: Word, size: Word, rights: Rights, shared: bool, resource: Option<Resource>, offset: nat,
                     arenaLeft: bool, cutLeft: bool)
    ensures MapAnswer(hint, size, rights, shared, resource, offset, arenaLeft, cutLeft) == 0 <==>
              && arenaLeft && cutLeft && resource.Some? && resource.value.hasMmap
              && hint % 4096 == 0 && 0x4000_0000 <= hint && 0 < size <= 0xFFFF_F000
              && hint + (size + 4095) / 4096 * 4096 <= 0xFFFF_FFFF
              && (resource.value.anonymous || offset + (size + 4095) / 4096 * 4096 < 0x1_0000_0000_0000_0000)
              && (shared && rights.read ==> resource.value.allowed.read)
              && (shared && rights.write ==> resource.value.allowed.write)
              && (shared && rights.exec ==> resource.value.allowed.exec)
  {
    if size > 0 { RoundedUp(size); }
    hide AlignSup;
  }

  lemma RoundedUp(size: Word)
    requires size > 0
    ensures AlignSup(size) == if size <= 0xFFFF_F000 then (size + 4095) / 4096 * 4096 else 0
  {
    assert (size + 4095) / 4096 == (size - 1) / 4096 + 1;
    AlignSupIsEnough(size);
  }

  /** Which unmaps are accepted: every page-aligned user interval of positive size, rounded up to whole pages. A size in
      the last page of 32 bits is rounded up to 0, so it is accepted too, and nothing is unmapped. */
  lemma AcceptedUnmaps(uaddr: Word, size: Word, arenaLeft: bool)
    ensures UnmapAnswer(uaddr, size, arenaLeft) == 0 <==>
              && arenaLeft && uaddr % 4096 == 0 && 0x4000_0000 <= uaddr && size > 0
              && (size > 0xFFFF_F000 || uaddr + (size + 4095) / 4096 * 4096 <= 0xFFFF_FFFF)
  {
    if size > 0 { RoundedUp(size); }
    hide AlignSup;
  }

  /** The interval is unmapped first, then the request is mapped there. */
  ghost predicate Placed(s: seq<Arena>, t: seq<Arena>, y: Arena) {
    exists m :: Unmapped(s, m, y.start, y.End()) && Mapped(m, t, y)
  }

  /** The list maps the interval of the request as it asks, and the rest as before. */
  ghost predicate Overridden(s: seq<Arena>, t: seq<Arena>, y: Arena) {
    forall a: nat :: At(t, a) == if y.Covers(a) then Some(CellOf(y, a)) else At(s, a)
  }

  /** A request overrides its interval and nothing else exactly when it is not glued to the next arena alone. */
  lemma PlacedOverrides(s: seq<Arena>, t: seq<Arena>, y: Arena)
    requires Valid(s) && Fine(y) && Placed(s, t, y)
    ensures Overridden(s, t, y) <==> ContinuesBefore(s, y) || !ContinuesAfter(s, y)
  {
    hide Valid, Fine;
    var m :| Unmapped(s, m, y.start, y.End()) && Mapped(m, t, y);
    assert At(m, y.End()) == At(s, y.End());
    if y.start > 0 { assert At(m, y.start - 1) == At(s, y.start - 1); }
    if ContinuesBefore(s, y) || !ContinuesAfter(s, y) {
      forall a: nat ensures At(t, a) == if y.Covers(a) then Some(CellOf(y, a)) else At(s, a) {}
    } else {
      FirstByteIsOff(m, t, y);
    }
  }

  /** Glued to the next arena alone, the first byte of the request has the wrong offset. */
  lemma FirstByteIsOff(m: seq<Arena>, t: seq<Arena>, y: Arena)
    requires Fine(y) && Mapped(m, t, y) && !ContinuesBefore(m, y) && ContinuesAfter(m, y)
    ensures y.Covers(y.start) && At(t, y.start) != Some(CellOf(y, y.start))
  {
  }

  lemma AlignTwice(size: nat)
    requires 0 < size < WORD
    ensures AlignSup(AlignSup(size)) == AlignSup(size)
  {
    AlignSupIsEnough(size);
    var n := AlignSup(size);
    if n > 0 {
      AlignSupIsEnough(n);
    }
  }

  lemma RequestIsFine(y: Arena)
    requires y.start % PAGE_SIZE == 0 && y.size % PAGE_SIZE == 0 && y.size > 0
    requires USER_OFFSET <= y.start && y.End() <= TOP_USER && y.offset < WORD64
    ensures Fine(y)
  {}

  lemma IntervalIsClear(s: seq<Arena>, t: seq<Arena>, u: nat, e: nat)
    requires Unmapped(s, t, u, e) && u < e
    ensures Valid(t) && Clear(t, u, e)
  {
    forall i | 0 <= i < |t| ensures t[i].End() <= u || e <= t[i].start {
      var a := if t[i].start < u then u else t[i].start;
      if t[i].End() > u && t[i].start < e {
        assert Fine(t[i]);
        AtSome(t, i, a);
      }
    }
  }

  /** Every counter is the sum of the sizes of the arenas it counts. */
  ghost predicate Stats(l: seq<Arena>, total: Usage, shrd: Usage) {
    forall k :: Get(total, k) == Sum(l, k, false) % WORD && Get(shrd, k) == Sum(l, k, true) % WORD
  }

  /** The answers of uvmm_unmap, in the order of its tests. */
  function UnmapAnswer(uaddr: Word, size: Word, arenaLeft: bool): int {
    if uaddr % PAGE_SIZE != 0 || size == 0 || uaddr < USER_OFFSET || uaddr > TOP_USER - AlignSup(size) then -1
    else if !arenaLeft then -3
    else 0
  }

  /** Deletion of the interval [u, e) from what the list maps. */
  ghost predicate Unmapped(s: seq<Arena>, t: seq<Arena>, u: nat, e: nat) {
    Valid(t) && forall a: nat :: At(t, a) == if u <= a < e then None else At(s, a)
  }

  lemma EndIsAligned(u: nat, sz: nat)
    requires u % PAGE_SIZE == 0 && sz % PAGE_SIZE == 0
    ensures (u + sz) % PAGE_SIZE == 0
  {}

  /** The loop of uvmm_unmap: outside the interval nothing changed, and the first `k` arenas are before it. */
  ghost predicate Cutting(s: seq<Arena>, t: seq<Arena>, u: nat, e: nat, k: nat) {
    && Valid(t) && Interval(u, e) && k <= |t|
    && (forall i :: 0 <= i < k ==> t[i].End() <= u)
    && (k < |t| ==> u < t[k].End())
    && (forall a: nat :: !(u <= a < e) ==> At(t, a) == At(s, a))
  }

  /** What holds when the loop ends: the interval is clear and nothing else changed. */
  ghost predicate Cleared(s: seq<Arena>, t: seq<Arena>, u: nat, e: nat) {
    Valid(t) && Clear(t, u, e) && forall a: nat :: !(u <= a < e) ==> At(t, a) == At(s, a)
  }

  lemma AllCut(s: seq<Arena>, t: seq<Arena>, u: nat, e: nat)
    requires Cleared(s, t, u, e)
    ensures Unmapped(s, t, u, e)
  {
    forall a: nat ensures At(t, a) == if u <= a < e then None else At(s, a) {
      if u <= a < e { ClearMeaning(t, u, e, a); }
    }
  }

  lemma CutFits(l: seq<Arena>, i: nat)
    requires Valid(l) && i < |l|
    ensures Fine(l[i])
  {}

  lemma NothingLeft(s: seq<Arena>, t: seq<Arena>, u: nat, e: nat, k: nat)
    requires Cutting(s, t, u, e, k)
    ensures k <= |t| && (|t| == 0 ==> Cleared(s, t, u, e))
  {}

  lemma PastTheEnd(s: seq<Arena>, t: seq<Arena>, u: nat, e: nat, k: nat, cur: nat)
    requires Cutting(s, t, u, e, k) && |t| > 0 && cur == (if k < |t| then k else 0) && t[cur].End() <= u
    ensures Cleared(s, t, u, e)
  {}

  lemma Beyond(s: seq<Arena>, t: seq<Arena>, u: nat, e: nat, k: nat, cur: nat)
    requires Cutting(s, t, u, e, k) && |t| > 0 && cur == (if k < |t| then k else 0) && e <= t[cur].start
    ensures Cleared(s, t, u, e)
  {
    assert Fine(t[cur]);
    forall i | k <= i < |t| ensures e <= t[i].start {
      if i > k { assert t[k].End() <= t[i].start; }
    }
  }

  lemma CutStarts(s: seq<Arena>, u: nat, e: nat, k: nat, cur: int)
    requires Valid(s) && Interval(u, e) && -1 <= cur < |s| && k == if cur < 0 then |s| else cur
    requires cur >= 0 ==> u < s[cur].End() && forall j :: 0 <= j < cur ==> s[j].End() <= u
    requires cur < 0 ==> forall j :: 0 <= j < |s| ==> s[j].End() <= u
    ensures Cutting(s, s, u, e, k) && (cur < 0 ==> Cleared(s, s, u, e))
  {}

  /** The arena at hand meets the interval; cutting it goes one step further. */
  lemma CutStep(s: seq<Arena>, t: seq<Arena>, u: nat, e: nat, k: nat, cur: nat)
    requires Cutting(s, t, u, e, k) && |t| > 0 && cur == (if k < |t| then k else 0)
    requires u < t[cur].End() && t[cur].start < e
    ensures cur == k && k < |t| && Valid(t) && Fine(t[k]) && Meets(t[k], u, e) && t[k].End() <= TOP_USER
    ensures var t' := Splice(t, k, k + 1, Cut(t[k], u, e));
            && (t[k].End() > e ==> Cleared(s, t', u, e))
            && (t[k].End() <= e ==> Cutting(s, t', u, e, if t[k].start < u then k + 1 else k))
  {
    CutValid(t, k, u, e);
    var t' := Splice(t, k, k + 1, Cut(t[k], u, e));
    forall a: nat | !(u <= a < e) ensures At(t', a) == At(s, a) {
      CutMeaning(t, k, u, e, a);
    }
    CutPlaces(t, u, e, k);
  }

  lemma CutPlaces(t: seq<Arena>, u: nat, e: nat, k: nat)
    requires Valid(t) && Interval(u, e) && k < |t| && Meets(t[k], u, e) && forall i :: 0 <= i < k ==> t[i].End() <= u
    ensures var t' := Splice(t, k, k + 1, Cut(t[k], u, e));
            && (t[k].End() > e ==> Clear(t', u, e))
            && (t[k].End() <= e ==>
                  var k' := if t[k].start < u then k + 1 else k;
                  k' <= |t'| && (forall i :: 0 <= i < k' ==> t'[i].End() <= u) && (k' < |t'| ==> u < t'[k'].End()))
  {
    var c := Cut(t[k], u, e);
    var t' := Splice(t, k, k + 1, c);
    assert forall i :: 0 <= i < |t'| ==>
      t'[i] == if i < k then t[i] else if i < k + |c| then c[i - k] else t[i - |c| + 1];
    forall i | k < i < |t| ensures t[k].End() <= t[i].start < t[i].End() {
      assert Fine(t[i]);
    }
  }

  lemma MovesCommute(u: Usage, r: int, w: int)
    ensures Moved(Moved(u, Writable, w), ReadOnly, r) == Moved(Moved(u, ReadOnly, r), Writable, w)
    ensures r == 0 ==> Moved(u, ReadOnly, r) == u
    ensures w == 0 ==> Moved(Moved(u, ReadOnly, r), Writable, w) == Moved(u, ReadOnly, r)
  {}

  /** The four counters are moved one after the other. */
  lemma AllMoved(u: Usage, u': Usage, size: nat, was: Rights, now: Rights)
    requires size < WORD && was != now
    requires var m := Moved(Moved(u, ReadOnly, Delta(size, Step(ReadOnly, was, now))),
                            Writable, Delta(size, Step(Writable, was, now)));
             u' == Moved(Moved(m, Code, Delta(size, Step(Code, was, now))),
                         Overall, Delta(size, Step(Overall, was, now)))
    ensures forall k :: Get(u', k) == Plus(Get(u, k), Delta(size, Step(k, was, now)))
  {
    hide Step, Delta;
  }

  lemma CutCounted(l: seq<Arena>, l': seq<Arena>, i: nat, u: nat, e: nat, tot: Usage, shr: Usage,
                   tot': Usage, shr': Usage, gone: nat, counted: bool)
    requires Valid(l) && i < |l| && Interval(u, e) && Meets(l[i], u, e)
    requires gone == (if e < l[i].End() then e else l[i].End()) - (if l[i].start < u then u else l[i].start)
    requires l' == Splice(l, i, i + 1, Cut(l[i], u, e))
    requires forall k :: Get(tot', k) == Plus(Get(tot, k), Delta(gone, Step(k, l[i].rights, NO_RIGHTS)))
    requires forall k :: Get(shr', k) == Plus(Get(shr, k), if l[i].flags.shared
                                                           then Delta(gone, Step(k, l[i].rights, NO_RIGHTS)) else 0)
    requires counted ==> AllCountable(l) && Stats(l, tot, shr)
    ensures counted ==> AllCountable(l') && Stats(l', tot', shr')
  {
    hide Cut, Splice, Step, Delta, Sum, Valid, Fine, AllCountable, Plus;
    if counted {
      forall k ensures Get(tot', k) == Sum(l', k, false) % WORD && Get(shr', k) == Sum(l', k, true) % WORD {
        var d := Delta(gone, Step(k, l[i].rights, NO_RIGHTS));
        CutCounts(l, i, u, e, k, false);
        CutCounts(l, i, u, e, k, true);
        CounterFollows(Get(tot, k), Get(tot', k), Sum(l, k, false), Sum(l', k, false), d);
        CounterFollows(Get(shr, k), Get(shr', k), Sum(l, k, true), Sum(l', k, true), if l[i].flags.shared then d else 0);
      }
      CutCounts(l, i, u, e, Overall, false);
    }
  }

  /** What a request becomes: it overrides the meaning of its interval, and of nothing else, exactly when the next
      mapping does not continue it or the previous one does. Otherwise the offsets of the request and of all the
      addresses of the arena after it are `size` too far. */
  ghost predicate Mapped(s: seq<Arena>, t: seq<Arena>, y: Arena) {
    && Valid(t)
    && (ContinuesBefore(s, y) || !ContinuesAfter(s, y) ==>
          forall a: nat :: At(t, a) == if y.Covers(a) then Some(CellOf(y, a)) else At(s, a))
    && (!ContinuesBefore(s, y) && ContinuesAfter(s, y) ==> exists top :: TooFar(s, t, y, top))
  }

  ghost predicate TooFar(s: seq<Arena>, t: seq<Arena>, y: Arena, top: nat) {
    && top > y.End()
    && (forall a: nat :: At(t, a) == if y.start <= a < top
          then Some(Cell(y.resource, (y.offset + y.size + (a - y.start)) % WORD64, y.rights, y.flags)) else At(s, a))
    && (forall a: nat :: y.End() <= a < top ==> At(t, a) != At(s, a))
  }

  /** A page of resource 1 mapped just before the next page of that resource: both pages end up one page too far. */
  lemma OnePageTooFar()
    ensures var none, rights := Flags(false, true), Rights(true, false, false);
            var l := [Arena(0x4000_1000, 0x1000, rights, none, 1, 0x1000)];
            var y := Arena(0x4000_0000, 0x1000, rights, none, 1, 0);
            && Request(l, 0, y) && !ContinuesBefore(l, y) && ContinuesAfter(l, y)
            && At(Glued(l, 0, y), 0x4000_0000) == Some(Cell(1, 0x1000, rights, none))
  {
    var none, rights := Flags(false, true), Rights(true, false, false);
    var x := Arena(0x4000_1000, 0x1000, rights, none, 1, 0x1000);
    var y := Arena(0x4000_0000, 0x1000, rights, none, 1, 0);
    assert Fine(x) && Fine(y);
    BeforeIsTested([x], 0, y);
    AfterIsTested([x], 0, y);
    GluedAfterOnly([x], 0, y, 0x4000_0000);
  }

  lemma RequestFits(l: seq<Arena>, y: Arena, next: int, prev: int)
    requires Valid(l) && Fine(y) && Clear(l, y.start, y.End()) && -1 <= next < |l|
    requires next >= 0 ==> y.start < l[next].End() && forall j :: 0 <= j < next ==> l[j].End() <= y.start
    requires next < 0 ==> forall j :: 0 <= j < |l| ==> l[j].End() <= y.start
    requires var p := if next > 0 then next - 1 else |l| - 1;
             prev == if next >= 0 && l[p].start > y.start then -1 else p
    ensures var ni := if next >= 0 then next else |l|; Request(l, ni, y) && prev == ni - 1
    ensures next >= 0 ==> prev == next - 1
  {
    var ni := if next >= 0 then next else |l|;
    forall i | ni <= i < |l| ensures y.End() <= l[i].start {
      if i > ni { assert l[ni].End() <= l[i].start; }
    }
    assert forall i :: 0 <= i < |l| ==> Fine(l[i]);
  }

  lemma FineStart(y: Arena)
    requires Fine(y)
    ensures y.start <= TOP_USER && y.size < WORD
  {}

  lemma NeighbourTests(l: seq<Arena>, prev: int, next: int, y: Arena)
    requires -1 <= prev && next < |l| && (if next >= 0 then prev == next - 1 else prev == |l| - 1)
    ensures Before(l, prev + 1, y) <==> prev >= 0 && TouchesBefore(l[prev], y)
    ensures After(l, prev + 1, y) <==> next >= 0 && TouchesAfter(y, l[next])
  {}

  lemma RoomBefore(l: seq<Arena>, ni: nat, y: Arena)
    requires ni <= |l| && After(l, ni, y)
    ensures ni < |l| && y.size <= l[ni].start
  {}

  // The four ways to glue, each against the one definition of the glued list.

  lemma GluedBoth(l: seq<Arena>, ni: nat, y: Arena, t: seq<Arena>)
    requires ni <= |l| && Before(l, ni, y) && After(l, ni, y)
    requires var m := l[ni - 1 := l[ni - 1].(size := l[ni - 1].size + (y.size + l[ni].size))]; t == m[..ni] + m[ni + 1..]
    ensures t == Glued(l, ni, y)
  {
    assert Whole(l, ni, y) == l[ni - 1].(size := l[ni - 1].size + (y.size + l[ni].size));
  }

  lemma GluedPrev(l: seq<Arena>, ni: nat, y: Arena, t: seq<Arena>)
    requires ni <= |l| && Before(l, ni, y) && !After(l, ni, y)
    requires t == l[ni - 1 := l[ni - 1].(size := l[ni - 1].size + y.size)]
    ensures t == Glued(l, ni, y)
  {
    assert Whole(l, ni, y) == l[ni - 1].(size := l[ni - 1].size + y.size);
  }

  lemma GluedNext(l: seq<Arena>, ni: nat, y: Arena, t: seq<Arena>)
    requires ni <= |l| && !Before(l, ni, y) && After(l, ni, y)
    requires t == l[ni := l[ni].(start := l[ni].start - y.size, size := l[ni].size + y.size)]
    ensures t == Glued(l, ni, y)
  {
    assert Whole(l, ni, y) == l[ni].(start := l[ni].start - y.size, size := l[ni].size + y.size);
  }

  lemma GluedNew(l: seq<Arena>, ni: nat, y: Arena, t: seq<Arena>)
    requires ni <= |l| && !Before(l, ni, y) && !After(l, ni, y) && t == l[..ni] + [y] + l[ni..]
    ensures t == Glued(l, ni, y)
  {
    assert Whole(l, ni, y) == y;
  }

  lemma GluedIsMapped(l: seq<Arena>, ni: nat, y: Arena)
    requires Request(l, ni, y)
    ensures Mapped(l, Glued(l, ni, y), y)
  {
    hide Glued, Valid, Fine, Whole;
    var t := Glued(l, ni, y);
    GluedValid(l, ni, y);
    BeforeIsTested(l, ni, y);
    AfterIsTested(l, ni, y);
    if After(l, ni, y) && !Before(l, ni, y) {
      forall a: nat
        ensures At(t, a) == if y.start <= a < l[ni].End()
          then Some(Cell(y.resource, (y.offset + y.size + (a - y.start)) % WORD64, y.rights, y.flags)) else At(l, a)
        ensures l[ni].Covers(a) ==> At(t, a) != At(l, a)
      {
        GluedAfterOnly(l, ni, y, a);
      }
      RequestFine(l, ni);
      assert TooFar(l, t, y, l[ni].End());
    } else {
      forall a: nat ensures At(t, a) == if y.Covers(a) then Some(CellOf(y, a)) else At(l, a) {
        GluedMeaning(l, ni, y, a);
      }
    }
  }

  lemma RequestFine(l: seq<Arena>, i: nat)
    requires Valid(l) && i < |l|
    ensures l[i].size > 0
  {
    assert Fine(l[i]);
  }

  lemma GluedCounted(l: seq<Arena>, ni: nat, y: Arena, tot: Usage, shr: Usage, tot': Usage, shr': Usage)
    requires Request(l, ni, y)
    requires forall k :: Get(tot', k) == Plus(Get(tot, k), Delta(y.size, Step(k, NO_RIGHTS, y.rights)))
    requires forall k :: Get(shr', k) == Plus(Get(shr, k), if y.flags.shared
                                                           then Delta(y.size, Step(k, NO_RIGHTS, y.rights)) else 0)
    ensures Countable(y.rights) && AllCountable(l) && Stats(l, tot, shr) ==>
              AllCountable(Glued(l, ni, y)) && Stats(Glued(l, ni, y), tot', shr')
  {
    hide Glued, Step, Delta, Sum, Valid, Fine, AllCountable, Plus, Countable;
    if Countable(y.rights) && AllCountable(l) && Stats(l, tot, shr) {
      var t := Glued(l, ni, y);
      forall k ensures Get(tot', k) == Sum(t, k, false) % WORD && Get(shr', k) == Sum(t, k, true) % WORD {
        var d := Delta(y.size, Step(k, NO_RIGHTS, y.rights));
        GluedCounts(l, ni, y, k, false);
        GluedCounts(l, ni, y, k, true);
        CounterFollows(Get(tot, k), Get(tot', k), Sum(l, k, false), Sum(t, k, false), d);
        CounterFollows(Get(shr, k), Get(shr', k), Sum(l, k, true), Sum(t, k, true), if y.flags.shared then d else 0);
      }
      GluedCountable(l, ni, y);
    }
  }
}
