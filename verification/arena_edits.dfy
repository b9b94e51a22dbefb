/** How one edit of the arena list changes what the list means, and what it costs. */
module ArenaEdits {
  import opened Words
  import opened Wrappers
  import opened Arenas
  import opened UsageStatistics

  // ---- Cutting an interval out ----

  function LeftOf(x: Arena, u: nat): Arena
    requires x.start <= u
  {
    x.(size := u - x.start)
  }

  function RightOf(x: Arena, e: nat): Arena
    requires x.start <= e <= x.End()
  {
    x.(start := e, size := x.End() - e, offset := (x.offset + (e - x.start)) % WORD64)
  }

  /** What is left of an arena without the addresses in [u, e). */
  function Cut(x: Arena, u: nat, e: nat): seq<Arena>
    requires u <= e && x.start <= e && u <= x.End()
  {
    (if x.start < u then [LeftOf(x, u)] else []) + (if e < x.End() then [RightOf(x, e)] else [])
  }

  ghost predicate Interval(u: nat, e: nat) {
    USER_OFFSET <= u <= e <= TOP_USER && u % PAGE_SIZE == 0 && e % PAGE_SIZE == 0
  }

  ghost predicate Meets(x: Arena, u: nat, e: nat) {
    u < x.End() && x.start < e
  }

  lemma CutAt(x: Arena, u: nat, e: nat, a: nat)
    requires Fine(x) && Interval(u, e) && Meets(x, u, e)
    ensures At(Cut(x, u, e), a) == if u <= a < e then None else At([x], a)
  {
    var l := if x.start < u then [LeftOf(x, u)] else [];
    var r := if e < x.End() then [RightOf(x, e)] else [];
    AtConcat(l, r, a);
    AtOne(x, a);
    if x.start < u { AtOne(LeftOf(x, u), a); }
    if e < x.End() { AtOne(RightOf(x, e), a); }
    if e <= a < x.End() {
      AddAfterWrap(x.offset + (e - x.start), a - e);
    }
  }

  lemma AtOne(x: Arena, a: nat)
    ensures At([x], a) == if x.Covers(a) then Some(CellOf(x, a)) else None
  {
    assert [x][1..] == [];
  }

  lemma AddAfterWrap(n: nat, m: nat)
    ensures (n % WORD64 + m) % WORD64 == (n + m) % WORD64
  {}

  lemma CutFine(x: Arena, u: nat, e: nat)
    requires Fine(x) && Interval(u, e) && Meets(x, u, e)
    ensures Valid(Cut(x, u, e))
    ensures forall n :: 0 <= n < |Cut(x, u, e)| ==> x.start <= Cut(x, u, e)[n].start && Cut(x, u, e)[n].End() <= x.End()
  {
    assert x.start < u ==> Fine(LeftOf(x, u)) by {
      if x.start < u { AlignedDifference(u, x.start); }
    }
    assert e < x.End() ==> Fine(RightOf(x, e)) by {
      if e < x.End() { AlignedDifference(x.End(), e); }
    }
  }

  lemma AlignedDifference(m: nat, n: nat)
    requires m % PAGE_SIZE == 0 && n % PAGE_SIZE == 0 && n <= m
    ensures (m - n) % PAGE_SIZE == 0
  {}

  lemma CutValid(l: seq<Arena>, i: nat, u: nat, e: nat)
    requires Valid(l) && i < |l| && Interval(u, e) && Meets(l[i], u, e)
    ensures FitsIn(l, i, i + 1, Cut(l[i], u, e)) && Valid(Splice(l, i, i + 1, Cut(l[i], u, e)))
  {
    hide Cut, Fine;
    CutFine(l[i], u, e);
    SpliceValid(l, i, i + 1, Cut(l[i], u, e));
  }

  /** Cutting one arena unmaps exactly its addresses in the interval. */
  lemma CutMeaning(l: seq<Arena>, i: nat, u: nat, e: nat, a: nat)
    requires Valid(l) && i < |l| && Interval(u, e) && Meets(l[i], u, e)
    ensures !(u <= a < e) ==> At(Splice(l, i, i + 1, Cut(l[i], u, e)), a) == At(l, a)
  {
    var c := Cut(l[i], u, e);
    assert l[i..i + 1] == [l[i]];
    assert Fine(l[i]);
    CutAt(l[i], u, e, a);
    SpliceAt(l, i, i + 1, c, a);
  }

  // ---- Keeping the counters ----

  function Delta(size: nat, step: int): int {
    var n: int := size;
    if step > 0 then n else if step < 0 then -n else 0
  }

  /** A counter that moves by what its sum moves stays equal to its sum, modulo the word size. */
  lemma CounterFollows(c: nat, c': nat, sum: nat, sum': nat, d: int)
    requires c == sum % WORD && c' == Plus(c, d) && sum' == sum + d
    ensures c' == sum' % WORD
  {}

  lemma CutWeight(x: Arena, u: nat, e: nat, k: Counter, o: bool)
    requires Fine(x) && Interval(u, e) && Meets(x, u, e)
    ensures var gone := (if e < x.End() then e else x.End()) - (if x.start < u then u else x.start);
            Sum(Cut(x, u, e), k, o) == Sum([x], k, o) - (if Weight(x, k, o) > 0 then gone else 0)
  {
    var l := if x.start < u then [LeftOf(x, u)] else [];
    var r := if e < x.End() then [RightOf(x, e)] else [];
    SumConcat(l, r, k, o);
    SumOne(x, k, o);
    if x.start < u { SumOne(LeftOf(x, u), k, o); }
    if e < x.End() { SumOne(RightOf(x, e), k, o); }
  }

  lemma SumOne(x: Arena, k: Counter, o: bool)
    ensures Sum([x], k, o) == Weight(x, k, o)
  {
    assert [x][1..] == [];
  }

  /** The step for unmapping `gone` bytes of an arena whose rights are countable. */
  lemma CutCounts(l: seq<Arena>, i: nat, u: nat, e: nat, k: Counter, o: bool)
    requires Valid(l) && AllCountable(l) && i < |l| && Interval(u, e) && Meets(l[i], u, e)
    ensures var x := l[i]; var gone := (if e < x.End() then e else x.End()) - (if x.start < u then u else x.start);
            Sum(Splice(l, i, i + 1, Cut(x, u, e)), k, o)
            == Sum(l, k, o) + (if o && !x.flags.shared then 0 else Delta(gone, Step(k, x.rights, NO_RIGHTS)))
    ensures AllCountable(Splice(l, i, i + 1, Cut(l[i], u, e)))
  {
    var x := l[i];
    assert Fine(x);
    SumSplice(l, i, i + 1, Cut(x, u, e), k, o);
    assert l[i..i + 1] == [x];
    CutWeight(x, u, e, k, o);
    CountableIsExact(x.rights);
  }

  // ---- Gluing an interval in ----

  /** Nothing is mapped in [u, e). */
  ghost predicate Clear(l: seq<Arena>, u: nat, e: nat) {
    forall i :: 0 <= i < |l| ==> l[i].End() <= u || e <= l[i].start
  }

  lemma ClearMeaning(l: seq<Arena>, u: nat, e: nat, a: nat)
    requires Clear(l, u, e) && u <= a < e
    ensures At(l, a) == None
  {
    AtNone(l, a);
  }

  /** A request to map `size` bytes at `start`, as an arena of its own. */
  ghost predicate Request(l: seq<Arena>, ni: nat, y: Arena) {
    && Valid(l) && Fine(y) && ni <= |l|
    && (forall i :: 0 <= i < ni ==> l[i].End() <= y.start)
    && (forall i :: ni <= i < |l| ==> y.End() <= l[i].start)
  }

  predicate Alike(x: Arena, y: Arena) {
    x.resource == y.resource && x.rights == y.rights && x.flags == y.flags
  }

  /** The tests of uvmm_map on the arena before and the arena after the interval. */
  predicate TouchesBefore(x: Arena, y: Arena) {
    Alike(x, y) && x.End() == y.start && (x.offset + x.size) % WORD64 == y.offset
  }

  predicate TouchesAfter(y: Arena, z: Arena) {
    Alike(z, y) && y.End() == z.start && (y.offset + y.size) % WORD64 == z.offset
  }

  /** The same two tests on meanings: does the mapping next to the interval continue the request? */
  ghost predicate ContinuesBefore(l: seq<Arena>, y: Arena) {
    y.start > 0 && At(l, y.start - 1) == Some(Cell(y.resource, (y.offset + WORD64 - 1) % WORD64, y.rights, y.flags))
  }

  ghost predicate ContinuesAfter(l: seq<Arena>, y: Arena) {
    At(l, y.End()) == Some(Cell(y.resource, (y.offset + y.size) % WORD64, y.rights, y.flags))
  }

  lemma BeforeIsTested(l: seq<Arena>, ni: nat, y: Arena)
    requires Request(l, ni, y)
    ensures ContinuesBefore(l, y) <==> ni > 0 && TouchesBefore(l[ni - 1], y)
  {
    var a := y.start - 1;
    if ni > 0 && l[ni - 1].Covers(a) {
      AtSome(l, ni - 1, a);
      var x := l[ni - 1];
      assert x.End() == y.start && Fine(x);
      assert (x.offset + (a - x.start)) % WORD64 == (x.offset + x.size - 1) % WORD64;
      LastByte(x.offset + x.size, y.offset);
    } else {
      forall i | 0 <= i < |l| ensures !l[i].Covers(a) {
        if i + 1 < ni { assert l[i].End() <= l[ni - 1].start && Fine(l[ni - 1]); }
      }
      AtNone(l, a);
      assert ni > 0 ==> Fine(l[ni - 1]);
    }
  }

  lemma LastByte(n: nat, m: nat)
    requires m < WORD64 && n > 0
    ensures n % WORD64 == m <==> (n - 1) % WORD64 == (m + WORD64 - 1) % WORD64
  {}

  lemma AfterIsTested(l: seq<Arena>, ni: nat, y: Arena)
    requires Request(l, ni, y)
    ensures ContinuesAfter(l, y) <==> ni < |l| && TouchesAfter(y, l[ni])
  {
    var a := y.End();
    if ni < |l| && l[ni].Covers(a) {
      AtSome(l, ni, a);
      assert l[ni].start == a && Fine(l[ni]);
    } else {
      forall i | 0 <= i < |l| ensures !l[i].Covers(a) {
        if i > ni { assert l[ni].End() <= l[i].start && Fine(l[ni]); }
      }
      AtNone(l, a);
      assert ni < |l| ==> Fine(l[ni]);
    }
  }

  predicate Before(l: seq<Arena>, ni: nat, y: Arena)
    requires ni <= |l|
  {
    ni > 0 && TouchesBefore(l[ni - 1], y)
  }

  predicate After(l: seq<Arena>, ni: nat, y: Arena)
    requires ni <= |l|
  {
    ni < |l| && TouchesAfter(y, l[ni])
  }

  /** The one arena that the request and the arenas it touches become. The offset is that of the previous arena,
      or of the next one when only that is touched: in the latter case nothing shifts it. */
  function Whole(l: seq<Arena>, ni: nat, y: Arena): Arena
    requires ni <= |l|
  {
    Arena(if Before(l, ni, y) then l[ni - 1].start else y.start,
          (if Before(l, ni, y) then l[ni - 1].size else 0) + y.size + (if After(l, ni, y) then l[ni].size else 0),
          y.rights, y.flags, y.resource,
          if Before(l, ni, y) then l[ni - 1].offset else if After(l, ni, y) then l[ni].offset else y.offset)
  }

  function Glued(l: seq<Arena>, ni: nat, y: Arena): seq<Arena>
    requires ni <= |l|
  {
    Splice(l, if Before(l, ni, y) then ni - 1 else ni, if After(l, ni, y) then ni + 1 else ni, [Whole(l, ni, y)])
  }

  lemma WholeFine(l: seq<Arena>, ni: nat, y: Arena)
    requires Request(l, ni, y)
    ensures var z := Whole(l, ni, y);
            && Fine(z)
            && z.start == (if Before(l, ni, y) then l[ni - 1].start else y.start)
            && z.End() == (if After(l, ni, y) then l[ni].End() else y.End())
            && (Before(l, ni, y) ==> l[ni - 1].End() == y.start) && (After(l, ni, y) ==> y.End() == l[ni].start)
  {
    assert ni > 0 ==> Fine(l[ni - 1]);
    assert ni < |l| ==> Fine(l[ni]);
    if Before(l, ni, y) { SumAligned(l[ni - 1].size, y.size); }
    if After(l, ni, y) { SumAligned((if Before(l, ni, y) then l[ni - 1].size else 0) + y.size, l[ni].size); }
    hide Alike;
  }

  lemma SumAligned(m: nat, n: nat)
    requires m % PAGE_SIZE == 0 && n % PAGE_SIZE == 0
    ensures (m + n) % PAGE_SIZE == 0
  {}

  lemma GluedValid(l: seq<Arena>, ni: nat, y: Arena)
    requires Request(l, ni, y)
    ensures Fine(Whole(l, ni, y)) && Valid(Glued(l, ni, y))
  {
    hide Fine;
    var z := Whole(l, ni, y);
    var lo, hi := if Before(l, ni, y) then ni - 1 else ni, if After(l, ni, y) then ni + 1 else ni;
    WholeFine(l, ni, y);
    assert Valid([z]);
    SpliceValid(l, lo, hi, [z]);
  }

  /** The middle of the list before gluing. */
  lemma MiddleAt(l: seq<Arena>, ni: nat, y: Arena, a: nat)
    requires Request(l, ni, y)
    ensures var lo, hi := if Before(l, ni, y) then ni - 1 else ni, if After(l, ni, y) then ni + 1 else ni;
            At(l[lo..hi], a) == if Before(l, ni, y) && l[ni - 1].Covers(a) then Some(CellOf(l[ni - 1], a))
                                else if After(l, ni, y) && l[ni].Covers(a) then Some(CellOf(l[ni], a))
                                else None
  {
    var lo, hi := if Before(l, ni, y) then ni - 1 else ni, if After(l, ni, y) then ni + 1 else ni;
    assert l[lo..hi] == l[lo..ni] + l[ni..hi];
    AtConcat(l[lo..ni], l[ni..hi], a);
    if lo < ni {
      assert l[lo..ni] == [l[lo]];
      AtOne(l[lo], a);
    }
    if ni < hi {
      assert l[ni..hi] == [l[ni]];
      AtOne(l[ni], a);
    }
  }

  /** Gluing maps the request and leaves every other address alone, unless the interval continues into the next
      mapping without continuing the previous one. */
  lemma GluedMeaning(l: seq<Arena>, ni: nat, y: Arena, a: nat)
    requires Request(l, ni, y) && (After(l, ni, y) ==> Before(l, ni, y))
    ensures At(Glued(l, ni, y), a) == if y.Covers(a) then Some(CellOf(y, a)) else At(l, a)
  {
    var lo, hi := if Before(l, ni, y) then ni - 1 else ni, if After(l, ni, y) then ni + 1 else ni;
    var z := Whole(l, ni, y);
    AtOne(z, a);
    MiddleAt(l, ni, y, a);
    SpliceAt(l, lo, hi, [z], a);
    if z.Covers(a) {
      WholeCell(l, ni, y, a);
    }
    if y.Covers(a) {
      forall i | 0 <= i < lo ensures !l[..lo][i].Covers(a) {}
      AtNone(l[..lo], a);
    }
  }

  lemma WholeCell(l: seq<Arena>, ni: nat, y: Arena, a: nat)
    requires Request(l, ni, y) && (After(l, ni, y) ==> Before(l, ni, y)) && Whole(l, ni, y).Covers(a)
    ensures CellOf(Whole(l, ni, y), a) ==
            if Before(l, ni, y) && l[ni - 1].Covers(a) then CellOf(l[ni - 1], a)
            else if y.Covers(a) then CellOf(y, a)
            else CellOf(l[ni], a)
    ensures y.Covers(a) || (Before(l, ni, y) && l[ni - 1].Covers(a)) || (After(l, ni, y) && l[ni].Covers(a))
  {
    if Before(l, ni, y) {
      var x := l[ni - 1];
      if y.Covers(a) || After(l, ni, y) {
        if a >= y.start { AddAfterWrap(x.offset + x.size, a - y.start); }
      }
      if After(l, ni, y) && a >= y.End() { AddAfterWrap(y.offset + y.size, a - y.End()); }
    }
  }

  /** Glued with the next mapping only, the whole new arena is `size` bytes further in the resource than it was
      asked to be, and so are the addresses that were mapped before the call. */
  lemma GluedAfterOnly(l: seq<Arena>, ni: nat, y: Arena, a: nat)
    requires Request(l, ni, y) && After(l, ni, y) && !Before(l, ni, y)
    ensures At(Glued(l, ni, y), a) ==
            if y.start <= a < l[ni].End()
            then Some(Cell(y.resource, (y.offset + y.size + (a - y.start)) % WORD64, y.rights, y.flags))
            else At(l, a)
    ensures l[ni].Covers(a) ==> At(Glued(l, ni, y), a) != At(l, a)
  {
    WholeAfterOnly(l, ni, y, a);
    var z := Whole(l, ni, y);
    AtOne(z, a);
    MiddleAt(l, ni, y, a);
    SpliceAt(l, ni, ni + 1, [z], a);
    hide Whole, Before, After, Splice, Valid, Fine, CellOf, At;
    RequestPlaces(l, ni, y, a);
  }

  lemma WholeAfterOnly(l: seq<Arena>, ni: nat, y: Arena, a: nat)
    requires Request(l, ni, y) && After(l, ni, y) && !Before(l, ni, y)
    ensures var z := Whole(l, ni, y);
            && (z.Covers(a) <==> y.start <= a < l[ni].End())
            && (z.Covers(a) ==> CellOf(z, a) == Cell(y.resource, (y.offset + y.size + (a - y.start)) % WORD64, y.rights, y.flags))
            && (l[ni].Covers(a) ==> z.Covers(a) && CellOf(z, a) != CellOf(l[ni], a))
  {
    var z := Whole(l, ni, y);
    if z.Covers(a) {
      AddAfterWrap(y.offset + y.size, a - y.start);
    }
    if l[ni].Covers(a) {
      ShiftIsVisible(l[ni].offset + (a - l[ni].start), y.size);
    }
  }

  lemma RequestPlaces(l: seq<Arena>, ni: nat, y: Arena, a: nat)
    requires Request(l, ni, y) && After(l, ni, y)
    ensures y.start <= a ==> At(l[..ni], a) == None
    ensures l[ni].Covers(a) ==> At(l, a) == Some(CellOf(l[ni], a))
  {
    hide At, CellOf;
    if y.start <= a {
      forall i | 0 <= i < ni ensures !l[..ni][i].Covers(a) {}
      AtNone(l[..ni], a);
    }
    if l[ni].Covers(a) {
      AtSome(l, ni, a);
    }
  }

  lemma ShiftIsVisible(n: nat, d: nat)
    requires 0 < d < WORD64
    ensures (n + d) % WORD64 != n % WORD64
  {}

  lemma WholeWeight(l: seq<Arena>, ni: nat, y: Arena, k: Counter, o: bool)
    requires ni <= |l|
    ensures Weight(Whole(l, ni, y), k, o)
            == (if Before(l, ni, y) then Weight(l[ni - 1], k, o) else 0) + Weight(y, k, o)
               + (if After(l, ni, y) then Weight(l[ni], k, o) else 0)
  {
    hide Counts;
  }

  lemma MiddleSum(l: seq<Arena>, ni: nat, y: Arena, k: Counter, o: bool)
    requires ni <= |l|
    ensures var lo, hi := if Before(l, ni, y) then ni - 1 else ni, if After(l, ni, y) then ni + 1 else ni;
            Sum([Whole(l, ni, y)], k, o) == Sum(l[lo..hi], k, o) + Weight(y, k, o)
  {
    hide Whole, Weight;
    var lo, hi := if Before(l, ni, y) then ni - 1 else ni, if After(l, ni, y) then ni + 1 else ni;
    WholeWeight(l, ni, y, k, o);
    SumOne(Whole(l, ni, y), k, o);
    assert l[lo..hi] == l[lo..ni] + l[ni..hi];
    SumConcat(l[lo..ni], l[ni..hi], k, o);
    if lo < ni {
      assert l[lo..ni] == [l[lo]];
      SumOne(l[lo], k, o);
    }
    if ni < hi {
      assert l[ni..hi] == [l[ni]];
      SumOne(l[ni], k, o);
    }
  }

  lemma GluedCounts(l: seq<Arena>, ni: nat, y: Arena, k: Counter, o: bool)
    requires ni <= |l| && Countable(y.rights)
    ensures Sum(Glued(l, ni, y), k, o)
            == Sum(l, k, o) + (if o && !y.flags.shared then 0 else Delta(y.size, Step(k, NO_RIGHTS, y.rights)))
  {
    var lo, hi := if Before(l, ni, y) then ni - 1 else ni, if After(l, ni, y) then ni + 1 else ni;
    SumSplice(l, lo, hi, [Whole(l, ni, y)], k, o);
    MiddleSum(l, ni, y, k, o);
    CountableIsExact(y.rights);
    hide Glued, Whole, Splice, Before, After;
  }

  lemma GluedCountable(l: seq<Arena>, ni: nat, y: Arena)
    requires ni <= |l| && Countable(y.rights) && AllCountable(l)
    ensures AllCountable(Glued(l, ni, y))
  {}
}
