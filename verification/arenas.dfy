/** A user address space as a sorted list of disjoint arenas (mem/uvmm.c), and what it maps each address to. */
module Arenas {
  import opened Words
  import opened Wrappers

  const USER_OFFSET: nat := 0x4000_0000
  const TOP_USER: nat := 0xFFFF_FFFF
  const WORD64: nat := 0x1_0000_0000_0000_0000

  datatype Rights = Rights(read: bool, write: bool, exec: bool)
  datatype Flags = Flags(shared: bool, fixed: bool)

  datatype Arena = Arena(start: nat, size: nat, rights: Rights, flags: Flags, resource: nat, offset: nat) {
    function End(): nat { start + size }

    predicate Covers(a: nat) { start <= a < End() }
  }

  /** What an address is mapped to. Offsets in a resource are 64-bit words. */
  datatype Cell = Cell(resource: nat, offset: nat, rights: Rights, flags: Flags)

  function CellOf(x: Arena, a: nat): Cell
    requires x.start <= a
  {
    Cell(x.resource, (x.offset + (a - x.start)) % WORD64, x.rights, x.flags)
  }

  /** The meaning of a list of arenas. */
  function At(l: seq<Arena>, a: nat): Option<Cell> {
    if l == [] then None
    else if l[0].Covers(a) then Some(CellOf(l[0], a))
    else At(l[1..], a)
  }

  ghost predicate Fine(x: Arena) {
    && x.size > 0 && USER_OFFSET <= x.start && x.End() <= TOP_USER
    && x.start % PAGE_SIZE == 0 && x.size % PAGE_SIZE == 0 && x.offset < WORD64
  }

  /** Sorted, disjoint, page-aligned arenas inside the user space. */
  ghost predicate Valid(l: seq<Arena>) {
    && (forall i :: 0 <= i < |l| ==> Fine(l[i]))
    && (forall i, j :: 0 <= i < j < |l| ==> l[i].End() <= l[j].start)
  }

  lemma {:induction false} AtConcat(l: seq<Arena>, r: seq<Arena>, a: nat)
    ensures At(l + r, a) == if At(l, a).Some? then At(l, a) else At(r, a)
  {
    if l == [] {
      assert l + r == r;
    } else {
      assert (l + r)[1..] == l[1..] + r;
      AtConcat(l[1..], r, a);
    }
  }

  /** An address no arena covers is not mapped. */
  lemma {:induction false} AtNone(l: seq<Arena>, a: nat)
    requires forall i :: 0 <= i < |l| ==> !l[i].Covers(a)
    ensures At(l, a) == None
  {
    if l != [] {
      AtNone(l[1..], a);
    }
  }

  lemma {:induction false} AtSome(l: seq<Arena>, i: nat, a: nat)
    requires Valid(l) && i < |l| && l[i].Covers(a)
    ensures At(l, a) == Some(CellOf(l[i], a))
  {
    if i > 0 {
      assert l[0].End() <= l[i].start;
      assert l[1..][i - 1] == l[i];
      AtSome(l[1..], i - 1, a);
    }
  }

  /** Replacing the arenas in the middle of a list changes the meaning only where the middle did. */
  lemma AtMiddle(l: seq<Arena>, m: seq<Arena>, r: seq<Arena>, a: nat)
    ensures At(l + m + r, a) == if At(l, a).Some? then At(l, a) else if At(m, a).Some? then At(m, a) else At(r, a)
  {
    AtConcat(l + m, r, a);
    AtConcat(l, m, a);
  }

  /** The list with the arenas from `i` to `j` replaced. */
  function Splice(l: seq<Arena>, i: nat, j: nat, m: seq<Arena>): seq<Arena>
    requires i <= j <= |l|
  {
    l[..i] + m + l[j..]
  }

  /** The new arenas keep inside the room left by their neighbours. */
  ghost predicate FitsIn(l: seq<Arena>, i: nat, j: nat, m: seq<Arena>) {
    && i <= j <= |l| && Valid(m)
    && (forall k, n :: 0 <= k < i && 0 <= n < |m| ==> l[k].End() <= m[n].start)
    && (forall k, n :: j <= k < |l| && 0 <= n < |m| ==> m[n].End() <= l[k].start)
  }

  lemma SpliceValid(l: seq<Arena>, i: nat, j: nat, m: seq<Arena>)
    requires Valid(l) && FitsIn(l, i, j, m)
    ensures Valid(Splice(l, i, j, m))
  {
    var r := Splice(l, i, j, m);
    forall k | 0 <= k < |r|
      ensures r[k] == if k < i then l[k] else if k < i + |m| then m[k - i] else l[k - i - |m| + j]
    {}
  }

  /** Where the old and the new middle agree, the whole lists agree. */
  lemma SpliceAt(l: seq<Arena>, i: nat, j: nat, m: seq<Arena>, a: nat)
    requires i <= j <= |l|
    ensures At(l[i..j], a) == At(m, a) ==> At(Splice(l, i, j, m), a) == At(l, a)
    ensures At(l[..i], a) == None ==> At(Splice(l, i, j, m), a) == if At(m, a).Some? then At(m, a) else At(l[j..], a)
  {
    assert l == l[..i] + l[i..j] + l[j..];
    AtMiddle(l[..i], l[i..j], l[j..], a);
    AtMiddle(l[..i], m, l[j..], a);
  }
}
