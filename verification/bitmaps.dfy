/** Bits of bytes, and bitmaps as runs of bytes. */
module Bitmaps {
  import opened Disks
  import opened Products

  /** Values of `n` bits. */
  function Limit(n: nat): nat { if n == 0 then 1 else 2 * Limit(n - 1) }

  /** (b & (1 << k)) != 0: bit 0 is the parity, the other bits are those of the half. */
  predicate HasBit(b: nat, k: nat) {
    if k == 0 then b % 2 == 1 else HasBit(b / 2, k - 1)
  }

  /** b | (1 << k). */
  function SetBit(b: nat, k: nat): nat {
    if k == 0 then b - b % 2 + 1 else 2 * SetBit(b / 2, k - 1) + b % 2
  }

  /** b & ~(1 << k). */
  function ClearBit(b: nat, k: nat): nat {
    if k == 0 then b - b % 2 else 2 * ClearBit(b / 2, k - 1) + b % 2
  }

  lemma {:induction false} SetBitBits(b: nat, k: nat, j: nat)
    ensures HasBit(SetBit(b, k), j) <==> j == k || HasBit(b, j)
  {
    if k > 0 && j > 0 {
      SetBitBits(b / 2, k - 1, j - 1);
    }
  }

  lemma {:induction false} ClearBitBits(b: nat, k: nat, j: nat)
    ensures HasBit(ClearBit(b, k), j) <==> j != k && HasBit(b, j)
  {
    if k > 0 && j > 0 {
      ClearBitBits(b / 2, k - 1, j - 1);
    }
  }

  /** Setting and clearing stay within as many bits as there were. */
  lemma {:induction false} StaysWithin(b: nat, k: nat, n: nat)
    requires b < Limit(n) && k < n
    ensures SetBit(b, k) < Limit(n) && ClearBit(b, k) < Limit(n)
  {
    if k > 0 {
      StaysWithin(b / 2, k - 1, n - 1);
    }
  }

  /** Clearing a bit that was set from clear gives the byte back. */
  lemma {:induction false} ClearAfterSet(b: nat, k: nat)
    requires !HasBit(b, k)
    ensures ClearBit(SetBit(b, k), k) == b
  {
    if k > 0 {
      ClearAfterSet(b / 2, k - 1);
    }
  }

  const WEIGHTS: seq<nat> := [1, 2, 4, 8, 16, 32, 64, 128]

  /** Halving is dividing by the next power. */
  lemma HalfOf(b: nat, w: nat)
    requires w > 0
    ensures b / (2 * w) == b / 2 / w
  {
    var q := b / 2 / w;
    assert b / 2 == w * q + b / 2 % w;
    assert b == 2 * (b / 2) + b % 2;
    assert b == (2 * w) * q + (2 * (b / 2 % w) + b % 2);
    QuotientIs(b, 2 * w, q, 2 * (b / 2 % w) + b % 2);
  }

  /** A bit is a binary digit: it is set by adding its weight and cleared by taking it off. */
  lemma {:induction false} BitIsDigit(b: nat, k: nat)
    ensures Limit(k) > 0
    ensures HasBit(b, k) <==> b / Limit(k) % 2 == 1
    ensures SetBit(b, k) == if HasBit(b, k) then b else b + Limit(k)
    ensures ClearBit(b, k) == if HasBit(b, k) then b - Limit(k) else b
  {
    if k > 0 {
      BitIsDigit(b / 2, k - 1);
      HalfOf(b, Limit(k - 1));
    }
  }

  lemma BitWeight(b: Byte, k: nat)
    requires k < 8
    ensures HasBit(b, k) <==> b / WEIGHTS[k] % 2 == 1
    ensures WithBit(b, k) == if b / WEIGHTS[k] % 2 == 1 then b else b + WEIGHTS[k]
    ensures WithoutBit(b, k) == if b / WEIGHTS[k] % 2 == 1 then b - WEIGHTS[k] else b
  {
    BitIsDigit(b, k);
    LimitIsWeight(k);
    hide HasBit, SetBit, ClearBit, Limit;
  }

  lemma LimitIsWeight(k: nat)
    requires k < 8
    ensures Limit(k) == WEIGHTS[k]
  {
    assert Limit(2) == 4 && Limit(4) == 16 && Limit(6) == 64;
  }

  function WithBit(b: Byte, k: nat): Byte
    requires k < 8
  {
    ByteWithin(b, k);
    SetBit(b, k)
  }

  function WithoutBit(b: Byte, k: nat): Byte
    requires k < 8
  {
    ByteWithin(b, k);
    ClearBit(b, k)
  }

  lemma ByteWithin(b: Byte, k: nat)
    requires k < 8
    ensures SetBit(b, k) < 256 && ClearBit(b, k) < 256
  {
    assert Limit(2) == 4 && Limit(4) == 16 && Limit(6) == 64 && Limit(8) == 256;
    StaysWithin(b, k, 8);
  }

  /** Bit `ib` of the bitmap that starts at `base`: bit ib % 8 of byte ib / 8. */
  predicate Marked(s: seq<Byte>, base: nat, ib: nat)
    requires base + ib / 8 < |s|
  {
    HasBit(s[base + ib / 8], ib % 8)
  }

  function Mark(s: seq<Byte>, base: nat, ib: nat): seq<Byte>
    requires base + ib / 8 < |s|
  {
    s[base + ib / 8 := WithBit(s[base + ib / 8], ib % 8)]
  }

  function Unmark(s: seq<Byte>, base: nat, ib: nat): seq<Byte>
    requires base + ib / 8 < |s|
  {
    s[base + ib / 8 := WithoutBit(s[base + ib / 8], ib % 8)]
  }

  /** Marking sets one bit of one bitmap and changes nothing else. */
  lemma MarkSetsOne(s: seq<Byte>, base: nat, ib: nat, jb: nat)
    requires base + ib / 8 < |s| && base + jb / 8 < |s|
    ensures Marked(Mark(s, base, ib), base, jb) <==> jb == ib || Marked(s, base, jb)
    ensures Marked(Unmark(s, base, ib), base, jb) <==> jb != ib && Marked(s, base, jb)
    ensures forall k :: 0 <= k < |s| && k != base + ib / 8 ==> Mark(s, base, ib)[k] == Unmark(s, base, ib)[k] == s[k]
  {
    SetBitBits(s[base + ib / 8], ib % 8, jb % 8);
    ClearBitBits(s[base + ib / 8], ib % 8, jb % 8);
    hide HasBit, SetBit, ClearBit;
  }

  lemma UnmarkAfterMark(s: seq<Byte>, base: nat, ib: nat)
    requires base + ib / 8 < |s| && !Marked(s, base, ib)
    ensures Unmark(Mark(s, base, ib), base, ib) == s
  {
    ClearAfterSet(s[base + ib / 8], ib % 8);
    hide HasBit, SetBit, ClearBit;
  }
}
