/** 32-bit words and page alignment (include/macros.h, include/physmem.h). */
module Words {

  const PAGE_SIZE: nat := 4096
  const WORD: nat := 0x1_0000_0000

  type Word = x: nat | x < WORD

  /** PAGE_ALIGN_SUP on a 32-bit word: 0 and sizes in the last page wrap to 0. */
  function AlignSup(size: nat): nat
    requires size < WORD
  {
    if size == 0 then 0 else ((size - 1) / PAGE_SIZE * PAGE_SIZE + PAGE_SIZE) % WORD
  }

  lemma AlignSupIsEnough(size: nat)
    requires 0 < size < WORD
    ensures AlignSup(size) % PAGE_SIZE == 0
    ensures AlignSup(size) == 0 <==> size > WORD - PAGE_SIZE
    ensures AlignSup(size) != 0 ==> size <= AlignSup(size) < size + PAGE_SIZE
    ensures AlignSup(size) <= WORD - PAGE_SIZE
  {
    var k := (size - 1) / PAGE_SIZE;
    assert size - 1 == k * PAGE_SIZE + (size - 1) % PAGE_SIZE;
    assert WORD == 0x10_0000 * PAGE_SIZE;
    assert k <= 0xF_FFFF;
    if k == 0xF_FFFF {
      assert k * PAGE_SIZE + PAGE_SIZE == WORD;
    } else {
      assert k * PAGE_SIZE + PAGE_SIZE < WORD;
    }
  }
}
