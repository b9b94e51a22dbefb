/** Physical pages (mem/physmem.c): descriptors on two rings, whose accounts are those of PageAccounting. */
module PhysicalMemory {
  import opened Words
  import opened Seqs
  import opened Rings
  import opened PageAccounting

  const DESCR_SIZE: nat := 20
  const BIOS_N_VIDEO_START: nat := 0xa0000
  const BIOS_N_VIDEO_END: nat := 0x10_0000

  datatype Mark = Reserved | Free | Kernel | HwMap

  /** How physmem_setup marks the page at an address. */
  function MarkOf(a: nat, bKernel: Word, coreBase: Word, coreTop: Word): Mark {
    if a < PAGE_SIZE then Reserved
    else if a < BIOS_N_VIDEO_START then Free
    else if a < BIOS_N_VIDEO_END then HwMap
    else if a < bKernel then Free
    else if coreBase <= a < coreTop then Kernel
    else Free
  }

  function AlignInf(a: nat): nat { a - a % PAGE_SIZE }

  lemma AlignedDown(a: nat)
    ensures AlignInf(a) % PAGE_SIZE == 0 && 0 <= AlignInf(a) <= a
  {}

  /** End of the kernel image and of the descriptors after it. */
  function CoreTop(ram: Word, eKernel: Word): Word {
    (AlignSup(eKernel) + AlignSup(ram / PAGE_SIZE * DESCR_SIZE)) % WORD
  }

  /** The accounts after `n` pages have been scanned. */
  function Initial(n: nat, bKernel: Word, coreBase: Word, coreTop: Word): Pages {
    if n == 0 then Pages([], [], [])
    else
      var p := Initial(n - 1, bKernel, coreBase, coreTop);
      match MarkOf((n - 1) * PAGE_SIZE, bKernel, coreBase, coreTop)
      case Reserved => p.(cnt := p.cnt + [0])
      case Free => Pages([n - 1] + p.free, p.used, p.cnt + [0])
      case _ => Pages(p.free, [n - 1] + p.used, p.cnt + [1])
  }

  lemma {:induction false} InitialCounts(n: nat, bKernel: Word, coreBase: Word, coreTop: Word)
    ensures var p := Initial(n, bKernel, coreBase, coreTop);
            && |p.cnt| == n
            && forall i :: 0 <= i < n ==>
                 p.cnt[i] == if MarkOf(i * PAGE_SIZE, bKernel, coreBase, coreTop) in {Kernel, HwMap} then 1 else 0
  {
    hide MarkOf;
    if n > 0 {
      InitialCounts(n - 1, bKernel, coreBase, coreTop);
    }
  }

  /** After the setup a page is in use when it is in the BIOS window, or above it and not below the kernel, up to the
      end of the descriptors. */
  lemma CountsAtStart(n: nat, bKernel: Word, coreTop: Word, i: nat)
    requires i < n
    ensures var p := Initial(n, bKernel, AlignInf(bKernel), coreTop);
            |p.cnt| == n
            && p.cnt[i] == if 0xa_0000 <= i * 4096 < 0x10_0000 || (0x10_0000 <= i * 4096 && bKernel <= i * 4096 < coreTop)
                           then 1 else 0
  {
    hide Initial;
    InitialCounts(n, bKernel, AlignInf(bKernel), coreTop);
    AlignedDown(bKernel);
  }

  /** Pages are added at the head, so the highest come first. */
  ghost predicate Descending(s: seq<nat>, n: nat) {
    && (forall i :: 0 <= i < |s| ==> s[i] < n)
    && (forall i, j :: 0 <= i < j < |s| ==> s[i] > s[j])
  }

  lemma {:induction false} InitialDescends(n: nat, bKernel: Word, coreBase: Word, coreTop: Word)
    ensures var p := Initial(n, bKernel, coreBase, coreTop); Descending(p.free, n) && Descending(p.used, n)
  {
    hide MarkOf;
    if n > 0 {
      InitialDescends(n - 1, bKernel, coreBase, coreTop);
    }
  }

  /** The descriptors start at the page after the kernel image and take 20 bytes for each page of RAM. */
  lemma CoreTopIs(ram: Word, eKernel: Word)
    ensures CoreTop(AlignInf(ram), eKernel)
            == ((eKernel + 4095) / 4096 * 4096 + (20 * (ram / 4096) + 4095) / 4096 * 4096) % 0x1_0000_0000
    ensures eKernel + 20 * (ram / 4096) < 0xFFFF_0000 ==> eKernel + 20 * (ram / 4096) <= CoreTop(AlignInf(ram), eKernel)
  {
    assert AlignInf(ram) / PAGE_SIZE == ram / 4096 by {
      assert ram == ram / 4096 * 4096 + ram % 4096;
    }
    RoundUp(eKernel);
    RoundUp(ram / 4096 * 20);
    hide AlignSup, AlignInf;
    var a, b := (eKernel + 4095) / 4096 * 4096, (20 * (ram / 4096) + 4095) / 4096 * 4096;
    WrapSum(a, b);
  }

  lemma WrapSum(a: nat, b: nat)
    ensures (a % WORD + b % WORD) % WORD == (a + b) % WORD
  {}

  lemma RoundUp(size: Word)
    ensures AlignSup(size) == (size + 4095) / 4096 * 4096 % WORD
    ensures size <= (size + 4095) / 4096 * 4096 < size + 4096
  {
    if size > 0 {
      assert (size + 4095) / 4096 == (size - 1) / 4096 + 1;
    }
  }

  /** The accounts start well: all pages but page 0 are on the list that their mark asks for. */
  lemma {:induction false} InitialOK(n: nat, bKernel: Word, coreBase: Word, coreTop: Word)
    ensures OK(Initial(n, bKernel, coreBase, coreTop))
  {
    hide MarkOf, Initial, OK;
    if n == 0 {
      NoPages(bKernel, coreBase, coreTop);
    } else {
      InitialOK(n - 1, bKernel, coreBase, coreTop);
      InitialCounts(n - 1, bKernel, coreBase, coreTop);
      OnlyPageZero(n - 1, bKernel, coreBase, coreTop);
      NextInitial(n - 1, bKernel, coreBase, coreTop);
      if n == 1 {
        NoPages(bKernel, coreBase, coreTop);
      } else {
        OneMore(Initial(n - 1, bKernel, coreBase, coreTop));
      }
    }
  }

  lemma NoPages(bKernel: Word, coreBase: Word, coreTop: Word)
    ensures Initial(0, bKernel, coreBase, coreTop) == Pages([], [], [])
    ensures OK(Pages([], [], [])) && OK(Pages([], [], [] + [0]))
  {}

  lemma OnlyPageZero(i: nat, bKernel: Word, coreBase: Word, coreTop: Word)
    ensures MarkOf(i * PAGE_SIZE, bKernel, coreBase, coreTop) == Reserved <==> i == 0
  {}

  lemma OneMore(p: Pages)
    requires OK(p) && |p.cnt| > 0
    ensures OK(Pages([|p.cnt|] + p.free, p.used, p.cnt + [0]))
    ensures OK(Pages(p.free, [|p.cnt|] + p.used, p.cnt + [1]))
  {
    hide Distinct;
    PushedContents(p.free, |p.cnt|);
    PushedContents(p.used, |p.cnt|);
  }

  /** The pages from the base of the kernel to the end of the descriptors are in use after the setup exactly when the
      kernel is not below the BIOS window and, if above it, starts at a page boundary: the first page of a kernel
      that starts in the middle of a page is marked free. */
  lemma CoreIsInUse(bKernel: Word, coreTop: Word)
    requires AlignInf(bKernel) < coreTop
    ensures (forall i: nat :: AlignInf(bKernel) <= i * PAGE_SIZE < coreTop ==>
              MarkOf(i * PAGE_SIZE, bKernel, AlignInf(bKernel), coreTop) in {Kernel, HwMap})
            <==> BIOS_N_VIDEO_START <= AlignInf(bKernel)
                 && (BIOS_N_VIDEO_END <= bKernel ==> bKernel % PAGE_SIZE == 0)
  {
    var base := AlignInf(bKernel);
    var k := bKernel / PAGE_SIZE;
    assert base == k * PAGE_SIZE;
    if base < BIOS_N_VIDEO_START || (BIOS_N_VIDEO_END <= bKernel && bKernel % PAGE_SIZE != 0) {
      assert MarkOf(k * PAGE_SIZE, bKernel, base, coreTop) !in {Kernel, HwMap};
    } else {
      forall i: nat | base <= i * PAGE_SIZE < coreTop
        ensures MarkOf(i * PAGE_SIZE, bKernel, base, coreTop) in {Kernel, HwMap}
      {
        if i * PAGE_SIZE < bKernel { NoPageBetween(bKernel, i); }
      }
    }
  }

  /** A kernel loaded at 0x100800: its first page could be handed out. */
  lemma UnalignedKernel(coreTop: Word)
    requires coreTop > 0x10_0000
    ensures var bKernel := 0x10_0800;
            AlignInf(bKernel) <= 0x100 * PAGE_SIZE < coreTop
            && MarkOf(0x100 * PAGE_SIZE, bKernel, AlignInf(bKernel), coreTop) == Free
  {}

  lemma NoPageBetween(bKernel: Word, i: nat)
    requires bKernel - bKernel % PAGE_SIZE <= i * PAGE_SIZE < bKernel
    ensures bKernel % PAGE_SIZE != 0 && bKernel - bKernel % PAGE_SIZE == i * PAGE_SIZE
  {}

  /** Page numbers of a list of descriptors. */
  function Numbers(s: seq<PageDescr>): (r: seq<nat>)
    ensures |r| == |s| && forall i :: 0 <= i < |s| ==> r[i] == s[i].paddr / PAGE_SIZE
  {
    seq(|s|, i requires 0 <= i < |s| => s[i].paddr / PAGE_SIZE)
  }

  function Counts(s: seq<PageDescr>): (r: seq<nat>)
    reads s
    ensures |r| == |s| && forall i :: 0 <= i < |s| ==> r[i] == s[i].refCnt
  {
    if s == [] then [] else Counts(s[..|s| - 1]) + [s[|s| - 1].refCnt]
  }

  /** A descriptor on a list is the one of its page. */
  ghost predicate Homed(s: seq<PageDescr>, descrs: seq<PageDescr>) {
    forall i :: 0 <= i < |s| ==> s[i].paddr / PAGE_SIZE < |descrs| && s[i] == descrs[s[i].paddr / PAGE_SIZE]
  }

  ghost predicate Apart(s: seq<PageDescr>, t: seq<PageDescr>) {
    forall x :: x in s ==> x !in t
  }

  lemma RestIsApart(list: PageDescr?, s: seq<PageDescr>, k: nat, t: seq<PageDescr>)
    requires Ring(list, s) && k < |s| && Apart(s, t) && Apart(t, s)
    ensures |RemoveAt(s, k)| == |s| - 1 && list != null && s[k] in s && s[k] !in RemoveAt(s, k) && s[k] !in t
    ensures Apart(RemoveAt(s, k), t) && Apart(t, RemoveAt(s, k))
    ensures forall x :: x in t ==> x !in s
  {
    RemoveAtContents(s, k);
    assert forall x :: x in RemoveAt(s, k) ==> x in Elems(RemoveAt(s, k));
    assert s[k] in Elems(s);
  }

  class PhysMem {
    var descrs: seq<PageDescr>
    var freePages: PageDescr?
    var usedPages: PageDescr?
    var top: nat
    var totalCount: nat
    var usedCount: nat
    ghost var freeSeq: seq<PageDescr>
    ghost var usedSeq: seq<PageDescr>

    constructor ()
      ensures descrs == [] && freePages == null && usedPages == null
    {
      descrs, freePages, usedPages, top, totalCount, usedCount := [], null, null, 0, 0, 0;
      freeSeq, usedSeq := [], [];
    }

    ghost function View(): Pages
      reads this, descrs
    {
      Pages(Numbers(freeSeq), Numbers(usedSeq), Counts(descrs))
    }

    /** Two rings, with no descriptor on both. */
    ghost predicate Rings()
      reads this`freePages, this`usedPages, this`freeSeq, this`usedSeq
      reads freeSeq`prev, freeSeq`next, usedSeq`prev, usedSeq`next
    {
      && Ring(freePages, freeSeq) && Ring(usedPages, usedSeq)
      && Apart(freeSeq, usedSeq) && Apart(usedSeq, freeSeq)
    }

    /** The descriptors are an array indexed by page number, and the counters count. */
    ghost predicate Indexed()
      reads this
    {
      && totalCount == |descrs| && usedCount == |usedSeq|
      && forall i :: 0 <= i < |descrs| ==> descrs[i].paddr == i * PAGE_SIZE
    }

    ghost predicate Laid()
      reads this
    {
      top == |descrs| * PAGE_SIZE && Indexed()
    }

    ghost predicate Valid()
      reads this, descrs, freeSeq, usedSeq
    {
      && Laid() && Rings() && Homed(freeSeq, descrs) && Homed(usedSeq, descrs) && OK(View())
    }

    lemma OnOneList(x: PageDescr)
      requires Valid() && (x in freeSeq || x in usedSeq)
      ensures x in descrs && descrs[x.paddr / PAGE_SIZE] == x
      ensures x in freeSeq <==> x.refCnt == 0
      ensures x in usedSeq <==> x.refCnt > 0
    {
      hide Ring, Distinct;
      if x in freeSeq {
        var i :| 0 <= i < |freeSeq| && freeSeq[i] == x;
        assert Numbers(freeSeq)[i] in View().free;
      }
      if x in usedSeq {
        var i :| 0 <= i < |usedSeq| && usedSeq[i] == x;
        assert Numbers(usedSeq)[i] in View().used;
      }
    }

    // The two lists, one change at a time: the other list stays as it is.

    method LeaveFree(item: PageDescr, ghost k: nat)
      requires Rings() && k < |freeSeq| && item == freeSeq[k]
      modifies this`freePages, this`freeSeq, freeSeq`prev, freeSeq`next
      ensures Rings() && freeSeq == RemoveAt(old(freeSeq), k) && item !in freeSeq && item !in usedSeq
    {
      hide Ring, Linked, RemoveAt, Distinct, Apart;
      ghost var f := freeSeq;
      RestIsApart(freePages, f, k, usedSeq);
      freePages := DeleteItem(freePages, item, f, k);
      freeSeq := RemoveAt(f, k);
      assert forall x :: x in usedSeq ==> x.prev == old(x.prev) && x.next == old(x.next);
    }

    method EnterUsed(item: PageDescr)
      requires Rings() && item !in freeSeq && item !in usedSeq
      modifies this`usedPages, this`usedSeq, this`usedCount, usedSeq`prev, usedSeq`next, item`prev, item`next
      ensures Rings() && usedSeq == old(usedSeq) + [item] && usedCount == old(usedCount) + 1
    {
      hide Ring, Linked;
      usedPages := AddTail(usedPages, item, usedSeq);
      usedSeq := usedSeq + [item];
      usedCount := usedCount + 1;
      assert forall x :: x in freeSeq ==> x.prev == old(x.prev) && x.next == old(x.next);
    }

    method StartUsed(item: PageDescr)
      requires Rings() && item !in freeSeq && item !in usedSeq
      modifies this`usedPages, this`usedSeq, this`usedCount, usedSeq`prev, usedSeq`next, item`prev, item`next
      ensures Rings() && usedSeq == [item] + old(usedSeq) && usedCount == old(usedCount) + 1
    {
      hide Ring, Linked;
      usedPages := AddHead(usedPages, item, usedSeq);
      usedSeq := [item] + usedSeq;
      usedCount := usedCount + 1;
      assert forall x :: x in freeSeq ==> x.prev == old(x.prev) && x.next == old(x.next);
    }

    method LeaveUsed(item: PageDescr, ghost k: nat)
      requires Rings() && k < |usedSeq| && item == usedSeq[k] && usedCount > 0
      modifies this`usedPages, this`usedSeq, this`usedCount, usedSeq`prev, usedSeq`next
      ensures Rings() && usedSeq == RemoveAt(old(usedSeq), k) && item !in freeSeq && item !in usedSeq
      ensures usedCount == old(usedCount) - 1 && |usedSeq| == |old(usedSeq)| - 1
    {
      hide Ring, Linked, RemoveAt, Distinct, Apart;
      ghost var u := usedSeq;
      RestIsApart(usedPages, u, k, freeSeq);
      usedPages := DeleteItem(usedPages, item, u, k);
      usedSeq := RemoveAt(u, k);
      usedCount := usedCount - 1;
      assert forall x :: x in freeSeq ==> x.prev == old(x.prev) && x.next == old(x.next);
    }

    method EnterFree(item: PageDescr)
      requires Rings() && item !in freeSeq && item !in usedSeq
      modifies this`freePages, this`freeSeq, freeSeq`prev, freeSeq`next, item`prev, item`next
      ensures Rings() && freeSeq == [item] + old(freeSeq)
    {
      hide Ring, Linked;
      freePages := AddHead(freePages, item, freeSeq);
      freeSeq := [item] + freeSeq;
      assert forall x :: x in usedSeq ==> x.prev == old(x.prev) && x.next == old(x.next);
    }

    /** What changed in the descriptors: the count of one page. */
    ghost predicate Recounted(cnt: seq<nat>, i: nat, c: nat)
      reads this, descrs
    {
      && i < |descrs| && |cnt| == |descrs|
      && forall k :: 0 <= k < |descrs| ==> descrs[k].refCnt == if k == i then c else cnt[k]
    }

    /** The accounts after a descriptor went from the free list to the used list. */
    lemma AfterFreeToUsed(v: Pages, f: seq<PageDescr>, u: seq<PageDescr>, k: nat, w: Pages)
      requires k < |f| && Homed(f, descrs) && Homed(u, descrs) && v == Pages(Numbers(f), Numbers(u), v.cnt)
      requires freeSeq == RemoveAt(f, k) && usedSeq == u + [f[k]] && Recounted(v.cnt, f[k].paddr / PAGE_SIZE, 1)
      requires var i := f[k].paddr / PAGE_SIZE; w == Pages(RemoveAt(v.free, k), v.used + [i], v.cnt[i := 1])
      ensures Homed(freeSeq, descrs) && Homed(usedSeq, descrs) && View() == w
    {
      assert Numbers(freeSeq) == w.free;
      assert Numbers(usedSeq) == w.used;
      assert Counts(descrs) == w.cnt;
    }

    lemma AfterUsedToFree(v: Pages, f: seq<PageDescr>, u: seq<PageDescr>, k: nat, w: Pages)
      requires k < |u| && Homed(f, descrs) && Homed(u, descrs) && v == Pages(Numbers(f), Numbers(u), v.cnt)
      requires usedSeq == RemoveAt(u, k) && freeSeq == [u[k]] + f && Recounted(v.cnt, u[k].paddr / PAGE_SIZE, 0)
      requires var i := u[k].paddr / PAGE_SIZE; w == Pages([i] + v.free, RemoveAt(v.used, k), v.cnt[i := 0])
      ensures Homed(freeSeq, descrs) && Homed(usedSeq, descrs) && View() == w
    {
      assert Numbers(freeSeq) == w.free;
      assert Numbers(usedSeq) == w.used;
      assert Counts(descrs) == w.cnt;
    }

    /** A descriptor no longer referenced goes to the free list. */
    method GiveBack(item: PageDescr, ghost i: nat, ghost k: nat, ghost v: Pages, ghost w: Pages)
      requires Laid() && Rings() && Homed(freeSeq, descrs) && Homed(usedSeq, descrs) && v == View()
      requires k < |usedSeq| && i < |descrs| && item == usedSeq[k] == descrs[i] && item.paddr == i * PAGE_SIZE
      requires item.refCnt == 1 && OK(w) && w == Pages([i] + v.free, RemoveAt(v.used, k), v.cnt[i := 0])
      modifies this, descrs
      ensures Valid() && descrs == old(descrs) && View() == w
    {
      hide OK, RemoveAt, Numbers, Counts, Rings;
      ghost var f, u := freeSeq, usedSeq;
      assert forall k :: 0 <= k < |descrs| ==> descrs[k].refCnt == v.cnt[k];
      item.refCnt := item.refCnt - 1;
      LeaveUsed(item, k);
      EnterFree(item);
      assert Recounted(v.cnt, i, 0);
      assert Laid();
      hide Recounted, Laid, Homed;
      AfterUsedToFree(v, f, u, k, w);
    }

    /** What physmem_ref_physpage_new finds at the head of the free list. */
    lemma FirstFree() returns (i: nat, w: Pages)
      requires Valid()
      ensures freePages == null <==> |freeSeq| == 0
      ensures freePages == null ==> Step(View(), New) == (View(), 0)
      ensures freePages != null ==>
                && i < |descrs| && descrs[i] == freePages == freeSeq[0] && freePages.paddr == i * PAGE_SIZE
                && freePages.refCnt == 0
                && w == Pages(RemoveAt(View().free, 0), View().used + [i], View().cnt[i := 1])
                && Step(View(), New) == (w, i * PAGE_SIZE) && OK(w)
    {
      RingIsEmpty(freePages, freeSeq);
      StepKeeps(View(), New);
      if freePages != null {
        OnOneList(freePages);
        i := freePages.paddr / PAGE_SIZE;
        w := Step(View(), New).0;
        assert freePages == freeSeq[0] && RemoveAt(View().free, 0) == View().free[1..];
      } else {
        i, w := 0, View();
      }
    }

    /** A descriptor found free goes to the used list, with the count it has by then. */
    method TakeFree(item: PageDescr, ghost i: nat, ghost k: nat, ghost v: Pages, ghost w: Pages)
      requires Laid() && Rings() && Homed(freeSeq, descrs) && Homed(usedSeq, descrs) && v == View()
      requires k < |freeSeq| && i < |descrs| && item == freeSeq[k] == descrs[i] && item.paddr == i * PAGE_SIZE
      requires item.refCnt == 0 && OK(w) && w == Pages(RemoveAt(v.free, k), v.used + [i], v.cnt[i := 1])
      modifies this, descrs
      ensures Valid() && descrs == old(descrs) && View() == w
    {
      hide OK, RemoveAt, Numbers, Counts, Rings;
      ghost var f, u := freeSeq, usedSeq;
      assert forall k :: 0 <= k < |descrs| ==> descrs[k].refCnt == v.cnt[k];
      LeaveFree(item, k);
      item.refCnt := item.refCnt + 1;
      EnterUsed(item);
      assert Recounted(v.cnt, i, 1);
      assert Laid();
      hide Recounted, Laid, Homed;
      AfterFreeToUsed(v, f, u, k, w);
    }

    /** physmem_ref_physpage_new. */
    method RefNew() returns (paddr: nat)
      requires Valid()
      modifies this, descrs
      ensures Valid() && descrs == old(descrs)
      ensures (View(), paddr as int) == Step(old(View()), New)
    {
      ghost var i, w := FirstFree();
      hide OK, RemoveAt, Numbers, Counts, Rings, Step, Laid, Homed;
      if freePages == null {
        return 0;
      }
      var item := freePages;
      // The source gives up when the count of the page is 1, which it never is here.
      assert item.refCnt != 1;
      TakeFree(item, i, 0, View(), w);
      paddr := item.paddr;
    }

    /** get_page_descr_at_paddr. */
    method DescrAt(paddr: Word) returns (d: PageDescr?)
      requires Valid()
      ensures d == if HasDescr(View(), paddr) then descrs[paddr / PAGE_SIZE] else null
    {
      if paddr % PAGE_SIZE != 0 {
        return null;
      }
      if paddr < PAGE_SIZE || paddr >= top {
        return null;
      }
      d := descrs[paddr / PAGE_SIZE];
    }

    /** Where the two lists hold the descriptor of a page, and what the accounts become when it changes lists. */
    lemma Held(i: nat) returns (k: nat, w: Pages)
      requires Valid() && 0 < i < |descrs|
      ensures OK(w)
      ensures var v := View();
              && descrs[i].paddr == i * PAGE_SIZE && v.cnt[i] == descrs[i].refCnt
              && (v.cnt[i] == 0 ==> k < |freeSeq| && freeSeq[k] == descrs[i] && i in v.free && k == PosOf(v.free, i))
              && (v.cnt[i] == 0 ==> w == Pages(Delete<nat>(v.free, i), v.used + [i], v.cnt[i := 1]))
              && (v.cnt[i] > 0 ==> k < |usedSeq| && usedSeq[k] == descrs[i] && i in v.used && k == PosOf(v.used, i))
              && (v.cnt[i] == 1 ==> w == Pages([i] + v.free, Delete<nat>(v.used, i), v.cnt[i := 0]))
    {
      var v := View();
      var a := i * PAGE_SIZE;
      assert a / PAGE_SIZE == i && a % PAGE_SIZE == 0;
      k, w := 0, v;
      if v.cnt[i] == 0 {
        k := PosOf(v.free, i);
        KeepsRefAt(v, i);
        w := Pages(Delete<nat>(v.free, i), v.used + [i], v.cnt[i := 1]);
      } else {
        k := PosOf(v.used, i);
        if v.cnt[i] == 1 {
          KeepsUnref(v, i);
          w := Pages([i] + v.free, Delete<nat>(v.used, i), v.cnt[i := 0]);
        }
      }
    }

    /** A count that stays above 0 changes no list. */
    lemma Recount(v: Pages, i: nat, c: nat)
      requires OK(v) && 0 < i < |v.cnt| && v.cnt[i] > 0 && c > 0
      requires Laid() && Rings() && Homed(freeSeq, descrs) && Homed(usedSeq, descrs)
      requires v == Pages(Numbers(freeSeq), Numbers(usedSeq), v.cnt) && Recounted(v.cnt, i, c)
      ensures Valid() && View() == v.(cnt := v.cnt[i := c])
    {
      hide Distinct, Laid, Rings, Homed;
      assert Counts(descrs) == v.cnt[i := c];
      assert forall j :: 0 < j < |v.cnt| ==> (v.cnt[i := c][j] == 0 <==> v.cnt[j] == 0);
    }

    /** physmem_ref_physpage_at. */
    method RefAt(paddr: Word) returns (r: int)
      requires Valid()
      modifies this, descrs
      ensures Valid() && descrs == old(descrs)
      ensures (View(), r) == Step(old(View()), PageAccounting.RefAt(paddr))
    {
      hide Rings, Homed, OK, Ring, Distinct, RemoveAt;
      ghost var v, i := View(), paddr / PAGE_SIZE;
      var d := DescrAt(paddr);
      if d == null {
        return -1;
      }
      ghost var k, w := Held(i);
      hide Numbers, Counts, Laid, Delete;
      if d.refCnt + 1 == 1 {
        TakeFree(d, i, k, v, w);
        return 0;
      }
      d.refCnt := d.refCnt + 1;
      Recount(v, i, v.cnt[i] + 1);
      r := 1;
    }

    /** physmem_unref_physpage. */
    method Unref(paddr: Word) returns (r: int)
      requires Valid()
      modifies this, descrs
      ensures Valid() && descrs == old(descrs)
      ensures (View(), r) == Step(old(View()), PageAccounting.Unref(paddr))
    {
      hide Rings, Homed, OK, Ring, Distinct, RemoveAt;
      ghost var v, i := View(), paddr / PAGE_SIZE;
      var d := DescrAt(paddr);
      if d == null {
        return -1;
      }
      ghost var k, w := Held(i);
      hide Numbers, Counts, Laid, Delete;
      if d.refCnt <= 0 {
        return -1;
      }
      if d.refCnt - 1 <= 0 {
        GiveBack(d, i, k, v, w);
        return 1;
      }
      d.refCnt := d.refCnt - 1;
      Recount(v, i, v.cnt[i] - 1);
      r := 0;
    }

    /** The part of physmem_setup on one page, the next one: its descriptor, its mark, its list. */
    method Scan(bKernel: Word, coreBase: Word, coreTop: Word)
      requires Indexed() && Rings() && Homed(freeSeq, descrs) && Homed(usedSeq, descrs)
      requires View() == Initial(|descrs|, bKernel, coreBase, coreTop)
      modifies this, descrs
      ensures Indexed() && Rings() && Homed(freeSeq, descrs) && Homed(usedSeq, descrs)
      ensures |descrs| == |old(descrs)| + 1 && descrs[..|descrs| - 1] == old(descrs) && fresh(descrs[|descrs| - 1])
      ensures top == old(top) && View() == Initial(|descrs|, bKernel, coreBase, coreTop)
    {
      hide Rings, MarkOf, Counts, Numbers, Initial;
      ghost var was, f, u := descrs, freeSeq, usedSeq;
      ghost var v := View();
      NextInitial(|was|, bKernel, coreBase, coreTop);
      var addr := |descrs| * PAGE_SIZE;
      var d := new PageDescr(addr);
      descrs := descrs + [d];
      totalCount := totalCount + 1;
      match MarkOf(addr, bKernel, coreBase, coreTop) {
        case Free =>
          EnterFree(d);
        case Kernel =>
          d.refCnt := 1;
          StartUsed(d);
        case HwMap =>
          d.refCnt := 1;
          StartUsed(d);
        case Reserved =>
      }
      hide Homed;
      OneMoreDescr(was, v.cnt, d);
      NumbersGrow(f, was, d);
      NumbersGrow(u, was, d);
    }

    /** physmem_setup, on a RAM of `ram` bytes and a kernel image from `bKernel` to `eKernel`. */
    method Setup(ram: Word, bKernel: Word, eKernel: Word) returns (ret: int, coreBase: Word, coreTop: Word)
      modifies this
      ensures coreBase == AlignInf(bKernel) && coreTop == CoreTop(AlignInf(ram), eKernel)
      ensures ret == if coreTop > AlignInf(ram) then -3 else 0
      ensures ret != 0 ==> freePages == null && usedPages == null && totalCount == usedCount == 0
      ensures ret == 0 ==> Valid() && top == AlignInf(ram) && forall i :: 0 <= i < |descrs| ==> fresh(descrs[i])
      ensures ret == 0 ==> View() == Initial(|descrs|, bKernel, coreBase, coreTop)
      ensures ret == if coreTop > ram / 4096 * 4096 then -3 else 0
      ensures coreTop == ((eKernel + 4095) / 4096 * 4096 + (20 * (ram / 4096) + 4095) / 4096 * 4096) % 0x1_0000_0000
      ensures eKernel + 20 * (ram / 4096) < 0xFFFF_0000 ==> eKernel + 20 * (ram / 4096) <= coreTop
      ensures ret == 0 ==>
                && |descrs| == ram / 4096
                && (forall i :: 0 <= i < |descrs| ==>
                      descrs[i].refCnt == if 0xa_0000 <= i * 4096 < 0x10_0000
                                             || (0x10_0000 <= i * 4096 && bKernel <= i * 4096 < coreTop) then 1 else 0)
                && (forall i, j :: 0 <= i < j < |freeSeq| ==> freeSeq[i].paddr > freeSeq[j].paddr)
                && (forall i, j :: 0 <= i < j < |usedSeq| ==> usedSeq[i].paddr > usedSeq[j].paddr)
    {
      hide Initial, MarkOf, CoreTop, AlignInf, Ring, Rings, Indexed, Laid, Homed, OK, Numbers, Counts, View, Valid;
      AlignedDown(ram);
      AlignedDown(bKernel);
      RamPages(ram);
      CoreTopIs(ram, eKernel);
      var ramSize := AlignInf(ram);
      freePages, usedPages := null, null;
      totalCount, usedCount := 0, 0;
      freeSeq, usedSeq := [], [];
      coreBase := AlignInf(bKernel);
      coreTop := CoreTop(ramSize, eKernel);
      if coreTop > ramSize {
        return -3, coreBase, coreTop;
      }
      top := ramSize;
      descrs := [];
      NothingScanned(bKernel, coreBase, coreTop);
      while |descrs| * PAGE_SIZE < top
        invariant |descrs| * PAGE_SIZE <= top == ramSize && top % PAGE_SIZE == 0
        invariant Indexed() && Rings() && Homed(freeSeq, descrs) && Homed(usedSeq, descrs)
        invariant forall i :: 0 <= i < |descrs| ==> fresh(descrs[i])
        invariant View() == Initial(|descrs|, bKernel, coreBase, coreTop)
        decreases top - |descrs| * PAGE_SIZE
      {
        Scan(bKernel, coreBase, coreTop);
      }
      InitialOK(|descrs|, bKernel, coreBase, coreTop);
      SetupDone();
      SetupMeans(bKernel, coreTop);
      ret := 0;
    }

    /** What the accounts say of the descriptors and the rings. */
    lemma SetupMeans(bKernel: Word, coreTop: Word)
      requires Indexed() && Homed(freeSeq, descrs) && Homed(usedSeq, descrs)
      requires AlignInf(bKernel) < WORD && View() == Initial(|descrs|, bKernel, AlignInf(bKernel), coreTop)
      ensures forall i :: 0 <= i < |descrs| ==>
                descrs[i].refCnt == if 0xa_0000 <= i * 4096 < 0x10_0000
                                       || (0x10_0000 <= i * 4096 && bKernel <= i * 4096 < coreTop) then 1 else 0
      ensures forall i, j :: 0 <= i < j < |freeSeq| ==> freeSeq[i].paddr > freeSeq[j].paddr
      ensures forall i, j :: 0 <= i < j < |usedSeq| ==> usedSeq[i].paddr > usedSeq[j].paddr
    {
      hide Initial, AlignInf;
      InitialDescends(|descrs|, bKernel, AlignInf(bKernel), coreTop);
      forall i | 0 <= i < |descrs|
        ensures descrs[i].refCnt == if 0xa_0000 <= i * 4096 < 0x10_0000
                                       || (0x10_0000 <= i * 4096 && bKernel <= i * 4096 < coreTop) then 1 else 0
      {
        CountsAtStart(|descrs|, bKernel, coreTop, i);
        assert Counts(descrs)[i] == View().cnt[i];
      }
      HomedDescends(freeSeq, View().free);
      HomedDescends(usedSeq, View().used);
    }

    lemma HomedDescends(s: seq<PageDescr>, numbers: seq<nat>)
      requires Indexed() && Homed(s, descrs) && numbers == Numbers(s) && Descending(numbers, |descrs|)
      ensures forall i, j :: 0 <= i < j < |s| ==> s[i].paddr > s[j].paddr
    {
      forall i, j | 0 <= i < j < |s| ensures s[i].paddr > s[j].paddr {
        assert numbers[i] > numbers[j];
      }
    }

    lemma SetupDone()
      requires Indexed() && Rings() && Homed(freeSeq, descrs) && Homed(usedSeq, descrs) && OK(View())
      requires top == |descrs| * PAGE_SIZE
      ensures Valid()
    {}

    lemma NothingScanned(bKernel: Word, coreBase: Word, coreTop: Word)
      requires descrs == [] && freeSeq == [] && usedSeq == [] && freePages == null && usedPages == null
      requires totalCount == usedCount == 0
      ensures Indexed() && Homed(freeSeq, descrs) && Homed(usedSeq, descrs) && Rings()
      ensures View() == Initial(0, bKernel, coreBase, coreTop)
    {}

    /** One call. */
    method Do(c: Call) returns (a: int)
      requires Valid()
      modifies this, descrs
      ensures Valid() && descrs == old(descrs) && OK(old(View())) && OK(View())
      ensures (View(), a) == Step(old(View()), c)
    {
      hide Rings, Laid, Homed, Numbers, Counts, Step;
      match c {
        case New => a := RefNew();
        case RefAt(p) => a := RefAt(p);
        case Unref(p) => a := Unref(p);
      }
    }

    /** Any run of calls after the setup keeps the rings well formed and the accounts as PageAccounting.Run has them. */
    method Run(calls: seq<Call>) returns (answers: seq<int>)
      requires Valid()
      modifies this, descrs
      ensures Valid() && (View(), answers) == PageAccounting.Run(old(View()), calls)
    {
      ghost var v := View();
      assert OK(v);
      hide Valid, Step, OK, View;
      answers := [];
      for n := 0 to |calls|
        invariant Valid() && descrs == old(descrs) && (View(), answers) == PageAccounting.Run(v, calls[..n])
      {
        hide PageAccounting.Run;
        RunStep(v, calls, n);
        var a := Do(calls[n]);
        answers := answers + [a];
      }
      assert calls[..|calls|] == calls;
    }
  }

  lemma RamPages(ram: Word)
    ensures AlignInf(ram) == ram / 4096 * 4096
  {
    assert ram == ram / 4096 * 4096 + ram % 4096;
  }

  lemma OneMoreDescr(s: seq<PageDescr>, cnt: seq<nat>, d: PageDescr)
    requires Counts(s) == cnt
    ensures Counts(s + [d]) == cnt + [d.refCnt]
  {
    assert (s + [d])[..|s|] == s;
  }

  lemma NumbersGrow(s: seq<PageDescr>, descrs: seq<PageDescr>, d: PageDescr)
    requires Homed(s, descrs) && d.paddr == |descrs| * PAGE_SIZE
    ensures Numbers([d] + s) == [|descrs|] + Numbers(s)
    ensures Homed(s, descrs + [d]) && Homed([d] + s, descrs + [d])
  {}

  lemma NextInitial(n: nat, bKernel: Word, coreBase: Word, coreTop: Word)
    ensures var p, q := Initial(n, bKernel, coreBase, coreTop), Initial(n + 1, bKernel, coreBase, coreTop);
            match MarkOf(n * PAGE_SIZE, bKernel, coreBase, coreTop)
            case Reserved => q == p.(cnt := p.cnt + [0])
            case Free => q == Pages([n] + p.free, p.used, p.cnt + [0])
            case Kernel => q == Pages(p.free, [n] + p.used, p.cnt + [1])
            case HwMap => q == Pages(p.free, [n] + p.used, p.cnt + [1])
  {}

  lemma KeepsRefAt(v: Pages, i: nat)
    requires OK(v) && 0 < i < |v.cnt| && v.cnt[i] == 0
    ensures i in v.free && OK(Pages(Delete<nat>(v.free, i), v.used + [i], v.cnt[i := 1]))
  {
    DeleteContents(v.free, i);
    AppendedContents(v.used, i);
    hide Delete, Distinct;
    MoveKeeps(v, Delete<nat>(v.free, i), v.used + [i], i, 1);
  }

  lemma KeepsUnref(v: Pages, i: nat)
    requires OK(v) && 0 < i < |v.cnt| && v.cnt[i] == 1
    ensures i in v.used && OK(Pages([i] + v.free, Delete<nat>(v.used, i), v.cnt[i := 0]))
  {
    DeleteContents(v.used, i);
    PushedContents(v.free, i);
    hide Delete, Distinct;
    MoveKeeps(v, [i] + v.free, Delete<nat>(v.used, i), i, 0);
  }
}
