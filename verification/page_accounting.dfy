/** What mem/physmem.c keeps track of, as values: the pages in the free list, the pages in the used list, and the
    reference counts. A page is named by its number; page 0 stands for "no page". */
module PageAccounting {
  import opened Words
  import opened Seqs

  datatype Pages = Pages(free: seq<nat>, used: seq<nat>, cnt: seq<nat>)

  /** The two lists share out all the pages but page 0, by their counts. */
  ghost predicate OK(p: Pages) {
    && Distinct(p.free) && Distinct(p.used)
    && (forall i :: i in p.free <==> 0 < i < |p.cnt| && p.cnt[i] == 0)
    && (forall i :: i in p.used <==> 0 < i < |p.cnt| && p.cnt[i] > 0)
  }

  datatype Call = New | RefAt(paddr: Word) | Unref(paddr: Word)

  /** get_page_descr_at_paddr finds a descriptor. */
  predicate HasDescr(p: Pages, paddr: nat) {
    paddr % PAGE_SIZE == 0 && 0 < paddr / PAGE_SIZE < |p.cnt|
  }

  /** A call on the accounts, and its answer: an address for New; -1 for a refusal, else whether the page was in use
      before (RefAt) or is free now (Unref). */
  ghost function Step(p: Pages, c: Call): (Pages, int)
    requires OK(p)
  {
    match c
    case New =>
      if p.free == [] then (p, 0)
      else
        var i: nat := p.free[0];
        assert i in p.free;
        (Pages(p.free[1..], p.used + [i], p.cnt[i := 1]), i * PAGE_SIZE)
    case RefAt(a) =>
      var i: nat := a / PAGE_SIZE;
      if !HasDescr(p, a) then (p, -1)
      else if p.cnt[i] == 0 then (Pages(Delete<nat>(p.free, i), p.used + [i], p.cnt[i := 1]), 0)
      else (p.(cnt := p.cnt[i := p.cnt[i] + 1]), 1)
    case Unref(a) =>
      var i: nat := a / PAGE_SIZE;
      if !HasDescr(p, a) || p.cnt[i] == 0 then (p, -1)
      else if p.cnt[i] == 1 then (Pages([i] + p.free, Delete<nat>(p.used, i), p.cnt[i := 0]), 1)
      else (p.(cnt := p.cnt[i := p.cnt[i] - 1]), 0)
  }

  /** A page that changes lists. */
  lemma MoveKeeps(p: Pages, free: seq<nat>, used: seq<nat>, i: nat, c: nat)
    requires OK(p) && 0 < i < |p.cnt| && Distinct(free) && Distinct(used)
    requires forall x :: x in free <==> (x in p.free && x != i) || (x == i && c == 0)
    requires forall x :: x in used <==> (x in p.used && x != i) || (x == i && c > 0)
    ensures OK(Pages(free, used, p.cnt[i := c]))
  {
    hide Distinct;
  }

  /** Every call keeps the lists in step with the counts. */
  lemma StepKeeps(p: Pages, c: Call)
    requires OK(p)
    ensures OK(Step(p, c).0) && |Step(p, c).0.cnt| == |p.cnt|
  {
    hide Distinct, Delete;
    match c {
      case New =>
        if p.free != [] {
          var i: nat := p.free[0];
          assert i in p.free;
          HeadGone(p.free);
          AppendedContents(p.used, i);
          MoveKeeps(p, p.free[1..], p.used + [i], i, 1);
        }
      case RefAt(a) =>
        var i: nat := a / PAGE_SIZE;
        if HasDescr(p, a) && p.cnt[i] == 0 {
          DeleteContents(p.free, i);
          AppendedContents(p.used, i);
          MoveKeeps(p, Delete<nat>(p.free, i), p.used + [i], i, 1);
        }
      case Unref(a) =>
        var i: nat := a / PAGE_SIZE;
        if HasDescr(p, a) && p.cnt[i] == 1 {
          DeleteContents(p.used, i);
          PushedContents(p.free, i);
          MoveKeeps(p, [i] + p.free, Delete<nat>(p.used, i), i, 0);
        }
    }
  }

  /** What the callers are told, by the count before the call: the first free page; whether the page was free (0) or in
      use (1); whether it is still in use (0) or free now (1). */
  lemma Answers(p: Pages, a: Word)
    requires OK(p)
    ensures Step(p, New).1 == if p.free == [] then 0 else 4096 * p.free[0]
    ensures var i := a / 4096;
            if a % 4096 == 0 && 0 < i < |p.cnt| then
              && Step(p, RefAt(a)).1 == (if p.cnt[i] == 0 then 0 else 1)
              && Step(p, Unref(a)).1 == (if p.cnt[i] == 0 then -1 else if p.cnt[i] == 1 then 1 else 0)
            else
              Step(p, RefAt(a)) == Step(p, Unref(a)) == (p, -1)
  {
    assert p.free != [] ==> p.free[0] in p.free;
    hide Delete, Distinct;
  }

  lemma HeadGone(s: seq<nat>)
    requires Distinct(s) && s != []
    ensures Distinct(s[1..]) && forall x :: x in s[1..] <==> x in s && x != s[0]
  {}

  lemma AppendedContents(s: seq<nat>, x: nat)
    ensures forall y :: y in s + [x] <==> y in s || y == x
    ensures Distinct(s) && x !in s ==> Distinct(s + [x])
  {}

  lemma PushedContents(s: seq<nat>, x: nat)
    ensures forall y :: y in [x] + s <==> y in s || y == x
    ensures Distinct(s) && x !in s ==> Distinct([x] + s)
  {}

  lemma DeleteContents(s: seq<nat>, x: nat)
    requires Distinct(s) && x in s
    ensures Distinct(Delete<nat>(s, x)) && forall y :: y in Delete<nat>(s, x) <==> y in s && y != x
  {
    RemoveAtContents(s, PosOf(s, x));
    assert forall y :: y in Delete<nat>(s, x) <==> y in Elems(Delete<nat>(s, x));
    assert forall y :: y in s <==> y in Elems(s);
  }

  // ---- Runs ----

  /** The calls one after the other, with all the answers. */
  ghost function Run(p: Pages, calls: seq<Call>): (r: (Pages, seq<int>))
    requires OK(p)
    ensures OK(r.0) && |r.0.cnt| == |p.cnt| && |r.1| == |calls|
  {
    if calls == [] then (p, [])
    else
      var n := |calls| - 1;
      var r := Run(p, calls[..n]);
      StepKeeps(r.0, calls[n]);
      var q := Step(r.0, calls[n]);
      (q.0, r.1 + [q.1])
  }

  lemma RunStep(p: Pages, calls: seq<Call>, n: nat)
    requires OK(p) && n < |calls|
    ensures var r := Run(p, calls[..n]);
            OK(r.0) && Run(p, calls[..n + 1]) == (Step(r.0, calls[n]).0, r.1 + [Step(r.0, calls[n]).1])
  {
    assert calls[..n + 1][..n] == calls[..n];
  }

  /** What one answered call does to the references of a page, as its caller sees it. */
  function Net(c: Call, answer: int, page: nat): int {
    match c
    case New => if answer != 0 && answer == page * PAGE_SIZE then 1 else 0
    case RefAt(a) => if answer >= 0 && a == page * PAGE_SIZE then 1 else 0
    case Unref(a) => if answer >= 0 && a == page * PAGE_SIZE then -1 else 0
  }

  /** References taken minus references given back. */
  function Balance(calls: seq<Call>, answers: seq<int>, page: nat): int
    requires |calls| == |answers|
  {
    if calls == [] then 0
    else
      var n := |calls| - 1;
      Balance(calls[..n], answers[..n], page) + Net(calls[n], answers[n], page)
  }

  lemma StepCounts(p: Pages, c: Call, page: nat)
    requires OK(p) && 0 < page < |p.cnt|
    ensures |Step(p, c).0.cnt| == |p.cnt|
    ensures Step(p, c).0.cnt[page] == p.cnt[page] + Net(c, Step(p, c).1, page)
  {
    StepKeeps(p, c);
    assert c == New && p.free != [] ==> p.free[0] in p.free;
    hide Distinct, Delete;
  }

  /** After any run, the count of a page is what it was plus what the callers took and did not give back. */
  lemma {:induction false} RunCounts(p: Pages, calls: seq<Call>, page: nat)
    requires OK(p) && 0 < page < |p.cnt|
    ensures Run(p, calls).0.cnt[page] == p.cnt[page] + Balance(calls, Run(p, calls).1, page)
  {
    if calls != [] {
      var n := |calls| - 1;
      var r := Run(p, calls[..n]);
      RunCounts(p, calls[..n], page);
      StepCounts(r.0, calls[n], page);
      assert Run(p, calls).1[..n] == r.1;
    }
  }

  lemma {:induction false} RunPrefix(p: Pages, calls: seq<Call>, k: nat)
    requires OK(p) && k <= |calls|
    ensures Run(p, calls[..k]).1 == Run(p, calls).1[..k]
  {
    if k == |calls| {
      assert calls[..k] == calls;
    } else {
      var n := |calls| - 1;
      RunPrefix(p, calls[..n], k);
      assert calls[..n][..k] == calls[..k];
      assert Run(p, calls).1[..n] == Run(p, calls[..n]).1;
    }
  }

  /** A page handed out as new is one that nobody holds: at that point of the run, every reference taken to it since
      the start has been given back, and it had none at the start that is still held. */
  lemma NewIsUnreferenced(p: Pages, calls: seq<Call>, k: nat, page: nat)
    requires OK(p) && k < |calls| && calls[k] == New && 0 < page < |p.cnt|
    requires Run(p, calls).1[k] == page * PAGE_SIZE
    ensures p.cnt[page] + Balance(calls[..k], Run(p, calls).1[..k], page) == 0
  {
    var before := Run(p, calls[..k]);
    RunPrefix(p, calls, k);
    RunPrefix(p, calls, k + 1);
    assert calls[..k + 1][..k] == calls[..k];
    assert Run(p, calls[..k + 1]).1[k] == Step(before.0, New).1;
    RunCounts(p, calls[..k], page);
    assert before.0.free[0] == page && before.0.free[0] in before.0.free;
  }

  /** Giving a new page straight back restores the accounts, with the lists in the same order. */
  lemma NewThenUnref(p: Pages)
    requires OK(p) && p.free != [] && |p.cnt| * PAGE_SIZE <= WORD
    ensures var q := Step(p, New); 0 < q.1 < WORD && OK(q.0) && Step(q.0, Unref(q.1)) == (p, 1)
  {
    var i: nat := p.free[0];
    assert i in p.free;
    var q := Step(p, New).0;
    StepKeeps(p, New);
    assert i !in p.used;
    DeleteLast(p.used, i);
    assert [i] + p.free[1..] == p.free;
    assert i < |p.cnt|;
    assert q.cnt[i := 0] == p.cnt;
  }

  lemma {:induction false} DeleteLast(s: seq<nat>, x: nat)
    requires x !in s
    ensures x in s + [x] && Delete<nat>(s + [x], x) == s
  {
    var p := PosOf(s + [x], x);
    assert (s + [x])[p] == x;
    assert p == |s|;
  }
}
