/** The counters of an address space (as_account_change_of_arena_prot in mem/uvmm.c). */
module UsageStatistics {
  import opened Words
  import opened Arenas

  datatype Usage = Usage(overall: Word, ro: Word, rw: Word, code: Word)
  datatype Counter = Overall | ReadOnly | Writable | Code

  const NO_RIGHTS := Rights(false, false, false)

  function Get(u: Usage, k: Counter): Word {
    match k
    case Overall => u.overall
    case ReadOnly => u.ro
    case Writable => u.rw
    case Code => u.code
  }

  /** One counter moved by a number of bytes, in 32 bits. */
  function Moved(u: Usage, k: Counter, d: int): (r: Usage)
    ensures Get(r, k) == Plus(Get(u, k), d) && forall j :: j != k ==> Get(r, j) == Get(u, j)
  {
    match k
    case Overall => u.(overall := Plus(u.overall, d))
    case ReadOnly => u.(ro := Plus(u.ro, d))
    case Writable => u.(rw := Plus(u.rw, d))
    case Code => u.(code := Plus(u.code, d))
  }

  /** What each counter is for: all accessible arenas, the read-only ones, the writable ones, the executable ones. */
  predicate Counts(k: Counter, r: Rights) {
    match k
    case Overall => r != NO_RIGHTS
    case ReadOnly => r.read && !r.write
    case Writable => r.write
    case Code => r.exec
  }

  function Bit(b: bool): int { if b then 1 else 0 }

  function Plus(x: int, y: int): Word { (x + y) % WORD }

  /** The step of a counter for a change of rights, in sizes. */
  function Step(k: Counter, was: Rights, now: Rights): int {
    if was == now then 0
    else
      match k
      case Overall => Bit(now != NO_RIGHTS && was == NO_RIGHTS) - Bit(now == NO_RIGHTS && was != NO_RIGHTS)
      case Writable => Bit(now.write) - Bit(was.write)
      case Code => Bit(now.exec) - Bit(was.exec)
      case ReadOnly =>
        if now.write && !was.write then -Bit(was.read)
        else if !now.write && was.write then Bit(now.read)
        else if now.read then 1
        else -1
  }

  /** A change is counted as it should exactly when the right to write changes, or neither side may write and the
      right to read changes. Mapping or unmapping an arena that can only be executed is not of that kind. */
  lemma StepIsExact(was: Rights, now: Rights)
    ensures (forall k :: Step(k, was, now) == Bit(Counts(k, now)) - Bit(Counts(k, was)))
            <==> was == now || was.write != now.write || (!now.write && was.read != now.read)
  {
    var want := Bit(Counts(ReadOnly, now)) - Bit(Counts(ReadOnly, was));
    if !(was == now || was.write != now.write || (!now.write && was.read != now.read)) {
      assert Step(ReadOnly, was, now) != want;
    }
    forall k | k != ReadOnly ensures Step(k, was, now) == Bit(Counts(k, now)) - Bit(Counts(k, was)) {}
  }

  /** Rights whose mapping and unmapping are counted exactly: anything but "execute only". */
  predicate Countable(r: Rights) {
    r == NO_RIGHTS || r.read || r.write
  }

  lemma CountableIsExact(r: Rights)
    ensures Countable(r) <==> forall k :: Step(k, NO_RIGHTS, r) == Bit(Counts(k, r))
    ensures Countable(r) <==> forall k :: Step(k, r, NO_RIGHTS) == -Bit(Counts(k, r))
  {
    StepIsExact(NO_RIGHTS, r);
    StepIsExact(r, NO_RIGHTS);
    assert forall k :: !Counts(k, NO_RIGHTS);
  }

  /** An arena for execution only takes its size off the read-only counter when it is mapped, and again when it is
      unmapped. */
  lemma ExecuteOnly()
    ensures var x := Rights(false, false, true);
            Step(ReadOnly, NO_RIGHTS, x) == Step(ReadOnly, x, NO_RIGHTS) == -1 && !Counts(ReadOnly, x)
  {}

  ghost predicate AllCountable(l: seq<Arena>) {
    forall i :: 0 <= i < |l| ==> Countable(l[i].rights)
  }

  ghost function Weight(x: Arena, k: Counter, onlyShared: bool): nat {
    if Counts(k, x.rights) && (onlyShared ==> x.flags.shared) then x.size else 0
  }

  /** The total size of the arenas, or of the shared ones, that a counter counts. */
  ghost function Sum(l: seq<Arena>, k: Counter, onlyShared: bool): nat {
    if l == [] then 0 else Weight(l[0], k, onlyShared) + Sum(l[1..], k, onlyShared)
  }

  lemma {:induction false} SumConcat(l: seq<Arena>, r: seq<Arena>, k: Counter, o: bool)
    ensures Sum(l + r, k, o) == Sum(l, k, o) + Sum(r, k, o)
  {
    if l == [] {
      assert l + r == r;
    } else {
      assert (l + r)[1..] == l[1..] + r;
      SumConcat(l[1..], r, k, o);
    }
  }

  lemma SumSplice(l: seq<Arena>, i: nat, j: nat, m: seq<Arena>, k: Counter, o: bool)
    requires i <= j <= |l|
    ensures Sum(Splice(l, i, j, m), k, o) + Sum(l[i..j], k, o) == Sum(l, k, o) + Sum(m, k, o)
  {
    assert l == l[..i] + l[i..j] + l[j..];
    SumConcat(l[..i] + l[i..j], l[j..], k, o);
    SumConcat(l[..i], l[i..j], k, o);
    SumConcat(l[..i] + m, l[j..], k, o);
    SumConcat(l[..i], m, k, o);
  }

  lemma {:induction false} SumBelow(l: seq<Arena>, k: Counter, o: bool)
    requires Valid(l) && l != []
    ensures l[0].start + Sum(l, k, o) <= l[|l| - 1].End()
  {
    if |l| > 1 {
      SumBelow(l[1..], k, o);
    }
  }

  /** The sums fit in a word, so a counter equal to its sum modulo the word size is equal to it. */
  lemma SumFits(l: seq<Arena>, k: Counter, o: bool)
    requires Valid(l)
    ensures Sum(l, k, o) % WORD == Sum(l, k, o)
  {
    if l != [] {
      SumBelow(l, k, o);
    }
  }
}
