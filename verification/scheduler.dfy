/** The round-robin choice of the next process (schedule.c). Processes sit in the table at the index of their pid. */
module Scheduler {

  const MAXPID: nat := 32

  datatype ProcState = Stopped | Ready | Running | Blocked | Zombie

  type Table = s: seq<ProcState> | |s| == MAXPID witness seq(MAXPID, i => Stopped)

  /** The first ready process from one pid on, up to another one, 0 if there is none. */
  function FirstReady(s: Table, lo: nat, hi: nat): (p: nat)
    requires hi <= MAXPID
    ensures p == 0 || lo <= p < hi
    decreases hi - lo
  {
    if lo >= hi then 0 else if s[lo] == Ready then lo else FirstReady(s, lo + 1, hi)
  }

  lemma {:induction false} FirstReadyMeaning(s: Table, lo: nat, hi: nat)
    requires 0 < lo && hi <= MAXPID
    ensures var p := FirstReady(s, lo, hi);
            && (p == 0 ==> forall q :: lo <= q < hi ==> s[q] != Ready)
            && (p != 0 ==> s[p] == Ready && forall q :: lo <= q < p ==> s[q] != Ready)
    decreases hi - lo
  {
    if lo < hi {
      FirstReadyMeaning(s, lo + 1, hi);
    }
  }

  /** The pids after the current one come first, then those before it; process 0 runs when no other one can. */
  function Choice(s: Table, current: nat): (p: nat)
    requires current < MAXPID
    ensures p < MAXPID
  {
    var after := FirstReady(s, current + 1, MAXPID);
    if after != 0 then after else FirstReady(s, 1, current)
  }

  /** How far a pid is behind the current one in the order of the search. */
  function Distance(current: nat, p: nat): int
    requires current < MAXPID && 0 < p < MAXPID
  {
    if p > current then p - current else p - current + (MAXPID - 1)
  }

  class Cpu {
    var table: Table
    var current: nat
    var numProc: nat

    constructor (table: Table, current: nat, numProc: nat)
      requires current < MAXPID
      ensures this.table == table && this.current == current && this.numProc == numProc
    {
      this.table, this.current, this.numProc := table, current, numProc;
    }

    /** schedule, as far as the choice and the states go. */
    method Schedule()
      requires current < MAXPID
      modifies this
      ensures numProc == old(numProc) && current < MAXPID
      ensures old(numProc == 0 || (numProc == 1 && current != 0)) ==>
                current == old(current) && table == old(table[current := Ready])
      ensures old(numProc >= 2 || (numProc == 1 && current == 0)) ==>
                current == old(Choice(table, current)) && table == old(table[current := Ready])[current := Running]
    {
      table := table[current := Ready];
      if numProc == 0 {
        return;
      } else if numProc == 1 && current != 0 {
        return;
      }
      ghost var before := old(table);
      SameChoice(before, current);
      var newpid := 0;
      var i := current + 1;
      while i < MAXPID && newpid == 0
        invariant current < i <= MAXPID
        invariant newpid == 0 ==> FirstReady(table, i, MAXPID) == FirstReady(table, current + 1, MAXPID)
        invariant newpid != 0 ==> newpid == FirstReady(table, current + 1, MAXPID)
      {
        if table[i] == Ready {
          newpid := i;
        }
        i := i + 1;
      }
      if newpid == 0 {
        i := 1;
        while i < current && newpid == 0
          invariant 1 <= i && (i <= current || i == 1)
          invariant newpid == 0 ==> FirstReady(table, i, current) == FirstReady(table, 1, current)
          invariant newpid != 0 ==> newpid == FirstReady(table, 1, current)
        {
          if table[i] == Ready {
            newpid := i;
          }
          i := i + 1;
        }
      }
      // switch_to_task.
      current := newpid;
      table := table[current := Running];
    }
  }

  lemma {:induction false} SameSearch(s: Table, t: Table, lo: nat, hi: nat)
    requires hi <= MAXPID && forall q :: lo <= q < hi ==> s[q] == t[q]
    ensures FirstReady(s, lo, hi) == FirstReady(t, lo, hi)
    decreases hi - lo
  {
    if lo < hi {
      SameSearch(s, t, lo + 1, hi);
    }
  }

  /** The state of the current process does not matter: it is not among those looked at. */
  lemma SameChoice(s: Table, current: nat)
    requires current < MAXPID
    ensures Choice(s[current := Ready], current) == Choice(s, current)
  {
    SameSearch(s, s[current := Ready], current + 1, MAXPID);
    SameSearch(s, s[current := Ready], 1, current);
  }

  /** The choice is the ready process at the smallest distance, and process 0 exactly when no other process but the
      current one is ready. */
  lemma ChoiceIsNearest(s: Table, current: nat)
    requires current < MAXPID
    ensures var c := Choice(s, current);
            && (c == 0 <==> forall q :: 0 < q < MAXPID && q != current ==> s[q] != Ready)
            && (c != 0 ==> c != current && s[c] == Ready
                           && forall q :: 0 < q < MAXPID && q != current && s[q] == Ready ==>
                                Distance(current, c) <= Distance(current, q))
  {
    FirstReadyMeaning(s, current + 1, MAXPID);
    if current > 0 {
      FirstReadyMeaning(s, 1, current);
    }
    var c := Choice(s, current);
    if c == 0 {
      assert FirstReady(s, current + 1, MAXPID) == 0;
    }
  }

  /** A ready process that is passed over gets nearer. */
  lemma PassedOverIsNearer(s: Table, current: nat, p: nat)
    requires current < MAXPID && 0 < p < MAXPID && p != current && s[p] == Ready
    requires Choice(s, current) != p
    ensures 0 < Choice(s, current) && 0 < Distance(Choice(s, current), p) < Distance(current, p)
  {
    ChoiceIsNearest(s, current);
  }

  /** A run of schedule with at least two processes: between two calls the states of the processes may change. */
  ghost predicate IsRun(tables: seq<Table>, currents: seq<nat>) {
    && |currents| == |tables| + 1
    && (forall k :: 0 <= k < |currents| ==> currents[k] < MAXPID)
    && forall k :: 0 <= k < |tables| ==> currents[k + 1] == Choice(tables[k], currents[k])
  }

  /** No starvation: a process that stays ready is chosen after as many calls as its distance, at the latest. */
  lemma {:induction false} NoStarvation(tables: seq<Table>, currents: seq<nat>, p: nat) returns (k: nat)
    requires IsRun(tables, currents) && 0 < p < MAXPID && currents[0] != p
    requires forall j :: 0 <= j < |tables| ==> tables[j][p] == Ready
    requires |tables| >= Distance(currents[0], p)
    ensures 0 < k <= Distance(currents[0], p) && k < |currents| && currents[k] == p
    ensures Distance(currents[0], p) <= MAXPID - 1
    decreases |tables|
  {
    var next := currents[1];
    assert next == Choice(tables[0], currents[0]);
    if next == p {
      k := 1;
    } else {
      PassedOverIsNearer(tables[0], currents[0], p);
      var j := NoStarvation(tables[1..], currents[1..], p);
      k := j + 1;
    }
  }
}
