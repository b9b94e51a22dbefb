/** Sequences used as the contents of a linked list: elements, insertion and deletion at a position. */
module Seqs {

  ghost function Elems<T>(s: seq<T>): set<T> {
    set x | x in s
  }

  ghost predicate Distinct<T>(s: seq<T>) {
    forall i, j :: 0 <= i < j < |s| ==> s[i] != s[j]
  }

  function InsertAt<T>(s: seq<T>, k: nat, x: T): seq<T>
    requires k <= |s|
  {
    s[..k] + [x] + s[k..]
  }

  function RemoveAt<T>(s: seq<T>, k: nat): seq<T>
    requires k < |s|
  {
    s[..k] + s[k + 1..]
  }

  function PosOf<T(==)>(s: seq<T>, x: T): (p: nat)
    requires x in s
    ensures p < |s| && s[p] == x
  {
    if s[0] == x then 0 else 1 + PosOf(s[1..], x)
  }

  /** list_delete: the item goes, the others keep their order. */
  function Delete<T(==)>(s: seq<T>, x: T): seq<T>
    requires x in s
  {
    RemoveAt(s, PosOf(s, x))
  }

  lemma InsertAtContents<T>(s: seq<T>, k: nat, x: T)
    requires k <= |s|
    ensures Elems(InsertAt(s, k, x)) == Elems(s) + {x}
    ensures Distinct(s) && x !in s ==> Distinct(InsertAt(s, k, x))
  {
    assert s == s[..k] + s[k..];
    assert forall y :: y in InsertAt(s, k, x) <==> y in s[..k] || y == x || y in s[k..];
    assert forall y :: y in s <==> y in s[..k] || y in s[k..];
  }

  lemma RemoveAtContents<T>(s: seq<T>, k: nat)
    requires k < |s| && Distinct(s)
    ensures Elems(RemoveAt(s, k)) == Elems(s) - {s[k]}
    ensures Distinct(RemoveAt(s, k))
  {
    assert s == s[..k] + [s[k]] + s[k + 1..];
    assert forall y :: y in RemoveAt(s, k) <==> y in s[..k] || y in s[k + 1..];
    assert forall y :: y in s <==> y in s[..k] || y == s[k] || y in s[k + 1..];
    assert s[k] !in s[..k] && s[k] !in s[k + 1..];
  }

  lemma RemoveAtElement<T>(s: seq<T>, k: nat, i: nat)
    requires k < |s| && i < |s| - 1
    ensures |RemoveAt(s, k)| == |s| - 1
    ensures RemoveAt(s, k)[i] == if i < k then s[i] else s[i + 1]
  {}

  lemma UpdateContents<T>(s: seq<T>, k: nat, x: T)
    requires k < |s| && Distinct(s)
    ensures Elems(s[k := x]) == Elems(s) - {s[k]} + {x}
    ensures x !in Elems(s) - {s[k]} ==> Distinct(s[k := x])
  {
    var t := s[k := x];
    forall y ensures y in t <==> (y in s && y != s[k]) || y == x {
      if y in t {
        var j :| 0 <= j < |t| && t[j] == y;
        assert j == k || s[j] == y;
      }
      if y in s && y != s[k] {
        var j :| 0 <= j < |s| && s[j] == y;
        assert t[j] == y;
      }
      assert t[k] == x;
    }
  }

  lemma {:induction false} DistinctLength<T>(s: seq<T>)
    requires Distinct(s)
    ensures |Elems(s)| == |s|
  {
    if s == [] {
      assert Elems(s) == {};
    } else {
      var t := s[..|s| - 1];
      DistinctLength(t);
      assert s == t + [s[|s| - 1]];
      assert Elems(s) == Elems(t) + {s[|s| - 1]};
      assert s[|s| - 1] !in t;
    }
  }

  lemma IndexOf<T>(s: seq<T>, x: T) returns (i: nat)
    requires x in s
    ensures i < |s| && s[i] == x
  {
    i :| 0 <= i < |s| && s[i] == x;
  }
}
