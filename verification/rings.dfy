/** The circular doubly linked lists of include/list.h, over the page descriptors of mem/physmem.c. The list
    variable, which the macros assign, is the head: null for an empty list. */
module Rings {
  import opened Seqs

  class PageDescr {
    const paddr: nat
    var refCnt: nat
    var prev: PageDescr?
    var next: PageDescr?

    constructor (paddr: nat)
      ensures this.paddr == paddr && refCnt == 0 && prev == null && next == null
    {
      this.paddr, refCnt, prev, next := paddr, 0, null, null;
    }
  }

  function Succ(i: nat, n: nat): nat
    requires i < n
  {
    if i + 1 < n then i + 1 else 0
  }

  function Pred(i: nat, n: nat): nat
    requires i < n
  {
    if i > 0 then i - 1 else n - 1
  }

  /** The items form one circle in this order. */
  ghost predicate Linked(s: seq<PageDescr>)
    reads s`prev, s`next
  {
    forall i :: 0 <= i < |s| ==> s[i].next == s[Succ(i, |s|)] && s[i].prev == s[Pred(i, |s|)]
  }

  /** The list variable holds the head of a circle of distinct items. */
  ghost predicate Ring(list: PageDescr?, s: seq<PageDescr>)
    reads s`prev, s`next
  {
    && Linked(s) && Distinct(s)
    && (s == [] <==> list == null)
    && (s != [] ==> list == s[0])
  }

  /** The links of a circle after an item came in at position `i`. */
  ghost predicate LinkedIn(s: seq<PageDescr>, i: nat, item: PageDescr)
    requires i <= |s| && s != []
    reads s`prev, s`next, item`prev, item`next
  {
    var at, before := if i < |s| then i else 0, if i > 0 then i - 1 else |s| - 1;
    && item.next == s[at] && item.prev == s[before]
    && (forall k :: 0 <= k < |s| ==> s[k].next == if k == before then item else s[Succ(k, |s|)])
    && (forall k :: 0 <= k < |s| ==> s[k].prev == if k == at then item else s[Pred(k, |s|)])
  }

  lemma InsertedIsLinked(s: seq<PageDescr>, i: nat, item: PageDescr)
    requires i <= |s| && s != [] && LinkedIn(s, i, item)
    ensures Linked(InsertAt(s, i, item))
  {
    var t := InsertAt(s, i, item);
    forall k | 0 <= k < |t| ensures t[k].next == t[Succ(k, |t|)] && t[k].prev == t[Pred(k, |t|)] {
      NextAfterInsert(s, i, item, k);
      PrevAfterInsert(s, i, item, k);
    }
  }

  lemma NextAfterInsert(s: seq<PageDescr>, i: nat, item: PageDescr, k: nat)
    requires i <= |s| && s != [] && LinkedIn(s, i, item) && k <= |s|
    ensures var t := InsertAt(s, i, item); |t| == |s| + 1 && t[k].next == t[Succ(k, |t|)]
  {
    InsertedElement(s, i, item, k);
    InsertedElement(s, i, item, Succ(k, |s| + 1));
    hide InsertAt;
  }

  lemma PrevAfterInsert(s: seq<PageDescr>, i: nat, item: PageDescr, k: nat)
    requires i <= |s| && s != [] && LinkedIn(s, i, item) && k <= |s|
    ensures var t := InsertAt(s, i, item); |t| == |s| + 1 && t[k].prev == t[Pred(k, |t|)]
  {
    InsertedElement(s, i, item, k);
    InsertedElement(s, i, item, Pred(k, |s| + 1));
    hide InsertAt;
  }

  lemma InsertedElement(s: seq<PageDescr>, i: nat, item: PageDescr, k: nat)
    requires i <= |s| && k <= |s|
    ensures |InsertAt(s, i, item)| == |s| + 1
    ensures InsertAt(s, i, item)[k] == if k < i then s[k] else if k == i then item else s[k - 1]
  {}

  lemma RemovedIsLinked(s: seq<PageDescr>, i: nat)
    requires i < |s| && |s| > 1
    requires forall k :: 0 <= k < |s| && k != i ==> s[k].next == s[Succ(if k == Pred(i, |s|) then i else k, |s|)]
    requires forall k :: 0 <= k < |s| && k != i ==> s[k].prev == s[Pred(if k == Succ(i, |s|) then i else k, |s|)]
    ensures Linked(RemoveAt(s, i))
  {
    var t := RemoveAt(s, i);
    forall k | 0 <= k < |t| ensures t[k].next == t[Succ(k, |t|)] && t[k].prev == t[Pred(k, |t|)] {
      RemoveAtElement(s, i, k);
      RemoveAtElement(s, i, Succ(k, |t|));
      RemoveAtElement(s, i, Pred(k, |t|));
      hide RemoveAt;
    }
  }

  lemma RemoveAtHead(s: seq<PageDescr>, i: nat)
    requires i < |s|
    ensures |RemoveAt(s, i)| == |s| - 1
    ensures |s| > 1 ==> RemoveAt(s, i)[0] == s[if i == 0 then 1 else 0]
  {}

  lemma InsertAtHead(s: seq<PageDescr>, i: nat, item: PageDescr)
    requires 0 < i <= |s|
    ensures InsertAt(s, i, item) != [] && InsertAt(s, i, item)[0] == s[0]
  {}

  lemma OnlyThere(s: seq<PageDescr>, i: nat)
    requires Distinct(s) && i < |s|
    ensures forall k {:trigger s[k]} :: 0 <= k < |s| && s[k] == s[i] ==> k == i
  {}

  /** __list_insert_atleft: the item comes just before another one. Before the head is also after the tail. */
  method InsertAtLeft(beforeThis: PageDescr, item: PageDescr, ghost s: seq<PageDescr>, ghost i: nat)
    requires Linked(s) && Distinct(s) && s != [] && i <= |s| && item !in s
    requires beforeThis == s[if i < |s| then i else 0]
    modifies item`prev, item`next, s`prev, s`next
    ensures Linked(InsertAt(s, i, item))
  {
    ghost var at := if i < |s| then i else 0;
    OnlyThere(s, at);
    OnlyThere(s, Pred(at, |s|));
    hide Distinct, InsertAt;
    beforeThis.prev.next := item;
    item.prev := beforeThis.prev;
    beforeThis.prev := item;
    item.next := beforeThis;
    InsertedIsLinked(s, i, item);
  }

  /** list_insert_before: before the head, the item is the new head. */
  method InsertBefore(list: PageDescr, beforeThis: PageDescr, item: PageDescr, ghost s: seq<PageDescr>, ghost i: nat)
      returns (head: PageDescr)
    requires Ring(list, s) && i < |s| && beforeThis == s[i] && item !in s
    modifies item`prev, item`next, s`prev, s`next
    ensures Ring(head, InsertAt(s, i, item))
  {
    InsertAtLeft(beforeThis, item, s, i);
    head := if list == beforeThis then item else list;
    InsertAtContents(s, i, item);
  }

  /** list_insert_after. */
  method InsertAfter(list: PageDescr, afterThis: PageDescr, item: PageDescr, ghost s: seq<PageDescr>, ghost i: nat)
    requires Ring(list, s) && i < |s| && afterThis == s[i] && item !in s
    modifies item`prev, item`next, s`prev, s`next
    ensures Ring(list, InsertAt(s, i + 1, item))
  {
    OnlyThere(s, i);
    OnlyThere(s, Succ(i, |s|));
    hide Distinct, InsertAt;
    afterThis.next.prev := item;
    item.next := afterThis.next;
    afterThis.next := item;
    item.prev := afterThis;
    InsertedIsLinked(s, i + 1, item);
    InsertAtHead(s, i + 1, item);
    InsertAtContents(s, i + 1, item);
  }

  /** list_singleton. */
  method Singleton(item: PageDescr) returns (head: PageDescr)
    modifies item`prev, item`next
    ensures Ring(head, [item])
  {
    item.next := item;
    item.prev := item;
    head := item;
  }

  /** list_add_head. */
  method AddHead(list: PageDescr?, item: PageDescr, ghost s: seq<PageDescr>) returns (head: PageDescr)
    requires Ring(list, s) && item !in s
    modifies item`prev, item`next, s`prev, s`next
    ensures Ring(head, [item] + s)
  {
    if list != null {
      head := InsertBefore(list, list, item, s, 0);
      assert InsertAt(s, 0, item) == [item] + s;
    } else {
      head := Singleton(item);
      assert [item] + s == [item];
    }
    head := item;
  }

  /** list_add_tail: the head stays, unless the list was empty. */
  method AddTail(list: PageDescr?, item: PageDescr, ghost s: seq<PageDescr>) returns (head: PageDescr)
    requires Ring(list, s) && item !in s
    modifies item`prev, item`next, s`prev, s`next
    ensures Ring(head, s + [item])
  {
    if list != null {
      InsertAtLeft(list, item, s, |s|);
      InsertAtContents(s, |s|, item);
      assert InsertAt(s, |s|, item) == s + [item];
      head := list;
    } else {
      head := Singleton(item);
      assert s + [item] == [item];
    }
  }

  /** list_delete: the item must be in the list, which the macro does not check. */
  method DeleteItem(list: PageDescr, item: PageDescr, ghost s: seq<PageDescr>, ghost i: nat) returns (head: PageDescr?)
    requires Ring(list, s) && i < |s| && item == s[i]
    modifies s`prev, s`next
    ensures Ring(head, RemoveAt(s, i)) && item.prev == null && item.next == null
  {
    OnlyThere(s, i);
    OnlyThere(s, Succ(i, |s|));
    OnlyThere(s, Pred(i, |s|));
    RemoveAtContents(s, i);
    RemoveAtHead(s, i);
    hide Distinct, RemoveAt;
    if item.next == item && item.prev == item {
      item.next := null;
      item.prev := null;
      head := null;
      assert |s| == 1;
    } else {
      item.prev.next := item.next;
      item.next.prev := item.prev;
      head := if item == list then item.next else list;
      item.prev := null;
      item.next := null;
      RemovedIsLinked(s, i);
    }
  }

  /** list_pop_head. */
  method PopHead(list: PageDescr, ghost s: seq<PageDescr>) returns (head: PageDescr?, item: PageDescr)
    requires Ring(list, s)
    modifies s`prev, s`next
    ensures s != [] && item == s[0] && Ring(head, s[1..]) && item.prev == null && item.next == null
  {
    item := list;
    head := DeleteItem(list, item, s, 0);
    assert RemoveAt(s, 0) == s[1..];
  }

  /** list_foreach_forward: each item once, from head to tail, and as many as counted. */
  method Foreach(list: PageDescr?, ghost s: seq<PageDescr>) returns (visited: seq<PageDescr>, count: nat)
    requires Ring(list, s)
    ensures visited == s && count == |s|
  {
    visited, count := [], 0;
    var it := list;
    while it != null && (count == 0 || it != list)
      invariant count <= |s| && visited == s[..count]
      invariant s != [] ==> it == s[if count < |s| then count else 0]
      invariant s == [] ==> it == null
      decreases |s| - count
    {
      assert s[count].next == s[Succ(count, |s|)];
      visited := visited + [it];
      count := count + 1;
      it := it.next;
    }
  }

  /** list_collapse: the items come out one by one from the head, and the list ends up empty. */
  method Collapse(list: PageDescr?, ghost s: seq<PageDescr>) returns (head: PageDescr?, visited: seq<PageDescr>)
    requires Ring(list, s)
    modifies s`prev, s`next
    ensures head == null && visited == s
  {
    hide Ring;
    head, visited := list, [];
    ghost var n := 0;
    assert s[..0] == [] && s[0..] == s;
    while head != null
      invariant n <= |s| && Ring(head, s[n..]) && visited == s[..n]
      decreases |s| - n
    {
      Suffix(head, s, n);
      var item;
      head, item := PopHead(head, s[n..]);
      visited := visited + [item];
      n := n + 1;
    }
    RingIsEmpty(head, s[n..]);
  }

  lemma RingIsEmpty(list: PageDescr?, s: seq<PageDescr>)
    requires Ring(list, s)
    ensures list == null <==> |s| == 0
  {}

  lemma Suffix(list: PageDescr, s: seq<PageDescr>, n: nat)
    requires n <= |s| && Ring(list, s[n..])
    ensures n < |s| && s[n..][0] == s[n] && s[n..][1..] == s[n + 1..] && s[..n] + [s[n]] == s[..n + 1]
    ensures forall x :: x in s[n..] ==> x in s
  {}
}
