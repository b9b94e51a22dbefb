/** add_dir_entry and remove_dir_entry on the first block of a directory (fs/ext2/ext2_internal.c). */
module DirectoryEdits {
  import opened Seqs
  import opened Disks
  import opened DirectoryRecords
  import opened Directories

  /** At most one record has the name. */
  ghost predicate Once(l: seq<Entry>, name: seq<Byte>) {
    forall i, j :: 0 <= i < j < |l| ==> !(Named(l[i], name) && Named(l[j], name))
  }

  /** What removing a name makes of a listing. A block with a single record is left alone. */
  ghost predicate Removed(l: seq<Entry>, m: seq<Entry>, name: seq<Byte>) {
    if |l| >= 2 && Lists(l, name) then exists i :: 0 <= i < |l| && Named(l[i], name) && m == RemoveAt(l, i)
    else m == l
  }

  /** Walking over the block: the record at `cur` is next, those before it are `pre`. */
  ghost predicate Walk(s: seq<Byte>, a: nat, cur: nat, e: nat, pre: seq<Entry>) {
    && a <= cur < e && Chain(s, a, cur) && Chain(s, cur, e) && pre == Entries(s, a, cur)
  }

  /** Nothing has been found yet. */
  ghost predicate Searching(s: seq<Byte>, a: nat, cur: nat, e: nat, pre: seq<Entry>, dir: seq<Byte>, name: seq<Byte>) {
    && Walk(s, a, cur, e, pre) && Holds(dir, s, cur) && !Lists(pre, name)
  }

  /** The last record passed, with the zero after its name: what a removal at the end of the block extends. */
  ghost predicate Previous(s: seq<Byte>, a: nat, cur: nat, cur2: nat, dir2: seq<Byte>) {
    && a <= cur && (cur2 == 0 <==> cur == a)
    && (cur > a ==> a <= cur2 < cur <= |s| && Chain(s, a, cur2) && cur2 + HEADER <= |s| && cur2 + RecLen(s, cur2) == cur
                    && HEADER + NameLen(s, cur2) <= RecLen(s, cur2)
                    && |dir2| == STRUCT_SIZE && RecLen(dir2, 0) == RecLen(s, cur2) && NameLen(dir2, 0) == NameLen(s, cur2)
                    && EntryAt(dir2, 0) == EntryAt(s, cur2))
  }

  /** The record found is gone and those after it have moved `dec` bytes down, up to the one at `cur`. */
  ghost predicate Moving(s: seq<Byte>, t: seq<Byte>, a: nat, cur: nat, e: nat, pre: seq<Entry>, i: nat, dir: seq<Byte>,
                         dec: nat, name: seq<Byte>)
  {
    && Walk(s, a, cur, e, pre) && i < |pre| && Named(pre[i], name)
    && |t| == |s| && (forall k :: 0 <= k < a || e <= k < |s| ==> t[k] == s[k])
    && |dir| == STRUCT_SIZE && EntryAt(dir, 0) == EntryAt(s, cur)
    && var nx := cur + RecLen(s, cur);
       && 0 < dec <= cur - a
       && RecLen(dir, 0) == (if nx < e then RecLen(s, cur) else RecLen(s, cur) + dec)
       && (nx < e ==> forall k :: nx <= k < e ==> t[k] == s[k])
       && var w := if nx < e then nx - dec else e;
          Chain(t, a, w) && Entries(t, a, w) == RemoveAt(pre, i) + [EntryAt(s, cur)]
  }

  /** The block just before a record is moved to `nx - dec`. */
  ghost predicate Ready(s: seq<Byte>, t: seq<Byte>, a: nat, nx: nat, e: nat, pre: seq<Entry>, i: nat, dec: nat,
                        name: seq<Byte>)
  {
    && Walk(s, a, nx, e, pre) && i < |pre| && Named(pre[i], name)
    && |t| == |s| && (forall k :: 0 <= k < a || nx <= k < |s| ==> t[k] == s[k])
    && 0 < dec && a + dec <= nx
    && Chain(t, a, nx - dec) && Entries(t, a, nx - dec) == RemoveAt(pre, i)
  }

  lemma WalkOn(s: seq<Byte>, a: nat, cur: nat, e: nat, pre: seq<Entry>)
    requires Walk(s, a, cur, e, pre)
    ensures cur + HEADER <= e <= |s| && HEADER + NameLen(s, cur) <= RecLen(s, cur) && cur + RecLen(s, cur) <= e
    ensures var nx := cur + RecLen(s, cur);
            && (nx < e ==> Walk(s, a, nx, e, pre + [EntryAt(s, cur)]))
            && (nx == e ==> Chain(s, a, e) && Entries(s, a, e) == pre + [EntryAt(s, cur)])
  {
    var nx := cur + RecLen(s, cur);
    ChainSplit(s, cur, e);
    ChainAppend(s, a, cur, nx);
  }

  /** The whole listing, from any place of the walk. */
  lemma WalkLists(s: seq<Byte>, a: nat, cur: nat, e: nat, pre: seq<Entry>)
    requires Walk(s, a, cur, e, pre)
    ensures Chain(s, a, e) && |Entries(s, a, e)| > |pre| && Entries(s, a, e)[..|pre|] == pre
    ensures cur + HEADER + NameLen(s, cur) <= |s| && Entries(s, a, e)[|pre|] == EntryAt(s, cur)
  {
    ChainAppend(s, a, cur, e);
    ChainSplit(s, cur, e);
  }

  /** The record at `cur` was found: the next one can move to its place. */
  lemma FoundIsReady(s: seq<Byte>, a: nat, cur: nat, e: nat, pre: seq<Entry>, name: seq<Byte>)
    requires Walk(s, a, cur, e, pre) && cur + HEADER + NameLen(s, cur) <= |s| && Named(EntryAt(s, cur), name)
    requires cur + RecLen(s, cur) < e
    ensures Ready(s, s, a, cur + RecLen(s, cur), e, pre + [EntryAt(s, cur)], |pre|, RecLen(s, cur), name)
  {
    WalkOn(s, a, cur, e, pre);
    hide Chain, Entries, EntryAt, Named;
    assert RemoveAt(pre + [EntryAt(s, cur)], |pre|) == pre;
  }

  lemma MovedIsReady(s: seq<Byte>, t: seq<Byte>, a: nat, cur: nat, e: nat, pre: seq<Entry>, i: nat, dir: seq<Byte>,
                     dec: nat, name: seq<Byte>)
    requires Moving(s, t, a, cur, e, pre, i, dir, dec, name) && cur + RecLen(s, cur) < e
    ensures Ready(s, t, a, cur + RecLen(s, cur), e, pre + [EntryAt(s, cur)], i, dec, name)
  {
    WalkOn(s, a, cur, e, pre);
    hide Chain, Entries, EntryAt, Named;
    RemoveThenAppend(pre, i, EntryAt(s, cur));
  }

  lemma RemoveThenAppend(l: seq<Entry>, i: nat, x: Entry)
    requires i < |l|
    ensures RemoveAt(l + [x], i) == RemoveAt(l, i) + [x]
  {}

  /** The record at `nx` moves down. */
  lemma RecordMoves(s: seq<Byte>, t: seq<Byte>, a: nat, nx: nat, e: nat, pre: seq<Entry>, i: nat, dec: nat,
                    dir: seq<Byte>, data: seq<Byte>, name: seq<Byte>)
    requires Ready(s, t, a, nx, e, pre, i, dec, name)
    requires nx + HEADER + NameLen(s, nx) <= |s| && |dir| == STRUCT_SIZE && EntryAt(dir, 0) == EntryAt(s, nx)
    requires NameLen(dir, 0) == NameLen(s, nx)
    requires RecLen(dir, 0) == if nx + RecLen(s, nx) < e then RecLen(s, nx) else RecLen(s, nx) + dec
    requires |data| == RecLen(dir, 0) && TakenFrom(data, dir) && nx - dec + |data| <= |t|
    ensures Moving(s, Overwritten(t, nx - dec, data), a, nx, e, pre, i, dir, dec, name)
  {
    hide Chain, Entries, EntryAt, Named, Overwritten, RecLen, NameLen, Walk, RemoveAt, TakenFrom;
    WalkOn(s, a, nx, e, pre);
    var w := nx - dec;
    var u := Overwritten(t, w, data);
    RecordPlaced(t, w, data, dir);
    ChainFrame(t, u, a, w);
    ChainAppend(u, a, w, w + |data|);
  }

  /** The loop of remove_dir_entry once a record follows the one at hand: it is read, and moved if one was found. */
  method Advance(disk: Disk, nx: nat, e: nat, dec: nat, ghost s: seq<Byte>, ghost a: nat, ghost pre: seq<Entry>,
                 ghost i: nat, ghost name: seq<Byte>) returns (dir: seq<Byte>)
    requires Walk(s, a, nx, e, pre) && e - a < 65536 && e <= |s| && |disk.bytes| == |s|
    requires dec == 0 ==> disk.bytes == s && !Lists(pre, name)
    requires dec > 0 ==> Ready(s, disk.bytes, a, nx, e, pre, i, dec, name)
    modifies disk
    ensures dec == 0 ==> disk.bytes == s && Searching(s, a, nx, e, pre, dir, name)
    ensures dec > 0 ==> Moving(s, disk.bytes, a, nx, e, pre, i, dir, dec, name)
  {
    hide Chain, Entries, EntryAt, Named, Overwritten, NameLen, RemoveAt, TakenFrom, RecLen, WithRecLen, CopyOf, Lists;
    hide Walk, Ready, Holds, Moving;
    WalkOn(s, a, nx, e, pre);
    ghost var t := disk.bytes;
    dir := disk.Read(nx, STRUCT_SIZE);
    if dec > 0 {
      ReadyCopy(s, t, a, nx, e, pre, i, dec, name, dir);
    } else {
      IsHolding(dir, s, nx);
    }
    HeldRecord(dir, s, nx);
    if dec > 0 {
      ReadyBounds(s, t, a, nx, e, pre, i, dec, name);
      if RecLen(dir, 0) + nx >= e {
        RecLenChanged(dir, RecLen(dir, 0) + dec);
        dir := WithRecLen(dir, RecLen(dir, 0) + dec);
      }
      var data := BytesFrom(dir, RecLen(dir, 0));
      RecordMoves(s, t, a, nx, e, pre, i, dec, dir, data, name);
      disk.Write(nx - dec, data);
    }
  }

  lemma IsHolding(dir: seq<Byte>, s: seq<Byte>, p: nat)
    requires |dir| == STRUCT_SIZE && CopyOf(dir, s, p)
    ensures Holds(dir, s, p)
  {}

  lemma ReadyCopy(s: seq<Byte>, t: seq<Byte>, a: nat, nx: nat, e: nat, pre: seq<Entry>, i: nat, dec: nat,
                  name: seq<Byte>, dir: seq<Byte>)
    requires Ready(s, t, a, nx, e, pre, i, dec, name) && |dir| == STRUCT_SIZE && CopyOf(dir, t, nx)
    ensures Holds(dir, s, nx)
  {
    hide Chain, Entries, EntryAt, Named, RemoveAt, Walk;
  }

  lemma ReadyBounds(s: seq<Byte>, t: seq<Byte>, a: nat, nx: nat, e: nat, pre: seq<Entry>, i: nat, dec: nat,
                    name: seq<Byte>)
    requires Ready(s, t, a, nx, e, pre, i, dec, name)
    ensures a + dec <= nx <= e <= |s| == |t|
  {}

  /** The invariant of the loop of remove_dir_entry. */
  ghost predicate Going(s: seq<Byte>, t: seq<Byte>, a: nat, cur: nat, e: nat, pre: seq<Entry>, i: nat, dir: seq<Byte>,
                        cur2: nat, dir2: seq<Byte>, dec: nat, name: seq<Byte>)
  {
    && (dec == 0 ==> t == s && Searching(s, a, cur, e, pre, dir, name) && Previous(s, a, cur, cur2, dir2))
    && (dec > 0 ==> Moving(s, t, a, cur, e, pre, i, dir, dec, name))
  }

  /** Every record at hand is there in full. */
  lemma AtHand(s: seq<Byte>, t: seq<Byte>, a: nat, cur: nat, e: nat, pre: seq<Entry>, i: nat, dir: seq<Byte>,
               cur2: nat, dir2: seq<Byte>, dec: nat, name: seq<Byte>)
    requires Going(s, t, a, cur, e, pre, i, dir, cur2, dir2, dec, name)
    ensures Walk(s, a, cur, e, pre) && cur + HEADER + NameLen(s, cur) <= |s| == |t| && e <= |s|
    ensures |dir| == STRUCT_SIZE && EntryAt(dir, 0) == EntryAt(s, cur)
    ensures cur + RecLen(s, cur) < e <==> RecLen(dir, 0) + cur < e
    ensures cur + RecLen(s, cur) < e ==> RecLen(dir, 0) == RecLen(s, cur) > 0
    ensures dec == 0 ==> RecLen(dir, 0) == RecLen(s, cur) && NameLen(dir, 0) == NameLen(s, cur)
    ensures dec == 0 ==> cur + RecLen(s, cur) <= e
  {
    hide Chain, Entries, EntryAt, Named, Overwritten, NameLen, RemoveAt, RecLen, Lists, Previous, Walk;
    if dec == 0 {
      WalkOn(s, a, cur, e, pre);
      HeldRecord(dir, s, cur);
    } else {
      WalkOn(s, a, cur, e, pre);
    }
  }

  /** A record passed without being the one looked for, or after that one. */
  lemma Passed(s: seq<Byte>, t: seq<Byte>, a: nat, cur: nat, e: nat, pre: seq<Entry>, i: nat, dir: seq<Byte>,
               cur2: nat, dir2: seq<Byte>, dec: nat, name: seq<Byte>)
    requires Going(s, t, a, cur, e, pre, i, dir, cur2, dir2, dec, name) && a > 0
    requires cur + HEADER + NameLen(s, cur) <= |s| && cur + RecLen(s, cur) < e
    requires !Named(EntryAt(s, cur), name)
    ensures var nx, p := cur + RecLen(s, cur), pre + [EntryAt(s, cur)];
            && Walk(s, a, nx, e, p)
            && (dec == 0 ==> t == s && !Lists(p, name) && Previous(s, a, nx, cur, Terminated(dir)))
            && (dec > 0 ==> Ready(s, t, a, nx, e, p, i, dec, name))
  {
    hide Chain, Entries, Named, Overwritten, RemoveAt, Lists, Walk, Terminated;
    AtHand(s, t, a, cur, e, pre, i, dir, cur2, dir2, dec, name);
    WalkOn(s, a, cur, e, pre);
    NameTerminated(dir);
    hide EntryAt;
    if dec == 0 {
      ListsLonger(pre, EntryAt(s, cur), name);
      WalkChain(s, a, cur, e, pre);
    } else {
      MovedIsReady(s, t, a, cur, e, pre, i, dir, dec, name);
    }
  }

  lemma WalkChain(s: seq<Byte>, a: nat, cur: nat, e: nat, pre: seq<Entry>)
    requires Walk(s, a, cur, e, pre)
    ensures a <= cur && Chain(s, a, cur) && Entries(s, a, cur) == pre
  {}

  /** With a name that is there once, nothing matches any more after a match. */
  lemma NoSecond(s: seq<Byte>, a: nat, cur: nat, e: nat, pre: seq<Entry>, i: nat, name: seq<Byte>)
    requires Walk(s, a, cur, e, pre) && i < |pre| && Named(pre[i], name)
    requires Chain(s, a, e) && Once(Entries(s, a, e), name)
    ensures cur + HEADER + NameLen(s, cur) <= |s| && !Named(EntryAt(s, cur), name)
  {
    hide Chain, Entries, EntryAt, Named, NameLen;
    WalkLists(s, a, cur, e, pre);
    var l := Entries(s, a, e);
    assert l[i] == pre[i];
  }

  lemma WasMoving(s: seq<Byte>, t: seq<Byte>, a: nat, cur: nat, e: nat, pre: seq<Entry>, i: nat, dir: seq<Byte>,
                  cur2: nat, dir2: seq<Byte>, dec: nat, name: seq<Byte>)
    requires Going(s, t, a, cur, e, pre, i, dir, cur2, dir2, dec, name) && dec > 0
    ensures i < |pre| && Named(pre[i], name)
  {
    hide Chain, Entries, EntryAt, Named, NameLen, RecLen, RemoveAt;
  }

  lemma WasSearching(s: seq<Byte>, t: seq<Byte>, a: nat, cur: nat, e: nat, pre: seq<Entry>, i: nat, dir: seq<Byte>,
                     cur2: nat, dir2: seq<Byte>, dec: nat, name: seq<Byte>)
    requires Going(s, t, a, cur, e, pre, i, dir, cur2, dir2, dec, name) && dec == 0
    ensures t == s && !Lists(pre, name) && Previous(s, a, cur, cur2, dir2)
  {
    hide Chain, Entries, EntryAt, Named, NameLen, RecLen, RemoveAt, Lists, Previous;
  }

  /** The comparison with the name in a structure, which it terminates first. */
  method SameName(dir: seq<Byte>, name: seq<Byte>) returns (same: bool)
    requires |dir| == STRUCT_SIZE && 0 !in name
    ensures same <==> Named(EntryAt(dir, 0), name)
  {
    var d := Terminated(dir);
    NameTerminated(dir);
    WithZero(name);
    var r := StrCmp(name + [0], d[HEADER..]);
    same := r == 0;
  }

  lemma Starts(s: seq<Byte>, a: nat, e: nat, dir: seq<Byte>, name: seq<Byte>)
    requires 0 < a < e && Chain(s, a, e) && |dir| == STRUCT_SIZE && CopyOf(dir, s, a)
    ensures Going(s, s, a, a, e, [], 0, dir, 0, dir, 0, name)
  {
    hide EntryAt, Named, CopyOf, NameLen, RecLen;
    assert Chain(s, a, a) && Entries(s, a, a) == [];
  }

  lemma GoesOn(s: seq<Byte>, t: seq<Byte>, a: nat, cur: nat, e: nat, pre: seq<Entry>, i: nat, dir: seq<Byte>,
               cur2: nat, dir2: seq<Byte>, dec: nat, name: seq<Byte>)
    requires dec == 0 ==> t == s && Searching(s, a, cur, e, pre, dir, name) && Previous(s, a, cur, cur2, dir2)
    requires dec > 0 ==> Moving(s, t, a, cur, e, pre, i, dir, dec, name)
    ensures Going(s, t, a, cur, e, pre, i, dir, cur2, dir2, dec, name)
  {}

  /** A match is the first one. */
  lemma FirstMatch(s: seq<Byte>, t: seq<Byte>, a: nat, cur: nat, e: nat, pre: seq<Entry>, i: nat, dir: seq<Byte>,
                   cur2: nat, dir2: seq<Byte>, dec: nat, name: seq<Byte>)
    requires Going(s, t, a, cur, e, pre, i, dir, cur2, dir2, dec, name)
    requires Chain(s, a, e) && Once(Entries(s, a, e), name) && Named(EntryAt(dir, 0), name)
    ensures dec == 0 && t == s
  {
    hide Chain, Entries, EntryAt, Named, NameLen, RecLen, Once, Walk, Moving, Searching, Previous;
    AtHand(s, t, a, cur, e, pre, i, dir, cur2, dir2, dec, name);
    if dec > 0 {
      WasMoving(s, t, a, cur, e, pre, i, dir, cur2, dir2, dec, name);
      NoSecond(s, a, cur, e, pre, i, name);
    }
  }

  /** The end of the block, after a record was found. */
  lemma EndMoving(s: seq<Byte>, t: seq<Byte>, a: nat, cur: nat, e: nat, pre: seq<Entry>, i: nat, dir: seq<Byte>,
                  cur2: nat, dir2: seq<Byte>, dec: nat, name: seq<Byte>)
    requires Going(s, t, a, cur, e, pre, i, dir, cur2, dir2, dec, name) && dec > 0 && RecLen(dir, 0) + cur >= e
    ensures Chain(s, a, e) && Chain(t, a, e) && Removed(Entries(s, a, e), Entries(t, a, e), name)
    ensures |t| == |s| && forall k :: 0 <= k < a || e <= k < |s| ==> t[k] == s[k]
  {
    hide Chain, Entries, EntryAt, Named, NameLen, RecLen, Walk, Lists, Previous, Searching;
    AtHand(s, t, a, cur, e, pre, i, dir, cur2, dir2, dec, name);
    WalkOn(s, a, cur, e, pre);
    RemoveThenAppend(pre, i, EntryAt(s, cur));
    var l := Entries(s, a, e);
    assert l == pre + [EntryAt(s, cur)] && l[i] == pre[i];
    HasName(l, i, name);
  }

  lemma HasName(l: seq<Entry>, i: nat, name: seq<Byte>)
    requires i < |l| && Named(l[i], name)
    ensures Lists(l, name)
  {}

  /** The end of the block, with nothing found before the last record. */
  lemma EndSearching(s: seq<Byte>, t: seq<Byte>, a: nat, cur: nat, e: nat, pre: seq<Entry>, i: nat, dir: seq<Byte>,
                     cur2: nat, dir2: seq<Byte>, dec: nat, name: seq<Byte>)
    requires Going(s, t, a, cur, e, pre, i, dir, cur2, dir2, dec, name) && dec == 0 && RecLen(dir, 0) + cur >= e
    requires cur2 == 0 || !Named(EntryAt(dir, 0), name)
    ensures t == s && Chain(s, a, e) && Removed(Entries(s, a, e), Entries(s, a, e), name)
  {
    hide Chain, EntryAt, Named, NameLen, RecLen, Lists;
    AtHand(s, t, a, cur, e, pre, i, dir, cur2, dir2, dec, name);
    WalkOn(s, a, cur, e, pre);
    ListsLonger(pre, EntryAt(s, cur), name);
    if cur2 == 0 {
      assert pre == [];
    }
  }

  /** The last record is the one: the record before it takes its bytes. */
  lemma EndLast(s: seq<Byte>, a: nat, cur: nat, e: nat, pre: seq<Entry>, dir: seq<Byte>, cur2: nat, dir2: seq<Byte>,
                name: seq<Byte>, data: seq<Byte>)
    requires Walk(s, a, cur, e, pre) && Previous(s, a, cur, cur2, dir2) && cur2 != 0 && e <= |s| && e - a < 65536
    requires cur + HEADER + NameLen(s, cur) <= |s| && cur + RecLen(s, cur) == e && Named(EntryAt(s, cur), name)
    requires |dir2| == STRUCT_SIZE && RecLen(dir2, 0) + RecLen(s, cur) < 65536
    requires |data| == RecLen(dir2, 0) + RecLen(s, cur) && TakenFrom(data, WithRecLen(dir2, |data|))
    ensures cur2 + |data| == e && Chain(s, a, e)
    ensures var t := Overwritten(s, cur2, data); Chain(t, a, e) && Removed(Entries(s, a, e), Entries(t, a, e), name)
  {
    hide Chain, Entries, EntryAt, Named, NameLen, RecLen, Lists, Walk, TakenFrom, WithRecLen, Overwritten;
    WalkOn(s, a, cur, e, pre);
    PreviousEnds(s, a, cur, e, pre, cur2, dir2);
    RecLenChanged(dir2, |data|);
    var t := Overwritten(s, cur2, data);
    PreviousName(s, a, cur, cur2, dir2);
    RecordPlaced(s, cur2, data, WithRecLen(dir2, |data|));
    ChainFrame(s, t, a, cur2);
    ChainAppend(t, a, cur2, e);
    var l := Entries(s, a, e);
    assert RemoveAt(l, |pre|) == pre;
    HasName(l, |pre|, name);
  }

  lemma PreviousName(s: seq<Byte>, a: nat, cur: nat, cur2: nat, dir2: seq<Byte>)
    requires Previous(s, a, cur, cur2, dir2) && cur2 != 0
    ensures a <= cur2 && Chain(s, a, cur2) && |dir2| == STRUCT_SIZE && HEADER + NameLen(dir2, 0) <= RecLen(dir2, 0)
  {}

  lemma PreviousEnds(s: seq<Byte>, a: nat, cur: nat, e: nat, pre: seq<Entry>, cur2: nat, dir2: seq<Byte>)
    requires Walk(s, a, cur, e, pre) && Previous(s, a, cur, cur2, dir2) && cur2 != 0
    ensures a <= cur2 && Chain(s, a, cur2) && cur2 + RecLen(dir2, 0) == cur
    ensures |pre| > 0 && pre == Entries(s, a, cur2) + [EntryAt(dir2, 0)]
  {
    hide EntryAt, NameLen, RecLen;
    OneRecord(s, cur2, cur);
    ChainAppend(s, a, cur2, cur);
  }

  /** remove_dir_entry, given the address of the first block of the directory. */
  method RemoveDirEntry(disk: Disk, addr: nat, size: nat, name: seq<Byte>)
    requires 0 < size < 65536 && 0 !in name && Chain(disk.bytes, addr, addr + size)
    requires Once(Entries(disk.bytes, addr, addr + size), name)
    modifies disk
    ensures |disk.bytes| == |old(disk.bytes)|
    ensures forall k :: 0 <= k < addr || addr + size <= k < |disk.bytes| ==> disk.bytes[k] == old(disk.bytes)[k]
    ensures addr == 0 ==> disk.bytes == old(disk.bytes)
    ensures addr != 0 ==> Chain(disk.bytes, addr, addr + size)
                          && Removed(old(Entries(disk.bytes, addr, addr + size)), Entries(disk.bytes, addr, addr + size), name)
  {
    hide Chain, Entries, EntryAt, Named, Overwritten, NameLen, RemoveAt, RecLen, WithRecLen, Terminated, TakenFrom, Once;
    hide Walk, Ready, Holds, Moving, Going, Searching, Previous, Lists, Removed, CopyOf, Text;
    if addr == 0 {
      return;
    }
    ghost var s := disk.bytes;
    var e := addr + size;
    var cur: nat, cur2: nat, dec: nat := addr, 0, 0;
    var dir := disk.Read(addr, STRUCT_SIZE);
    var dir2 := dir;
    ghost var pre: seq<Entry>, i: nat := [], 0;
    Starts(s, addr, e, dir, name);
    while RecLen(dir, 0) + cur < e
      invariant Going(s, disk.bytes, addr, cur, e, pre, i, dir, cur2, dir2, dec, name)
      invariant |dir| == STRUCT_SIZE && cur <= e
      decreases e - cur
    {
      AtHand(s, disk.bytes, addr, cur, e, pre, i, dir, cur2, dir2, dec, name);
      WalkOn(s, addr, cur, e, pre);
      var same := SameName(dir, name);
      if same {
        FirstMatch(s, disk.bytes, addr, cur, e, pre, i, dir, cur2, dir2, dec, name);
        FoundIsReady(s, addr, cur, e, pre, name);
        i := |pre|;
        dec := RecLen(dir, 0);
      } else {
        Passed(s, disk.bytes, addr, cur, e, pre, i, dir, cur2, dir2, dec, name);
      }
      pre := pre + [EntryAt(s, cur)];
      cur2 := cur;
      cur := cur + RecLen(dir, 0);
      dir2 := Terminated(dir);
      dir := Advance(disk, cur, e, dec, s, addr, pre, i, name);
      GoesOn(s, disk.bytes, addr, cur, e, pre, i, dir, cur2, dir2, dec, name);
      AtHand(s, disk.bytes, addr, cur, e, pre, i, dir, cur2, dir2, dec, name);
    }
    AtHand(s, disk.bytes, addr, cur, e, pre, i, dir, cur2, dir2, dec, name);
    if dec > 0 {
      EndMoving(s, disk.bytes, addr, cur, e, pre, i, dir, cur2, dir2, dec, name);
      return;
    }
    WasSearching(s, disk.bytes, addr, cur, e, pre, i, dir, cur2, dir2, dec, name);
    if cur2 != 0 {
      var same := SameName(dir, name);
      if same {
        PreviousEnds(s, addr, cur, e, pre, cur2, dir2);
        PreviousName(s, addr, cur, cur2, dir2);
        ghost var was := dir2;
        dir2 := WithRecLen(dir2, RecLen(dir2, 0) + RecLen(dir, 0));
        RecLenChanged(was, RecLen(was, 0) + RecLen(dir, 0));
        var data := BytesFrom(dir2, RecLen(dir2, 0));
        EndLast(s, addr, cur, e, pre, dir, cur2, was, name, data);
        disk.Write(cur2, data);
        return;
      }
    }
    EndSearching(s, disk.bytes, addr, cur, e, pre, i, dir, cur2, dir2, dec, name);
  }

  // ---- Adding ----

  /** The size of a record for a name of `n` bytes, rounded up to a multiple of 4. */
  function Padded(n: nat): nat {
    HEADER + n + (4 - (HEADER + n) % 4) % 4
  }

  lemma PaddedIsEnough(n: nat)
    ensures HEADER + n <= Padded(n) < HEADER + n + 4 && Padded(n) % 4 == 0
  {}

  /** Where the last record starts. */
  ghost function Last(s: seq<Byte>, p: nat, e: nat): (r: nat)
    requires Chain(s, p, e) && p < e
    ensures p <= r && r + HEADER <= e
    decreases e - p
  {
    if p + RecLen(s, p) == e then p else Last(s, p + RecLen(s, p), e)
  }

  /** Where the new record goes: the last one is cut down to its own size. */
  ghost function NewPlace(s: seq<Byte>, a: nat, e: nat): nat
    requires Chain(s, a, e) && a < e
  {
    Last(s, a, e) + Padded(NameLen(s, Last(s, a, e)))
  }

  /** The two records, rounded up to multiples of 4, end inside the block. */
  ghost predicate HasRoom(s: seq<Byte>, a: nat, e: nat, n: nat)
    requires Chain(s, a, e) && a < e
  {
    NewPlace(s, a, e) + Padded(n) <= e
  }

  /** The name ends inside the block. With records on multiples of 4 this is the same. */
  ghost predicate HasPlace(s: seq<Byte>, a: nat, e: nat, n: nat)
    requires Chain(s, a, e) && a < e
  {
    NewPlace(s, a, e) + HEADER + n <= e
  }

  lemma RoomIsPlace(s: seq<Byte>, a: nat, e: nat, n: nat)
    requires Chain(s, a, e) && a < e
    ensures HasRoom(s, a, e, n) ==> HasPlace(s, a, e, n)
    ensures NewPlace(s, a, e) % 4 == 0 && e % 4 == 0 ==> (HasRoom(s, a, e, n) <==> HasPlace(s, a, e, n))
  {
    PaddedIsEnough(n);
  }

  /** The structure that add_dir_entry builds; what follows the name and its zero is whatever was there. */
  ghost predicate NewRecord(d: seq<Byte>, inode: seq<Byte>, recLen: nat, fileType: Byte, name: seq<Byte>) {
    && |d| == STRUCT_SIZE && |inode| == 4 && RecLen(d, 0) == recLen && NameLen(d, 0) == |name|
    && EntryAt(d, 0) == Entry(inode, fileType, name)
  }

  method BuildRecord(inode: seq<Byte>, recLen: nat, fileType: Byte, name: seq<Byte>) returns (d: seq<Byte>)
    requires |inode| == 4 && recLen < 65536 && |name| <= 255
    ensures NewRecord(d, inode, recLen, fileType, name)
  {
    hide NewRecord, TakenFrom;
    var bytes: seq<Byte> := inode + [recLen % 256, recLen / 256, |name|, fileType] + name + [0];
    d := BytesFrom(bytes, STRUCT_SIZE);
    RecordBuilt(d, bytes, inode, recLen, fileType, name);
  }

  lemma RecordBuilt(d: seq<Byte>, bytes: seq<Byte>, inode: seq<Byte>, recLen: nat, fileType: Byte, name: seq<Byte>)
    requires |inode| == 4 && recLen < 65536 && |name| <= 255 && |d| == STRUCT_SIZE && TakenFrom(d, bytes)
    requires bytes == inode + [recLen % 256, recLen / 256, |name|, fileType] + name + [0]
    ensures NewRecord(d, inode, recLen, fileType, name)
  {
    assert |bytes| == HEADER + |name| + 1;
    assert forall k :: 0 <= k < 4 ==> d[k] == bytes[k] == inode[k];
    assert d[0..4] == inode;
    assert d[4] == bytes[4] && d[5] == bytes[5] && d[6] == bytes[6] && d[7] == bytes[7];
    forall k | 0 <= k < |name| ensures d[HEADER..HEADER + |name|][k] == name[k] {
      assert d[HEADER + k] == bytes[HEADER + k];
    }
    assert d[HEADER..HEADER + |name|] == name;
  }

  /** The walk of add_dir_entry to the last record. */
  ghost predicate ToLast(s: seq<Byte>, a: nat, cur: nat, e: nat, pre: seq<Entry>, dir: seq<Byte>) {
    && Walk(s, a, cur, e, pre) && Holds(dir, s, cur) && Chain(s, a, e) && Last(s, a, e) == Last(s, cur, e)
  }

  lemma ToLastStarts(s: seq<Byte>, a: nat, e: nat, dir: seq<Byte>)
    requires a < e && Chain(s, a, e) && Holds(dir, s, a)
    ensures ToLast(s, a, a, e, [], dir)
  {
    assert Chain(s, a, a) && Entries(s, a, a) == [];
  }

  lemma ToLastAt(s: seq<Byte>, a: nat, cur: nat, e: nat, pre: seq<Entry>, dir: seq<Byte>)
    requires ToLast(s, a, cur, e, pre, dir)
    ensures |dir| == STRUCT_SIZE && cur + HEADER + NameLen(s, cur) <= |s| && EntryAt(dir, 0) == EntryAt(s, cur)
    ensures RecLen(dir, 0) == RecLen(s, cur) > 0 && NameLen(dir, 0) == NameLen(s, cur) && cur + RecLen(s, cur) <= e
    ensures cur + RecLen(s, cur) == e ==> Chain(s, a, e) && a < e && Last(s, a, e) == cur
    ensures cur + RecLen(s, cur) == e ==> Entries(s, a, e) == pre + [EntryAt(s, cur)]
  {
    hide Entries, EntryAt, NameLen, RecLen, CopyOf, Last;
    WalkOn(s, a, cur, e, pre);
    HeldRecord(dir, s, cur);
    if cur + RecLen(s, cur) == e {
      LastHere(s, cur, e);
    }
  }

  lemma LastHere(s: seq<Byte>, p: nat, e: nat)
    requires Chain(s, p, e) && p + HEADER <= |s| && p + RecLen(s, p) == e && p < e
    ensures Last(s, p, e) == p
  {}

  lemma ToLastGoesOn(s: seq<Byte>, a: nat, cur: nat, e: nat, pre: seq<Entry>, dir: seq<Byte>, next: seq<Byte>)
    requires ToLast(s, a, cur, e, pre, dir) && cur + HEADER + NameLen(s, cur) <= |s| && cur + RecLen(s, cur) < e
    requires Holds(next, s, cur + RecLen(s, cur))
    ensures ToLast(s, a, cur + RecLen(s, cur), e, pre + [EntryAt(s, cur)], next)
  {
    hide Entries, EntryAt, NameLen, RecLen, Walk, CopyOf, Holds;
    WalkOn(s, a, cur, e, pre);
  }

  /** The two writes of add_dir_entry: the last record cut down, and the new one after it. */
  ghost predicate Adding(s: seq<Byte>, a: nat, cur: nat, e: nat, pre: seq<Entry>, dir: seq<Byte>, d1: seq<Byte>,
                         ndir: seq<Byte>, d2: seq<Byte>, x: Entry)
  {
    && a <= cur < e <= |s| && e - a <= 65536 && Chain(s, a, e) && Chain(s, a, cur) && pre == Entries(s, a, cur)
    && cur + HEADER <= e && cur + HEADER + NameLen(s, cur) <= e && Entries(s, a, e) == pre + [EntryAt(s, cur)]
    && |dir| == STRUCT_SIZE && TakenFrom(d1, dir) && RecLen(dir, 0) == |d1| && NameLen(dir, 0) == NameLen(s, cur)
    && EntryAt(dir, 0) == EntryAt(s, cur) && HEADER + NameLen(dir, 0) <= |d1|
    && |ndir| == STRUCT_SIZE && TakenFrom(d2, ndir) && HEADER + NameLen(ndir, 0) <= |d2|
    && RecLen(ndir, 0) == (e - (cur + |d1|)) % 65536 && EntryAt(ndir, 0) == x
  }

  lemma AddedInPlace(s: seq<Byte>, a: nat, cur: nat, e: nat, pre: seq<Entry>, dir: seq<Byte>, d1: seq<Byte>,
                     ndir: seq<Byte>, d2: seq<Byte>, x: Entry)
    requires Adding(s, a, cur, e, pre, dir, d1, ndir, d2, x) && cur + |d1| + HEADER + NameLen(ndir, 0) <= e
    ensures var u := Written(Written(s, cur, d1), cur + |d1|, d2);
            Chain(u, a, e) && Entries(u, a, e) == pre + [EntryAt(s, cur)] + [x]
  {
    hide Chain, Entries, EntryAt, NameLen, RecLen, TakenFrom, Written;
    var m := cur + |d1|;
    var t := Written(s, cur, d1);
    var u := Written(t, m, d2);
    RecordPlaced(s, cur, d1, dir);
    RecordPlaced(t, m, d2, ndir);
    forall k: nat | k < m ensures u[k] == t[k] && (k < cur ==> t[k] == s[k]) {
      WrittenAt(t, m, d2, k);
      WrittenAt(s, cur, d1, k);
    }
    ChainFrame(s, u, a, cur);
    ChainFrame(t, u, cur, m);
    ChainAppend(u, a, cur, m);
    ChainAppend(u, a, m, e);
  }

  /** Without a place for the new record the block does not list it. */
  lemma AddedPastTheEnd(s: seq<Byte>, a: nat, cur: nat, e: nat, pre: seq<Entry>, dir: seq<Byte>, d1: seq<Byte>,
                        ndir: seq<Byte>, d2: seq<Byte>, x: Entry)
    requires Adding(s, a, cur, e, pre, dir, d1, ndir, d2, x) && cur + |d1| + HEADER + NameLen(ndir, 0) > e
    ensures var u := Written(Written(s, cur, d1), cur + |d1|, d2);
            !(Chain(u, a, e) && Entries(u, a, e) == pre + [EntryAt(s, cur)] + [x])
  {
    hide Chain, Entries, EntryAt, NameLen, RecLen, TakenFrom, Written;
    var m := cur + |d1|;
    var t := Written(s, cur, d1);
    var u := Written(t, m, d2);
    RecordWritten(s, cur, d1, dir);
    forall k: nat | k < m && k < |s| ensures u[k] == t[k] && (k < cur ==> t[k] == s[k]) {
      WrittenAt(t, m, d2, k);
      WrittenAt(s, cur, d1, k);
    }
    ChainFrame(s, u, a, cur);
    if Chain(u, a, e) {
      ChainRest(u, a, cur, e);
      SameLengths(t, u, cur);
      Shorter(u, cur, e, m);
      if m < e {
        NewRecordCut(t, m, e, d2, ndir);
      }
    }
  }

  lemma SameLengths(t: seq<Byte>, u: seq<Byte>, p: nat)
    requires |u| == |t| && p + HEADER <= |t| && forall k :: p <= k < p + HEADER ==> u[k] == t[k]
    ensures RecLen(u, p) == RecLen(t, p) && NameLen(u, p) == NameLen(t, p)
  {}

  /** The record before the place of the new one ends there. */
  lemma Shorter(u: seq<Byte>, cur: nat, e: nat, m: nat)
    requires Chain(u, cur, e) && cur < e && cur + HEADER <= |u| && RecLen(u, cur) == m - cur
    ensures m <= e && Chain(u, m, e) && (m == e ==> |Entries(u, cur, e)| == 1)
  {
    ChainSplit(u, cur, e);
  }

  /** The new record does not fit before the end of the block, so the chain stops before it. */
  lemma NewRecordCut(t: seq<Byte>, m: nat, e: nat, d2: seq<Byte>, ndir: seq<Byte>)
    requires m < e <= |t| && e - m < 65536 && |ndir| == STRUCT_SIZE && TakenFrom(d2, ndir)
    requires HEADER + NameLen(ndir, 0) <= |d2| && RecLen(ndir, 0) == e - m && m + HEADER + NameLen(ndir, 0) > e
    ensures !Chain(Written(t, m, d2), m, e)
  {
    var u := Written(t, m, d2);
    if m + HEADER <= e {
      WrittenAt(t, m, d2, m + 4);
      WrittenAt(t, m, d2, m + 5);
      WrittenAt(t, m, d2, m + 6);
      assert RecLen(u, m) == e - m && NameLen(u, m) == NameLen(ndir, 0);
    }
  }

  /** add_dir_entry, given the address of the first block of the directory. Nothing in the code checks for room:
      the new record is written behind the last one wherever that ends. */
  method AddDirEntry(disk: Disk, addr: nat, size: nat, name: seq<Byte>, fileType: Byte, inode: seq<Byte>)
    requires 0 < size <= 65536 && Chain(disk.bytes, addr, addr + size)
    requires |inode| == 4 && 0 !in name && |name| <= 255
    modifies disk
    ensures |disk.bytes| == |old(disk.bytes)|
    ensures var s := old(disk.bytes); var l := Last(s, addr, addr + size); var m := NewPlace(s, addr, addr + size);
            forall k :: 0 <= k < l || m + Padded(|name|) <= k < |s| ==> disk.bytes[k] == s[k]
    ensures old(HasRoom(disk.bytes, addr, addr + size, |name|)) ==>
              forall k :: 0 <= k < addr || addr + size <= k < |disk.bytes| ==> disk.bytes[k] == old(disk.bytes)[k]
    ensures Chain(disk.bytes, addr, addr + size)
            && Entries(disk.bytes, addr, addr + size)
               == old(Entries(disk.bytes, addr, addr + size)) + [Entry(inode, fileType, name)]
            <==> old(HasPlace(disk.bytes, addr, addr + size, |name|))
  {
    hide Chain, Entries, EntryAt, Written, Overwritten, NameLen, RecLen, WithRecLen, TakenFrom, Walk, Holds, CopyOf,
         ToLast, Padded;
    hide HasPlace, NewPlace, Last, NewRecord, Adding;
    ghost var s := disk.bytes;
    var e := addr + size;
    var dir := disk.Read(addr, STRUCT_SIZE);
    var cur: nat := addr;
    ghost var pre: seq<Entry> := [];
    IsHolding(dir, s, addr);
    ToLastStarts(s, addr, e, dir);
    ToLastAt(s, addr, cur, e, pre, dir);
    while RecLen(dir, 0) + cur < e
      invariant disk.bytes == s && |dir| == STRUCT_SIZE && ToLast(s, addr, cur, e, pre, dir)
      decreases e - cur
    {
      ToLastAt(s, addr, cur, e, pre, dir);
      ghost var was, at := dir, cur;
      cur := cur + RecLen(dir, 0);
      dir := disk.Read(cur, STRUCT_SIZE);
      IsHolding(dir, s, cur);
      ToLastGoesOn(s, addr, at, e, pre, was, dir);
      pre := pre + [EntryAt(s, at)];
      ToLastAt(s, addr, cur, e, pre, dir);
    }
    ToLastAt(s, addr, cur, e, pre, dir);
    LastFits(s, addr, cur, e, pre, dir);
    var size1 := Padded(NameLen(dir, 0));
    ghost var was := dir;
    RecLenChanged(dir, size1);
    dir := WithRecLen(dir, size1);
    var d1 := BytesFrom(dir, size1);
    disk.Write(cur, d1);
    var ndir := BuildRecord(inode, (e - (cur + size1)) % 65536, fileType, name);
    BuiltRecord(ndir, inode, (e - (cur + size1)) % 65536, fileType, name);
    PaddedIsEnough(|name|);
    var d2 := BytesFrom(ndir, Padded(|name|));
    disk.Write(cur + size1, d2);
    IsAdding(s, addr, cur, e, pre, was, dir, d1, ndir, d2, Entry(inode, fileType, name));
    AddEnds(s, addr, cur, e, pre, dir, d1, ndir, d2, Entry(inode, fileType, name));
  }

  lemma BuiltRecord(d: seq<Byte>, inode: seq<Byte>, recLen: nat, fileType: Byte, name: seq<Byte>)
    requires NewRecord(d, inode, recLen, fileType, name)
    ensures |d| == STRUCT_SIZE && RecLen(d, 0) == recLen && NameLen(d, 0) == |name|
    ensures EntryAt(d, 0) == Entry(inode, fileType, name)
  {}

  lemma LastFits(s: seq<Byte>, a: nat, cur: nat, e: nat, pre: seq<Entry>, dir: seq<Byte>)
    requires ToLast(s, a, cur, e, pre, dir) && cur + HEADER + NameLen(s, cur) <= |s| && cur + RecLen(s, cur) == e
    ensures HEADER + NameLen(s, cur) <= Padded(NameLen(s, cur)) <= STRUCT_SIZE && NameLen(s, cur) <= 255
    ensures a <= cur < e <= |s| && Chain(s, a, cur) && pre == Entries(s, a, cur) && cur + HEADER + NameLen(s, cur) <= e
    ensures Chain(s, a, e) && a < e && NewPlace(s, a, e) == cur + Padded(NameLen(s, cur))
  {
    hide Entries, EntryAt, CopyOf, Holds;
    ToLastAt(s, a, cur, e, pre, dir);
    PaddedIsEnough(NameLen(s, cur));
  }

  lemma IsAdding(s: seq<Byte>, a: nat, cur: nat, e: nat, pre: seq<Entry>, was: seq<Byte>, dir: seq<Byte>, d1: seq<Byte>,
                 ndir: seq<Byte>, d2: seq<Byte>, x: Entry)
    requires ToLast(s, a, cur, e, pre, was) && cur + HEADER + NameLen(s, cur) <= |s| && cur + RecLen(s, cur) == e
    requires e - a <= 65536 && |dir| == STRUCT_SIZE && |d1| == Padded(NameLen(s, cur)) < 65536
    requires dir == WithRecLen(was, |d1|) && TakenFrom(d1, dir)
    requires |ndir| == STRUCT_SIZE && TakenFrom(d2, ndir) && |d2| >= HEADER + NameLen(ndir, 0)
    requires RecLen(ndir, 0) == (e - (cur + |d1|)) % 65536 && EntryAt(ndir, 0) == x
    ensures Adding(s, a, cur, e, pre, dir, d1, ndir, d2, x)
  {
    hide Chain, Entries, EntryAt, NameLen, RecLen, WithRecLen, TakenFrom, Holds, CopyOf, ToLast, Padded;
    ToLastAt(s, a, cur, e, pre, was);
    LastFits(s, a, cur, e, pre, was);
    RecLenChanged(was, |d1|);
  }

  lemma AddEnds(s: seq<Byte>, a: nat, cur: nat, e: nat, pre: seq<Entry>, dir: seq<Byte>, d1: seq<Byte>,
                ndir: seq<Byte>, d2: seq<Byte>, x: Entry)
    requires Adding(s, a, cur, e, pre, dir, d1, ndir, d2, x) && Last(s, a, e) == cur && NewPlace(s, a, e) == cur + |d1|
    ensures var u := Written(Written(s, cur, d1), cur + |d1|, d2);
            && (forall k :: 0 <= k < cur || cur + |d1| + |d2| <= k < |s| ==> u[k] == s[k])
            && (Chain(u, a, e) && Entries(u, a, e) == Entries(s, a, e) + [x] <==> HasPlace(s, a, e, NameLen(ndir, 0)))
  {
    hide Chain, Entries, EntryAt, NameLen, RecLen, TakenFrom, Written;
    var t := Written(s, cur, d1);
    forall k: nat | k < cur || cur + |d1| + |d2| <= k < |s| ensures Written(t, cur + |d1|, d2)[k] == s[k] {
      WrittenAt(s, cur, d1, k);
      WrittenAt(t, cur + |d1|, d2, k);
    }
    if HasPlace(s, a, e, NameLen(ndir, 0)) {
      AddedInPlace(s, a, cur, e, pre, dir, d1, ndir, d2, x);
    } else {
      AddedPastTheEnd(s, a, cur, e, pre, dir, d1, ndir, d2, x);
    }
  }

  /** Two blocks of 1024 bytes: the first is a directory of three names of 255 letters and one of 224. */
  function FullBlock(): seq<Byte> {
    seq(2048, k => if k >= 1024 then 0
                   else if k % 264 == 4 then (if k < 792 then 8 else 232)
                   else if k % 264 == 5 then (if k < 792 then 1 else 0)
                   else if k % 264 == 6 then (if k < 792 then 255 else 224)
                   else 97)
  }

  lemma FullBlockRecord(p: nat)
    requires p == 0 || p == 264 || p == 528 || p == 792
    ensures |FullBlock()| == 2048
    ensures RecLen(FullBlock(), p) == (if p < 792 then 264 else 232)
    ensures NameLen(FullBlock(), p) == (if p < 792 then 255 else 224)
  {}

  /** A new record goes to the first byte after a full block. */
  lemma FullBlockHasNoPlace(n: nat)
    ensures Chain(FullBlock(), 0, 1024) && NewPlace(FullBlock(), 0, 1024) == 1024
    ensures !HasPlace(FullBlock(), 0, 1024, n)
  {
    hide FullBlock, RecLen, NameLen;
    var s := FullBlock();
    FullBlockRecord(0);
    FullBlockRecord(264);
    FullBlockRecord(528);
    FullBlockRecord(792);
    assert Chain(s, 1024, 1024);
    assert Chain(s, 792, 1024) && Last(s, 792, 1024) == 792;
    assert Chain(s, 528, 1024) && Last(s, 528, 1024) == 792;
    assert Chain(s, 264, 1024) && Last(s, 264, 1024) == 792;
    assert Chain(s, 0, 1024) && Last(s, 0, 1024) == 792;
  }

  // ---- What the callers see ----

  /** A name added is found, and one that was there once is gone when it has been removed. */
  lemma AddedThenRemoved(l: seq<Entry>, x: Entry, name: seq<Byte>, m: seq<Entry>)
    requires !Lists(l, name) && |l| >= 1 && Named(x, name) && Removed(l + [x], m, name)
    ensures Lists(l + [x], name) && Once(l + [x], name) && m == l && !Lists(m, name)
  {
    hide Named;
    ListsLonger(l, x, name);
    assert forall i :: 0 <= i < |l| ==> (l + [x])[i] == l[i];
    assert forall i :: 0 <= i < |l| + 1 && Named((l + [x])[i], name) ==> i == |l|;
    assert RemoveAt(l + [x], |l|) == l;
  }

  /** Removing a name that is there at most once leaves it there exactly when its record is the only one. */
  lemma RemovedIsGone(l: seq<Entry>, m: seq<Entry>, name: seq<Byte>)
    requires Once(l, name) && Removed(l, m, name)
    ensures !Lists(m, name) <==> |l| >= 2 || !Lists(l, name)
  {
    hide Named;
    if |l| >= 2 && Lists(l, name) {
      var i :| 0 <= i < |l| && Named(l[i], name) && m == RemoveAt(l, i);
      forall k | 0 <= k < |m| ensures !Named(m[k], name) {
        RemoveAtElement(l, i, k);
      }
    }
  }
}
