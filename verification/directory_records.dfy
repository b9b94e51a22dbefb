/** The records of a directory block of an ext2 file system: what a range of bytes lists, and how that follows edits. */
module DirectoryRecords {
  import opened Disks

  /** inode (4), rec_len (2), name_len (1), file_type (1), name. */
  const HEADER: nat := 8
  const STRUCT_SIZE: nat := 264

  /** A record as its readers see it: its length on the disk is not part of it. */
  datatype Entry = Entry(inode: seq<Byte>, fileType: Byte, name: seq<Byte>)

  function RecLen(s: seq<Byte>, p: nat): nat
    requires p + HEADER <= |s|
  {
    var low: int, high: int := s[p + 4], s[p + 5];
    low + 256 * high
  }

  function NameLen(s: seq<Byte>, p: nat): nat
    requires p + HEADER <= |s|
  {
    s[p + 6]
  }

  function EntryAt(s: seq<Byte>, p: nat): Entry
    requires p + HEADER <= |s| && p + HEADER + NameLen(s, p) <= |s|
  {
    Entry(s[p..p + 4], s[p + 7], s[p + HEADER..p + HEADER + NameLen(s, p)])
  }

  /** The name is that C string. */
  predicate Named(e: Entry, name: seq<Byte>) {
    Text(e.name) == Text(name)
  }

  /** Records that cover the bytes from `p` to `e` exactly, each with room for its name. */
  ghost predicate Chain(s: seq<Byte>, p: nat, e: nat)
    decreases e - p
  {
    && p <= e <= |s|
    && (p < e ==>
          && p + HEADER <= e && HEADER + NameLen(s, p) <= RecLen(s, p) && p + RecLen(s, p) <= e
          && Chain(s, p + RecLen(s, p), e))
  }

  ghost function Entries(s: seq<Byte>, p: nat, e: nat): seq<Entry>
    requires Chain(s, p, e)
    decreases e - p
  {
    if p == e then [] else [EntryAt(s, p)] + Entries(s, p + RecLen(s, p), e)
  }

  lemma {:induction false} ChainAppend(s: seq<Byte>, p: nat, m: nat, e: nat)
    requires Chain(s, p, m) && Chain(s, m, e)
    ensures Chain(s, p, e) && Entries(s, p, e) == Entries(s, p, m) + Entries(s, m, e)
    decreases m - p
  {
    hide EntryAt;
    if p < m {
      var n := p + RecLen(s, p);
      ChainAppend(s, n, m, e);
      Chained(Entries(s, n, m), Entries(s, m, e), EntryAt(s, p));
    } else {
      assert Entries(s, p, m) == [];
    }
  }

  /** The same bytes anywhere else list the same. */
  lemma {:induction false} ChainShift(s: seq<Byte>, p: nat, e: nat, t: seq<Byte>, q: nat)
    requires Chain(s, p, e) && q + (e - p) <= |t| && s[p..e] == t[q..q + (e - p)]
    ensures Chain(t, q, q + (e - p)) && Entries(t, q, q + (e - p)) == Entries(s, p, e)
    decreases e - p
  {
    if p < e {
      var n, m := NameLen(s, p), RecLen(s, p);
      SameRecord(s, p, e, t, q);
      SameBytes(s, p, e, t, q, m, e - p);
      ChainShift(s, p + m, e, t, q + m);
    }
  }

  lemma SameRecord(s: seq<Byte>, p: nat, e: nat, t: seq<Byte>, q: nat)
    requires p + HEADER <= e <= |s| && q + (e - p) <= |t| && s[p..e] == t[q..q + (e - p)]
    requires p + HEADER + NameLen(s, p) <= e
    ensures RecLen(t, q) == RecLen(s, p) && NameLen(t, q) == NameLen(s, p) && EntryAt(t, q) == EntryAt(s, p)
  {
    SameByte(s, p, e, t, q, 4);
    SameByte(s, p, e, t, q, 5);
    SameByte(s, p, e, t, q, 6);
    SameByte(s, p, e, t, q, 7);
    SameBytes(s, p, e, t, q, 0, 4);
    SameBytes(s, p, e, t, q, HEADER, HEADER + NameLen(s, p));
  }

  lemma SameByte(s: seq<Byte>, p: nat, e: nat, t: seq<Byte>, q: nat, k: nat)
    requires p <= e <= |s| && q + (e - p) <= |t| && s[p..e] == t[q..q + (e - p)] && k < e - p
    ensures s[p + k] == t[q + k]
  {
    assert s[p..e][k] == s[p + k];
    assert t[q..q + (e - p)][k] == t[q + k];
  }

  lemma SameBytes(s: seq<Byte>, p: nat, e: nat, t: seq<Byte>, q: nat, k: nat, n: nat)
    requires p <= e <= |s| && q + (e - p) <= |t| && s[p..e] == t[q..q + (e - p)] && k <= n <= e - p
    ensures s[p + k..p + n] == t[q + k..q + n]
  {
    var u, v := s[p + k..p + n], t[q + k..q + n];
    forall i | 0 <= i < |u| ensures u[i] == v[i] {
      SameByte(s, p, e, t, q, k + i);
    }
  }

  /** Bytes outside the range do not matter. */
  lemma ChainFrame(s: seq<Byte>, t: seq<Byte>, p: nat, e: nat)
    requires Chain(s, p, e) && e <= |t| && forall k :: p <= k < e ==> s[k] == t[k]
    ensures Chain(t, p, e) && Entries(t, p, e) == Entries(s, p, e)
  {
    assert s[p..e] == t[p..e];
    ChainShift(s, p, e, t, p);
  }

  /** The record at `p` of a chain, alone, and the rest. */
  lemma ChainSplit(s: seq<Byte>, p: nat, e: nat)
    requires Chain(s, p, e) && p < e
    ensures var m := p + RecLen(s, p);
            Chain(s, p, m) && Chain(s, m, e) && Entries(s, p, m) == [EntryAt(s, p)]
            && Entries(s, p, e) == [EntryAt(s, p)] + Entries(s, m, e)
  {
    var m := p + RecLen(s, p);
    assert Chain(s, m, m) && Entries(s, m, m) == [];
  }

  /** One record from `p` to `e`. */
  lemma OneRecord(s: seq<Byte>, p: nat, e: nat)
    requires p + HEADER <= e <= |s| && RecLen(s, p) == e - p && HEADER + NameLen(s, p) <= e - p
    ensures Chain(s, p, e) && Entries(s, p, e) == [EntryAt(s, p)]
  {
    assert Chain(s, e, e);
  }

  /** The records of a whole directory, block after block. */
  ghost predicate Chains(s: seq<Byte>, blocks: seq<nat>, size: nat) {
    forall i :: 0 <= i < |blocks| ==> Chain(s, blocks[i], blocks[i] + size)
  }

  ghost function Listing(s: seq<Byte>, blocks: seq<nat>, size: nat): seq<Entry>
    requires Chains(s, blocks, size)
  {
    if blocks == [] then [] else Entries(s, blocks[0], blocks[0] + size) + Listing(s, blocks[1..], size)
  }

  // ---- The format ----

  /** A record as its bytes: the inode, the length of the record and of the name, the type, the name and the rest. */
  ghost predicate IsRecord(r: seq<Byte>, inode: seq<Byte>, fileType: Byte, name: seq<Byte>, rest: seq<Byte>) {
    var n := 8 + |name| + |rest|;
    && |inode| == 4 && |name| < 256 && n < 65536
    && r == inode + [n % 256, n / 256, |name|, fileType] + name + rest
  }

  lemma RecordReads(r: seq<Byte>, inode: seq<Byte>, fileType: Byte, name: seq<Byte>, rest: seq<Byte>)
    requires IsRecord(r, inode, fileType, name, rest)
    ensures Chain(r, 0, |r|) && Entries(r, 0, |r|) == [Entry(inode, fileType, name)]
  {
    assert |r| == 8 + |name| + |rest|;
    assert r[..4] == inode && r[8..8 + |name|] == name;
    OneRecord(r, 0, |r|);
  }

  /** Records one after the other list their inodes, types and names in order. */
  lemma {:induction false} RecordsList(records: seq<seq<Byte>>, rests: seq<seq<Byte>>, l: seq<Entry>, s: seq<Byte>)
    requires |records| == |l| == |rests| && s == Joined(records)
    requires forall i :: 0 <= i < |l| ==> IsRecord(records[i], l[i].inode, l[i].fileType, l[i].name, rests[i])
    ensures Chain(s, 0, |s|) && Entries(s, 0, |s|) == l
  {
    hide Chain, Entries, IsRecord;
    if records == [] {
      NoRecords(s);
    } else {
      RecordReads(records[0], l[0].inode, l[0].fileType, l[0].name, rests[0]);
      RecordsList(records[1..], rests[1..], l[1..], Joined(records[1..]));
      OneAfterOther(records[0], Joined(records[1..]));
      assert l == [l[0]] + l[1..];
    }
  }

  lemma NoRecords(s: seq<Byte>)
    requires s == []
    ensures Chain(s, 0, |s|) && Entries(s, 0, |s|) == []
  {}

  lemma OneAfterOther(r: seq<Byte>, t: seq<Byte>)
    requires Chain(r, 0, |r|) && Chain(t, 0, |t|)
    ensures Chain(r + t, 0, |r + t|) && Entries(r + t, 0, |r + t|) == Entries(r, 0, |r|) + Entries(t, 0, |t|)
  {
    hide Chain, Entries;
    var s := r + t;
    assert r[0..|r|] == s[0..|r|] && t[0..|t|] == s[|r|..|r| + |t|];
    ChainShift(r, 0, |r|, s, 0);
    ChainShift(t, 0, |t|, s, |r|);
    ChainAppend(s, 0, |r|, |s|);
  }

  ghost function Joined(records: seq<seq<Byte>>): seq<Byte> {
    if records == [] then [] else records[0] + Joined(records[1..])
  }

  /** Names without a zero are compared byte by byte. */
  lemma NamedIsSame(e: Entry, name: seq<Byte>)
    requires 0 !in e.name && 0 !in name
    ensures Named(e, name) <==> e.name == name
  {
    TextAt(e.name, |e.name|);
    TextAt(name, |name|);
    TextIsShort(e.name);
    TextIsShort(name);
  }

  lemma {:induction false} TextIsShort(s: seq<Byte>)
    ensures |Text(s)| <= |s|
  {
    if s != [] {
      TextIsShort(s[1..]);
    }
  }

  // ---- The structure in memory ----

  /** A buffer that starts like the record at `p`. */
  ghost predicate Holds(buf: seq<Byte>, s: seq<Byte>, p: nat) {
    |buf| == STRUCT_SIZE && CopyOf(buf, s, p)
  }

  lemma HeldRecord(buf: seq<Byte>, s: seq<Byte>, p: nat)
    requires Holds(buf, s, p) && p + HEADER <= |s| && p + HEADER + NameLen(s, p) <= |s|
    ensures RecLen(buf, 0) == RecLen(s, p) && NameLen(buf, 0) == NameLen(s, p) && EntryAt(buf, 0) == EntryAt(s, p)
  {
    assert buf[0..4] == s[p..p + 4];
    var n := NameLen(s, p);
    assert buf[HEADER..HEADER + n] == s[p + HEADER..p + HEADER + n];
  }

  function WithRecLen(buf: seq<Byte>, n: nat): seq<Byte>
    requires |buf| >= HEADER && n < 65536
  {
    buf[4 := n % 256][5 := n / 256]
  }

  /** The zero put after the name before a comparison. */
  function Terminated(buf: seq<Byte>): seq<Byte>
    requires |buf| == STRUCT_SIZE
  {
    buf[HEADER + NameLen(buf, 0) := 0]
  }

  lemma RecLenChanged(buf: seq<Byte>, n: nat)
    requires |buf| == STRUCT_SIZE && n < 65536
    ensures |WithRecLen(buf, n)| == STRUCT_SIZE && RecLen(WithRecLen(buf, n), 0) == n
    ensures NameLen(WithRecLen(buf, n), 0) == NameLen(buf, 0) && EntryAt(WithRecLen(buf, n), 0) == EntryAt(buf, 0)
  {
    var r := WithRecLen(buf, n);
    assert r[0..4] == buf[0..4];
    var m := NameLen(buf, 0);
    assert r[HEADER..HEADER + m] == buf[HEADER..HEADER + m];
  }

  lemma NameTerminated(buf: seq<Byte>)
    requires |buf| == STRUCT_SIZE
    ensures |Terminated(buf)| == STRUCT_SIZE && RecLen(Terminated(buf), 0) == RecLen(buf, 0)
    ensures NameLen(Terminated(buf), 0) == NameLen(buf, 0) && EntryAt(Terminated(buf), 0) == EntryAt(buf, 0)
    ensures 0 in Terminated(buf)[HEADER..] && Text(Terminated(buf)[HEADER..]) == Text(EntryAt(buf, 0).name)
  {
    var r := Terminated(buf);
    var m := NameLen(buf, 0);
    assert r[0..4] == buf[0..4];
    assert r[HEADER..HEADER + m] == buf[HEADER..HEADER + m];
    assert r[HEADER..][m] == 0;
    assert r[HEADER..][..m] == r[HEADER..HEADER + m];
    TextStops(r[HEADER..], m);
  }

  /** Bytes written from a structure that may be shorter than what is written. */
  ghost predicate TakenFrom(data: seq<Byte>, buf: seq<Byte>) {
    forall k :: 0 <= k < |data| && k < |buf| ==> data[k] == buf[k]
  }

  /** The bytes written need only reach the end of the name. */
  lemma RecordWritten(s: seq<Byte>, p: nat, data: seq<Byte>, buf: seq<Byte>)
    requires |buf| == STRUCT_SIZE && TakenFrom(data, buf) && HEADER + NameLen(buf, 0) <= |data|
    requires p + HEADER + NameLen(buf, 0) <= |s|
    ensures var t := Written(s, p, data);
            RecLen(t, p) == RecLen(buf, 0) && NameLen(t, p) == NameLen(buf, 0) && EntryAt(t, p) == EntryAt(buf, 0)
  {
    var t := Written(s, p, data);
    var m := NameLen(buf, 0);
    forall k: nat | k < HEADER + m ensures t[p + k] == buf[k] {
      WrittenAt(s, p, data, p + k);
    }
    assert t[p + 4] == buf[4] && t[p + 5] == buf[5] && t[p + 6] == buf[6] && t[p + 7] == buf[7];
    assert t[p..p + 4] == buf[0..4];
    assert t[p + HEADER..p + HEADER + m] == buf[HEADER..HEADER + m];
  }

  /** A record that fits up to `e`, alone. */
  lemma RecordPlaced(s: seq<Byte>, p: nat, data: seq<Byte>, buf: seq<Byte>)
    requires |buf| == STRUCT_SIZE && TakenFrom(data, buf) && HEADER + NameLen(buf, 0) <= |data|
    requires HEADER + NameLen(buf, 0) <= RecLen(buf, 0) && p + RecLen(buf, 0) <= |s|
    ensures var t, e := Written(s, p, data), p + RecLen(buf, 0);
            Chain(t, p, e) && Entries(t, p, e) == [EntryAt(buf, 0)]
  {
    hide EntryAt;
    RecordWritten(s, p, data, buf);
    OneRecord(Written(s, p, data), p, p + RecLen(buf, 0));
  }

  /** A chain that goes through `m` continues from there. */
  lemma {:induction false} ChainRest(s: seq<Byte>, p: nat, m: nat, e: nat)
    requires Chain(s, p, m) && Chain(s, p, e) && m <= e
    ensures Chain(s, m, e) && Entries(s, p, e) == Entries(s, p, m) + Entries(s, m, e)
    decreases m - p
  {
    hide EntryAt;
    if p < m {
      var n := p + RecLen(s, p);
      ChainRest(s, n, m, e);
      Chained(Entries(s, n, m), Entries(s, m, e), EntryAt(s, p));
    } else {
      assert Entries(s, p, m) == [];
    }
  }

  lemma Chained(a: seq<Entry>, b: seq<Entry>, x: Entry)
    ensures [x] + (a + b) == [x] + a + b
  {}
}
