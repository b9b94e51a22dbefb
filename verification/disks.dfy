/** A disk as bytes, read and written by ranges, and the C strings compared by klibc.c. */
module Disks {

  type Byte = x: int | 0 <= x < 256

  /** The bytes with some of them replaced. */
  function Overwritten(s: seq<Byte>, pos: nat, data: seq<Byte>): (r: seq<Byte>)
    requires pos + |data| <= |s|
    ensures |r| == |s| && r[pos..pos + |data|] == data
    ensures forall i :: 0 <= i < pos || pos + |data| <= i < |s| ==> r[i] == s[i]
  {
    s[..pos] + data + s[pos + |data|..]
  }

  /** The same as far as there are bytes to replace. */
  function Written(s: seq<Byte>, pos: nat, data: seq<Byte>): (r: seq<Byte>)
    ensures |r| == |s|
  {
    if |s| < pos then s
    else if |s| < pos + |data| then Overwritten(s, pos, data[..|s| - pos])
    else Overwritten(s, pos, data)
  }

  lemma WrittenAt(s: seq<Byte>, pos: nat, data: seq<Byte>, i: nat)
    requires i < |s|
    ensures Written(s, pos, data)[i] == if pos <= i < pos + |data| then data[i - pos] else s[i]
  {
    var d := if |s| < pos + |data| && pos <= |s| then data[..|s| - pos] else data;
    if pos <= i < pos + |d| {
      assert Written(s, pos, data)[pos..pos + |d|][i - pos] == d[i - pos];
    }
  }

  /** A buffer that starts like the bytes from `pos` on, as far as there are any. */
  ghost predicate CopyOf(buf: seq<Byte>, s: seq<Byte>, pos: nat) {
    forall k :: 0 <= k < |buf| && pos + k < |s| ==> buf[k] == s[pos + k]
  }

  class Disk {
    var bytes: seq<Byte>

    constructor (bytes: seq<Byte>)
      ensures this.bytes == bytes
    {
      this.bytes := bytes;
    }

    /** read_data: past the end of the disk the buffer keeps whatever it held. */
    method Read(pos: nat, n: nat) returns (buf: seq<Byte>)
      ensures |buf| == n && CopyOf(buf, bytes, pos)
    {
      var held: seq<Byte> :| |held| == n by {
        assert |seq<Byte>(n, i => 0)| == n;
      }
      buf := seq(n, k requires 0 <= k < n reads this => if pos + k < |bytes| then bytes[pos + k] else held[k]);
    }

    /** write_data: past the end of the disk nothing is stored. */
    method Write(pos: nat, data: seq<Byte>)
      modifies this
      ensures bytes == Written(old(bytes), pos, data)
      ensures pos + |data| <= |old(bytes)| ==> bytes == Overwritten(old(bytes), pos, data)
    {
      bytes := Written(bytes, pos, data);
    }
  }

  /** The C string at the start of a buffer: everything before the first zero. */
  function Text(s: seq<Byte>): seq<Byte> {
    if s == [] || s[0] == 0 then [] else [s[0]] + Text(s[1..])
  }

  lemma {:induction false} TextStops(s: seq<Byte>, n: nat)
    requires n < |s| && s[n] == 0
    ensures Text(s) == Text(s[..n])
  {
    if s[0] != 0 {
      assert s[1..][..n - 1] == s[..n][1..];
      TextStops(s[1..], n - 1);
    }
  }

  lemma {:induction false} TextAt(s: seq<Byte>, n: nat)
    requires n <= |s| && forall k :: 0 <= k < n ==> s[k] != 0
    ensures |Text(s)| >= n && Text(s)[..n] == s[..n]
    ensures n < |s| && s[n] == 0 ==> Text(s) == s[..n]
    ensures n < |s| && s[n] != 0 ==> |Text(s)| > n && Text(s)[n] == s[n]
  {
    if n > 0 {
      TextAt(s[1..], n - 1);
      assert s[..n] == [s[0]] + s[1..][..n - 1];
      assert n < |s| ==> s[1..][n - 1] == s[n];
    }
  }

  /** strcmp, of which only "equal or not" is used: 0 exactly when the two strings are the same. */
  method StrCmp(dst: seq<Byte>, src: seq<Byte>) returns (r: int)
    requires 0 in dst && 0 in src
    ensures r == 0 <==> Text(dst) == Text(src)
  {
    var i := 0;
    ghost var m: nat :| m < |src| && src[m] == 0;
    ghost var d: nat :| d < |dst| && dst[d] == 0;
    while dst[i] == src[i]
      invariant i <= m && i <= d
      invariant forall k :: 0 <= k < i ==> dst[k] == src[k] != 0
      decreases m - i
    {
      if src[i] == 0 {
        TextAt(dst, i);
        TextAt(src, i);
        assert dst[..i] == src[..i];
        return 0;
      }
      i := i + 1;
    }
    TextAt(dst, i);
    TextAt(src, i);
    r := 1;
  }
}
