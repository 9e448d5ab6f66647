// Bytes, fixed-width numbers, and the memory moves the wire engines are built from.

module Bytes {
  type byte = x: int | 0 <= x < 0x100
  type uint16 = x: int | 0 <= x < 0x1_0000
  type uint32 = x: int | 0 <= x < 0x1_0000_0000
  type int64 = x: int | -0x8000_0000_0000_0000 <= x < 0x8000_0000_0000_0000

  const CR: byte := 13
  const LF: byte := 10
  const SP: byte := 32
  const HT: byte := 9
  const COLON: byte := 58
  const SEMICOLON: byte := 59

  const CRLF: seq<byte> := [CR, LF]

  // The sizes of pooled buffers.
  const K4: nat := 4096
  const K16: nat := 16384

  /** The bytes of an ASCII string. */
  function Text(s: string): (t: seq<byte>)
    requires forall k | 0 <= k < |s| :: s[k] as int < 0x80
    ensures |t| == |s|
  {
    seq(|s|, k requires 0 <= k < |s| => s[k] as int)
  }

  /** Joins a list of byte strings, in order. */
  function Concat(parts: seq<seq<byte>>): seq<byte> {
    if parts == [] then [] else parts[0] + Concat(parts[1..])
  }

  lemma {:induction false} ConcatAppend(a: seq<seq<byte>>, b: seq<seq<byte>>)
    ensures Concat(a + b) == Concat(a) + Concat(b)
  {
    if a == [] {
      assert a + b == b;
    } else {
      assert (a + b)[1..] == a[1..] + b;
      ConcatAppend(a[1..], b);
    }
  }

  lemma ConcatOne(part: seq<byte>)
    ensures Concat([part]) == part
  {
    assert Concat([part]) == part + Concat([]);
  }

  /** binary.BigEndian: the first byte is the most significant. */
  function BigEndian(b: seq<byte>): nat {
    if b == [] then 0 else BigEndian(b[..|b| - 1]) * 0x100 + b[|b| - 1]
  }

  /** The four bytes of binary.BigEndian.PutUint32. */
  function PutUint32(n: uint32): (b: seq<byte>)
    ensures |b| == 4
  {
    [n / 0x100 / 0x100 / 0x100, n / 0x100 / 0x100 % 0x100, n / 0x100 % 0x100, n % 0x100]
  }

  lemma BigEndianStep(b: seq<byte>, x: byte)
    ensures BigEndian(b + [x]) == BigEndian(b) * 0x100 + x
  {
    assert (b + [x])[..|b|] == b;
  }

  lemma BigEndianPut(n: uint32)
    ensures BigEndian(PutUint32(n)) == n
    ensures n < 0x100_0000 ==> BigEndian(PutUint32(n)[1..]) == n
  {
    var q1, q2, q3 := n / 0x100, n / 0x100 / 0x100, n / 0x100 / 0x100 / 0x100;
    var b1: seq<byte> := [q3];
    var b2: seq<byte> := b1 + [q2 % 0x100];
    var b3: seq<byte> := b2 + [q1 % 0x100];
    BigEndianStep([], q3);
    assert [] + b1 == b1;
    BigEndianStep(b1, q2 % 0x100);
    BigEndianStep(b2, q1 % 0x100);
    BigEndianStep(b3, n % 0x100);
    assert BigEndian(b1) == q3 && BigEndian(b2) == q2 && BigEndian(b3) == q1;
    assert PutUint32(n) == b3 + [n % 0x100];
    BigEndianStep([], q2 % 0x100);
    BigEndianStep([q2 % 0x100], q1 % 0x100);
    BigEndianStep([q2 % 0x100, q1 % 0x100], n % 0x100);
    assert PutUint32(n)[1..] == [q2 % 0x100, q1 % 0x100] + [n % 0x100];
  }

  lemma SubSlice<T>(s: seq<T>, lo: nat, hi: nat, from: nat, edge: nat)
    requires lo <= hi <= |s| && from <= edge <= hi - lo
    ensures s[lo..hi][from..edge] == s[lo + from..lo + edge]
  {
    assert |s[lo..hi][from..edge]| == edge - from;
    forall k | 0 <= k < edge - from
      ensures s[lo..hi][from..edge][k] == s[lo + from..lo + edge][k]
    {
    }
  }

  /** The content of a buffer after Go's copy(a[to:], p). */
  function Pasted(s: seq<byte>, to: nat, p: seq<byte>): (t: seq<byte>)
    requires to + |p| <= |s|
    ensures |t| == |s|
  {
    s[..to] + p + s[to + |p|..]
  }

  /** A paste is seen inside its range and nowhere else. */
  lemma PastedSlice(s: seq<byte>, to: nat, p: seq<byte>, lo: nat, hi: nat)
    requires to + |p| <= |s| && lo <= hi <= |s|
    ensures hi <= to || to + |p| <= lo ==> Pasted(s, to, p)[lo..hi] == s[lo..hi]
    ensures to <= lo && hi <= to + |p| ==> Pasted(s, to, p)[lo..hi] == p[lo - to..hi - to]
  {
    var t := Pasted(s, to, p);
    forall k | lo <= k < hi
      ensures k < to || to + |p| <= k ==> t[k] == s[k]
      ensures to <= k < to + |p| ==> t[k] == p[k - to]
    {
    }
  }

  /** Bytes that arrive at `edge` extend what stood before it. */
  lemma PastedBehind(s: seq<byte>, edge: nat, p: seq<byte>, from: nat)
    requires from <= edge && edge + |p| <= |s|
    ensures Pasted(s, edge, p)[from..edge + |p|] == s[from..edge] + p
  {
    PastedSlice(s, edge, p, from, edge);
    PastedSlice(s, edge, p, edge, edge + |p|);
    var t := Pasted(s, edge, p);
    hide Pasted;
    assert t[from..edge + |p|] == t[from..edge] + t[edge..edge + |p|];
  }

  lemma TakeDrop(s: seq<byte>, n: nat)
    requires n <= |s|
    ensures s == s[..n] + s[n..]
  {
  }

  /** Go's copy(a[to:], a[from:edge]): source and destination may overlap, nothing is truncated. */
  method CopyWithin(a: array<byte>, to: nat, from: nat, edge: nat)
    requires from <= edge <= a.Length && to + (edge - from) <= a.Length
    modifies a
    ensures a[..] == Pasted(old(a[..]), to, old(a[from..edge]))
  {
    var n := edge - from;
    forall k | 0 <= k < n {
      a[to + k] := a[from + k];
    }
  }

  /** Go's copy(a[to:], src[from:edge]) between two different buffers. */
  method CopyBetween(a: array<byte>, to: nat, src: array<byte>, from: nat, edge: nat)
    requires a != src
    requires from <= edge <= src.Length && to + (edge - from) <= a.Length
    modifies a
    ensures a[..] == Pasted(old(a[..]), to, src[from..edge])
  {
    var n := edge - from;
    forall k | 0 <= k < n {
      a[to + k] := src[from + k];
    }
  }

  /** Go's copy(a[to:], p) from a byte string. */
  method CopyInto(a: array<byte>, to: nat, p: seq<byte>)
    requires to + |p| <= a.Length
    modifies a
    ensures a[..] == Pasted(old(a[..]), to, p)
  {
    forall k | 0 <= k < |p| {
      a[to + k] := p[k];
    }
  }
}
