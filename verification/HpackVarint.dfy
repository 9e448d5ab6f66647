// HPACK integers (section 5.1 of RFC 7541), computed in 32 bits.

module HpackVarint {
  import opened Bytes

  const TWO32: int := 0x1_0000_0000

  function Pow2(n: nat): (p: nat)
    ensures p >= 1
  {
    if n == 0 then 1 else 2 * Pow2(n - 1)
  }

  /** n << M, before truncation to 32 bits. */
  function Scaled(n: nat, M: nat): nat {
    n * Pow2(M)
  }

  /** 2^N - 1: the values below it fit in an N-bit prefix. */
  function PrefixMax(N: nat): (k: nat)
    requires 1 <= N <= 8
    ensures 1 <= k <= 255
  {
    assert Pow2(1) == 2 && Pow2(2) == 4 && Pow2(3) == 8 && Pow2(4) == 16;
    assert Pow2(5) == 32 && Pow2(6) == 64 && Pow2(7) == 128 && Pow2(8) == 256;
    Pow2(N) - 1
  }

  // ----- The encoding of RFC 7541, over unbounded integers -----

  /** n in groups of seven bits, the least significant group first. */
  function Groups(n: nat): (s: seq<byte>)
    ensures |s| >= 1
  {
    if n < 0x80 then [n] else [n % 0x80 + 0x80] + Groups(n / 0x80)
  }

  function Encoded(I: nat, N: nat): (s: seq<byte>)
    requires 1 <= N <= 8
    ensures |s| >= 1
  {
    if I < PrefixMax(N) then [I] else [PrefixMax(N)] + Groups(I - PrefixMax(N))
  }

  /** Continuation octets that stop at the first one without the top bit. */
  predicate Stops(s: seq<byte>) {
    s != [] && if s[0] < 0x80 then |s| == 1 else Stops(s[1..])
  }

  function Value(s: seq<byte>): nat
    requires Stops(s)
  {
    if s[0] < 0x80 then s[0] else s[0] - 0x80 + 0x80 * Value(s[1..])
  }

  // ----- hpackEncodeVarint -----

  method Encode(fields: array<byte>, I: uint32, N: nat) returns (n: nat, ok: bool)
    requires 1 <= N <= 8
    modifies fields
    ensures ok == (|Encoded(I, N)| <= fields.Length)
    ensures ok ==> n == |Encoded(I, N)| && fields[..] == Encoded(I, N) + old(fields[n..])
    ensures !ok ==> n == fields.Length
  {
    var l := fields.Length;
    if l == 0 {
      return 0, false;
    }
    var K := PrefixMax(N);
    if I < K {
      fields[0] := I;
      return 1, true;
    }
    fields[0] := K;
    n, ok := EncodeGroups(fields, I - K);
  }

  /** The loop of the encoder: the groups of i go behind the first octet. */
  method EncodeGroups(fields: array<byte>, value: nat) returns (n: nat, ok: bool)
    requires fields.Length >= 1
    modifies fields
    ensures ok == (1 + |Groups(value)| <= fields.Length)
    ensures ok ==> n == 1 + |Groups(value)| && fields[..] == old(fields[..1]) + Groups(value) + old(fields[n..])
    ensures !ok ==> n == fields.Length
  {
    var j, i := 1, value;
    ghost var was, done := fields[..], fields[..1];
    while i >= 0x80 && j < fields.Length
      invariant |done| == j <= fields.Length
      invariant was[..1] + Groups(value) == done + Groups(i)
      invariant fields[..] == done + was[j..]
      decreases i
    {
      var group: byte := i % 0x80 + 0x80;
      assert done + Groups(i) == (done + [group]) + Groups(i / 0x80);
      Overwrite(done, was[j..], group);
      fields[j] := group;
      done := done + [group];
      j := j + 1;
      i := i / 0x80;
    }
    if j == fields.Length {
      return j, false;
    }
    Overwrite(done, was[j..], i);
    fields[j] := i;
    return j + 1, true;
  }

  lemma Overwrite(done: seq<byte>, rest: seq<byte>, x: byte)
    requires rest != []
    ensures (done + rest)[|done| := x] == done + [x] + rest[1..]
  {
  }

  // ----- hpackDecodeVarint -----

  datatype Decoded = Decoded(I: uint32, j: nat, ok: bool)

  /** The loop of the decoder: I so far, octets read from s[j], weighted 2^M. */
  function DecodeFrom(I: uint32, s: seq<byte>, j: nat, M: nat, max: uint32): Decoded
    requires j <= |s|
    decreases |s| - j
  {
    if j == |s| then Decoded(I, j, false) else
    var next := (I + Scaled(s[j] % 0x80, M)) % TWO32;
    if next > max then Decoded(next, j + 1, false)
    else if s[j] < 0x80 then Decoded(next, j + 1, true)
    else DecodeFrom(next, s, j + 1, M + 7, max)
  }

  function DecodeSpec(s: seq<byte>, N: nat, max: uint32): Decoded
    requires 1 <= N <= 8
  {
    if s == [] then Decoded(0, 0, false) else
    var low := s[0] % Pow2(N);
    if low < PrefixMax(N) then Decoded(low, 1, low <= max) else DecodeFrom(low, s, 1, 0, max)
  }

  method Decode(fields: seq<byte>, N: nat, max: uint32) returns (r: Decoded)
    requires 1 <= N <= 8
    ensures r == DecodeSpec(fields, N, max)
  {
    if fields == [] {
      return Decoded(0, 0, false);
    }
    var K := PrefixMax(N);
    var I: uint32 := fields[0] % Pow2(N);
    if I < K {
      return Decoded(I, 1, I <= max);
    }
    var j, M := 1, 0;
    while j < |fields|
      invariant 1 <= j <= |fields|
      invariant DecodeFrom(I, fields, j, M, max) == DecodeSpec(fields, N, max)
    {
      var B := fields[j];
      j := j + 1;
      I := (I + Scaled(B % 0x80, M)) % TWO32;
      if I > max {
        return Decoded(I, j, false);
      }
      if B < 0x80 {
        return Decoded(I, j, true);
      }
      M := M + 7;
    }
    return Decoded(I, j, false);
  }

  // ----- The two together -----

  lemma Pow2Octet(M: nat)
    ensures Pow2(M + 7) == 0x80 * Pow2(M)
  {
    assert Pow2(M + 1) == 2 * Pow2(M) && Pow2(M + 2) == 4 * Pow2(M) && Pow2(M + 3) == 8 * Pow2(M);
    assert Pow2(M + 4) == 16 * Pow2(M) && Pow2(M + 5) == 32 * Pow2(M) && Pow2(M + 6) == 64 * Pow2(M);
  }

  /** A number is its low group plus the rest, which weighs 2^7 more. */
  lemma ScaledSplit(low: nat, rest: nat, M: nat)
    ensures Scaled(low + 0x80 * rest, M) == Scaled(low, M) + Scaled(rest, M + 7)
    ensures Scaled(low, M) >= low && Scaled(low, 0) == low
  {
    var P := Pow2(M);
    Pow2Octet(M);
    assert (low + 0x80 * rest) * P == low * P + rest * (0x80 * P);
    assert low * P >= low;
  }

  /** Octets that stop, and whose value does not reach 2^32 with what was there, are accepted exactly if
      that sum is within the limit. */
  lemma {:induction false} OctetsAccepted(I: uint32, s: seq<byte>, j: nat, end: nat, M: nat, max: uint32)
    requires j < end <= |s| && Stops(s[j..end]) && I + Scaled(Value(s[j..end]), M) < TWO32
    ensures
      var r, sum := DecodeFrom(I, s, j, M, max), I + Scaled(Value(s[j..end]), M);
      && r.ok == (sum <= max)
      && (r.ok ==> r.I == sum && r.j == end)
    decreases |s| - j
  {
    hide Scaled;
    var t, low: nat := s[j..end], s[j] % 0x80;
    var next := I + Scaled(low, M);
    assert t[0] == s[j];
    if s[j] < 0x80 {
      assert Value(t) == low && next % TWO32 == next;
    } else {
      var v := Value(t[1..]);
      assert t[1..] == s[j + 1..end] && Value(t) == low + 0x80 * v;
      ScaledSplit(low, v, M);
      ScaledSplit(v, 0, M + 7);
      assert next % TWO32 == next;
      OctetsAccepted(next, s, j + 1, end, M + 7, max);
    }
  }

  lemma {:induction false} GroupsValue(n: nat)
    ensures Stops(Groups(n)) && Value(Groups(n)) == n
  {
    if n >= 0x80 {
      GroupsValue(n / 0x80);
      assert Groups(n)[1..] == Groups(n / 0x80);
    }
  }

  /** A number of several octets that stops below 2^32 is accepted exactly if it is within the limit, and
      it is decoded as what it stands for. */
  lemma NumberAccepted(s: seq<byte>, end: nat, N: nat, max: uint32)
    requires 1 <= N <= 8 && 1 < end <= |s| && s[0] % Pow2(N) == PrefixMax(N)
    requires Stops(s[1..end]) && PrefixMax(N) + Value(s[1..end]) < TWO32
    ensures
      var r, number := DecodeSpec(s, N, max), PrefixMax(N) + Value(s[1..end]);
      && r.ok == (number <= max)
      && (r.ok ==> r.I == number && r.j == end)
  {
    hide Pow2, PrefixMax, Scaled, DecodeFrom;
    ScaledSplit(Value(s[1..end]), 0, 0);
    OctetsAccepted(PrefixMax(N), s, 1, end, 0, max);
  }

  /** The decoder undoes the encoder, for every uint32 and every prefix width, whatever flags share
      the first octet and whatever follows, and it accepts exactly the values up to `max`. */
  lemma VarintRoundTrip(I: uint32, N: nat, first: byte, after: seq<byte>, max: uint32)
    requires 1 <= N <= 8 && first % Pow2(N) == Encoded(I, N)[0]
    ensures
      var r := DecodeSpec([first] + Encoded(I, N)[1..] + after, N, max);
      && r.ok == (I <= max)
      && (r.ok ==> r.I == I && r.j == |Encoded(I, N)|)
  {
    hide Pow2, PrefixMax, Groups, DecodeFrom, Stops, Value;
    var K, e := PrefixMax(N), Encoded(I, N);
    if I >= K {
      var w := [first] + e[1..] + after;
      assert w[1..|e|] == e[1..] == Groups(I - K);
      GroupsValue(I - K);
      NumberAccepted(w, |e|, N, max);
    }
  }

  /** On any input, what the decoder accepts is a group sequence that stops, and the result is
      congruent to its value modulo 2^32. */
  lemma {:induction false} DecodesModulo(I: uint32, s: seq<byte>, j: nat, M: nat, max: uint32)
    requires j <= |s|
    requires DecodeFrom(I, s, j, M, max).ok
    ensures var r := DecodeFrom(I, s, j, M, max);
      && j < r.j <= |s| && Stops(s[j..r.j])
      && r.I == (I + Scaled(Value(s[j..r.j]), M)) % TWO32
    decreases |s| - j
  {
    hide Scaled;
    var r := DecodeFrom(I, s, j, M, max);
    var low: nat := s[j] % 0x80;
    if s[j] < 0x80 {
      assert s[j..j + 1][0] == s[j] && |s[j..j + 1]| == 1;
    } else {
      var next := (I + Scaled(low, M)) % TWO32;
      DecodesModulo(next, s, j + 1, M + 7, max);
      var v := Value(s[j + 1..r.j]);
      assert s[j..r.j] == [s[j]] + s[j + 1..r.j];
      assert s[j..r.j][1..] == s[j + 1..r.j];
      assert Value(s[j..r.j]) == low + 0x80 * v;
      ScaledSplit(low, v, M);
      ModuloStep(I + Scaled(low, M), Scaled(v, M + 7));
    }
  }

  lemma ModuloStep(a: int, b: int)
    ensures (a % TWO32 + b) % TWO32 == (a + b) % TWO32
  {
    assert a == a / TWO32 * TWO32 + a % TWO32;
    assert a + b == (a % TWO32 + b) + a / TWO32 * TWO32;
  }

  lemma {:induction false} ValueBound(s: seq<byte>)
    requires Stops(s) && |s| <= 4
    ensures Value(s) <
      if |s| == 1 then 0x80 else if |s| == 2 then 0x4000 else if |s| == 3 then 0x20_0000 else 0x1000_0000
  {
    if s[0] >= 0x80 {
      ValueBound(s[1..]);
    }
  }

  /** With at most four continuation octets the limit is exact, and so is the number. */
  lemma FourOctetsAreExact(s: seq<byte>, end: nat, N: nat, max: uint32)
    requires 1 <= N <= 8 && 1 < end <= |s| && end <= 5 && s[0] % Pow2(N) == PrefixMax(N) && Stops(s[1..end])
    ensures
      var r, number := DecodeSpec(s, N, max), PrefixMax(N) + Value(s[1..end]);
      && r.ok == (number <= max)
      && (r.ok ==> r.I == number && r.j == end)
  {
    hide Pow2, PrefixMax, DecodeFrom, DecodeSpec;
    ValueBound(s[1..end]);
    NumberAccepted(s, end, N, max);
  }

  /** Whatever is accepted is decoded as what it stands for if and only if that does not reach 2^32; if it
      does, and only then, it is beyond the limit. */
  lemma ExactBelowTwo32(s: seq<byte>, N: nat, max: uint32)
    requires 1 <= N <= 8 && s != [] && s[0] % Pow2(N) == PrefixMax(N) && DecodeSpec(s, N, max).ok
    ensures
      var r := DecodeSpec(s, N, max);
      && 1 < r.j <= |s| && Stops(s[1..r.j]) && r.I <= max
      && (r.I == PrefixMax(N) + Value(s[1..r.j]) <==> PrefixMax(N) + Value(s[1..r.j]) < TWO32)
      && (PrefixMax(N) + Value(s[1..r.j]) > max <==> PrefixMax(N) + Value(s[1..r.j]) >= TWO32)
  {
    hide Pow2, PrefixMax, Scaled;
    var r := DecodeSpec(s, N, max);
    assert r == DecodeFrom(PrefixMax(N), s, 1, 0, max);
    WithinLimit(PrefixMax(N), s, 1, 0, max);
    hide DecodeFrom;
    DecodesModulo(PrefixMax(N), s, 1, 0, max);
    ScaledSplit(Value(s[1..r.j]), 0, 0);
  }

  lemma {:induction false} WithinLimit(I: uint32, s: seq<byte>, j: nat, M: nat, max: uint32)
    requires j <= |s| && DecodeFrom(I, s, j, M, max).ok
    ensures DecodeFrom(I, s, j, M, max).I <= max
    decreases |s| - j
  {
    var next := (I + Scaled(s[j] % 0x80, M)) % TWO32;
    hide Scaled;
    if s[j] >= 0x80 {
      WithinLimit(next, s, j + 1, M + 7, max);
    }
  }

  lemma Pow2Of28()
    ensures Pow2(7) == 128 && Pow2(28) == 0x1000_0000
  {
    hide Pow2;
    Pow2Octet(0);
    Pow2Octet(7);
    Pow2Octet(14);
    Pow2Octet(21);
    assert Pow2(0) == 1 by { ScaledSplit(1, 0, 0); }
  }

  lemma NothingAdded(I: uint32, s: seq<byte>, j: nat, M: nat, max: uint32)
    requires j < |s| && s[j] == 0x80 && I <= max
    ensures DecodeFrom(I, s, j, M, max) == DecodeFrom(I, s, j + 1, M + 7, max)
  {
    assert Scaled(0, M) == 0;
    hide Scaled;
    assert (I as int + 0) % TWO32 == I as int;
  }

  lemma WrapsToNothing(s: seq<byte>)
    requires |s| == 6 && s[1] == s[2] == s[3] == s[4] == 0x80 && s[5] == 0x10
    ensures DecodeFrom(127, s, 1, 0, 4096) == Decoded(127, 6, true)
  {
    Pow2Of28();
    assert Scaled(0x10, 28) == TWO32;
    hide Pow2, Scaled;
    assert (127 + TWO32) % TWO32 == 127;
    assert DecodeFrom(127, s, 5, 28, 4096) == Decoded(127, 6, true);
    hide DecodeFrom;
    NothingAdded(127, s, 4, 21, 4096);
    NothingAdded(127, s, 3, 14, 4096);
    NothingAdded(127, s, 2, 7, 4096);
    NothingAdded(127, s, 1, 0, 4096);
  }

  /** With five it need not be: 127 + 2^32 is taken for 127, far below any limit. */
  lemma FifthOctetWraps(s: seq<byte>)
    requires s == [0x7f] + [0x80, 0x80, 0x80, 0x80, 0x10]
    ensures DecodeSpec(s, 7, 4096) == Decoded(127, 6, true)
    ensures Stops(s[1..]) && 127 + Value(s[1..]) == 127 + TWO32
  {
    Pow2Of28();
    assert PrefixMax(7) == 127;
    hide Pow2, PrefixMax, DecodeFrom, Value, Stops;
    WrapsToNothing(s);
    assert s[1..] == [0x80, 0x80, 0x80, 0x80, 0x10];
    FiveGroups(s[1..]);
  }

  lemma FiveGroups(t: seq<byte>)
    requires t == [0x80, 0x80, 0x80, 0x80, 0x10]
    ensures Stops(t) && Value(t) == TWO32
  {
    var t2, t3, t4, t5: seq<byte> := t[1..], t[2..], t[3..], t[4..];
    assert t2[1..] == t3 && t3[1..] == t4 && t4[1..] == t5;
    assert Stops(t5) && Value(t5) == 0x10;
    assert Stops(t4) && Value(t4) == 0x800;
    assert Stops(t3) && Value(t3) == 0x4_0000;
    assert Stops(t2) && Value(t2) == 0x200_0000;
  }

  /** The examples of section C.1 of RFC 7541. */
  lemma RfcExamples()
    ensures Encoded(10, 5) == [10] && Encoded(1337, 5) == [31, 154, 10] && Encoded(42, 8) == [42]
  {
    assert Pow2(1) == 2 && Pow2(2) == 4 && Pow2(3) == 8 && Pow2(4) == 16;
    assert PrefixMax(5) == 31 && PrefixMax(8) == 255 by {
      assert Pow2(5) == 32 && Pow2(6) == 64 && Pow2(7) == 128 && Pow2(8) == 256;
    }
    hide PrefixMax, Pow2;
    assert Groups(10) == [10];
    assert Groups(1306) == [154] + Groups(10);
  }
}
