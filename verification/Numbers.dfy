// Decimal and hexadecimal numbers as text (hemi_utilities.go): what header values and chunk sizes use.

module Numbers {
  import opened Bytes

  const I64_LIMIT: nat := 0x8000_0000_0000_0000

  /** Two's complement: what remains of a number in an int64. */
  function Wrap64(x: int): int64 {
    (x + I64_LIMIT) % (2 * I64_LIMIT) - I64_LIMIT
  }

  type Base = b: nat | b == 10 || b == 16 witness 10

  /** The longest text that is looked at. */
  function MaxDigits(base: Base): nat {
    if base == 10 then 19 else 16
  }

  predicate IsDigit(b: byte, base: Base) {
    48 <= b <= 57 || (base == 16 && (97 <= b <= 102 || 65 <= b <= 70))
  }

  function DigitValue(b: byte, base: Base): (d: nat)
    requires IsDigit(b, base)
    ensures d < base
  {
    if b <= 57 then b - 48 else if b >= 97 then b - 87 else b - 55
  }

  predicate AllDigits(s: seq<byte>, base: Base) {
    forall k | 0 <= k < |s| :: IsDigit(s[k], base)
  }

  /** The number a text of digits stands for. */
  function Value(s: seq<byte>, base: Base): nat
    requires AllDigits(s, base)
  {
    if s == [] then 0 else Value(s[..|s| - 1], base) * base + DigitValue(s[|s| - 1], base)
  }

  function Pow(base: Base, k: nat): (p: nat)
    ensures p >= 1
  {
    if k == 0 then 1 else Pow(base, k - 1) * base
  }

  lemma {:induction false} ValueBound(s: seq<byte>, base: Base)
    requires AllDigits(s, base)
    ensures Value(s, base) < Pow(base, |s|)
  {
    if s != [] {
      var t := s[..|s| - 1];
      ValueBound(t, base);
      assert (Value(t, base) + 1) * base <= Pow(base, |t|) * base;
    }
  }

  lemma {:induction false} PowGrows(base: Base, j: nat, k: nat)
    requires j <= k
    ensures Pow(base, j) <= Pow(base, k)
    decreases k
  {
    if j < k {
      PowGrows(base, j, k - 1);
    }
  }

  /** Multiplies by the base, k times over. */
  lemma PowStep(base: Base, k: nat)
    ensures Pow(base, k + 3) == Pow(base, k) * base * base * base
  {
    assert Pow(base, k + 1) == Pow(base, k) * base;
    assert Pow(base, k + 2) == Pow(base, k + 1) * base;
  }

  lemma PowLimits()
    ensures Pow(10, 18) < I64_LIMIT < Pow(10, 19) < 2 * I64_LIMIT
    ensures Pow(16, 15) < I64_LIMIT && Pow(16, 16) == 2 * I64_LIMIT
  {
    assert Pow(10, 0) == 1 && Pow(16, 0) == 1;
    PowStep(10, 0); PowStep(10, 3); PowStep(10, 6); PowStep(10, 9); PowStep(10, 12); PowStep(10, 15);
    PowStep(16, 0); PowStep(16, 3); PowStep(16, 6); PowStep(16, 9); PowStep(16, 12);
    assert Pow(10, 19) == Pow(10, 18) * 10;
    assert Pow(16, 16) == Pow(16, 15) * 16;
  }

  lemma ValueMore(s: seq<byte>, base: Base, k: nat)
    requires k < |s| && AllDigits(s[..k], base) && IsDigit(s[k], base)
    ensures AllDigits(s[..k + 1], base)
    ensures Value(s[..k + 1], base) == Value(s[..k], base) * base + DigitValue(s[k], base)
  {
    assert s[..k + 1][..k] == s[..k];
  }

  /** One more digit overflows an int64 exactly when the sign says so. */
  lemma SignTells(s: seq<byte>, base: Base, k: nat)
    requires k < |s| <= MaxDigits(base) && AllDigits(s[..k + 1], base)
    ensures Value(s[..k], base) < I64_LIMIT
    ensures Value(s[..k + 1], base) < 2 * I64_LIMIT
    ensures Wrap64(Value(s[..k + 1], base)) < 0 <==> Value(s[..k + 1], base) >= I64_LIMIT
    ensures Wrap64(Value(s[..k + 1], base)) >= 0 ==> Wrap64(Value(s[..k + 1], base)) == Value(s[..k + 1], base)
  {
    assert AllDigits(s[..k], base) by {
      assert s[..k] == s[..k + 1][..k];
    }
    ValueBound(s[..k], base);
    ValueBound(s[..k + 1], base);
    PowGrows(base, k, MaxDigits(base) - 1);
    PowGrows(base, k + 1, MaxDigits(base));
    PowLimits();
    WrapSign(Value(s[..k + 1], base));
  }

  lemma WrapSign(x: nat)
    requires x < 2 * I64_LIMIT
    ensures Wrap64(x) < 0 <==> x >= I64_LIMIT
    ensures x < I64_LIMIT ==> Wrap64(x) == x
  {
  }

  lemma NothingYet(base: Base)
    ensures Value([], base) == 0
  {
  }

  /** A prefix is never worth more than the whole. */
  lemma {:induction false} PrefixValue(s: seq<byte>, base: Base, k: nat)
    requires k <= |s| && AllDigits(s, base)
    ensures Value(s[..k], base) <= Value(s, base)
    decreases |s|
  {
    if k < |s| {
      var t := s[..|s| - 1];
      assert t[..k] == s[..k];
      PrefixValue(t, base, k);
      assert Value(s, base) >= Value(t, base) * base >= Value(t, base);
    } else {
      assert s[..k] == s;
    }
  }

  predicate Readable(s: seq<byte>, base: Base) {
    0 < |s| <= MaxDigits(base) && AllDigits(s, base) && Value(s, base) < I64_LIMIT
  }

  /** decToI64 and hexToI64: succeed exactly on what an int64 holds. */
  method TextToI64(s: seq<byte>, base: Base) returns (n: int64, ok: bool)
    ensures ok == Readable(s, base)
    ensures n == if ok then Value(s, base) else 0
  {
    if |s| == 0 || |s| > MaxDigits(base) {
      return 0, false;
    }
    hide Value, Wrap64, Pow, DigitValue;
    n := 0;
    assert s[..0] == [];
    NothingYet(base);
    for k := 0 to |s|
      invariant AllDigits(s[..k], base) && n == Value(s[..k], base)
    {
      if !IsDigit(s[k], base) {
        return 0, false;
      }
      ValueMore(s, base, k);
      SignTells(s, base, k);
      n := Wrap64(n * base + DigitValue(s[k], base));
      if n < 0 {
        if AllDigits(s, base) {
          PrefixValue(s, base, k + 1);
        }
        return 0, false;
      }
    }
    assert s[..|s|] == s;
    ok := true;
  }

  function DigitChar(d: nat): byte
    requires d < 16
  {
    if d < 10 then 48 + d else 87 + d
  }

  /** The shortest text of a number, in lower case. */
  function Digits(n: nat, base: Base): (s: seq<byte>)
    ensures |s| >= 1
  {
    if n < base then [DigitChar(n)] else Digits(n / base, base) + [DigitChar(n % base)]
  }

  lemma {:induction false} DigitsValue(n: nat, base: Base)
    ensures AllDigits(Digits(n, base), base) && Value(Digits(n, base), base) == n
    ensures Digits(n, base)[0] == 48 ==> n == 0
  {
    if n < base {
      assert Value(Digits(n, base)[..0], base) == 0;
    } else {
      DigitsValue(n / base, base);
      var s := Digits(n, base);
      assert s[..|s| - 1] == Digits(n / base, base);
    }
  }

  lemma {:induction false} DigitsFit(n: nat, base: Base, k: nat)
    requires k >= 1 && n < Pow(base, k)
    ensures |Digits(n, base)| <= k
    decreases k
  {
    if n >= base {
      assert k > 1 by {
        assert Pow(base, 1) == Pow(base, 0) * base;
      }
      assert n / base < Pow(base, k - 1);
      DigitsFit(n / base, base, k - 1);
    }
  }

  /** Written and read back, every non-negative int64 is itself, and its text is never too long. */
  lemma Int64RoundTrip(n: int64, base: Base)
    requires n >= 0
    ensures Readable(Digits(n, base), base) && Value(Digits(n, base), base) == n
  {
    DigitsValue(n, base);
    PowLimits();
    DigitsFit(n, base, MaxDigits(base));
  }

  lemma OneDigit(n: nat, base: Base)
    ensures n < base ==> Digits(n, base) == [DigitChar(n)]
    ensures n >= base ==> n / base < n && 0 <= n - n / base * base < 16
    ensures n >= base ==> Digits(n, base) == Digits(n / base, base) + [DigitChar(n - n / base * base)]
  {
  }

  /** i64ToDec and i64ToHex: writes the text at the start of dst[at:]. */
  method PutI64(n: int64, base: Base, dst: array<byte>, at: nat) returns (size: nat)
    requires n >= 0 && at + MaxDigits(base) <= dst.Length
    modifies dst
    ensures size == |Digits(n, base)| && 1 <= size <= MaxDigits(base)
    ensures dst[..] == Pasted(old(dst[..]), at, Digits(n, base))
  {
    Int64RoundTrip(n, base);
    hide Digits, Value;
    size := CountDigits(n, base);
    var j: nat, rest: nat := size - 1, n;
    ghost var was, done: seq<byte> := dst[..], [];
    hide Pasted;
    PastedNothing(was, at + size);
    while rest >= base
      invariant j == |Digits(rest, base)| - 1 && j + |done| + 1 == size
      invariant Digits(n, base) == Digits(rest, base) + done
      invariant dst[..] == Pasted(was, at + j + 1, done)
      decreases rest
    {
      var t, digit := SplitDigit(rest, base, done);
      PastedBefore(was, at + j, digit, done);
      dst[at + j] := digit;
      done := [digit] + done;
      j, rest := j - 1, t;
    }
    OneDigit(rest, base);
    PastedBefore(was, at, DigitChar(rest), done);
    dst[at] := DigitChar(rest);
  }

  /** Takes the last digit off. */
  method SplitDigit(n: nat, base: Base, ghost done: seq<byte>) returns (t: nat, digit: byte)
    requires n >= base
    ensures t == n / base < n && |Digits(n, base)| == |Digits(t, base)| + 1
    ensures Digits(n, base) + done == Digits(t, base) + ([digit] + done)
  {
    hide Digits;
    OneDigit(n, base);
    t := n / base;
    digit := DigitChar(n - t * base);
  }

  lemma PastedNothing(was: seq<byte>, to: nat)
    requires to <= |was|
    ensures Pasted(was, to, []) == was
  {
  }

  lemma PastedBefore(was: seq<byte>, to: nat, b: byte, p: seq<byte>)
    requires to + 1 + |p| <= |was|
    ensures Pasted(was, to + 1, p)[to := b] == Pasted(was, to, [b] + p)
  {
  }

  method CountDigits(n: nat, base: Base) returns (size: nat)
    ensures size == |Digits(n, base)|
  {
    hide Digits;
    size := 1;
    var i: nat := n;
    while i >= base
      invariant |Digits(n, base)| == size - 1 + |Digits(i, base)|
      decreases i
    {
      OneDigit(i, base);
      size, i := size + 1, i / base;
    }
    OneDigit(i, base);
  }

  // ----- Which letters the digits are -----

  const LOWER_DIGITS: string := "0123456789abcdef"
  const UPPER_DIGITS: string := "0123456789ABCDEF"

  /** Both spellings of a digit stand for its place in the alphabet, and the lower one is written. */
  lemma DigitsInOrder(d: nat, base: Base)
    requires d < base
    ensures DigitChar(d) == LOWER_DIGITS[d] as int
    ensures IsDigit(LOWER_DIGITS[d] as int, base) && DigitValue(LOWER_DIGITS[d] as int, base) == d
    ensures IsDigit(UPPER_DIGITS[d] as int, base) && DigitValue(UPPER_DIGITS[d] as int, base) == d
  {
    DigitLetters(d);
  }

  lemma DigitLetters(d: nat)
    requires d < 16
    ensures LOWER_DIGITS[d] as int == if d < 10 then 48 + d else 87 + d
    ensures UPPER_DIGITS[d] as int == if d < 10 then 48 + d else 55 + d
  {
  }

  /** There are no other digits. */
  lemma OnlyTheseDigits(b: byte, base: Base)
    requires IsDigit(b, base)
    ensures DigitValue(b, base) < base
    ensures b == LOWER_DIGITS[DigitValue(b, base)] as int || b == UPPER_DIGITS[DigitValue(b, base)] as int
  {
    DigitLetters(DigitValue(b, base));
  }

  /** A text and the same text with some of its letters raised stand for the same number. */
  lemma {:induction false} RaisedText(s: seq<byte>, t: seq<byte>)
    requires AllDigits(s, 16) && |s| == |t|
    requires forall k | 0 <= k < |s| :: t[k] == s[k] || (97 <= s[k] <= 102 && t[k] == s[k] - 32)
    ensures AllDigits(t, 16) && Value(t, 16) == Value(s, 16)
  {
    if s != [] {
      RaisedText(s[..|s| - 1], t[..|t| - 1]);
      var k := |s| - 1;
      assert t[k] == s[k] || (97 <= s[k] <= 102 && t[k] == s[k] - 32);
      assert DigitValue(t[k], 16) == DigitValue(s[k], 16);
    }
  }

  /** What is written is written in lower case. */
  lemma {:induction false} WrittenInLowerCase(n: nat, base: Base)
    ensures forall k | 0 <= k < |Digits(n, base)| :: exists d ::
      0 <= d < base && Digits(n, base)[k] == LOWER_DIGITS[d] as int
  {
    DigitsInOrder(n % base, base);
    if n < base {
      assert n % base == n;
    } else {
      WrittenInLowerCase(n / base, base);
    }
  }
}
