/** Chunk sizes: the hexadecimal parser of server/mqtt/internal/chunked.go and Go's `%x`. */
module Hex {
  import opened Bytes
  import opened Bits
  import opened Streams

  const MAX_DIGITS: nat := 16

  datatype Parsed = Size(n: nat) | Invalid(err: Error)

  /** The value of a digit of either case, or -1. */
  function DigitValue(b: byte): (d: int)
    ensures -1 <= d < 16
  {
    if 48 <= b <= 57 then b - 48
    else if 97 <= b <= 102 then b - 97 + 10
    else if 65 <= b <= 70 then b - 65 + 10
    else -1
  }

  /** The sixteen digits in order, in either case; no other byte is one. */
  lemma DigitTable(b: byte)
    ensures var lower := [48, 49, 50, 51, 52, 53, 54, 55, 56, 57, 97, 98, 99, 100, 101, 102];
            var upper := [48, 49, 50, 51, 52, 53, 54, 55, 56, 57, 65, 66, 67, 68, 69, 70];
            var d := DigitValue(b);
            if d >= 0 then lower[d] == b || upper[d] == b else b !in lower && b !in upper
  {
  }

  predicate AllDigits(s: seq<byte>) {
    forall i :: 0 <= i < |s| ==> DigitValue(s[i]) >= 0
  }

  /** The base-16 value of a digit string. */
  function Value(s: seq<byte>): (n: nat)
    requires AllDigits(s)
  {
    if s == [] then 0 else 16 * Value(s[..|s| - 1]) + DigitValue(s[|s| - 1])
  }

  /** The first digit weighs most: 16 to the number of digits behind it. */
  lemma {:induction false} FirstDigit(s: seq<byte>)
    requires s != [] && AllDigits(s)
    ensures Value(s) == DigitValue(s[0]) * Pow16(|s| - 1) + Value(s[1..])
  {
    var n := |s| - 1;
    if n == 0 {
      assert s[..0] == [] && s[1..] == [];
    } else {
      FirstDigit(s[..n]);
      assert s[1..][..n - 1] == s[..n][1..] && s[1..][n - 1] == s[n];
      TimesBase(DigitValue(s[0]), n);
    }
  }

  lemma TimesBase(d: nat, n: nat)
    requires n > 0
    ensures 16 * (d * Pow16(n - 1)) == d * Pow16(n)
  {
    var p := Pow16(n - 1);
    assert 16 * (d * p) == d * (16 * p);
  }

  /** A bad byte among the first 17 is reported before the length is. */
  function ParseSize(s: seq<byte>): Parsed {
    if !AllDigits(s[..Min(|s|, MAX_DIGITS + 1)]) then Invalid(BadHexByte)
    else if |s| > MAX_DIGITS then Invalid(ChunkTooLarge)
    else Size(Value(s))
  }

  function Pow16(k: nat): (p: nat)
    ensures p > 0
  {
    if k == 0 then 1 else 16 * Pow16(k - 1)
  }

  lemma {:induction false} ValueBound(s: seq<byte>)
    requires AllDigits(s)
    ensures Value(s) < Pow16(|s|)
  {
    if s != [] {
      ValueBound(s[..|s| - 1]);
    }
  }

  lemma {:induction false} Pow16Monotone(a: nat, b: nat)
    requires a <= b
    ensures Pow16(a) <= Pow16(b)
  {
    if a < b {
      Pow16Monotone(a, b - 1);
    }
  }

  /** `n <<= 4; n |= d` on a uint64 that still has its top four bits free. */
  lemma ShiftOr(n: nat, d: nat)
    requires n < Pow16(15) && d < 16
    ensures BitOr(n * 16 % TWO64, d) == 16 * n + d
  {
    assert Pow16(5) == 0x10_0000 && Pow16(10) == 0x100_0000_0000;
    assert Pow16(15) == 0x1000_0000_0000_0000;
    assert n * 16 % TWO64 == n * 16;
    assert Pow2(4) == 16;
    OrLowBits(n * 16, d, 4);
  }

  lemma OneMoreDigit(v: seq<byte>, i: nat)
    requires i < |v| && i < MAX_DIGITS && AllDigits(v[..i]) && DigitValue(v[i]) >= 0
    ensures AllDigits(v[..i + 1]) && Value(v[..i + 1]) == 16 * Value(v[..i]) + DigitValue(v[i])
    ensures Value(v[..i]) < Pow16(15)
  {
    assert v[..i + 1][..i] == v[..i];
    ValueBound(v[..i]);
    Pow16Monotone(i, 15);
  }

  method ParseHexUint(v: seq<byte>) returns (p: Parsed)
    ensures p == ParseSize(v)
  {
    var n: nat := 0;
    for i := 0 to |v|
      invariant i <= MAX_DIGITS && AllDigits(v[..i]) && n == Value(v[..i])
    {
      var b := DigitValue(v[i]);
      if b < 0 {
        assert v[..Min(|v|, MAX_DIGITS + 1)][i] == v[i];
        return Invalid(BadHexByte);
      }
      if i == 16 {
        assert v[..17] == v[..16] + [v[16]];
        return Invalid(ChunkTooLarge);
      }
      OneMoreDigit(v, i);
      ShiftOr(n, b);
      n := n * 16 % TWO64;
      n := BitOr(n, b);
    }
    assert v[..|v|] == v;
    return Size(n);
  }

  /** Lower-case digits without leading zeros. */
  function DigitByte(d: nat): byte
    requires d < 16
  {
    if d < 10 then 48 + d else 97 + d - 10
  }

  /** `%x` of n. */
  function Print(n: nat): (s: seq<byte>)
    ensures |s| > 0 && AllDigits(s)
  {
    if n < 16 then [DigitByte(n)] else Print(n / 16) + [DigitByte(n % 16)]
  }

  lemma {:induction false} PrintValue(n: nat)
    ensures Value(Print(n)) == n
  {
    if n >= 16 {
      PrintValue(n / 16);
      assert Print(n)[..|Print(n)| - 1] == Print(n / 16);
    } else {
      assert Print(n)[..0] == [];
    }
  }

  /** The printed digits are lower case, and the first is a zero only for zero, which prints as that alone. */
  lemma {:induction false} PrintForm(n: nat)
    ensures forall b :: b in Print(n) ==> 48 <= b <= 57 || 97 <= b <= 102
    ensures if n == 0 then Print(n) == [48] else Print(n)[0] != 48
  {
    if n >= 16 {
      PrintForm(n / 16);
    }
  }

  /** A number below 16^k prints in at most k digits, and no fewer than it needs. */
  lemma {:induction false} PrintLength(n: nat, k: nat)
    requires k > 0
    ensures n < Pow16(k) <==> |Print(n)| <= k
  {
    if k == 1 {
      assert Pow16(1) == 16;
    } else if n >= 16 {
      PrintLength(n / 16, k - 1);
    } else {
      Pow16Monotone(1, k);
    }
  }

  /** Printing any uint64 and parsing it gives it back. */
  lemma PrintParse(n: nat)
    requires n < TWO64
    ensures ParseSize(Print(n)) == Size(n)
  {
    assert Pow16(8) == 0x1_0000_0000;
    assert Pow16(16) == TWO64 by { assert Pow16(12) == 0x1_0000_0000_0000; }
    PrintLength(n, 16);
    PrintValue(n);
  }

  /** A string is accepted exactly when it is at most 16 digits, and its value is then below 2^64. */
  lemma AcceptedSizes(s: seq<byte>)
    ensures ParseSize(s).Size? <==> AllDigits(s) && |s| <= 16
    ensures ParseSize(s).Size? ==> ParseSize(s).n < TWO64
    ensures |s| >= 17 && AllDigits(s) ==> ParseSize(s) == Invalid(ChunkTooLarge)
    ensures ParseSize(s) == Invalid(BadHexByte) <==> exists i :: 0 <= i <= 16 && i < |s| && DigitValue(s[i]) < 0
  {
    var head := s[..Min(|s|, 17)];
    assert forall i :: 0 <= i < |head| ==> head[i] == s[i];
    if |s| <= 16 {
      assert s[..|s|] == s;
      if AllDigits(s) {
        ValueBound(s);
        Pow16Monotone(|s|, 16);
        assert Pow16(16) == TWO64 by { assert Pow16(8) == 0x1_0000_0000; assert Pow16(12) == 0x1_0000_0000_0000; }
      }
    }
  }
}
