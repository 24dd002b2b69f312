/** Bitwise operators of Go's unsigned integers, and big-endian numbers, in arithmetic terms. */
module Bits {
  import opened Bytes

  const TWO63: nat := 0x8000_0000_0000_0000
  const TWO64: nat := 0x1_0000_0000_0000_0000

  function BitAnd(a: nat, b: nat): (c: nat)
    ensures c <= a && c <= b
  {
    if a == 0 || b == 0 then 0 else 2 * BitAnd(a / 2, b / 2) + if a % 2 == 1 && b % 2 == 1 then 1 else 0
  }

  function BitOr(a: nat, b: nat): (c: nat)
    ensures a <= c <= a + b && b <= c
  {
    if a == 0 then b
    else if b == 0 then a
    else 2 * BitOr(a / 2, b / 2) + if a % 2 == 1 || b % 2 == 1 then 1 else 0
  }

  /** `x ^ y` on two bytes, bit by bit: the lowest k bits of each. */
  function BitXor(a: nat, b: nat, k: nat := 8): (c: nat)
    requires a < Pow2(k) && b < Pow2(k)
    ensures c < Pow2(k)
  {
    if k == 0 then 0 else 2 * BitXor(a / 2, b / 2, k - 1) + if a % 2 != b % 2 then 1 else 0
  }

  function Pow2(k: nat): (p: nat)
    ensures p > 0
  {
    if k == 0 then 1 else 2 * Pow2(k - 1)
  }

  /** Bit j of a. */
  predicate Bit(a: nat, j: nat) {
    a / Pow2(j) % 2 == 1
  }

  lemma BitOfHalf(a: nat, j: nat)
    requires j > 0
    ensures Bit(a, j) <==> Bit(a / 2, j - 1)
  {
    DivTwice(a, Pow2(j - 1));
  }

  /** A bit of `a ^ b` is set exactly when the bits of a and b differ. */
  lemma {:induction false} XorBits(a: nat, b: nat, k: nat, j: nat)
    requires a < Pow2(k) && b < Pow2(k) && j < k
    ensures Bit(BitXor(a, b, k), j) <==> Bit(a, j) != Bit(b, j)
  {
    var c := BitXor(a, b, k);
    assert c / 2 == BitXor(a / 2, b / 2, k - 1) && c % 2 == if a % 2 != b % 2 then 1 else 0;
    if j > 0 {
      XorBits(a / 2, b / 2, k - 1, j - 1);
      BitOfHalf(a, j);
      BitOfHalf(b, j);
      BitOfHalf(c, j);
    }
  }

  /** A bit of `a & b` is set exactly when it is in both. */
  lemma {:induction false} AndBits(a: nat, b: nat, j: nat)
    ensures Bit(BitAnd(a, b), j) <==> Bit(a, j) && Bit(b, j)
    decreases j
  {
    var c := BitAnd(a, b);
    assert c / 2 == BitAnd(a / 2, b / 2) && c % 2 == if a % 2 == 1 && b % 2 == 1 then 1 else 0;
    if j > 0 {
      AndBits(a / 2, b / 2, j - 1);
      BitOfHalf(a, j);
      BitOfHalf(b, j);
      BitOfHalf(c, j);
    }
  }

  /** A bit of `a | b` is set exactly when it is in either. */
  lemma {:induction false} OrBits(a: nat, b: nat, j: nat)
    ensures Bit(BitOr(a, b), j) <==> Bit(a, j) || Bit(b, j)
    decreases j
  {
    var c := BitOr(a, b);
    assert c / 2 == BitOr(a / 2, b / 2) && c % 2 == if a % 2 == 1 || b % 2 == 1 then 1 else 0;
    if j > 0 {
      OrBits(a / 2, b / 2, j - 1);
      BitOfHalf(a, j);
      BitOfHalf(b, j);
      BitOfHalf(c, j);
    }
  }

  /** Every bit of c is set exactly when those of a and b differ. */
  ghost predicate Xored(c: byte, a: byte, b: byte) {
    forall j :: 0 <= j < 8 ==> (Bit(c, j) <==> Bit(a, j) != Bit(b, j))
  }

  lemma {:induction false} XorSelfInverse(a: nat, b: nat, k: nat)
    requires a < Pow2(k) && b < Pow2(k)
    ensures BitXor(BitXor(a, b, k), b, k) == a
  {
    if k > 0 {
      var c := BitXor(a, b, k);
      assert c / 2 == BitXor(a / 2, b / 2, k - 1) && c % 2 == if a % 2 != b % 2 then 1 else 0;
      XorSelfInverse(a / 2, b / 2, k - 1);
    }
  }

  lemma {:induction false} XorZero(a: nat, k: nat)
    requires a < Pow2(k)
    ensures BitXor(a, 0, k) == a
  {
    if k > 0 {
      XorZero(a / 2, k - 1);
    }
  }

  lemma XorOne(a: nat, k: nat)
    requires k > 0 && a < Pow2(k) && a % 2 == 1 && 1 < Pow2(k)
    ensures BitXor(a, 1, k) == a - 1
  {
    XorZero(a / 2, k - 1);
  }

  /** Xor with a bit that is set clears it. */
  lemma {:induction false} XorSetBit(a: nat, j: nat, k: nat)
    requires a < Pow2(k) && j < k && a / Pow2(j) % 2 == 1 && Pow2(j) < Pow2(k)
    ensures BitXor(a, Pow2(j), k) == a - Pow2(j)
  {
    if j == 0 {
      XorOne(a, k);
    } else {
      var p := Pow2(j - 1);
      DivTwice(a, p);
      XorSetBit(a / 2, j - 1, k - 1);
      assert BitXor(a, 2 * p, k) == 2 * BitXor(a / 2, p, k - 1) + a % 2 by {
        assert 2 * p / 2 == p && 2 * p % 2 == 0;
      }
    }
  }

  /** Masking with 2^k - 1 keeps the low k bits. */
  lemma {:induction false} AndLowBits(a: nat, k: nat)
    ensures BitAnd(a, Pow2(k) - 1) == a % Pow2(k)
  {
    if k > 0 {
      var p := Pow2(k - 1);
      AndLowBits(a / 2, k - 1);
      AndOddMask(a, p - 1);
      DivTwice(a, p);
    }
  }

  lemma DivModUnique(a: nat, m: nat, q: nat, r: nat)
    requires m > 0 && r < m && a == q * m + r
    ensures a / m == q && a % m == r
  {
    var d := a / m - q;
    assert a == (a / m) * m + a % m;
    assert d * m == (a / m) * m - q * m;
    assert d > 0 ==> d * m >= m;
    assert d < 0 ==> d * m + m <= 0;
  }

  /** Dividing by 2m in two steps. */
  lemma DivTwice(a: nat, m: nat)
    requires m > 0
    ensures a / (2 * m) == a / 2 / m
    ensures a % (2 * m) == 2 * (a / 2 % m) + a % 2
  {
    var q, r := a / 2 / m, a / 2 % m;
    assert a == 2 * (q * m + r) + a % 2;
    assert a == q * (2 * m) + (2 * r + a % 2) by { assert 2 * (q * m) == q * (2 * m); }
    DivModUnique(a, 2 * m, q, 2 * r + a % 2);
  }

  /** A mask shifted by one bit tests the number shifted by one bit. */
  lemma AndShifted(a: nat, m: nat)
    ensures BitAnd(a, 2 * m) == 2 * BitAnd(a / 2, m)
  {
    var b := 2 * m;
    assert b / 2 == m && b % 2 == 0;
  }

  lemma AndOddMask(a: nat, m: nat)
    ensures BitAnd(a, 2 * m + 1) == 2 * BitAnd(a / 2, m) + a % 2
  {
    var b := 2 * m + 1;
    assert b / 2 == m && b % 2 == 1;
  }

  /** Or-ing a number below 2^k into free low k bits is adding it. */
  lemma {:induction false} OrLowBits(a: nat, d: nat, k: nat)
    requires a % Pow2(k) == 0 && d < Pow2(k)
    ensures BitOr(a, d) == a + d
  {
    if k > 0 {
      DivTwice(a, Pow2(k - 1));
      OrLowBits(a / 2, d / 2, k - 1);
    }
  }

  lemma {:induction false} OrBound(a: nat, b: nat, k: nat)
    requires a < Pow2(k) && b < Pow2(k)
    ensures BitOr(a, b) < Pow2(k)
  {
    if k > 0 {
      OrBound(a / 2, b / 2, k - 1);
    }
  }

  /** A single-bit mask picks out that bit. */
  lemma {:induction false} AndOneBit(a: nat, k: nat)
    ensures BitAnd(a, Pow2(k)) == if a / Pow2(k) % 2 == 1 then Pow2(k) else 0
  {
    if k == 0 {
      AndLowBits(a, 1);
    } else {
      AndOneBit(a / 2, k - 1);
      AndShifted(a, Pow2(k - 1));
      DivTwice(a, Pow2(k - 1));
    }
  }

  lemma ReservedBits(b: byte)
    ensures BitAnd(b, 112) != 0 <==> b / 16 % 8 != 0
  {
    var b1, b2, b3, b4 := b / 2, b / 4, b / 8, b / 16;
    assert b1 / 2 == b2 && b2 / 2 == b3 && b3 / 2 == b4;
    AndShifted(b, 56);
    AndShifted(b1, 28);
    AndShifted(b2, 14);
    AndShifted(b3, 7);
    AndLowBits(b4, 3);
    assert Pow2(3) == 8;
  }

  lemma TopBit(b: byte)
    ensures BitAnd(b, 128) != 0 <==> b >= 128
  {
    assert Pow2(7) == 128;
    AndOneBit(b, 7);
  }

  /** The tests of frame header bytes 0 and 1: top bit, three reserved bits, low bits. */
  lemma HeaderBits(b: byte)
    ensures BitAnd(b, 128) != 0 <==> b >= 128
    ensures BitAnd(b, 112) != 0 <==> b / 16 % 8 != 0
    ensures BitAnd(b, 15) == b % 16
    ensures BitAnd(b, 127) == b % 128
  {
    TopBit(b);
    ReservedBits(b);
    assert Pow2(4) == 16 && Pow2(7) == 128;
    AndLowBits(b, 4);
    AndLowBits(b, 7);
  }

  /** The big-endian number of a byte string. */
  function FromBE(s: seq<byte>): (v: nat) {
    if s == [] then 0 else 256 * FromBE(s[..|s| - 1]) + s[|s| - 1]
  }

  /** The low k bytes of v, most significant first. */
  function ToBE(v: nat, k: nat): (s: seq<byte>)
    ensures |s| == k
  {
    if k == 0 then [] else ToBE(v / 256, k - 1) + [v % 256]
  }

  function Pow256(k: nat): (p: nat)
    ensures p > 0
  {
    if k == 0 then 1 else 256 * Pow256(k - 1)
  }

  lemma {:induction false} BERoundTrip(v: nat, k: nat)
    requires v < Pow256(k)
    ensures FromBE(ToBE(v, k)) == v
  {
    if k > 0 {
      BERoundTrip(v / 256, k - 1);
      assert ToBE(v, k)[..k - 1] == ToBE(v / 256, k - 1);
    }
  }

  lemma {:induction false} FromBEBound(s: seq<byte>)
    ensures FromBE(s) < Pow256(|s|)
  {
    if s != [] {
      FromBEBound(s[..|s| - 1]);
    }
  }

  /** The first byte weighs most: 256 to the number of bytes behind it. */
  lemma {:induction false} FirstByteFirst(s: seq<byte>)
    requires s != []
    ensures FromBE(s) == s[0] * Pow256(|s| - 1) + FromBE(s[1..])
  {
    var n := |s| - 1;
    if n == 0 {
      assert s[..0] == [] && s[1..] == [];
    } else {
      FirstByteFirst(s[..n]);
      assert s[1..][..n - 1] == s[..n][1..] && s[1..][n - 1] == s[n];
      TimesBase(s[0], n);
    }
  }

  lemma TimesBase(d: nat, n: nat)
    requires n > 0
    ensures 256 * (d * Pow256(n - 1)) == d * Pow256(n)
  {
    var p := Pow256(n - 1);
    assert 256 * (d * p) == d * (256 * p);
  }
}
