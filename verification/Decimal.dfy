/** Decimal numbers: Go's `%d` and `strconv.Atoi` on 64-bit integers. */
module Decimal {
  import opened Bytes

  const ZERO: byte := 48
  const PLUS: byte := 43
  const MINUS: byte := 45

  const MAX_UINT64: nat := 0xFFFF_FFFF_FFFF_FFFF
  const MAX_INT64: int := 0x7FFF_FFFF_FFFF_FFFF
  const MIN_INT64: int := -0x8000_0000_0000_0000

  /** `%d` of a number that is not negative. */
  function Digits(n: nat): (s: seq<byte>)
    ensures s != [] && forall i :: 0 <= i < |s| ==> IsASCIIDigit(s[i])
  {
    if n < 10 then [ZERO + n] else Digits(n / 10) + [ZERO + n % 10]
  }

  /** `%d`. */
  function Print(n: int): (s: seq<byte>)
    ensures s != [] && forall i :: 0 <= i < |s| ==> IsASCIIDigit(s[i]) || s[i] == MINUS
  {
    if n < 0 then [MINUS] + Digits(-n) else Digits(n)
  }

  /** `strconv.ParseUint(s, 10, 64)` after n: None for a syntax error. Running over the range ends the
      parse at once, with the greatest value and whatever follows unread. */
  function Magnitude(s: seq<byte>, n: nat): (m: Option<nat>)
    requires n <= MAX_UINT64
    ensures m.Some? ==> m.value <= MAX_UINT64
  {
    if s == [] then Some(n)
    else if !IsASCIIDigit(s[0]) then None
    else
      var n1 := 10 * n + (s[0] - ZERO);
      if n1 > MAX_UINT64 then Some(MAX_UINT64) else Magnitude(s[1..], n1)
  }

  /** The value `strconv.Atoi` returns, its error ignored: 0 for a syntax error, the nearest 64-bit
      integer for a number out of range. */
  function Atoi(s: seq<byte>): (n: int)
    ensures MIN_INT64 <= n <= MAX_INT64
  {
    if s == [] then 0
    else
      var signed := s[0] == PLUS || s[0] == MINUS;
      var t := if signed then s[1..] else s;
      if t == [] then 0
      else
        match Magnitude(t, 0)
        case None => 0
        case Some(m) =>
          var v: int := if s[0] == MINUS then 0 - m else m;
          if v < MIN_INT64 then MIN_INT64 else if v > MAX_INT64 then MAX_INT64 else v
  }

  predicate AllDigits(s: seq<byte>) {
    forall i :: 0 <= i < |s| ==> 48 <= s[i] <= 57
  }

  /** The base-10 value of a digit string. */
  function Value(s: seq<byte>): (n: nat)
    requires AllDigits(s)
  {
    if s == [] then 0 else 10 * Value(s[..|s| - 1]) + (s[|s| - 1] - 48)
  }

  /** The nearest 64-bit integer. */
  function Clamp(v: int): int {
    if v < -9223372036854775808 then -9223372036854775808
    else if v > 9223372036854775807 then 9223372036854775807
    else v
  }

  /** The printed digits have the value n, and no leading zero unless n is zero. */
  lemma {:induction false} DigitsForm(n: nat)
    ensures AllDigits(Digits(n)) && Value(Digits(n)) == n && (n > 0 ==> Digits(n)[0] != 48)
  {
    if n >= 10 {
      DigitsForm(n / 10);
      assert Digits(n)[..|Digits(n)| - 1] == Digits(n / 10);
    } else {
      assert Digits(n)[..0] == [];
    }
  }

  /** Digits in front are read as their value. */
  lemma {:induction false} MagnitudeOf(d: seq<byte>, y: seq<byte>)
    requires AllDigits(d)
    ensures Magnitude(d + y, 0)
         == if Value(d) <= MAX_UINT64 then Magnitude(y, Value(d)) else Some(MAX_UINT64)
  {
    if d == [] {
      assert [] + y == y;
    } else {
      var e, last := d[..|d| - 1], [d[|d| - 1]];
      assert d + y == e + (last + y) && (last + y)[1..] == y;
      MagnitudeOf(e, last + y);
    }
  }

  /** A sign or none, digits, and text that does not start with a digit. The result is the nearest 64-bit integer
      to the number; but without digits, or with text behind a number below 2^64, it is 0. */
  lemma AtoiIs(sign: seq<byte>, d: seq<byte>, x: seq<byte>)
    requires (sign == [] || sign == [43] || sign == [45]) && AllDigits(d)
    requires x != [] ==> !(48 <= x[0] <= 57) && (sign == [] && d == [] ==> x[0] != 43 && x[0] != 45)
    ensures Atoi(sign + (d + x)) == if d == [] || (x != [] && Value(d) <= 0xFFFF_FFFF_FFFF_FFFF) then 0
                                    else if sign == [45] then Clamp(0 - Value(d)) else Clamp(Value(d))
  {
    var s := sign + (d + x);
    MagnitudeOf(d, x);
    if sign == [] {
      assert s == d + x;
    } else {
      assert s[1..] == d + x;
    }
  }

  /** Parsing a printed 64-bit integer gives it back. */
  lemma PrintAtoi(n: int)
    requires MIN_INT64 <= n <= MAX_INT64
    ensures Atoi(Print(n)) == n
  {
    var m: nat := if n < 0 then -n else n;
    DigitsForm(m);
    AtoiIs(if n < 0 then [MINUS] else [], Digits(m), []);
    assert Print(n) == (if n < 0 then [MINUS] else []) + (Digits(m) + []);
  }
}
