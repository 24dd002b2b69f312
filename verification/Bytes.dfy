/** Bytes, Go slices over shared arrays, and the byte-string functions of Go's standard library
    that the modelled code calls. */
module Bytes {

  type byte = x: int | 0 <= x < 256

  datatype Option<+T> = None | Some(value: T)

  const TAB: byte := 9
  const LF: byte := 10
  const CR: byte := 13
  const SP: byte := 32
  const COLON: byte := 58
  const SEMI: byte := 59
  const CRLF: seq<byte> := [13, 10]

  /** A Go slice: a window of an array that other slices may share. */
  datatype Slice = Slice(arr: array<byte>, off: nat, len: nat) {

    predicate Valid() {
      off + len <= arr.Length
    }

    function Bytes(): (s: seq<byte>)
      requires Valid()
      reads arr
      ensures |s| == len
    {
      arr[off..off + len]
    }

    /** `s[lo:hi]` in Go. */
    function Sub(lo: nat, hi: nat): (s: Slice)
      requires lo <= hi <= len
    {
      Slice(arr, off + lo, hi - lo)
    }

    /** Whether index i of the array lies in the window. */
    predicate Covers(i: int) {
      off <= i < off + len
    }
  }

  predicate IsASCIILower(c: byte) {
    97 <= c <= 122
  }

  predicate IsASCIIDigit(c: byte) {
    48 <= c <= 57
  }

  function Min(a: nat, b: nat): nat {
    if a < b then a else b
  }

  function Max(a: nat, b: nat): nat {
    if a < b then b else a
  }

  /** `copy(dst, src)`: overlapping windows are allowed. */
  method Copy(dst: Slice, src: Slice) returns (n: nat)
    requires dst.Valid() && src.Valid()
    modifies dst.arr
    ensures n == Min(dst.len, src.len)
    ensures dst.arr[dst.off..dst.off + n] == old(src.arr[src.off..src.off + n])
    ensures forall i :: 0 <= i < dst.arr.Length && !(dst.off <= i < dst.off + n) ==> dst.arr[i] == old(dst.arr[i])
  {
    n := Min(dst.len, src.len);
    forall i | 0 <= i < n {
      dst.arr[dst.off + i] := src.arr[src.off + i];
    }
  }

  /** A freshly allocated slice holding the given bytes. */
  method FromSeq(s: seq<byte>) returns (p: Slice)
    ensures fresh(p.arr) && p.Valid() && p.Bytes() == s
  {
    var a := new byte[|s|](i requires 0 <= i < |s| => s[i]);
    p := Slice(a, 0, |s|);
  }

  /** `bytes.IndexByte`: the first position of b in s, or -1. */
  function IndexByte(s: seq<byte>, b: byte): (i: int)
    ensures -1 <= i < |s|
    ensures i >= 0 ==> s[i] == b && b !in s[..i]
    ensures i < 0 ==> b !in s
  {
    if s == [] then -1
    else if s[0] == b then 0
    else
      var i := IndexByte(s[1..], b);
      assert s == [s[0]] + s[1..];
      if i < 0 then -1 else
        assert s[..i + 1] == [s[0]] + s[1..][..i];
        i + 1
  }

  lemma AbsentBefore(s: seq<byte>, b: byte, i: nat)
    requires i <= |s| && b !in s[..i]
    ensures forall k :: 0 <= k < i ==> s[k] != b
  {
    forall k | 0 <= k < i
      ensures s[k] != b
    {
      assert s[..i][k] == s[k];
    }
  }

  /** The first position is the only one with no earlier occurrence. */
  lemma IndexByteIs(s: seq<byte>, b: byte, i: nat)
    requires i < |s| && s[i] == b && b !in s[..i]
    ensures IndexByte(s, b) == i
  {
    AbsentBefore(s, b, i);
    AbsentBefore(s, b, IndexByte(s, b));
  }

  /** s ends with its first b. */
  predicate EndsAtFirst(s: seq<byte>, b: byte) {
    s != [] && s[|s| - 1] == b && b !in s[..|s| - 1]
  }

  lemma IndexByteAtEnd(s: seq<byte>, t: seq<byte>, b: byte)
    requires EndsAtFirst(s, b)
    ensures IndexByte(s + t, b) == |s| - 1
  {
    assert (s + t)[..|s| - 1] == s[..|s| - 1];
    IndexByteIs(s + t, b, |s| - 1);
  }

  /** Looking in a prefix that holds the byte is looking in the whole. */
  lemma IndexByteOfPrefix(s: seq<byte>, t: seq<byte>, b: byte)
    requires b in s
    ensures IndexByte(s + t, b) == IndexByte(s, b)
  {
    var i := IndexByte(s, b);
    assert (s + t)[..i] == s[..i];
    IndexByteIs(s + t, b, i);
  }

  lemma AppendAssoc<T>(a: seq<T>, b: seq<T>, c: seq<T>)
    ensures a + b + c == a + (b + c)
  {
  }

  lemma AppendParts<T>(a: seq<T>, b: seq<T>)
    ensures (a + b)[..|a|] == a && (a + b)[|a|..] == b
  {
  }

  lemma DropDrop<T>(s: seq<T>, i: nat, j: nat)
    requires i + j <= |s|
    ensures s[i..][j..] == s[i + j..]
  {
  }

  /** The strings of ss one after the other. */
  function Flatten<T>(ss: seq<seq<T>>): seq<T> {
    if ss == [] then [] else Flatten(ss[..|ss| - 1]) + ss[|ss| - 1]
  }

  lemma FlattenSnoc<T>(ss: seq<seq<T>>, s: seq<T>)
    ensures Flatten(ss + [s]) == Flatten(ss) + s
  {
    assert (ss + [s])[..|ss|] == ss;
  }

  lemma {:induction false} FlattenFirst<T>(ss: seq<seq<T>>)
    requires ss != []
    ensures Flatten(ss) == ss[0] + Flatten(ss[1..])
  {
    var n := |ss| - 1;
    if n == 0 {
      assert ss[..0] == [] && ss[1..] == [];
      assert [] + ss[0] == ss[0] + [];
    } else {
      FlattenFirst(ss[..n]);
      assert ss[..n][1..] == ss[1..][..n - 1];
      AppendAssoc(ss[0], Flatten(ss[1..][..n - 1]), ss[n]);
    }
  }
}
