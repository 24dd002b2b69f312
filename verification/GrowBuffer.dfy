/** The growing buffer of server/mqtt/bytes/writer.go, with what its growth costs. */
module GrowBuffer {
  import opened Bytes

  class Writer {
    var n: nat
    var buf: array<byte>
    ghost const initial: nat    // the size it was made with
    ghost var appended: nat     // bytes ever appended, across resets
    ghost var copied: nat       // bytes ever copied by grow
    ghost var peak: nat         // the greatest length ever reached

    constructor (size: nat)
      ensures Valid() && fresh(buf) && initial == size && buf.Length == size
      ensures Contents() == [] && appended == 0 && copied == 0 && peak == 0
    {
      n, buf := 0, new byte[size];
      initial := size;
      appended, copied, peak := 0, 0, 0;
    }

    ghost predicate Valid()
      reads this
    {
      && n <= buf.Length
      && initial <= buf.Length
      && n <= appended && n <= peak
      && copied <= buf.Length
      && Economical()
    }

    /** Copying is amortised over what was appended, and the capacity over what was held at once. */
    ghost predicate Economical()
      reads this
    {
      && copied <= 2 * appended
      && buf.Length <= Max(initial, 3 * peak)
    }

    /** Everything appended since the last Reset. */
    ghost function Contents(): seq<byte>
      requires n <= buf.Length
      reads this, buf
    {
      buf[..n]
    }

    function Len(): nat
      reads this
    {
      n
    }

    function Size(): nat
      reads this
    {
      buf.Length
    }

    method Reset()
      requires Valid()
      modifies this`n
      ensures Valid() && Contents() == []
    {
      n := 0;
    }

    method Buffer() returns (p: Slice)
      requires Valid()
      ensures p == Slice(buf, 0, n) && p.Valid() && p.Bytes() == Contents()
    {
      p := Slice(buf, 0, n);
    }

    /** What appending k bytes does to the size and to the books, which were n0, size0, copied0 and peak0. */
    ghost predicate Grown(k: nat, n0: nat, size0: nat, copied0: nat, peak0: nat)
      reads this
    {
      && peak == Max(peak0, n0 + k)
      && if n0 + k < size0 then buf.Length == size0 && copied == copied0
         else buf.Length == 2 * size0 + k && copied == copied0 + n0
    }

    /** Makes room for k more bytes; Valid except that the room is not used yet. */
    method Grow(k: nat)
      requires Valid()
      modifies this`buf, this`copied
      ensures n + k <= buf.Length && initial <= buf.Length && Contents() == old(Contents())
      ensures buf == old(buf) || fresh(buf)
      ensures copied <= 2 * (appended + k) && copied <= buf.Length
      ensures buf.Length <= initial || buf.Length <= 3 * peak || buf.Length <= 3 * (n + k)
      ensures if n + k < old(buf.Length) then buf == old(buf) && copied == old(copied)
              else buf.Length == 2 * old(buf.Length) + k && copied == old(copied) + n
    {
      if n + k < buf.Length {
        return;
      }
      var b := new byte[2 * buf.Length + k];
      var _ := Copy(Slice(b, 0, b.Length), Slice(buf, 0, n));
      assert b[..n] == buf[..n];
      copied := copied + n;
      buf := b;
    }

    /** `buf = w.buf[w.n : w.n+n]; w.n += n`. */
    method Extend(k: nat) returns (p: Slice)
      requires n + k <= buf.Length
      modifies this`n
      ensures p == Slice(buf, old(n), k) && n == old(n) + k && buf[..n] == old(buf[..n]) + p.Bytes()
    {
      p := Slice(buf, n, k);
      assert buf[..n + k] == buf[..n] + p.Bytes();
      n := n + k;
    }

    /** Appends k bytes for the caller to fill. */
    method Peek(k: nat) returns (p: Slice)
      requires Valid()
      modifies this
      ensures Valid() && (buf == old(buf) || fresh(buf))
      ensures p == Slice(buf, old(n), k) && p.Valid() && n == old(n) + k
      ensures Contents() == old(Contents()) + p.Bytes()
      ensures appended == old(appended) + k
      ensures Grown(k, old(n), old(buf.Length), old(copied), old(peak))
    {
      Grow(k);
      p := Extend(k);
      appended := appended + k;
      peak := Max(peak, n);
    }

    /** `w.n += copy(w.buf[w.n:], p)`, with room for all of p. */
    method CopyIn(p: Slice) returns (k: nat)
      requires p.Valid() && p.arr != buf && n + p.len <= buf.Length
      modifies this`n, buf
      ensures k == p.len && n == old(n) + k && buf[..n] == old(buf[..n]) + old(p.Bytes())
    {
      k := Copy(Slice(buf, n, buf.Length - n), p);
      assert buf[..n] == old(buf[..n]);
      n := n + k;
      assert buf[..n] == buf[..old(n)] + buf[old(n)..n];
    }

    method Write(p: Slice)
      requires Valid() && p.Valid() && p.arr != buf
      modifies this, buf
      ensures Valid() && (buf == old(buf) || fresh(buf))
      ensures Contents() == old(Contents()) + old(p.Bytes())
      ensures appended == old(appended) + p.len
      ensures Grown(p.len, old(n), old(buf.Length), old(copied), old(peak))
    {
      Grow(p.len);
      var k := CopyIn(p);
      appended := appended + k;
      peak := Max(peak, n);
    }

    /** `w.Write([]byte(s))`. */
    method WriteBytes(s: seq<byte>)
      requires Valid()
      modifies this, buf
      ensures Valid() && (buf == old(buf) || fresh(buf))
      ensures Contents() == old(Contents()) + s
      ensures appended == old(appended) + |s|
      ensures Grown(|s|, old(n), old(buf.Length), old(copied), old(peak))
    {
      var p := FromSeq(s);
      Write(p);
    }
  }
}
