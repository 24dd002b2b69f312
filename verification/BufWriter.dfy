/** The buffered writer of server/mqtt/bufio/bufio.go. */
module BufWriter {
  import opened Bytes
  import opened Streams

  class Writer {
    const buf: array<byte>
    const wr: Sink
    var n: nat
    var err: Option<Error>

    constructor (wr: Sink, size: nat)
      requires size > 0
      ensures Valid() && fresh(buf) && this.wr == wr && buf.Length == size
      ensures Stream() == wr.sent && err == None
    {
      this.wr, buf := wr, new byte[size];
      n, err := 0, None;
    }

    ghost predicate Valid()
      reads this
    {
      0 < buf.Length && n <= buf.Length
    }

    /** Every byte accepted so far: those sent, then those waiting in the buffer. */
    ghost function Stream(): seq<byte>
      requires Valid()
      reads this, buf, wr
    {
      wr.sent + buf[..n]
    }

    /** No write can fail: nothing failed so far and the sink never will. */
    ghost predicate Healthy()
      reads this
    {
      err == None && wr.reliable
    }

    /** A new error e is what the sink last reported, or a short write that the sink did not report. */
    ghost predicate FromSink(e: Option<Error>)
      reads wr
    {
      e.Some? ==> e == if wr.last.Some? then wr.last else Some(ShortWrite)
    }

    function Available(): nat
      requires n <= buf.Length
      reads this
    {
      buf.Length - n
    }

    function Buffered(): nat
      reads this
    {
      n
    }

    method Flush() returns (e: Option<Error>)
      requires Valid()
      modifies this, buf, wr
      ensures Valid() && Stream() == old(Stream()) && e == err
      ensures e == None ==> old(err) == None && n == 0 && wr.sent == old(Stream())
      ensures old(err).Some? ==> err == old(err) && n == old(n) && wr.sent == old(wr.sent)
      ensures old(err) == None ==> FromSink(e)
      ensures old(Healthy()) ==> e == None
    {
      e := FlushBuffer();
    }

    method FlushBuffer() returns (e: Option<Error>)
      requires Valid()
      modifies this, buf, wr
      ensures Valid() && Stream() == old(Stream()) && e == err
      ensures e == None ==> old(err) == None && n == 0 && wr.sent == old(Stream())
      ensures old(err).Some? ==> err == old(err) && n == old(n) && wr.sent == old(wr.sent)
      ensures old(err) == None ==> FromSink(e) && (e == Some(ShortWrite) ==> !wr.lawful && n > 0)
      ensures old(err) == None && old(n) > 0 && e == None ==> wr.last == None
      ensures old(Healthy()) ==> e == None
    {
      if err != None {
        return err;
      }
      if n == 0 {
        return None;
      }
      var k;
      k, e := wr.Write(Slice(buf, 0, n));
      if k < n && e == None {
        e := Some(ShortWrite);
      }
      if e != None {
        ghost var waiting := buf[k..n];
        if 0 < k < n {
          var _ := Copy(Slice(buf, 0, n - k), Slice(buf, k, n - k));
        }
        n := n - k;
        err := e;
        assert buf[..n] == waiting;
        return;
      }
      n := 0;
    }

    /** `n := copy(b.buf[b.n:], p); b.n += n`. */
    method Accept(p: Slice) returns (k: nat)
      requires Valid() && p.Valid() && p.arr != buf
      modifies this`n, buf
      ensures Valid() && k == Min(old(Available()), p.len) && n == old(n) + k
      ensures Stream() == old(Stream()) + p.Bytes()[..k]
    {
      ghost var before, s, m := buf[..n], p.Bytes(), Min(Available(), p.len);
      assert p.arr[p.off..p.off + m] == s[..m];
      k := Copy(Slice(buf, n, Available()), p);
      assert buf[..n] == before;
      assert buf[n..n + k] == s[..k];
      n := n + k;
      assert buf[..n] == before + s[..k];
    }

    /** `n, b.err = b.wr.Write(p)` with an empty buffer. */
    method WriteDirect(p: Slice) returns (k: nat)
      requires Valid() && p.Valid() && n == 0 && err == None
      modifies this`err, wr
      ensures Valid() && k <= p.len && Stream() == old(Stream()) + p.Bytes()[..k]
      ensures k < p.len && err == None ==> k > 0 && !wr.lawful
      ensures err == wr.last
      ensures wr.reliable ==> k == p.len && err == None
    {
      assert buf[..n] == [] && wr.sent + [] == wr.sent;
      k, err := wr.Write(p);
      assert buf[..n] == [] && wr.sent + [] == wr.sent;
    }

    /** What a write of bytes s promises when it returns (nn, e), started with error e0 and stream before. */
    ghost predicate Written(s: seq<byte>, nn: nat, e: Option<Error>, e0: Option<Error>, before: seq<byte>)
      reads this, buf, wr
    {
      && Valid() && e == err
      && nn <= |s| && Stream() == before + s[..nn]
      && (e == None ==> e0 == None)
      && (e0.Some? ==> e == e0 && nn == 0)
      && (e0 == None ==> FromSink(e))
    }

    /** One round of Write for p longer than what is free: straight to the sink from an empty buffer,
        else fill the buffer and flush it. */
    method Spill(p: Slice) returns (k: nat)
      requires Valid() && err == None && p.Valid() && p.arr != buf && p.len > Available()
      modifies this, buf, wr
      ensures Valid() && k <= p.len && Stream() == old(Stream()) + p.Bytes()[..k]
      ensures err == None ==> k > 0 || n < old(n)
      ensures FromSink(err)
      ensures old(Healthy()) ==> Healthy()
    {
      if Buffered() == 0 {
        k := WriteDirect(p);
      } else {
        k := FillAndFlush(p);
      }
    }

    method FillAndFlush(p: Slice) returns (k: nat)
      requires Valid() && err == None && p.Valid() && p.arr != buf
      modifies this, buf, wr
      ensures Valid() && k == Min(old(Available()), p.len) && Stream() == old(Stream()) + p.Bytes()[..k]
      ensures err == None ==> n == 0
      ensures FromSink(err)
      ensures old(Healthy()) ==> Healthy()
    {
      k := Accept(p);
      var _ := FlushBuffer();
    }

    method Write(p: Slice) returns (nn: nat, e: Option<Error>)
      requires Valid() && p.Valid() && p.arr != buf
      modifies this, buf, wr
      ensures Written(p.Bytes(), nn, e, old(err), old(Stream()))
      ensures e == None ==> nn == p.len
      ensures old(err).Some? ==> n == old(n) && wr.sent == old(wr.sent)
      ensures old(Healthy()) ==> e == None
    {
      ghost var s0, s := Stream(), p.Bytes();
      nn := 0;
      while p.len - nn > Available() && err == None
        invariant Valid() && nn <= p.len && p.Bytes() == s
        invariant Stream() == s0 + s[..nn]
        invariant old(err).Some? ==> err == old(err) && n == old(n) && wr.sent == old(wr.sent) && nn == 0
        invariant old(err) == None ==> FromSink(err)
        invariant old(Healthy()) ==> Healthy()
        decreases err == None, p.len - nn, n
      {
        assert p.Sub(nn, p.len).Bytes() == s[nn..];
        var k := Spill(p.Sub(nn, p.len));
        Resume(s0, s, nn, k);
        nn := nn + k;
      }
      if err != None {
        return nn, err;
      }
      assert p.Sub(nn, p.len).Bytes() == s[nn..];
      var k := Accept(p.Sub(nn, p.len));
      Resume(s0, s, nn, k);
      nn := nn + k;
      e := None;
    }

    method WriteString(s: seq<byte>) returns (nn: nat, e: Option<Error>)
      requires Valid()
      modifies this, buf, wr
      ensures Written(s, nn, e, old(err), old(Stream()))
      ensures e == None ==> nn == |s|
      ensures e.Some? && s != [] ==> nn < |s|
      ensures old(err).Some? ==> n == old(n) && wr.sent == old(wr.sent)
      ensures old(Healthy()) ==> e == None
    {
      ghost var s0 := Stream();
      nn := 0;
      var q := FromSeq(s);
      while |s| - nn > Available() && err == None
        invariant Valid() && nn <= |s| && (s != [] ==> nn < |s|) && q.Bytes() == s
        invariant Stream() == s0 + s[..nn]
        invariant old(err).Some? ==> err == old(err) && n == old(n) && wr.sent == old(wr.sent) && nn == 0
        invariant old(err) == None ==> FromSink(err)
        invariant old(Healthy()) ==> Healthy()
        decreases err == None, |s| - nn, n
      {
        assert q.Sub(nn, |s|).Bytes() == s[nn..];
        var k := FillAndFlush(q.Sub(nn, |s|));
        Resume(s0, s, nn, k);
        nn := nn + k;
      }
      if err != None {
        return nn, err;
      }
      assert q.Sub(nn, |s|).Bytes() == s[nn..];
      var k := Accept(q.Sub(nn, |s|));
      Resume(s0, s, nn, k);
      nn := nn + k;
      e := None;
    }

    method WriteRaw(p: Slice) returns (nn: nat, e: Option<Error>)
      requires Valid() && p.Valid() && p.arr != buf
      modifies this, buf, wr
      ensures Written(p.Bytes(), nn, e, old(err), old(Stream()))
      ensures e == None ==> nn == p.len || (nn > 0 && !wr.lawful)
      ensures old(err).Some? ==> n == old(n) && wr.sent == old(wr.sent)
      ensures old(n) == 0 ==> n == 0
      ensures old(Healthy()) ==> e == None && nn == p.len
    {
      if err != None {
        return 0, err;
      }
      if Buffered() == 0 {
        nn := WriteDirect(p);
        e := err;
      } else {
        nn, e := Write(p);
      }
    }

    /** Reserves k bytes of the stream, for the caller to fill before the next call. */
    method Peek(k: int) returns (d: Slice, e: Option<Error>)
      requires Valid()
      modifies this, buf, wr
      ensures Valid() && d.Valid() && d.arr == buf
      ensures k < 0 ==> e == Some(NegativeCount)
      ensures k > buf.Length ==> e == Some(BufferFull)
      ensures 0 <= k <= buf.Length ==> e == err
      ensures e == None ==> err == None && d.len == k && d.off + k == n
      ensures e == None ==> wr.sent + buf[..d.off] == old(Stream())
      ensures e.Some? ==> Stream() == old(Stream())
      ensures old(err).Some? ==> e.Some? && err == old(err) && n == old(n) && wr.sent == old(wr.sent)
      ensures old(err) == None && 0 <= k <= buf.Length ==> FromSink(e)
      ensures old(Healthy()) && 0 <= k <= buf.Length ==> e == None
    {
      if k < 0 {
        return Slice(buf, 0, 0), Some(NegativeCount);
      }
      if k > buf.Length {
        return Slice(buf, 0, 0), Some(BufferFull);
      }
      while Available() < k && err == None
        invariant Valid() && Stream() == old(Stream())
        invariant old(err).Some? ==> err == old(err) && n == old(n) && wr.sent == old(wr.sent)
        invariant old(err) == None ==> FromSink(err)
        invariant old(Healthy()) ==> Healthy()
        decreases err == None, n
      {
        var _ := FlushBuffer();
      }
      if err != None {
        return Slice(buf, 0, 0), err;
      }
      d := Slice(buf, n, k);
      n := n + k;
      e := None;
    }
  }

  /** Going on from position i of s continues what was written of it after t. */
  lemma Resume(t: seq<byte>, s: seq<byte>, i: nat, k: nat)
    requires i + k <= |s|
    ensures t + s[..i] + s[i..][..k] == t + s[..i + k]
  {
    assert s[..i] + s[i..][..k] == s[..i + k];
    AppendAssoc(t, s[..i], s[i..][..k]);
  }
}
