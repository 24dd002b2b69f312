/** The chunked reader and writer of server/mqtt/internal/chunked.go. */
module Chunked {
  import opened Bytes
  import opened Streams
  import opened BufReader
  import opened ChunkGrammar
  import Hex

  const MIN_READ_BUFFER: nat := 16

  /** Errors that come from the transport, not from the bytes. */
  predicate Fault(e: Error) {
    e == NoProgress || e.Transport?
  }

  /** From a decoding g, the bytes got have come out; the reader now has error err, n bytes of a chunk
      missing, checkEnd, and s unread. */
  ghost predicate Decoded(decode: Decoder, late: bool, g: Decoding, got: seq<byte>,
                          err: Option<Error>, n: nat, checkEnd: bool, s: seq<byte>)
  {
    match err
    case None => g == Prepend(got, decode(n, checkEnd, s))
    case Some(e) =>
      if Fault(e) then got <= g.out
      else Matches(g.end, e, late) && g.out == got && g.rest == s
  }

  /** Going on from where a decoding had come to. */
  lemma DecodedTrans(decode: Decoder, late: bool, g: Decoding, got: seq<byte>, d: Decoding, more: seq<byte>,
                     err: Option<Error>, n: nat, checkEnd: bool, s: seq<byte>)
    requires g == Prepend(got, d) && Decoded(decode, late, d, more, err, n, checkEnd, s)
    ensures Decoded(decode, late, g, got + more, err, n, checkEnd, s)
    ensures more == [] ==> got + more == got
  {
    if err == None {
      AppendAssoc(got, more, decode(n, checkEnd, s).out);
    } else if Fault(err.value) {
      assert d.out == more + d.out[|more|..];
      AppendAssoc(got, more, d.out[|more|..]);
    }
  }

  /** k bytes of a chunk's data read from u: the decoding goes on, or u ends inside the chunk. */
  lemma DataRead(decode: Decoder, n: nat, k: nat, u: seq<byte>, cap: nat)
    requires IsDecoder(decode, cap)
    requires n > 0 && k <= n && k <= |u|
    ensures decode(n, false, u) == Prepend(u[..k], decode(n - k, k == n, u[k..]))
    ensures u[..k] <= decode(n, false, u).out
    ensures |u| == k ==> decode(n, false, u) == Decoding(u[..k], Ended(UnexpectedEOF), [])
  {
    assert decode(n, false, u) == Decode(n, false, u, cap);
    assert decode(n - k, k == n, u[k..]) == Decode(n - k, k == n, u[k..], cap);
    if k > 0 {
      DecodeData(n, k, u, cap);
    } else {
      assert u[..0] == [] && u[0..] == u;
      assert [] + Decode(n, false, u, cap).out == Decode(n, false, u, cap).out;
    }
  }

  /** The state after a read of k bytes of chunk data that returned e. */
  lemma DataDone(decode: Decoder, late: bool, n: nat, k: nat, u: seq<byte>, e: Option<Error>, cap: nat)
    requires IsDecoder(decode, cap)
    requires n > 0 && k <= n && k <= |u|
    requires e.Some? ==> Fault(e.value) || (e == Some(EOF) && k == |u|)
    ensures Decoded(decode, late, decode(n, false, u), u[..k],
                    if e == Some(EOF) then Some(UnexpectedEOF) else e, n - k, n == k && e == None, u[k..])
  {
    DataRead(decode, n, k, u, cap);
    if e == None && k < n {
      assert (n - k == 0) == false;
    }
  }

  lemma FooterRead(decode: Decoder, n: nat, u: seq<byte>, cap: nat)
    requires IsDecoder(decode, cap)
    ensures decode(n, true, u) ==
            if |u| < 2 then Decoding([], Ended(UnexpectedEOF), [])
            else if u[..2] != CRLF then Decoding([], Ended(MalformedChunk), u[2..])
            else decode(n, false, u[2..])
  {
    assert decode(n, true, u) == Decode(n, true, u, cap);
    if |u| >= 2 {
      assert decode(n, false, u[2..]) == Decode(n, false, u[2..], cap);
    }
  }

  lemma HeaderRead(decode: Decoder, u: seq<byte>, cap: nat)
    requires IsDecoder(decode, cap)
    ensures var l := ChunkLine(u, cap);
            decode(0, false, u) ==
            match l
            case NoLine(end, rest) => Decoding([], end, rest)
            case Line(text, rest) =>
              (match Hex.ParseSize(text)
               case Invalid(e) => Decoding([], Ended(e), rest)
               case Size(k) => if k == 0 then Decoding([], Ended(EOF), rest) else decode(k, false, rest))
  {
    assert decode(0, false, u) == Decode(0, false, u, cap);
    var l := ChunkLine(u, cap);
    if l.Line? && Hex.ParseSize(l.text).Size? {
      var k := Hex.ParseSize(l.text).n;
      assert decode(k, false, l.rest) == Decode(k, false, l.rest, cap);
    }
  }

  class ChunkedReader {
    const r: Reader
    const buf: array<byte>
    var n: nat                // unread bytes in chunk
    var err: Option<Error>
    var checkEnd: bool        // whether the CR LF after a chunk comes next
    ghost const decode: Decoder

    constructor (r: Reader)
      requires r.Valid() && r.buf.Length >= MIN_READ_BUFFER
      ensures Valid() && this.r == r && fresh(buf)
      ensures n == 0 && err == None && !checkEnd
    {
      this.r, buf := r, new byte[2];
      n, err, checkEnd := 0, None, false;
      decode := (n: nat, checkEnd: bool, s: seq<byte>) => Decode(n, checkEnd, s, r.buf.Length);
    }

    ghost predicate Valid()
      reads this, r, r.buf, r.rd
    {
      && r.Valid() && r.buf.Length >= MIN_READ_BUFFER
      && buf.Length == 2 && buf != r.buf
      && (checkEnd ==> n == 0)
      && (err.Some? && Fault(err.value) ==> !r.rd.Steady())
      && IsDecoder(decode, r.buf.Length)
    }

    /** What is still to come out of this reader. */
    ghost function Pending(): Decoding
      requires r.r <= r.w <= r.buf.Length
      reads this, r, r.buf, r.rd
    {
      decode(n, checkEnd, r.Unread())
    }

    /** `io.ReadFull(cr.r, cr.buf[:2])`. */
    method ReadFull() returns (e: Option<Error>)
      requires Valid()
      modifies r, r.buf, r.rd, buf
      ensures Valid()
      ensures e == None ==>
                |old(r.Unread())| >= 2 && buf[..] == old(r.Unread())[..2] && r.Unread() == old(r.Unread())[2..]
      ensures e == Some(EOF) || e == Some(UnexpectedEOF) ==> |old(r.Unread())| < 2 && r.Unread() == []
      ensures e.Some? ==> e == Some(UnexpectedEOF) || r.FromSource(e.value)
    {
      var k := 0;
      e := None;
      ghost var u := r.Unread();
      while k < 2 && e == None
        invariant Valid() && k <= 2 && k <= |u|
        invariant buf[..k] == u[..k] && r.Unread() == u[k..]
        invariant e.Some? ==> r.FromSource(e.value) && (e == Some(EOF) && k < 2 ==> r.Unread() == [])
        decreases e == None, 2 - k, r.rd.patience - r.rd.idle
      {
        var m;
        m, e := r.Read(Slice(buf, k, 2 - k));
        assert buf[..k + m] == buf[..k] + buf[k..k + m];
        assert u[..k + m] == u[..k] + u[k..][..m];
        k := k + m;
      }
      assert buf[..2] == buf[..];
      if k >= 2 {
        e := None;
      } else if k > 0 && e == Some(EOF) {
        e := Some(UnexpectedEOF);
      }
    }

    method ChunkHeaderAvailable() returns (b: bool)
      requires Valid()
      modifies r, r.buf, r.rd
      ensures Valid() && r.Unread() == old(r.Unread()) && r.rd.data == old(r.rd.data)
      ensures b <==> LF in old(r.buf[r.r..r.w])
    {
      var k := r.Buffered();
      if k > 0 {
        ghost var window := r.buf[r.r..r.w];
        var peek, _ := r.Peek(k);
        assert r.Unread()[..k] == window;
        return IndexByte(peek.Bytes(), LF) >= 0;
      }
      return false;
    }

    method BeginChunk()
      requires Valid() && err == None && n == 0 && !checkEnd
      modifies this, r, r.buf, r.rd
      ensures Valid() && !checkEnd
      ensures Decoded(decode, r.rd.lateEOF, old(Pending()), [], err, n, checkEnd, r.Unread())
      ensures err == None ==> |r.Unread()| < |old(r.Unread())|
    {
      HeaderRead(decode, r.Unread(), r.buf.Length);
      var line;
      line, err := ReadChunkLine(r);
      if err != None {
        return;
      }
      var p := Hex.ParseHexUint(line.Bytes());
      match p {
        case Invalid(e) =>
          n, err := 0, Some(e);
        case Size(k) =>
          n := k;
          if n == 0 {
            err := Some(EOF);
          }
      }
    }

    /** Reads the CR LF after a chunk. */
    method CheckFooter()
      requires Valid() && err == None && checkEnd
      modifies this, r, r.buf, r.rd, buf
      ensures Valid()
      ensures Decoded(decode, r.rd.lateEOF, old(Pending()), [], err, n, checkEnd, r.Unread())
      ensures err == None ==> n == 0 && !checkEnd && |r.Unread()| < |old(r.Unread())|
    {
      FooterRead(decode, n, r.Unread(), r.buf.Length);
      err := ReadFull();
      if err == None {
        if buf[..] != CRLF {
          err := Some(MalformedChunk);
          return;
        }
      } else {
        if err == Some(EOF) {
          err := Some(UnexpectedEOF);
        }
        return;
      }
      checkEnd := false;
    }

    /** Reads at most the rest of the current chunk into b: the new err and checkEnd are e and end. */
    method ReadPart(b: Slice) returns (n0: nat, e: Option<Error>, end: bool)
      requires Valid() && n > 0 && b.Valid() && b.len > 0 && b.arr != r.buf && b.arr != buf
      modifies r, r.buf, r.rd, b.arr
      ensures Valid() && n0 <= b.len && n0 <= n
      ensures e.Some? ==> e == Some(UnexpectedEOF) || r.FromSource(e.value)
      ensures e != Some(EOF) && (end <==> n0 == n && e == None)
      ensures Decoded(decode, r.rd.lateEOF, decode(n, false, old(r.Unread())), b.arr[b.off..b.off + n0],
                      e, n - n0, end, r.Unread())
      ensures forall i :: 0 <= i < b.arr.Length && !b.Covers(i) ==> b.arr[i] == old(b.arr[i])
      ensures e == None ==>
                |r.Unread()| < |old(r.Unread())| || (|r.Unread()| == |old(r.Unread())| && r.rd.idle > old(r.rd.idle))
    {
      ghost var u := r.Unread();
      var rbuf := b;
      if rbuf.len > n {
        rbuf := rbuf.Sub(0, n);
      }
      n0, e := r.Read(rbuf);
      DataDone(decode, r.rd.lateEOF, n, n0, u, e, r.buf.Length);
      end := false;
      if n0 == n && e == None {
        end := true;
      } else if e == Some(EOF) {
        e := Some(UnexpectedEOF);
      }
    }

    /** Reads data of the current chunk into b. */
    method ReadData(b: Slice) returns (n0: nat)
      requires Valid() && err == None && n > 0 && !checkEnd
      requires b.Valid() && b.len > 0 && b.arr != r.buf && b.arr != buf
      modifies this, r, r.buf, r.rd, b.arr
      ensures Valid() && n0 <= b.len
      ensures Decoded(decode, r.rd.lateEOF, old(Pending()), b.arr[b.off..b.off + n0], err, n, checkEnd, r.Unread())
      ensures forall i :: 0 <= i < b.arr.Length && !b.Covers(i) ==> b.arr[i] == old(b.arr[i])
      ensures err == None ==>
                |r.Unread()| < |old(r.Unread())| || (|r.Unread()| == |old(r.Unread())| && r.rd.idle > old(r.rd.idle))
    {
      n0, err, checkEnd := ReadPart(b);
      n := n - n0;
    }

    /** From decoding g, the first m bytes of b have come out. */
    ghost predicate Filled(g: Decoding, b: Slice, m: nat)
      requires r.r <= r.w <= r.buf.Length && b.Valid() && m <= b.len
      reads this, r, r.buf, r.rd, b.arr
    {
      Decoded(decode, r.rd.lateEOF, g, b.arr[b.off..b.off + m], err, n, checkEnd, r.Unread())
    }

    /** Nothing more came out of the decoding d that was left behind the first m bytes of b. */
    lemma FilledStill(g: Decoding, b: Slice, m: nat, d: Decoding)
      requires Valid() && b.Valid() && m <= b.len && g == Prepend(b.arr[b.off..b.off + m], d)
      requires Decoded(decode, r.rd.lateEOF, d, [], err, n, checkEnd, r.Unread())
      ensures Filled(g, b, m)
    {
      DecodedTrans(decode, r.rd.lateEOF, g, b.arr[b.off..b.off + m], d, [], err, n, checkEnd, r.Unread());
    }

    /** The footer of the last chunk, unless that would block with m bytes at hand. */
    method PassFooter(ghost g: Decoding, ghost b: Slice, m: nat) returns (stop: bool)
      requires Valid() && err == None && checkEnd && b.Valid() && b.arr != r.buf && b.arr != buf && m <= b.len
      requires Filled(g, b, m)
      modifies this, r, r.buf, r.rd, buf
      ensures Valid() && Filled(g, b, m)
      ensures stop && err == None ==> m > 0
      ensures !stop ==> err == None && n == 0 && !checkEnd && |r.Unread()| < |old(r.Unread())|
    {
      if m > 0 && r.Buffered() < 2 {
        // Some data is there: return it rather than block.
        return true;
      }
      ghost var d := Pending();
      CheckFooter();
      FilledStill(g, b, m, d);
      stop := err != None;
    }

    /** The header of the next chunk, unless that would block with m bytes at hand. */
    method PassHeader(ghost g: Decoding, ghost b: Slice, m: nat) returns (stop: bool)
      requires Valid() && err == None && n == 0 && !checkEnd
      requires b.Valid() && b.arr != r.buf && b.arr != buf && m <= b.len
      requires Filled(g, b, m)
      modifies this, r, r.buf, r.rd
      ensures Valid() && Filled(g, b, m)
      ensures stop ==> err == None && m > 0
      ensures err == None && !stop ==> |r.Unread()| < |old(r.Unread())|
    {
      if m > 0 {
        var available := ChunkHeaderAvailable();
        if !available {
          return true;
        }
      }
      ghost var d := Pending();
      BeginChunk();
      FilledStill(g, b, m, d);
      stop := false;
    }

    /** The footer of the last chunk, then the header of the next, as far as they are due; data says
        that chunk data comes next. */
    method Advance(ghost g: Decoding, b: Slice, m: nat) returns (stop: bool, data: bool)
      requires Valid() && err == None && b.Valid() && b.arr != r.buf && b.arr != buf && m <= b.len
      requires Filled(g, b, m)
      modifies this, r, r.buf, r.rd, buf
      ensures Valid() && Filled(g, b, m)
      ensures stop && err == None ==> m > 0
      ensures data ==> !stop && err == None && n > 0 && !checkEnd
      ensures err == None && !stop && !data ==> |r.Unread()| < |old(r.Unread())|
      ensures data ==>
                |r.Unread()| < |old(r.Unread())| || (|r.Unread()| == |old(r.Unread())| && r.rd.idle == old(r.rd.idle))
    {
      stop, data := false, false;
      if checkEnd {
        stop := PassFooter(g, b, m);
        if stop {
          return;
        }
      }
      if n == 0 {
        stop := PassHeader(g, b, m);
        return;
      }
      data := true;
    }

    method Read(b0: Slice) returns (m: nat, e: Option<Error>)
      requires Valid() && b0.Valid() && b0.arr != r.buf && b0.arr != buf
      modifies this, r, r.buf, r.rd, buf, b0.arr
      ensures Valid() && m <= b0.len && e == err
      ensures forall i :: 0 <= i < b0.arr.Length && !b0.Covers(i) ==> b0.arr[i] == old(b0.arr[i])
      ensures old(err).Some? ==> m == 0 && e == old(err) && r.Unread() == old(r.Unread())
      ensures old(err) == None ==> Filled(old(Pending()), b0, m)
      ensures e == None && b0.len > 0 ==> m > 0
    {
      m := 0;
      if err != None {
        return 0, err;
      }
      ghost var g := Pending();
      StartDecoding(g);
      while err == None
        invariant Valid() && m <= b0.len && Filled(g, b0, m)
        invariant forall i :: 0 <= i < b0.arr.Length && !b0.Covers(i) ==> b0.arr[i] == old(b0.arr[i])
        decreases err == None, |r.Unread()|, r.rd.patience - r.rd.idle
      {
        var stop, data := Advance(g, b0, m);
        if stop {
          break;
        }
        if data {
          if b0.len - m == 0 {
            break;
          }
          m := Fill(g, b0, m);
        }
      }
      e := err;
    }

    /** Reads data of the current chunk behind the first m bytes of b. */
    method Fill(ghost g: Decoding, b: Slice, m: nat) returns (m1: nat)
      requires Valid() && err == None && n > 0 && !checkEnd
      requires b.Valid() && b.arr != r.buf && b.arr != buf && m < b.len
      requires Filled(g, b, m)
      modifies this, r, r.buf, r.rd, b.arr
      ensures Valid() && m <= m1 <= b.len && Filled(g, b, m1)
      ensures forall i :: 0 <= i < b.arr.Length && !b.Covers(i) ==> b.arr[i] == old(b.arr[i])
      ensures err == None ==>
                |r.Unread()| < |old(r.Unread())| || (|r.Unread()| == |old(r.Unread())| && r.rd.idle > old(r.rd.idle))
    {
      ghost var got, d := b.arr[b.off..b.off + m], Pending();
      var p := b.Sub(m, b.len);
      var n0 := ReadData(p);
      assert b.arr[b.off..b.off + m] == got;
      FilledOn(g, b, m, p, n0, d);
      m1 := m + n0;
    }

    /** Behind what came out before, n0 more bytes came out of the decoding d that was left. */
    lemma FilledOn(g: Decoding, b: Slice, m: nat, p: Slice, n0: nat, d: Decoding)
      requires Valid() && b.Valid() && m <= b.len && g == Prepend(b.arr[b.off..b.off + m], d)
      requires p == b.Sub(m, b.len) && n0 <= p.len
      requires Decoded(decode, r.rd.lateEOF, d, p.arr[p.off..p.off + n0], err, n, checkEnd, r.Unread())
      ensures Filled(g, b, m + n0)
    {
      var got, more := b.arr[b.off..b.off + m], b.arr[b.off + m..b.off + m + n0];
      InTwo(b, m, n0);
      DecodedTrans(decode, r.rd.lateEOF, g, got, d, more, err, n, checkEnd, r.Unread());
    }
  }

  lemma InTwo(b: Slice, m: nat, k: nat)
    requires b.Valid() && m + k <= b.len
    ensures b.arr[b.off..b.off + m + k] == b.arr[b.off..b.off + m] + b.arr[b.off + m..b.off + m + k]
  {
  }

  lemma StartDecoding(g: Decoding)
    ensures g == Prepend([], g)
  {
    assert [] + g.out == g.out;
  }

  method ReadChunkLine(b: Reader) returns (p: Slice, e: Option<Error>)
    requires b.Valid()
    modifies b, b.buf, b.rd
    ensures b.Valid() && p.Valid() && p.arr == b.buf
    ensures var l := ChunkLine(old(b.Unread()), b.buf.Length);
            && (e == None ==> l == Line(p.Bytes(), b.Unread()))
            && (e.Some? && !Fault(e.value) ==>
                  l.NoLine? && Matches(l.end, e.value, b.rd.lateEOF) && l.rest == b.Unread())
            && (e.Some? && Fault(e.value) ==> !b.rd.Steady())
    ensures e != Some(EOF)
  {
    p, e := b.ReadSlice(LF);
    if e != None {
      NoLineRead(p.Bytes(), b.Unread(), e.value, b.buf.Length, b.rd.lateEOF);
      e := Some(LineError(e.value));
      return;
    }
    SliceIsLine(p.Bytes(), b.Unread(), b.buf.Length);
    if p.len >= MAX_LINE {
      return p, Some(LineTooLong);
    }
    p, e := CleanLine(p);
  }

  /** The line without trailing white space, then without its extension. */
  method CleanLine(line: Slice) returns (p: Slice, e: Option<Error>)
    requires line.Valid()
    ensures p.Valid() && p.arr == line.arr && p.Bytes() == BeforeSemi(TrimRight(line.Bytes())) && e == None
  {
    p := TrimTrailingWhitespace(line);
    p, e := RemoveChunkExtension(p);
  }

  /** The error of a line, given that of the slice that should have held it. */
  function LineError(e: Error): Error {
    if e == EOF then UnexpectedEOF else if e == BufferFull then LineTooLong else e
  }

  /** A slice without an LF was all that could be read: the input's end, or a full buffer. */
  lemma NoLineRead(s: seq<byte>, rest: seq<byte>, e: Error, cap: nat, late: bool)
    requires |s| <= cap && LF !in s
    requires e == BufferFull ==> |s| == cap
    requires e == EOF ==> rest == [] && (late ==> |s| < cap)
    ensures e == EOF || e == BufferFull ==>
              var l := ChunkLine(s + rest, cap);
              l.NoLine? && l.rest == rest && Matches(l.end, LineError(e), late)
  {
    AppendParts(s, rest);
    AbsentBefore(s + rest, LF, |s|);
  }

  /** A slice that ends with the first LF is a line, if it is not too long. */
  lemma SliceIsLine(s: seq<byte>, rest: seq<byte>, cap: nat)
    requires EndsAtFirst(s, LF) && |s| <= cap
    ensures ChunkLine(s + rest, cap) == if |s| < MAX_LINE then Line(BeforeSemi(TrimRight(s)), rest)
                                        else NoLine(Ended(LineTooLong), rest)
  {
    AppendParts(s, rest);
    IndexByteAtEnd(s, rest, LF);
  }

  method TrimTrailingWhitespace(b: Slice) returns (t: Slice)
    requires b.Valid()
    ensures t.Valid() && t.arr == b.arr && t.off == b.off && t.len <= b.len
    ensures t.Bytes() == TrimRight(b.Bytes())
  {
    t := b;
    while t.len > 0 && IsSpace(t.Bytes()[t.len - 1])
      invariant t.Valid() && t.arr == b.arr && t.off == b.off && t.len <= b.len
      invariant TrimRight(t.Bytes()) == TrimRight(b.Bytes())
      decreases t.len
    {
      assert t.Sub(0, t.len - 1).Bytes() == t.Bytes()[..t.len - 1];
      t := t.Sub(0, t.len - 1);
    }
  }

  method RemoveChunkExtension(p: Slice) returns (t: Slice, e: Option<Error>)
    requires p.Valid()
    ensures t.Valid() && t.arr == p.arr && t.Bytes() == BeforeSemi(p.Bytes()) && e == None
  {
    var i := IndexByte(p.Bytes(), SEMI);
    t := if i < 0 then p else p.Sub(0, i);
    e := None;
  }

  class ChunkedWriter {
    const wire: Sink

    constructor (wire: Sink)
      ensures this.wire == wire
    {
      this.wire := wire;
    }

    /** Writes s to the wire in one call. */
    method Send(s: seq<byte>) returns (e: Option<Error>)
      modifies wire
      ensures old(wire.sent) <= wire.sent <= old(wire.sent) + s
      ensures e == None && wire.lawful ==> wire.sent == old(wire.sent) + s
      ensures wire.reliable ==> e == None && wire.sent == old(wire.sent) + s
    {
      var p := FromSeq(s);
      var k;
      k, e := wire.Write(p);
      assert s[..|s|] == s;
    }

    method Write(data: Slice) returns (n: nat, e: Option<Error>)
      requires data.Valid()
      modifies wire
      ensures n <= data.len && (e == None ==> n == data.len)
      ensures wire.lawful ==> old(wire.sent) <= wire.sent <= old(wire.sent) + EncodeChunk(data.Bytes())
      ensures e == None && wire.lawful ==> wire.sent == old(wire.sent) + EncodeChunk(data.Bytes())
      ensures wire.reliable ==> e == None && wire.sent == old(wire.sent) + EncodeChunk(data.Bytes())
    {
      if data.len == 0 {
        assert old(wire.sent) + [] == wire.sent;
        return 0, None;
      }
      ghost var s0, d, h := wire.sent, data.Bytes(), Hex.Print(data.len) + CRLF;
      assert EncodeChunk(d) == h + d + CRLF;
      e := Send(Hex.Print(data.len) + CRLF);
      AppendAssoc(s0, h, d + CRLF);
      if e != None {
        return 0, e;
      }
      n, e := wire.Write(data);
      assert data.Bytes()[..data.len] == data.Bytes();
      assert s0 + EncodeChunk(d) == s0 + h + d + CRLF;
      if e != None {
        return;
      }
      if n != data.len {
        e := Some(ShortWrite);
        return;
      }
      e := Send(CRLF);
    }

    method Close() returns (e: Option<Error>)
      modifies wire
      ensures e == None && wire.lawful ==> wire.sent == old(wire.sent) + LAST_CHUNK
      ensures wire.reliable ==> e == None && wire.sent == old(wire.sent) + LAST_CHUNK
    {
      e := Send(LAST_CHUNK);
    }
  }
}
