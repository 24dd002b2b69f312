/** The WebSocket connection of server/mqtt/conn.go, over the buffered reader and writer. */
module WebSocketConn {
  import opened Bytes
  import opened Bits
  import opened Streams
  import opened BufReader
  import opened BufWriter
  import opened Frames
  import opened Messages

  class Conn {
    const r: Reader
    const w: Writer
    var maskKey: array?<byte>
    ghost const parse: Parser   // what readFrame makes of the unread stream

    constructor (r: Reader, w: Writer)
      requires r.Valid() && w.Valid() && r.buf != w.buf
      ensures Valid() && this.r == r && this.w == w && fresh(maskKey)
    {
      this.r, this.w := r, w;
      maskKey := new byte[4];
      parse := (s: seq<byte>) => ParseFrame(s, r.buf.Length);
    }

    ghost predicate Valid()
      reads this, r, r.buf, r.rd, w
    {
      && r.Valid() && w.Valid() && r.buf != w.buf
      && (maskKey != null ==> maskKey.Length == 4 && maskKey != r.buf && maskKey != w.buf)
      && IsParser(parse, r.buf.Length)
    }

    // -------------------------------------------------------------- writing

    method WriteHeader(msgType: int, length: int) returns (e: Option<Error>)
      requires w.Valid()
      modifies w, w.buf, w.wr
      ensures w.Valid()
      ensures e == None ==> w.err == None && w.Stream() == old(w.Stream()) + EncodeHeader(msgType, length)
      ensures old(w.Stream()) <= w.Stream() <= old(w.Stream()) + EncodeHeader(msgType, length)
      ensures old(w.Healthy()) ==> (e == None <==> w.buf.Length >= if length < 65536 then 2 else 8)
      ensures old(w.Healthy()) && 2 <= w.buf.Length < 8 && length >= 65536 ==>
                w.Stream() == old(w.Stream()) + EncodeHeader(msgType, length)[..2]
    {
      // Second byte: no mask, payload length.
      var b1: byte := if length <= 125 then length % 256 else if length < 65536 then 126 else 127;
      e := PutLead(FirstByte(msgType), b1);
      if e != None {
        return;
      }
      assert EncodeHeader(msgType, length)[..2] == [FirstByte(msgType), b1];
      if 125 < length < 65536 {
        e := PutBE(length, 2);
        AppendAssoc(old(w.Stream()), [FirstByte(msgType), b1], ToBE(length, 2));
        assert EncodeHeader(msgType, length) == [FirstByte(msgType), b1] + ToBE(length, 2);
      } else if length >= 65536 {
        e := PutBE(length % TWO64, 8);
        AppendAssoc(old(w.Stream()), [FirstByte(msgType), b1], ToBE(length % TWO64, 8));
        assert EncodeHeader(msgType, length) == [FirstByte(msgType), b1] + ToBE(length % TWO64, 8);
      }
    }

    /** Peek two bytes and set them. */
    method PutLead(b0: byte, b1: byte) returns (e: Option<Error>)
      requires w.Valid()
      modifies w, w.buf, w.wr
      ensures w.Valid()
      ensures e == None ==> w.err == None && w.Stream() == old(w.Stream()) + [b0, b1]
      ensures e.Some? ==> w.Stream() == old(w.Stream())
      ensures old(w.Healthy()) ==> (if w.buf.Length >= 2 then e == None && w.Healthy() else e.Some?)
    {
      var h;
      h, e := w.Peek(2);
      if e != None {
        return;
      }
      SetByte(h, 0, b0);
      SetByte(h, 1, b1);
      assert w.buf[..w.n] == w.buf[..h.off] + [b0, b1];
    }

    /** `h[i] = 0; h[i] |= v`. */
    method SetByte(h: Slice, i: nat, v: byte)
      requires h.Valid() && i < h.len
      modifies h.arr
      ensures h.arr[h.off + i] == v
      ensures forall j :: 0 <= j < h.arr.Length && j != h.off + i ==> h.arr[j] == old(h.arr[j])
    {
      h.arr[h.off + i] := 0;
      h.arr[h.off + i] := OrByte(h.arr[h.off + i], v);
    }

    /** Peek k bytes and fill them with a big-endian number. */
    method PutBE(v: nat, k: nat) returns (e: Option<Error>)
      requires w.Valid()
      modifies w, w.buf, w.wr
      ensures w.Valid()
      ensures e == None ==> w.err == None && w.Stream() == old(w.Stream()) + ToBE(v, k)
      ensures e.Some? ==> w.Stream() == old(w.Stream())
      ensures old(w.Healthy()) ==> (e == None <==> w.buf.Length >= k)
    {
      var h;
      h, e := w.Peek(k);
      if e == None {
        var be := ToBE(v, k);
        forall i | 0 <= i < k {
          h.arr[h.off + i] := be[i];
        }
        assert w.buf[..w.n] == w.buf[..h.off] + be;
      }
    }

    method WriteBody(b: Slice) returns (e: Option<Error>)
      requires w.Valid() && b.Valid() && b.arr != w.buf
      modifies w, w.buf, w.wr
      ensures w.Valid()
      ensures e == None ==> w.Stream() == old(w.Stream()) + b.Bytes()
      ensures old(w.Stream()) <= w.Stream() <= old(w.Stream()) + b.Bytes()
      ensures old(w.Healthy()) ==> e == None && w.Healthy()
    {
      e := None;
      if b.len > 0 {
        var nn;
        nn, e := w.Write(b);
        assert b.Bytes()[..b.len] == b.Bytes();
      }
    }

    method WriteMessage(msgType: int, msg: Slice) returns (e: Option<Error>)
      requires w.Valid() && msg.Valid() && msg.arr != w.buf
      modifies w, w.buf, w.wr
      ensures w.Valid()
      ensures e == None ==> w.Stream() == old(w.Stream()) + EncodeMessage(msgType, msg.Bytes())
      ensures old(w.Stream()) <= w.Stream() <= old(w.Stream()) + EncodeMessage(msgType, msg.Bytes())
      ensures old(w.Healthy()) ==> (e == None <==> w.buf.Length >= if msg.len < 65536 then 2 else 8)
      ensures old(w.Healthy()) && e == None ==> w.Healthy()
    {
      ghost var s0, h, b := w.Stream(), EncodeHeader(msgType, msg.len), msg.Bytes();
      e := WriteHeader(msgType, msg.len);
      assert msg.Bytes() == b;
      AppendAssoc(s0, h, b);
      if e != None {
        return;
      }
      e := WriteBody(msg);
    }

    method Flush() returns (e: Option<Error>)
      requires w.Valid()
      modifies w, w.buf, w.wr
      ensures w.Valid() && w.Stream() == old(w.Stream())
      ensures e == None ==> w.wr.sent == w.Stream()
      ensures old(w.Healthy()) ==> e == None && w.Healthy()
    {
      e := w.Flush();
    }

    // -------------------------------------------------------------- reading

    /** What a read of the frame that parses as p promises. */
    ghost predicate FrameRead(p: FrameParse, payload: Slice, e: Option<Error>)
      requires r.Valid()
      reads r, r.buf, r.rd
    {
      && payload.arr == r.buf && payload.Valid() && payload.off + payload.len <= r.r
      && (e == None ==> p.Parsed? && p.payload == payload.Bytes() && p.rest == r.Unread())
      && (e.Some? && r.rd.Steady() ==>
            !p.Parsed? && p.rest == r.Unread()
            && e.value == if p.Reserved? then ReservedBits else if p.TooLong? then BufferFull else EOF)
    }

    method ReadFrame() returns (fin: bool, op: nat, payload: Slice, e: Option<Error>)
      requires Valid()
      modifies this, r, r.buf, r.rd, maskKey
      ensures Valid() && FrameRead(parse(old(r.Unread())), payload, e)
      ensures e == None ==> parse(old(r.Unread())).fin == fin && parse(old(r.Unread())).op == op
      ensures maskKey == old(maskKey) || fresh(maskKey)
    {
      fin, op, payload := false, 0, Slice(r.buf, 0, 0);
      ghost var u := r.Unread();
      assert parse(u) == ParseFrame(u, r.buf.Length);
      var b;
      // 1. First byte: FIN, RSV1 to RSV3, opcode.
      b, e := r.ReadByte();
      if e != None {
        return;
      }
      var rsv;
      fin, rsv, op := FirstByteBits(b);
      if rsv {
        return false, 0, payload, Some(ReservedBits);
      }
      ghost var b0 := b;
      // 2. Second byte: mask and payload length.
      b, e := r.ReadByte();
      if e != None {
        return;
      }
      assert r.Unread() == u[2..] && b0 == u[0] && b == u[1];
      ParsedHead(b0, b, u[2..], r.buf.Length);
      payload, e := ReadLengthOn(b0, b);
    }

    method FirstByteBits(b: byte) returns (fin: bool, rsv: bool, op: nat)
      ensures fin <==> b >= 128
      ensures rsv <==> b / 16 % 8 != 0
      ensures op == b % 16
    {
      HeaderBits(b);
      fin := BitAnd(b, FIN_BIT) != 0;
      rsv := BitAnd(b, RSV_BITS) != 0;
      op := BitAnd(b, OP_BITS);
    }

    method SecondByteBits(b: byte) returns (mask: bool, len7: nat)
      ensures mask <==> b >= 128
      ensures len7 == b % 128
    {
      HeaderBits(b);
      mask := BitAnd(b, MASK_BIT) != 0;
      len7 := BitAnd(b, LEN_BITS);
    }

    /** The payload length, then the rest of the frame. */
    method ReadLengthOn(ghost b0: byte, b: byte) returns (payload: Slice, e: Option<Error>)
      requires Valid()
      modifies this, r, r.buf, r.rd, maskKey
      ensures Valid() && FrameRead(ParseLength(b0, b, old(r.Unread()), r.buf.Length), payload, e)
      ensures maskKey == old(maskKey) || fresh(maskKey)
    {
      payload := Slice(r.buf, 0, 0);
      var p, payloadLen;
      var mask, len7 := SecondByteBits(b);
      match len7 {
        case 126 =>
          p, e := r.Pop(2);
          if e != None {
            return;
          }
          payloadLen := FromBE(p.Bytes());
          assert ToInt64(payloadLen) == payloadLen by { FromBEBound(p.Bytes()); assert Pow256(2) == 65536; }
        case 127 =>
          p, e := r.Pop(8);
          if e != None {
            return;
          }
          payloadLen := ToInt64(FromBE(p.Bytes()));
        case l =>
          payloadLen := l;
          assert r.Unread()[..0] == [] && r.Unread()[0..] == r.Unread();
      }
      payload, e := ReadKeyOn(b0, b, mask, payloadLen);
    }

    /** The mask key, then the payload. */
    method ReadKeyOn(ghost b0: byte, ghost b: byte, mask: bool, payloadLen: int)
      returns (payload: Slice, e: Option<Error>)
      requires Valid() && (mask <==> b >= 128)
      modifies this, r, r.buf, r.rd, maskKey
      ensures Valid() && FrameRead(ParseKey(b0, b, payloadLen, old(r.Unread()), r.buf.Length), payload, e)
      ensures maskKey == old(maskKey) || fresh(maskKey)
    {
      if mask {
        var k;
        k, e := r.Pop(4);
        if e != None {
          payload := Slice(r.buf, 0, 0);
          return;
        }
        if maskKey == null {
          maskKey := new byte[4];
        }
        var _ := Copy(Slice(maskKey, 0, 4), k);
        assert maskKey[..] == old(r.Unread())[..4];
      }
      payload, e := ReadPayload(b0, mask, payloadLen);
    }

    /** The payload, unmasked where it lies in the reader's buffer. */
    method ReadPayload(ghost b0: byte, mask: bool, payloadLen: int) returns (payload: Slice, e: Option<Error>)
      requires Valid() && (mask ==> maskKey != null)
      modifies r, r.buf, r.rd
      ensures Valid()
      ensures FrameRead(ParsePayload(b0, if mask then Some(old(maskKey[..])) else None, payloadLen,
                                     old(r.Unread()), r.buf.Length),
                        payload, e)
    {
      payload, e := Slice(r.buf, 0, 0), None;
      if payloadLen > 0 {
        payload, e := r.Pop(payloadLen);
        if e != None {
          payload := Slice(r.buf, 0, 0);
          return;
        }
        if mask {
          Unmask(payload);
        }
      }
    }

    /** `maskBytes(c.maskKey, 0, payload)`: only bytes already consumed change. */
    method Unmask(payload: Slice)
      requires Valid() && maskKey != null
      requires payload.arr == r.buf && payload.Valid() && payload.off + payload.len <= r.r
      modifies r.buf
      ensures Valid() && r.Unread() == old(r.Unread())
      ensures payload.Bytes() == Mask(maskKey[..], old(payload.Bytes()))
    {
      ghost var data := payload.Bytes();
      var _ := MaskBytes(maskKey, 0, payload);
      MaskFromStart(maskKey[..], data);
      assert r.buf[r.r..r.w] == old(r.buf[r.r..r.w]);
    }

    /** Reads frames until a message is complete, answering pings on the way. */
    method ReadMessage() returns (op: nat, payload: Slice, e: Option<Error>)
      requires Valid()
      modifies this, r, r.buf, r.rd, maskKey, w, w.buf, w.wr
      ensures Valid() && payload.Valid()
      ensures maskKey == old(maskKey) || fresh(maskKey)
      ensures var g := ReadMsg(parse, old(r.Unread()), [], 0, 0);
              && (e == None ==> Ended(g, Message(op, payload.Bytes()), old(w.Stream())))
              && (r.rd.Steady() && old(w.Healthy()) && w.buf.Length >= 8 ==>
                    w.Healthy() && (e.Some? ==> Ended(g, Failed(e.value), old(w.Stream()))))
    {
      ghost var s0 := w.Stream();
      ghost var g := ReadMsg(parse, r.Unread(), [], 0, 0);
      ghost var at := (s: seq<byte>, acc: seq<byte>, finOp: nat, n: nat, pongs: seq<seq<byte>>) =>
        Reached(parse, g, s, acc, finOp, n, pongs);
      ReachStart(at, parse, r.Unread());
      assert s0 + [] == s0;
      op, payload, e := ReadUntilDone(at, g, s0);
    }

    /** The loop of ReadMessage, for a call that ends as g. */
    method ReadUntilDone(ghost at: Progress, ghost g: Reading, ghost s0: seq<byte>)
      returns (op: nat, payload: Slice, e: Option<Error>)
      requires Valid() && IsProgress(at, parse, g) && Underway(at, [], 0, 0, [], s0)
      modifies this, r, r.buf, r.rd, maskKey, w, w.buf, w.wr
      ensures Valid() && payload.Valid()
      ensures maskKey == old(maskKey) || fresh(maskKey)
      ensures old(Calm()) ==> Calm()
      ensures e == None ==> Ended(g, Message(op, payload.Bytes()), s0)
      ensures e.Some? && old(Calm()) ==> Ended(g, Failed(e.value), s0)
    {
      var acc: seq<byte>, finOp, n := [], 0, 0;
      ghost var pongs: seq<seq<byte>> := [];
      while true
        invariant Valid()
        invariant maskKey == old(maskKey) || fresh(maskKey)
        invariant old(Calm()) ==> Calm()
        invariant Underway(at, acc, finOp, n, pongs, s0)
        decreases MAX_READ + 1 - n
      {
        var done;
        done, op, payload, e, acc, finOp, pongs := NextFrame(at, g, acc, finOp, n, pongs, s0);
        if done {
          return;
        }
        n := n + 1;
      }
    }

    /** Neither the source nor the sink can spoil a call. */
    ghost predicate Calm()
      reads r.rd, w
    {
      r.rd.Steady() && w.Healthy() && w.buf.Length >= 8
    }

    /** The call is at a state in the loop of ReadMessage, having written pongs after s0. */
    ghost predicate Underway(at: Progress, acc: seq<byte>, finOp: nat, n: nat, pongs: seq<seq<byte>>, s0: seq<byte>)
      requires r.Valid() && w.Valid()
      reads r, r.buf, r.rd, w, w.buf, w.wr
    {
      n <= MAX_READ + 1 && at(r.Unread(), acc, finOp, n, pongs) && w.Stream() == s0 + EncodePongs(pongs)
    }

    /** The call ended as end, at the end of reading g, having written g's pongs after s0. */
    ghost predicate Ended(g: Reading, end: End, s0: seq<byte>)
      requires r.Valid() && w.Valid()
      reads r, r.buf, r.rd, w, w.buf, w.wr
    {
      g.end == end && g.rest == r.Unread() && w.Stream() == s0 + EncodePongs(g.pongs)
    }

    /** One round of the loop. */
    method NextFrame(ghost at: Progress, ghost g: Reading, acc0: seq<byte>, finOp0: nat, n: nat,
                ghost pongs0: seq<seq<byte>>, ghost s0: seq<byte>)
      returns (done: bool, op: nat, payload: Slice, e: Option<Error>, acc: seq<byte>, finOp: nat,
               ghost pongs: seq<seq<byte>>)
      requires Valid() && IsProgress(at, parse, g) && Underway(at, acc0, finOp0, n, pongs0, s0)
      modifies this, r, r.buf, r.rd, maskKey, w, w.buf, w.wr
      ensures Valid() && payload.Valid()
      ensures maskKey == old(maskKey) || fresh(maskKey)
      ensures old(Calm()) ==> Calm()
      ensures !done ==> n <= MAX_READ && Underway(at, acc, finOp, n + 1, pongs, s0)
      ensures done && e == None ==> Ended(g, Message(op, payload.Bytes()), s0)
      ensures done && e.Some? && old(Calm()) ==> Ended(g, Failed(e.value), s0)
    {
      ReachNext(at, parse, g, r.Unread(), acc0, finOp0, n, pongs0);
      acc, finOp, pongs := acc0, finOp0, pongs0;
      var fin, part;
      fin, op, part, e := ReadFrame();
      payload := part;
      if e != None {
        done := true;
        return;
      }
      ghost var pong;
      done, op, payload, e, acc, finOp, pong := HandleFrame(fin, op, part, acc, finOp, s0, pongs);
      if done {
        return;
      }
      pongs := pongs + pong;
      if n > MAX_READ {
        done, e := true, Some(MessageMaxRead);
      }
    }

    /** The switch on a frame's opcode; done when the call returns. */
    method HandleFrame(fin: bool, op0: nat, part: Slice, acc0: seq<byte>, finOp0: nat,
                  ghost s0: seq<byte>, ghost pongs: seq<seq<byte>>)
      returns (done: bool, op: nat, payload: Slice, e: Option<Error>, acc: seq<byte>, finOp: nat,
               ghost pong: seq<seq<byte>>)
      requires w.Valid() && part.Valid() && part.arr != w.buf
      requires w.Stream() == s0 + EncodePongs(pongs)
      modifies w, w.buf, w.wr
      ensures w.Valid() && payload.Valid()
      ensures e.Some? ==> done
      ensures old(w.Healthy()) && w.buf.Length >= 8 ==> w.Healthy()
      ensures var h := Handle(fin, op0, old(part.Bytes()), acc0, finOp0);
              && (!done ==> h == GoOn(pong, acc, finOp) && w.Stream() == s0 + EncodePongs(pongs + pong))
              && (done && e == None ==> h == Finish(Message(op, payload.Bytes())) && w.Stream() == old(w.Stream()))
              && (e.Some? && old(w.Healthy()) && w.buf.Length >= 8 ==>
                    h == Finish(Failed(e.value)) && w.Stream() == old(w.Stream()))
    {
      done, op, payload, e, acc, finOp, pong := false, op0, part, None, acc0, finOp0, [];
      assert pongs + [] == pongs;
      if op == BINARY_MESSAGE || op == TEXT_MESSAGE || op == CONTINUATION_FRAME {
        if fin && acc == [] {
          done := true;
          return;
        }
        acc := acc + part.Bytes();
        if op != CONTINUATION_FRAME {
          finOp := op;
        }
        if fin {
          op := finOp;
          payload := FromSeq(acc);
          done := true;
        }
      } else if op == PING_MESSAGE {
        pong := [part.Bytes()];
        e := AnswerPing(part, s0, pongs);
        done := e != None;
      } else if op == PONG_MESSAGE {
      } else if op == CLOSE_MESSAGE {
        done, e := true, Some(MessageClose);
      } else {
        done, e := true, Some(UnknownOpcode(fin, op));
      }
    }

    method AnswerPing(part: Slice, ghost s0: seq<byte>, ghost pongs: seq<seq<byte>>) returns (e: Option<Error>)
      requires w.Valid() && part.Valid() && part.arr != w.buf
      requires w.Stream() == s0 + EncodePongs(pongs)
      modifies w, w.buf, w.wr
      ensures w.Valid()
      ensures e == None ==> w.Stream() == s0 + EncodePongs(pongs + [part.Bytes()])
      ensures old(w.Healthy()) && w.buf.Length >= 8 ==> w.Healthy() && e == None
    {
      ghost var b := part.Bytes();
      e := WriteMessage(PONG_MESSAGE, part);
      AppendAssoc(s0, EncodePongs(pongs), EncodeMessage(PONG_MESSAGE, b));
      EncodeOneMorePong(pongs, b);
    }
  }

  /** `a | b` on bytes. */
  function OrByte(a: byte, b: byte): byte {
    assert Pow2(8) == 256;
    OrBound(a, b, 8);
    BitOr(a, b)
  }

  /** Xor of data from position pos of the repeated key. */
  function MaskFrom(key: seq<byte>, pos: nat, data: seq<byte>): (m: seq<byte>)
    requires |key| == 4
    ensures |m| == |data|
  {
    seq(|data|, i requires 0 <= i < |data| => XorByte(data[i], key[(pos + i) % 4]))
  }

  lemma MaskFromStart(key: seq<byte>, data: seq<byte>)
    requires |key| == 4
    ensures MaskFrom(key, 0, data) == Mask(key, data)
  {
  }

  /** Masks b in place; returns where in the key the next byte would start. */
  method MaskBytes(key: array<byte>, pos: nat, b: Slice) returns (next: nat)
    requires key.Length == 4 && b.Valid() && b.arr != key
    modifies b.arr
    ensures b.Bytes() == MaskFrom(key[..], pos, old(b.Bytes()))
    ensures forall i :: 0 <= i < b.len ==> Xored(b.Bytes()[i], old(b.Bytes())[i], key[(pos + i) % 4])
    ensures forall i :: 0 <= i < b.arr.Length && !b.Covers(i) ==> b.arr[i] == old(b.arr[i])
    ensures next == (pos + b.len) % 4
  {
    var p := pos;
    for i := 0 to b.len
      invariant p == pos + i
      invariant forall j :: b.off <= j < b.off + i ==> b.arr[j] == XorByte(old(b.arr[j]), key[(pos + j - b.off) % 4])
      invariant forall j :: 0 <= j < b.arr.Length && !(b.off <= j < b.off + i) ==> b.arr[j] == old(b.arr[j])
    {
      AndLowBits(p, 2);
      assert Pow2(2) == 4;
      b.arr[b.off + i] := XorByte(b.arr[b.off + i], key[BitAnd(p, 3)]);
      p := p + 1;
    }
    AndLowBits(p, 2);
    assert Pow2(2) == 4;
    next := BitAnd(p, 3);
    ghost var was := old(b.Bytes());
    forall i | 0 <= i < b.len
      ensures Xored(b.Bytes()[i], was[i], key[(pos + i) % 4])
    {
      XorByteIsXored(was[i], key[(pos + i) % 4]);
    }
  }
}
