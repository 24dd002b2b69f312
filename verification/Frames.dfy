/** WebSocket frames (sections 5.2 to 5.5 of RFC 6455): the wire format, a parser of the wire format
    under the buffer limit of the reader, and messages as sequences of frames. */
module Frames {
  import opened Bytes
  import opened Bits
  import opened Streams

  const FIN_BIT: byte := 128
  const RSV_BITS: byte := 112
  const OP_BITS: byte := 15
  const MASK_BIT: byte := 128
  const LEN_BITS: byte := 127

  const CONTINUATION_FRAME: nat := 0
  const TEXT_MESSAGE: nat := 1
  const BINARY_MESSAGE: nat := 2
  const CLOSE_MESSAGE: nat := 8
  const PING_MESSAGE: nat := 9
  const PONG_MESSAGE: nat := 10

  const MAX_READ: nat := 100       // continuationFrameMaxRead

  // ---------------------------------------------------------------- wire format

  datatype Frame = Frame(fin: bool, op: nat, key: Option<seq<byte>>, data: seq<byte>)

  ghost predicate WellFormed(f: Frame) {
    f.op < 16 && (f.key.Some? ==> |f.key.value| == 4) && |f.data| < TWO63
  }

  /** The 7-bit field and the extension, shortest form. */
  function LengthField(length: nat): (b: byte)
    ensures b < 128
  {
    if length <= 125 then length else if length < 65536 then 126 else 127
  }

  function LengthExtension(length: nat): seq<byte> {
    if length <= 125 then [] else if length < 65536 then ToBE(length, 2) else ToBE(length, 8)
  }

  function KeyBytes(key: Option<seq<byte>>): seq<byte> {
    if key.Some? then key.value else []
  }

  /** Octet i of the data is xor-ed with octet i mod 4 of the key. */
  function Mask(key: seq<byte>, data: seq<byte>): (m: seq<byte>)
    requires |key| == 4
    ensures |m| == |data|
  {
    seq(|data|, i requires 0 <= i < |data| => XorByte(data[i], key[i % 4]))
  }

  function XorByte(a: byte, b: byte): byte {
    assert Pow2(8) == 256;
    BitXor(a, b, 8)
  }

  function MaskWith(key: Option<seq<byte>>, data: seq<byte>): (m: seq<byte>)
    requires key.Some? ==> |key.value| == 4
    ensures |m| == |data|
  {
    if key.Some? then Mask(key.value, data) else data
  }

  function EncodeFrame(f: Frame): seq<byte>
    requires WellFormed(f)
  {
    [(if f.fin then 128 else 0) + f.op, (if f.key.Some? then 128 else 0) + LengthField(|f.data|)]
    + (LengthExtension(|f.data|) + (KeyBytes(f.key) + MaskWith(f.key, f.data)))
  }

  function EncodeFrames(fs: seq<Frame>): seq<byte>
    requires forall f :: f in fs ==> WellFormed(f)
  {
    if fs == [] then [] else EncodeFrame(fs[0]) + EncodeFrames(fs[1..])
  }

  lemma MaskSelfInverse(key: seq<byte>, data: seq<byte>)
    requires |key| == 4
    ensures Mask(key, Mask(key, data)) == data
  {
    forall i | 0 <= i < |data|
      ensures Mask(key, Mask(key, data))[i] == data[i]
    {
      assert Pow2(8) == 256;
      XorSelfInverse(data[i], key[i % 4], 8);
    }
  }

  // ---------------------------------------------------------------- what the server writes

  /** The first byte that WriteHeader builds: FIN and the low byte of the message type. */
  function FirstByte(msgType: int): byte {
    assert Pow2(8) == 256;
    OrBound(128, msgType % 256, 8);
    BitOr(128, msgType % 256)
  }

  /** The header that WriteHeader builds; Go truncates what does not fit the field. */
  function EncodeHeader(msgType: int, length: int): seq<byte> {
    [FirstByte(msgType)] + EncodeLength(length)
  }

  function EncodeLength(length: int): seq<byte> {
    if length <= 125 then [length % 256]
    else if length < 65536 then [126] + ToBE(length, 2)
    else [127] + ToBE(length % TWO64, 8)
  }

  function EncodeMessage(msgType: int, msg: seq<byte>): seq<byte> {
    EncodeHeader(msgType, |msg|) + msg
  }

  lemma FirstByteIs(msgType: nat)
    requires msgType < 16
    ensures FirstByte(msgType) == 128 + msgType
  {
    var x := msgType % 256;
    assert x == msgType;
    assert Pow2(7) == 128;
    OrLowBits(128, x, 7);
  }

  lemma LengthIs(length: nat)
    requires length < TWO63
    ensures EncodeLength(length) == [LengthField(length)] + LengthExtension(length)
  {
  }

  lemma HeaderIs(msgType: nat, length: nat)
    requires msgType < 16 && length < TWO63
    ensures EncodeHeader(msgType, length) == [128 + msgType, LengthField(length)] + LengthExtension(length)
  {
    FirstByteIs(msgType);
    LengthIs(length);
    AppendAssoc([128 + msgType], [LengthField(length)], LengthExtension(length));
  }

  /** A written message is one final unmasked frame. */
  lemma MessageIsFrame(msgType: nat, msg: seq<byte>)
    requires msgType < 16 && |msg| < TWO63
    ensures EncodeMessage(msgType, msg) == EncodeFrame(Frame(true, msgType, None, msg))
  {
    HeaderIs(msgType, |msg|);
    UnmaskedFrame(msgType, msg);
    AppendAssoc([128 + msgType, LengthField(|msg|)], LengthExtension(|msg|), msg);
  }

  lemma UnmaskedFrame(op: nat, msg: seq<byte>)
    requires op < 16 && |msg| < TWO63
    ensures EncodeFrame(Frame(true, op, None, msg)) == [128 + op, LengthField(|msg|)] + (LengthExtension(|msg|) + msg)
  {
    assert [] + msg == msg;
  }

  // ---------------------------------------------------------------- parser

  /** What one frame read makes of the unread stream; rest is what it leaves unread. */
  datatype FrameParse =
    | Parsed(fin: bool, op: nat, payload: seq<byte>, rest: seq<byte>)
    | Reserved(rest: seq<byte>)
    | TooLong(rest: seq<byte>)
    | Truncated(rest: seq<byte>)

  /** `int64(v)` of an unsigned 64-bit v. */
  function ToInt64(v: nat): int {
    if v < TWO63 then v else v - TWO64
  }

  function ExtensionLen(b1: byte): nat {
    if b1 % 128 == 126 then 2 else if b1 % 128 == 127 then 8 else 0
  }

  function ParseFrame(s: seq<byte>, cap: nat): FrameParse {
    if |s| < 1 then Truncated(s)
    else if s[0] / 16 % 8 != 0 then Reserved(s[1..])
    else if |s| < 2 then Truncated(s[1..])
    else ParseLength(s[0], s[1], s[2..], cap)
  }

  function ParseLength(b0: byte, b1: byte, s: seq<byte>, cap: nat): FrameParse {
    var k := ExtensionLen(b1);
    if k > cap then TooLong(s)
    else if |s| < k then Truncated(s)
    else ParseKey(b0, b1, if k == 0 then b1 % 128 else ToInt64(FromBE(s[..k])), s[k..], cap)
  }

  function ParseKey(b0: byte, b1: byte, length: int, s: seq<byte>, cap: nat): FrameParse {
    if b1 < 128 then ParsePayload(b0, None, length, s, cap)
    else if 4 > cap then TooLong(s)
    else if |s| < 4 then Truncated(s)
    else ParsePayload(b0, Some(s[..4]), length, s[4..], cap)
  }

  function ParsePayload(b0: byte, key: Option<seq<byte>>, length: int, s: seq<byte>, cap: nat): FrameParse
    requires key.Some? ==> |key.value| == 4
  {
    if length <= 0 then Parsed(b0 >= 128, b0 % 16, [], s)
    else if length > cap then TooLong(s)
    else if |s| < length then Truncated(s)
    else Parsed(b0 >= 128, b0 % 16, MaskWith(key, s[..length]), s[length..])
  }

  lemma ParsedHead(b0: byte, b1: byte, s: seq<byte>, cap: nat)
    ensures var p := ParseLength(b0, b1, s, cap);
            p.Parsed? ==> p.fin == (b0 >= 128) && p.op == b0 % 16
  {
  }

  ghost predicate Fits(f: Frame, cap: nat) {
    WellFormed(f) && |f.data| <= cap && (f.key.Some? ==> 4 <= cap)
  }

  lemma LengthRoundTrip(length: nat)
    requires 125 < length < TWO63
    ensures ToInt64(FromBE(LengthExtension(length))) == length
  {
    assert Pow256(2) == 65536 && Pow256(4) == 0x1_0000_0000;
    assert Pow256(8) == TWO64 by { assert Pow256(6) == 0x1_0000_0000_0000; }
    BERoundTrip(length, if length < 65536 then 2 else 8);
  }

  lemma ParseEncodedLength(b0: byte, b1: byte, length: nat, t: seq<byte>, cap: nat)
    requires length < TWO63 && length <= cap && b1 % 128 == LengthField(length)
    ensures ParseLength(b0, b1, LengthExtension(length) + t, cap) == ParseKey(b0, b1, length, t, cap)
  {
    var ext := LengthExtension(length);
    if length > 125 {
      LengthRoundTrip(length);
    }
    assert (ext + t)[..|ext|] == ext && (ext + t)[|ext|..] == t;
  }

  lemma ParseEncodedRest(b0: byte, b1: byte, f: Frame, rest: seq<byte>, cap: nat)
    requires Fits(f, cap) && (b1 >= 128 <==> f.key.Some?)
    ensures ParseKey(b0, b1, |f.data|, KeyBytes(f.key) + (MaskWith(f.key, f.data) + rest), cap)
         == Parsed(b0 >= 128, b0 % 16, f.data, rest)
  {
    var k, m := KeyBytes(f.key), MaskWith(f.key, f.data);
    assert (k + (m + rest))[..|k|] == k && (k + (m + rest))[|k|..] == m + rest;
    assert (m + rest)[..|m|] == m && (m + rest)[|m|..] == rest;
    if f.key.Some? {
      MaskSelfInverse(f.key.value, f.data);
    }
  }

  lemma ParseTwoBytes(b0: byte, b1: byte, t: seq<byte>, cap: nat)
    requires b0 / 16 % 8 == 0
    ensures ParseFrame([b0, b1] + t, cap) == ParseLength(b0, b1, t, cap)
  {
    assert ([b0, b1] + t)[2..] == t;
  }

  lemma Reassociate(h: seq<byte>, x: seq<byte>, y: seq<byte>, z: seq<byte>, t: seq<byte>)
    ensures h + (x + (y + z)) + t == h + (x + (y + (z + t)))
  {
  }

  /** Parsing undoes encoding, for every frame that fits, whatever follows it. */
  lemma ParseEncoded(f: Frame, rest: seq<byte>, cap: nat)
    requires Fits(f, cap)
    ensures ParseFrame(EncodeFrame(f) + rest, cap) == Parsed(f.fin, f.op, f.data, rest)
  {
    var b0 := (if f.fin then 128 else 0) + f.op;
    var b1 := (if f.key.Some? then 128 else 0) + LengthField(|f.data|);
    var ext, k, m := LengthExtension(|f.data|), KeyBytes(f.key), MaskWith(f.key, f.data);
    assert b0 / 16 % 8 == 0 && b1 % 128 == LengthField(|f.data|);
    assert (b0 >= 128 <==> f.fin) && b0 % 16 == f.op;
    Reassociate([b0, b1], ext, k, m, rest);
    assert EncodeFrame(f) + rest == [b0, b1] + (ext + (k + (m + rest)));
    ParseTwoBytes(b0, b1, ext + (k + (m + rest)), cap);
    ParseEncodedLength(b0, b1, |f.data|, k + (m + rest), cap);
    ParseEncodedRest(b0, b1, f, rest, cap);
  }

  lemma ParsedSizes(s: seq<byte>, cap: nat)
    requires ParseFrame(s, cap).Parsed?
    ensures var p := ParseFrame(s, cap);
            |s| >= 2 + ExtensionLen(s[1]) + |p.payload| + |p.rest|
    ensures ExtensionLen(s[1]) == 0 ==> |ParseFrame(s, cap).payload| <= 125
    ensures ExtensionLen(s[1]) == 2 ==> |ParseFrame(s, cap).payload| < 65536
  {
    var k := ExtensionLen(s[1]);
    FromBEBound(s[2..][..k]);
    assert Pow256(2) == 65536;
  }

  /** No header shorter than the one WriteHeader builds makes the parser return the same message. */
  lemma HeaderIsMinimal(h: seq<byte>, msgType: nat, msg: seq<byte>, rest: seq<byte>, cap: nat)
    requires |msg| < TWO63
    requires ParseFrame(h + msg + rest, cap) == Parsed(true, msgType, msg, rest)
    ensures |h| >= |EncodeHeader(msgType, |msg|)|
  {
    ParsedSizes(h + msg + rest, cap);
  }

  // ---------------------------------------------------------------- what a read payload is

  lemma XorByteIsXored(a: byte, b: byte)
    ensures Xored(XorByte(a, b), a, b)
  {
    assert Pow2(8) == 256;
    forall j | 0 <= j < 8
      ensures Bit(XorByte(a, b), j) <==> Bit(a, j) != Bit(b, j)
    {
      XorBits(a, b, 8, j);
    }
  }

  /** A masked frame of n raw bytes: two header bytes, the shortest length, four key bytes, the raw bytes. Bit by
      bit, the payload is raw byte i and key byte i mod 4, where they differ. */
  lemma MaskedPayload(b0: byte, key: seq<byte>, raw: seq<byte>, rest: seq<byte>, cap: nat)
    requires b0 / 16 % 8 == 0 && |key| == 4 <= cap && |raw| <= cap && |raw| < TWO63
    ensures var n := |raw|;
            var p := ParseFrame([b0, 128 + LengthField(n)] + (LengthExtension(n) + (key + (raw + rest))), cap);
            && p.Parsed? && p.fin == (b0 >= 128) && p.op == b0 % 16 && p.rest == rest && |p.payload| == n
            && forall i :: 0 <= i < n ==> Xored(p.payload[i], raw[i], key[i % 4])
  {
    var n := |raw|;
    var b1 := 128 + LengthField(n);
    ParseTwoBytes(b0, b1, LengthExtension(n) + (key + (raw + rest)), cap);
    ParseEncodedLength(b0, b1, n, key + (raw + rest), cap);
    AppendParts(key, raw + rest);
    AppendParts(raw, rest);
    MaskIsXored(key, raw);
  }

  lemma MaskIsXored(key: seq<byte>, raw: seq<byte>)
    requires |key| == 4
    ensures forall i :: 0 <= i < |raw| ==> Xored(Mask(key, raw)[i], raw[i], key[i % 4])
  {
    forall i | 0 <= i < |raw|
      ensures Xored(Mask(key, raw)[i], raw[i], key[i % 4])
    {
      XorByteIsXored(raw[i], key[i % 4]);
    }
  }

  /** The shortest length: 7 bits, or 126 and two bytes, or 127 and eight, the most significant first. */
  lemma LengthBytes(n: nat)
    requires n < TWO63
    ensures n <= 125 ==> LengthField(n) == n && LengthExtension(n) == []
    ensures 125 < n < 65536 ==> LengthField(n) == 126 && LengthExtension(n) == [n / 256, n % 256]
    ensures n >= 65536 ==> LengthField(n) == 127 && |LengthExtension(n)| == 8 && FromBE(LengthExtension(n)) == n
  {
    if n >= 65536 {
      LengthRoundTrip(n);
      FromBEBound(LengthExtension(n));
      assert Pow256(8) == TWO64 by { assert Pow256(6) == 0x1_0000_0000_0000; }
    } else if n > 125 {
      assert ToBE(n / 256, 1) == [n / 256];
    }
  }

  /** A length with its top bit set is read as no payload. */
  lemma TopBitLength(b0: byte, ext: seq<byte>, rest: seq<byte>, cap: nat)
    requires b0 / 16 % 8 == 0 && |ext| == 8 <= cap && ext[0] >= 128
    ensures ParseFrame([b0, 127] + (ext + rest), cap) == Parsed(b0 >= 128, b0 % 16, [], rest)
  {
    ParseTwoBytes(b0, 127, ext + rest, cap);
    AppendParts(ext, rest);
    FirstByteFirst(ext);
    FromBEBound(ext);
    assert Pow256(7) == 0x100_0000_0000_0000 by { assert Pow256(4) == 0x1_0000_0000; }
  }

  /** A payload that does not fit the buffer is refused behind its key. */
  lemma OversizePayload(b0: byte, n: nat, rest: seq<byte>, cap: nat)
    requires b0 / 16 % 8 == 0 && n > cap && n < TWO63 && (n < 65536 || cap >= 8) && (n <= 125 || cap >= 2)
    ensures ParseFrame([b0, LengthField(n)] + (LengthExtension(n) + rest), cap) == TooLong(rest)
  {
    var ext := LengthExtension(n);
    ParseTwoBytes(b0, LengthField(n), ext + rest, cap);
    AppendParts(ext, rest);
    if n > 125 {
      LengthRoundTrip(n);
    }
    assert ParseLength(b0, LengthField(n), ext + rest, cap) == ParseKey(b0, LengthField(n), n, rest, cap);
  }

  /** So is a length or key field that does not fit the buffer, behind what comes before it. */
  lemma OversizeField(b0: byte, b1: byte, rest: seq<byte>, cap: nat)
    requires b0 / 16 % 8 == 0
    ensures b1 % 128 == 126 && cap < 2 ==> ParseFrame([b0, b1] + rest, cap) == TooLong(rest)
    ensures b1 % 128 == 127 && cap < 8 ==> ParseFrame([b0, b1] + rest, cap) == TooLong(rest)
    ensures 128 <= b1 < 254 && cap < 4 ==> ParseFrame([b0, b1] + rest, cap) == TooLong(rest)
  {
    ParseTwoBytes(b0, b1, rest, cap);
    AppendParts([], rest);
    assert [] + rest == rest;
  }

  /** A frame cut short in one of its fields, the length's extension, the key or the payload: what there is of
      that field is left unread. */
  lemma CutExtension(b0: byte, b1: byte, u: seq<byte>, cap: nat)
    requires b0 / 16 % 8 == 0 && |u| < ExtensionLen(b1) <= cap
    ensures ParseFrame([], cap) == Truncated([]) && ParseFrame([b0], cap) == Truncated([])
    ensures ParseFrame([b0, b1] + u, cap) == Truncated(u)
  {
    ParseTwoBytes(b0, b1, u, cap);
  }

  lemma CutKey(b0: byte, length: nat, u: seq<byte>, cap: nat)
    requires b0 / 16 % 8 == 0 && length < TWO63 && length <= cap && |u| < 4 <= cap
    ensures ParseFrame([b0, 128 + LengthField(length)] + (LengthExtension(length) + u), cap) == Truncated(u)
  {
    ParseTwoBytes(b0, 128 + LengthField(length), LengthExtension(length) + u, cap);
    ParseEncodedLength(b0, 128 + LengthField(length), length, u, cap);
  }

  lemma CutPayload(b0: byte, length: nat, u: seq<byte>, cap: nat)
    requires b0 / 16 % 8 == 0 && length < TWO63 && |u| < length <= cap
    ensures ParseFrame([b0, LengthField(length)] + (LengthExtension(length) + u), cap) == Truncated(u)
  {
    ParseTwoBytes(b0, LengthField(length), LengthExtension(length) + u, cap);
    ParseEncodedLength(b0, LengthField(length), length, u, cap);
  }

  lemma CutMaskedPayload(b0: byte, key: seq<byte>, length: nat, u: seq<byte>, cap: nat)
    requires b0 / 16 % 8 == 0 && length < TWO63 && |u| < length <= cap && |key| == 4 <= cap
    ensures ParseFrame([b0, 128 + LengthField(length)] + (LengthExtension(length) + (key + u)), cap) == Truncated(u)
  {
    var t := key + u;
    ParseTwoBytes(b0, 128 + LengthField(length), LengthExtension(length) + t, cap);
    ParseEncodedLength(b0, 128 + LengthField(length), length, t, cap);
    AppendParts(key, u);
    assert ParseKey(b0, 128 + LengthField(length), length, t, cap) == ParsePayload(b0, Some(key), length, u, cap);
  }

  lemma ReservedByte(b: byte)
    requires Bit(b, 4) || Bit(b, 5) || Bit(b, 6)
    ensures b / 16 % 8 != 0
  {
    assert Pow2(4) == 16 && Pow2(5) == 32;
    assert Pow2(6) == 64;
  }

  /** The same reading with more left unread. */
  function WithMore(p: FrameParse, t: seq<byte>): FrameParse {
    match p
    case Parsed(fin, op, payload, rest) => Parsed(fin, op, payload, rest + t)
    case Reserved(rest) => Reserved(rest + t)
    case TooLong(rest) => TooLong(rest + t)
    case Truncated(rest) => Truncated(rest + t)
  }

  /** Bytes that decide the next frame decide it whatever arrives behind them. */
  lemma MoreBytes(s: seq<byte>, t: seq<byte>, cap: nat)
    requires !ParseFrame(s, cap).Truncated?
    ensures ParseFrame(s + t, cap) == WithMore(ParseFrame(s, cap), t)
  {
    if s[0] / 16 % 8 != 0 {
      assert (s + t)[1..] == s[1..] + t;
    } else {
      assert (s + t)[2..] == s[2..] + t;
      MoreLength(s[0], s[1], s[2..], t, cap);
    }
  }

  lemma MoreLength(b0: byte, b1: byte, s: seq<byte>, t: seq<byte>, cap: nat)
    requires !ParseLength(b0, b1, s, cap).Truncated?
    ensures ParseLength(b0, b1, s + t, cap) == WithMore(ParseLength(b0, b1, s, cap), t)
  {
    var k := ExtensionLen(b1);
    if k <= cap {
      assert (s + t)[k..] == s[k..] + t && (s + t)[..k] == s[..k];
      MoreKey(b0, b1, if k == 0 then b1 % 128 else ToInt64(FromBE(s[..k])), s[k..], t, cap);
    }
  }

  lemma MoreKey(b0: byte, b1: byte, length: int, s: seq<byte>, t: seq<byte>, cap: nat)
    requires !ParseKey(b0, b1, length, s, cap).Truncated?
    ensures ParseKey(b0, b1, length, s + t, cap) == WithMore(ParseKey(b0, b1, length, s, cap), t)
  {
    if b1 < 128 {
      MorePayload(b0, None, length, s, t, cap);
    } else if 4 <= cap {
      assert (s + t)[4..] == s[4..] + t && (s + t)[..4] == s[..4];
      MorePayload(b0, Some(s[..4]), length, s[4..], t, cap);
    }
  }

  lemma MorePayload(b0: byte, key: Option<seq<byte>>, length: int, s: seq<byte>, t: seq<byte>, cap: nat)
    requires key.Some? ==> |key.value| == 4
    requires !ParsePayload(b0, key, length, s, cap).Truncated?
    ensures ParsePayload(b0, key, length, s + t, cap) == WithMore(ParsePayload(b0, key, length, s, cap), t)
  {
    if 0 < length <= cap {
      assert (s + t)[length..] == s[length..] + t && (s + t)[..length] == s[..length];
    }
  }

  /** No frame can be read from less than all its bytes. */
  lemma CutFrame(f: Frame, t: seq<byte>, u: seq<byte>, cap: nat)
    requires Fits(f, cap) && EncodeFrame(f) == t + u && u != []
    ensures ParseFrame(t, cap).Truncated?
  {
    if !ParseFrame(t, cap).Truncated? {
      MoreBytes(t, u, cap);
      assert EncodeFrame(f) + [] == EncodeFrame(f);
      ParseEncoded(f, [], cap);
      assert false;
    }
  }
}
