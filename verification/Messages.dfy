/** Messages over a stream of frames: what one ReadMessage call makes of the unread bytes,
    fragmentation with interleaved control frames, and the round trip of written messages. */
module Messages {
  import opened Bits
  import opened Bytes
  import opened Streams
  import opened Frames

  datatype End = Message(op: nat, payload: seq<byte>) | Failed(err: Error)

  /** One ReadMessage call: how it ends, the payloads of the pongs it writes, what it leaves unread,
      and how many frames it reads. */
  datatype Reading = Reading(end: End, pongs: seq<seq<byte>>, rest: seq<byte>, frames: nat)

  /** A reading that started earlier: pongs written and frames read before come first. */
  function After(pongs: seq<seq<byte>>, frames: nat, t: Reading): Reading {
    t.(pongs := if pongs == [] then t.pongs else pongs + t.pongs, frames := frames + t.frames)
  }

  /** What the switch on a frame's opcode does: end the call, or write a pong and go on. */
  datatype Step = Finish(end: End) | GoOn(pong: seq<seq<byte>>, acc: seq<byte>, finOp: nat)

  function Handle(fin: bool, op: nat, part: seq<byte>, acc: seq<byte>, finOp: nat): Step {
    if op <= BINARY_MESSAGE then
      if fin && acc == [] then Finish(Message(op, part))
      else
        var finOp' := if op == CONTINUATION_FRAME then finOp else op;
        if fin then Finish(Message(finOp', acc + part)) else GoOn([], acc + part, finOp')
    else if op == PING_MESSAGE then GoOn([part], acc, finOp)
    else if op == PONG_MESSAGE then GoOn([], acc, finOp)
    else if op == CLOSE_MESSAGE then Finish(Failed(MessageClose))
    else Finish(Failed(UnknownOpcode(fin, op)))
  }

  /** A frame reader: what it makes of an unread stream. */
  type Parser = seq<byte> -> FrameParse

  /** The frame reader over a buffer of cap bytes. */
  ghost predicate IsParser(parse: Parser, cap: nat) {
    forall s {:trigger ParseFrame(s, cap)} :: parse(s) == ParseFrame(s, cap)
  }

  /** The rest of a ReadMessage call whose unread stream is s, with acc collected so far,
      finOp the last data opcode that was not a continuation, and n frames read. */
  function ReadMsg(parse: Parser, s: seq<byte>, acc: seq<byte>, finOp: nat, n: nat): (g: Reading)
    requires n <= MAX_READ + 1
    decreases MAX_READ + 1 - n, |s|
  {
    match parse(s)
    case Truncated(rest) => Reading(Failed(EOF), [], rest, 1)
    case Reserved(rest) => Reading(Failed(ReservedBits), [], rest, 1)
    case TooLong(rest) => Reading(Failed(BufferFull), [], rest, 1)
    case Parsed(fin, op, part, rest) =>
      match Handle(fin, op, part, acc, finOp)
      case Finish(end) => Reading(end, [], rest, 1)
      case GoOn(pong, acc', finOp') =>
        if n > MAX_READ then Reading(Failed(MessageMaxRead), pong, rest, 1)
        else After(pong, 1, ReadMsg(parse, rest, acc', finOp', n + 1))
  }

  /** A call that ends as g has come to the state (s, acc, finOp, n), having written pongs. */
  ghost predicate Reached(parse: Parser, g: Reading, s: seq<byte>, acc: seq<byte>, finOp: nat, n: nat,
                          pongs: seq<seq<byte>>)
  {
    n <= MAX_READ + 1 && g == After(pongs, n, ReadMsg(parse, s, acc, finOp, n))
  }

  /** Whether a call has come to a state, having written pongs. */
  type Progress = (seq<byte>, seq<byte>, nat, nat, seq<seq<byte>>) -> bool

  ghost predicate IsProgress(at: Progress, parse: Parser, g: Reading) {
    forall s, acc, finOp, n, pongs {:trigger Reached(parse, g, s, acc, finOp, n, pongs)} ::
      at(s, acc, finOp, n, pongs) == Reached(parse, g, s, acc, finOp, n, pongs)
  }

  lemma ReachStart(at: Progress, parse: Parser, s: seq<byte>)
    requires IsProgress(at, parse, ReadMsg(parse, s, [], 0, 0))
    ensures at(s, [], 0, 0, []) && EncodePongs([]) == []
  {
    assert Reached(parse, ReadMsg(parse, s, [], 0, 0), s, [], 0, 0, []);
  }

  /** The state after one more frame, or the end of the call. */
  lemma ReachNext(at: Progress, parse: Parser, g: Reading,
                  s: seq<byte>, acc: seq<byte>, finOp: nat, n: nat, pongs: seq<seq<byte>>)
    requires IsProgress(at, parse, g) && at(s, acc, finOp, n, pongs)
    ensures var p := parse(s);
            match p
            case Parsed(fin, op, part, rest) =>
              (match Handle(fin, op, part, acc, finOp)
               case Finish(end) => g == Reading(end, pongs, rest, n + 1)
               case GoOn(pong, acc', finOp') =>
                 if n > MAX_READ then g == Reading(Failed(MessageMaxRead), pongs + pong, rest, n + 1)
                 else at(rest, acc', finOp', n + 1, pongs + pong))
            case _ =>
              g == Reading(Failed(if p.Reserved? then ReservedBits else if p.TooLong? then BufferFull else EOF),
                           pongs, p.rest, n + 1)
  {
    var p := parse(s);
    assert pongs + [] == pongs;
    assert Reached(parse, g, s, acc, finOp, n, pongs);
    if p.Parsed? && n <= MAX_READ {
      var h := Handle(p.fin, p.op, p.payload, acc, finOp);
      if h.GoOn? {
        var t := ReadMsg(parse, p.rest, h.acc, h.finOp, n + 1);
        AppendAssoc(pongs, h.pong, t.pongs);
        assert ReadMsg(parse, s, acc, finOp, n) == After(h.pong, 1, t);
        assert Reached(parse, g, p.rest, h.acc, h.finOp, n + 1, pongs + h.pong);
      }
    }
  }

  /** Every call stops within 102 frames. */
  lemma {:induction false} FrameBudget(parse: Parser, s: seq<byte>, acc: seq<byte>, finOp: nat, n: nat)
    requires n <= MAX_READ + 1
    ensures 1 <= ReadMsg(parse, s, acc, finOp, n).frames <= MAX_READ + 2 - n
    decreases MAX_READ + 1 - n
  {
    var p := parse(s);
    if p.Parsed? && n <= MAX_READ {
      var h := Handle(p.fin, p.op, p.payload, acc, finOp);
      if h.GoOn? {
        FrameBudget(parse, p.rest, h.acc, h.finOp, n + 1);
      }
    }
  }

  // ---------------------------------------------------------------- fragmented messages

  /** A ping or a pong. */
  predicate Control(f: Frame) {
    f.op == 9 || f.op == 10
  }

  /** The frames of one message of data type t: data frames with pings and pongs between them,
      the type on the first data frame only (first says it is still to come), FIN on the last only. */
  ghost predicate MessageFrames(fs: seq<Frame>, t: nat, first: bool) {
    && fs != []
    && if Control(fs[0]) then MessageFrames(fs[1..], t, first)
       else
         && fs[0].op == (if first then t else CONTINUATION_FRAME)
         && (fs[0].fin <==> |fs| == 1)
         && (|fs| > 1 ==> MessageFrames(fs[1..], t, false))
  }

  /** The concatenated data of the data frames. */
  function Body(fs: seq<Frame>): seq<byte> {
    if fs == [] then []
    else if Control(fs[0]) then Body(fs[1..])
    else fs[0].data + Body(fs[1..])
  }

  /** The data that comes before the final frame. */
  function Earlier(fs: seq<Frame>): seq<byte> {
    if |fs| <= 1 then []
    else if Control(fs[0]) then Earlier(fs[1..])
    else fs[0].data + Earlier(fs[1..])
  }

  /** One pong per ping, in order, with the same payload. */
  function Pongs(fs: seq<Frame>): seq<seq<byte>> {
    if fs == [] then []
    else if fs[0].op == 9 then [fs[0].data] + Pongs(fs[1..])
    else Pongs(fs[1..])
  }

  /** Pongs as WriteMessage encodes them. */
  function EncodedPongs(pongs: seq<seq<byte>>): seq<seq<byte>> {
    seq(|pongs|, i requires 0 <= i < |pongs| => EncodeMessage(PONG_MESSAGE, pongs[i]))
  }

  /** The bytes of pongs written one after the other. */
  function EncodePongs(pongs: seq<seq<byte>>): seq<byte> {
    Flatten(EncodedPongs(pongs))
  }

  /** A pong on the wire: FIN and opcode 10, no mask, the payload of its ping. */
  lemma PongBytes(p: seq<byte>)
    requires |p| <= 125
    ensures EncodePongs([p]) == [0x8a, |p|] + p
  {
    var m := EncodeMessage(PONG_MESSAGE, p);
    HeaderIs(PONG_MESSAGE, |p|);
    var h: seq<byte> := [0x8a, |p|];
    assert h + [] == h && m == h + p;
    assert EncodedPongs([p]) == [m];
    assert Flatten([m]) == [] + m;
    assert [] + m == m;
  }

  lemma EncodeOneMorePong(pongs: seq<seq<byte>>, p: seq<byte>)
    ensures EncodePongs(pongs + [p]) == EncodePongs(pongs) + EncodeMessage(PONG_MESSAGE, p)
  {
    assert EncodedPongs(pongs + [p]) == EncodedPongs(pongs) + [EncodeMessage(PONG_MESSAGE, p)];
    FlattenSnoc(EncodedPongs(pongs), EncodeMessage(PONG_MESSAGE, p));
  }

  ghost predicate AllFit(fs: seq<Frame>, cap: nat) {
    forall f :: f in fs ==> Fits(f, cap)
  }

  /** The type reported for a message: the final frame's own opcode if no data came before it. */
  function ReportedType(fs: seq<Frame>, acc: seq<byte>, finOp: nat, t: nat, first: bool): nat
    requires fs != []
  {
    if acc + Earlier(fs) == [] then fs[|fs| - 1].op
    else if first then t else finOp
  }

  /** The frames fs are what the parser finds at the front of s, with rest after them. */
  ghost predicate Arrive(parse: Parser, fs: seq<Frame>, s: seq<byte>, rest: seq<byte>) {
    if fs == [] then s == rest
    else
      var p := parse(s);
      p.Parsed? && p == Parsed(fs[0].fin, fs[0].op, fs[0].data, p.rest) && Arrive(parse, fs[1..], p.rest, rest)
  }

  lemma ParserParses(parse: Parser, f: Frame, t: seq<byte>, cap: nat)
    requires IsParser(parse, cap) && Fits(f, cap)
    ensures parse(EncodeFrame(f) + t) == Parsed(f.fin, f.op, f.data, t)
  {
    ParseEncoded(f, t, cap);
  }

  lemma {:induction false} EncodedArrive(parse: Parser, fs: seq<Frame>, rest: seq<byte>, cap: nat)
    requires IsParser(parse, cap) && AllFit(fs, cap)
    ensures Arrive(parse, fs, EncodeFrames(fs) + rest, rest)
  {
    if fs == [] {
      assert EncodeFrames(fs) + rest == rest;
    } else {
      assert forall g :: g in fs[1..] ==> g in fs;
      assert fs[0] in fs;
      AppendAssoc(EncodeFrame(fs[0]), EncodeFrames(fs[1..]), rest);
      ParserParses(parse, fs[0], EncodeFrames(fs[1..]) + rest, cap);
      EncodedArrive(parse, fs[1..], rest, cap);
    }
  }

  lemma ReadFinal(parse: Parser, f: Frame, t: nat, first: bool, s: seq<byte>, rest: seq<byte>,
                  acc: seq<byte>, finOp: nat, n: nat)
    requires Arrive(parse, [f], s, rest) && MessageFrames([f], t, first)
    requires t == TEXT_MESSAGE || t == BINARY_MESSAGE
    requires n <= MAX_READ + 1
    requires first ==> acc == []
    ensures ReadMsg(parse, s, acc, finOp, n)
         == Reading(Message(ReportedType([f], acc, finOp, t, first), acc + Body([f])), Pongs([f]), rest, 1)
  {
    assert [f][1..] == [] && !Control(f);
    assert Body([f]) == f.data && acc + [] == acc;
    assert acc == [] ==> acc + f.data == f.data;
  }

  /** The message read behind a frame that does not end it, taken up from the frame itself. */
  lemma ReadOn(fs: seq<Frame>, t: nat, first: bool, acc: seq<byte>, finOp: nat, g: Reading, rest: seq<byte>)
    requires |fs| > 1 && MessageFrames(fs, t, first)
    requires var f, tail := fs[0], fs[1..];
             g == if Control(f)
                  then Reading(Message(ReportedType(tail, acc, finOp, t, first), acc + Body(tail)),
                               Pongs(tail), rest, |tail|)
                  else Reading(Message(ReportedType(tail, acc + f.data, if first then t else finOp, t, false),
                                       acc + f.data + Body(tail)), Pongs(tail), rest, |tail|)
    ensures After(if fs[0].op == PING_MESSAGE then [fs[0].data] else [], 1, g)
         == Reading(Message(ReportedType(fs, acc, finOp, t, first), acc + Body(fs)), Pongs(fs), rest, |fs|)
  {
    var f, tail := fs[0], fs[1..];
    assert fs[|fs| - 1] == tail[|tail| - 1];
    AppendAssoc(acc, f.data, Body(tail));
    AppendAssoc(acc, f.data, Earlier(tail));
  }

  /** Reading the frames of one message, in any state of the loop. */
  lemma {:induction false} ReadFrames(parse: Parser, fs: seq<Frame>, t: nat, first: bool, s: seq<byte>, rest: seq<byte>,
                                      acc: seq<byte>, finOp: nat, n: nat)
    requires Arrive(parse, fs, s, rest) && MessageFrames(fs, t, first)
    requires t == TEXT_MESSAGE || t == BINARY_MESSAGE
    requires n + |fs| <= MAX_READ + 2
    requires first ==> acc == []
    ensures ReadMsg(parse, s, acc, finOp, n)
         == Reading(Message(ReportedType(fs, acc, finOp, t, first), acc + Body(fs)), Pongs(fs), rest, |fs|)
    decreases |fs|
  {
    var f, tail, s' := fs[0], fs[1..], parse(s).rest;
    if |fs| == 1 {
      assert fs == [f];
      ReadFinal(parse, f, t, first, s, rest, acc, finOp, n);
    } else {
      if Control(f) {
        ReadFrames(parse, tail, t, first, s', rest, acc, finOp, n + 1);
        ReadOn(fs, t, first, acc, finOp, ReadMsg(parse, s', acc, finOp, n + 1), rest);
      } else {
        var finOp' := if first then t else finOp;
        ReadFrames(parse, tail, t, false, s', rest, acc + f.data, finOp', n + 1);
        ReadOn(fs, t, first, acc, finOp, ReadMsg(parse, s', acc + f.data, finOp', n + 1), rest);
      }
    }
  }

  /** The final frame carries the type exactly when it is the only data frame. */
  lemma {:induction false} FinalOpcode(fs: seq<Frame>, t: nat, first: bool)
    requires MessageFrames(fs, t, first)
    requires t == TEXT_MESSAGE || t == BINARY_MESSAGE
    ensures !Control(fs[|fs| - 1]) && fs[|fs| - 1].fin
    ensures fs[|fs| - 1].op == t <==> first && forall i :: 0 <= i < |fs| - 1 ==> Control(fs[i])
    decreases |fs|
  {
    if |fs| > 1 {
      FinalOpcode(fs[1..], t, first && Control(fs[0]));
      if Control(fs[0]) {
        assert (forall i :: 0 <= i < |fs| - 1 ==> Control(fs[i]))
          <==> (forall i :: 0 <= i < |fs[1..]| - 1 ==> Control(fs[1..][i])) by {
          assert forall i :: 0 < i < |fs| - 1 ==> fs[i] == fs[1..][i - 1];
        }
      }
    }
  }

  /** A message split into at most 102 frames is read back whole, and every ping is answered.
      Its type comes back if and only if it was not fragmented or had data before its final frame. */
  lemma FragmentedMessage(parse: Parser, fs: seq<Frame>, t: nat, rest: seq<byte>, cap: nat)
    requires IsParser(parse, cap)
    requires MessageFrames(fs, t, true) && AllFit(fs, cap)
    requires t == TEXT_MESSAGE || t == BINARY_MESSAGE
    requires |fs| <= 102
    ensures var g := ReadMsg(parse, EncodeFrames(fs) + rest, [], 0, 0);
            && g.end.Message? && g.end.payload == Body(fs)
            && g.pongs == Pongs(fs) && g.rest == rest && g.frames == |fs|
            && (g.end.op == t <==> (forall i :: 0 <= i < |fs| - 1 ==> Control(fs[i])) || Earlier(fs) != [])
            && (g.end.op != t ==> g.end.op == CONTINUATION_FRAME)
  {
    EncodedArrive(parse, fs, rest, cap);
    ReadFrames(parse, fs, t, true, EncodeFrames(fs) + rest, rest, [], 0, 0);
    FinalOpcode(fs, t, true);
    LastOpcode(fs, t, true);
    assert [] + Body(fs) == Body(fs);
  }

  lemma {:induction false} LastOpcode(fs: seq<Frame>, t: nat, first: bool)
    requires MessageFrames(fs, t, first)
    ensures fs[|fs| - 1].op == t || fs[|fs| - 1].op == CONTINUATION_FRAME
    decreases |fs|
  {
    if |fs| > 1 {
      LastOpcode(fs[1..], t, first && Control(fs[0]));
    }
  }

  /** A text message in two frames, the first one empty, comes back with opcode 0. */
  lemma EmptyFirstFragmentLosesType(parse: Parser)
    requires IsParser(parse, 16)
    ensures var fs := [Frame(false, TEXT_MESSAGE, None, []), Frame(true, CONTINUATION_FRAME, None, [104, 105])];
            MessageFrames(fs, TEXT_MESSAGE, true) && AllFit(fs, 16)
            && ReadMsg(parse, EncodeFrames(fs), [], 0, 0).end == Message(CONTINUATION_FRAME, [104, 105])
  {
    var f, g := Frame(false, TEXT_MESSAGE, None, []), Frame(true, CONTINUATION_FRAME, None, [104, 105]);
    var fs := [f, g];
    assert fs[1..] == [g] && fs[..1] == [f];
    assert EncodeFrames(fs) + [] == EncodeFrames(fs);
    assert Body([g]) == [104, 105];
    EncodedArrive(parse, fs, [], 16);
    ReadFrames(parse, fs, TEXT_MESSAGE, true, EncodeFrames(fs), [], [], 0, 0);
  }

  /** The data collected from frames that are all not final. */
  ghost predicate Unfinished(fs: seq<Frame>) {
    forall f :: f in fs ==> Control(f) || (f.op <= BINARY_MESSAGE && !f.fin)
  }

  /** With 102 frames and no final one, the call gives up after the 102nd. */
  lemma {:induction false} OverBudget(parse: Parser, fs: seq<Frame>, s: seq<byte>, rest: seq<byte>,
                                      acc: seq<byte>, finOp: nat, n: nat)
    requires Arrive(parse, fs, s, rest) && Unfinished(fs)
    requires n <= MAX_READ + 1 && |fs| == MAX_READ + 2 - n
    ensures ReadMsg(parse, s, acc, finOp, n) == Reading(Failed(MessageMaxRead), Pongs(fs), rest, |fs|)
    decreases |fs|
  {
    var f, tail, s' := fs[0], fs[1..], parse(s).rest;
    assert forall g :: g in tail ==> g in fs;
    if |fs| > 1 {
      var h := Handle(f.fin, f.op, f.data, acc, finOp);
      OverBudget(parse, tail, s', rest, h.acc, h.finOp, n + 1);
    }
  }

  lemma FragmentsOverBudget(parse: Parser, fs: seq<Frame>, rest: seq<byte>, cap: nat)
    requires IsParser(parse, cap)
    requires Unfinished(fs) && AllFit(fs, cap) && |fs| == 102
    ensures ReadMsg(parse, EncodeFrames(fs) + rest, [], 0, 0)
         == Reading(Failed(MessageMaxRead), Pongs(fs), rest, |fs|)
  {
    EncodedArrive(parse, fs, rest, cap);
    OverBudget(parse, fs, EncodeFrames(fs) + rest, rest, [], 0, 0);
  }

  // ---------------------------------------------------------------- how a call ends

  /** The type remembered behind frames that do not end a message. */
  function LastType(fs: seq<Frame>, finOp: nat): nat {
    if fs == [] then finOp
    else LastType(fs[1..], if Control(fs[0]) || fs[0].op == 0 then finOp else fs[0].op)
  }

  /** It is that of the last data frame that is not a continuation. */
  lemma {:induction false} LastTypeIs(fs: seq<Frame>, finOp: nat, i: nat)
    requires i <= |fs| && forall j :: i <= j < |fs| ==> Control(fs[j]) || fs[j].op == 0
    ensures LastType(fs, finOp) == if i == 0 then finOp
                                   else if Control(fs[i - 1]) || fs[i - 1].op == 0 then LastType(fs[..i], finOp)
                                   else fs[i - 1].op
    decreases |fs|
  {
    if fs != [] {
      var finOp' := if Control(fs[0]) || fs[0].op == 0 then finOp else fs[0].op;
      LastTypeIs(fs[1..], finOp', if i == 0 then 0 else i - 1);
      if i > 1 {
        assert fs[1..][..i - 1] == fs[..i][1..];
      } else if i == 1 {
        assert fs[..1][1..] == [];
      }
    }
  }

  /** A reading with pongs before it and more frames in front. */
  ghost predicate Later(g: Reading, pongs: seq<seq<byte>>, k: nat, t: Reading) {
    g == Reading(t.end, pongs + t.pongs, t.rest, k + t.frames)
  }

  lemma LaterByOne(g: Reading, p: seq<seq<byte>>, h: Reading, pongs: seq<seq<byte>>, k: nat, t: Reading)
    requires g == After(p, 1, h) && Later(h, pongs, k, t)
    ensures Later(g, p + pongs, k + 1, t)
  {
    AppendAssoc(p, pongs, t.pongs);
    assert [] + (pongs + t.pongs) == pongs + t.pongs;
  }

  lemma GoesOn(f: Frame, acc: seq<byte>, finOp: nat)
    requires Control(f) || (f.op <= BINARY_MESSAGE && !f.fin)
    ensures Handle(f.fin, f.op, f.data, acc, finOp)
         == GoOn(Pongs([f]), acc + Body([f]), LastType([f], finOp))
  {
    assert [f][1..] == [] && f.data + [] == f.data && acc + [] == acc && [f.data] + [] == [f.data];
  }

  lemma FirstOfMany(fs: seq<Frame>, finOp: nat)
    requires fs != []
    ensures Pongs(fs) == Pongs([fs[0]]) + Pongs(fs[1..]) && Body(fs) == Body([fs[0]]) + Body(fs[1..])
    ensures LastType(fs, finOp) == LastType(fs[1..], LastType([fs[0]], finOp))
  {
    assert [fs[0]][1..] == [];
    assert [] + Pongs(fs[1..]) == Pongs(fs[1..]) && [] + Body(fs[1..]) == Body(fs[1..]);
    assert [fs[0].data] + [] == [fs[0].data] && fs[0].data + [] == fs[0].data;
  }

  /** Frames that do not end a message leave the call collecting their data, with their pings answered. */
  lemma {:induction false} ReadUnfinished(parse: Parser, fs: seq<Frame>, s: seq<byte>, t: seq<byte>,
                                          acc: seq<byte>, finOp: nat, n: nat)
    requires Arrive(parse, fs, s, t) && Unfinished(fs)
    requires n + |fs| <= MAX_READ + 1
    ensures Later(ReadMsg(parse, s, acc, finOp, n), Pongs(fs), |fs|,
                  ReadMsg(parse, t, acc + Body(fs), LastType(fs, finOp), n + |fs|))
    decreases |fs|
  {
    if fs == [] {
      assert acc + [] == acc;
      assert [] + ReadMsg(parse, t, acc, finOp, n).pongs == ReadMsg(parse, t, acc, finOp, n).pongs;
    } else {
      var f, tail, s' := fs[0], fs[1..], parse(s).rest;
      assert f in fs && forall g :: g in tail ==> g in fs;
      GoesOn(f, acc, finOp);
      FirstOfMany(fs, finOp);
      var acc', finOp' := acc + Body([f]), LastType([f], finOp);
      ReadUnfinished(parse, tail, s', t, acc', finOp', n + 1);
      AppendAssoc(acc, Body([f]), Body(tail));
      LaterByOne(ReadMsg(parse, s, acc, finOp, n), Pongs([f]), ReadMsg(parse, s', acc', finOp', n + 1),
                 Pongs(tail), |tail|, ReadMsg(parse, t, acc + Body(fs), LastType(fs, finOp), n + |fs|));
    }
  }

  /** ReadUnfinished for the frames of a stream, at the start of a call. */
  lemma ReadBehind(parse: Parser, fs: seq<Frame>, t: seq<byte>, cap: nat)
    requires IsParser(parse, cap)
    requires Unfinished(fs) && AllFit(fs, cap) && |fs| <= MAX_READ + 1
    ensures Later(ReadMsg(parse, EncodeFrames(fs) + t, [], 0, 0), Pongs(fs), |fs|,
                  ReadMsg(parse, t, Body(fs), LastType(fs, 0), |fs|))
  {
    EncodedArrive(parse, fs, t, cap);
    ReadUnfinished(parse, fs, EncodeFrames(fs) + t, t, [], 0, 0);
    assert [] + Body(fs) == Body(fs);
  }

  /** A final data frame ends the call with all data. The type is its own if it is the only one with data
      or no continuation, and else the last one named before it. */
  lemma FinalFrameEnds(parse: Parser, fs: seq<Frame>, f: Frame, rest: seq<byte>, cap: nat)
    requires IsParser(parse, cap)
    requires Unfinished(fs) && AllFit(fs, cap) && |fs| <= MAX_READ + 1
    requires Fits(f, cap) && f.fin && f.op <= 2
    ensures ReadMsg(parse, EncodeFrames(fs) + (EncodeFrame(f) + rest), [], 0, 0)
         == Reading(Message(if Body(fs) == [] || f.op != 0 then f.op else LastType(fs, 0), Body(fs) + f.data),
                    Pongs(fs), rest, |fs| + 1)
  {
    ReadBehind(parse, fs, EncodeFrame(f) + rest, cap);
    ParserParses(parse, f, rest, cap);
    assert Pongs(fs) + [] == Pongs(fs);
    assert [] + f.data == f.data;
  }

  /** A close frame ends the call, and so does an opcode that RFC 6455 reserves. */
  lemma CloseEnds(parse: Parser, fs: seq<Frame>, f: Frame, rest: seq<byte>, cap: nat)
    requires IsParser(parse, cap)
    requires Unfinished(fs) && AllFit(fs, cap) && |fs| <= MAX_READ + 1
    requires Fits(f, cap) && f.op > 2 && f.op != 9 && f.op != 10
    ensures ReadMsg(parse, EncodeFrames(fs) + (EncodeFrame(f) + rest), [], 0, 0)
         == Reading(Failed(if f.op == 8 then MessageClose else UnknownOpcode(f.fin, f.op)), Pongs(fs), rest, |fs| + 1)
  {
    ReadBehind(parse, fs, EncodeFrame(f) + rest, cap);
    ParserParses(parse, f, rest, cap);
    assert Pongs(fs) + [] == Pongs(fs);
  }

  /** A first byte with one of the three reserved bits ends the call behind it, whatever follows. */
  lemma ReservedBitEnds(parse: Parser, fs: seq<Frame>, b: byte, rest: seq<byte>, cap: nat)
    requires IsParser(parse, cap)
    requires Unfinished(fs) && AllFit(fs, cap) && |fs| <= MAX_READ + 1
    requires Bit(b, 4) || Bit(b, 5) || Bit(b, 6)
    ensures ReadMsg(parse, EncodeFrames(fs) + ([b] + rest), [], 0, 0)
         == Reading(Failed(ReservedBits), Pongs(fs), rest, |fs| + 1)
  {
    ReadBehind(parse, fs, [b] + rest, cap);
    ReservedByte(b);
    assert ParseFrame([b] + rest, cap) == Reserved(rest);
    assert Pongs(fs) + [] == Pongs(fs);
  }

  /** A payload longer than the buffer ends the call, and is left unread. */
  lemma OversizeEnds(parse: Parser, fs: seq<Frame>, b0: byte, n: nat, rest: seq<byte>, cap: nat)
    requires IsParser(parse, cap) && cap >= 8
    requires Unfinished(fs) && AllFit(fs, cap) && |fs| <= MAX_READ + 1
    requires b0 / 16 % 8 == 0 && cap < n < TWO63
    ensures ReadMsg(parse, EncodeFrames(fs) + ([b0, LengthField(n)] + (LengthExtension(n) + rest)), [], 0, 0)
         == Reading(Failed(BufferFull), Pongs(fs), rest, |fs| + 1)
  {
    var t := [b0, LengthField(n)] + (LengthExtension(n) + rest);
    ReadBehind(parse, fs, t, cap);
    OversizePayload(b0, n, rest, cap);
    assert parse(t) == ParseFrame(t, cap);
    assert Pongs(fs) + [] == Pongs(fs);
  }

  /** A stream that ends between two frames, or within one, ends the call with EOF. */
  lemma CutStreamEnds(parse: Parser, fs: seq<Frame>, f: Frame, t: seq<byte>, u: seq<byte>, cap: nat)
    requires IsParser(parse, cap)
    requires Unfinished(fs) && AllFit(fs, cap) && |fs| <= MAX_READ + 1
    requires Fits(f, cap) && EncodeFrame(f) == t + u && u != []
    ensures var g := ReadMsg(parse, EncodeFrames(fs) + t, [], 0, 0);
            g.end == Failed(EOF) && g.pongs == Pongs(fs) && g.frames == |fs| + 1
  {
    ReadBehind(parse, fs, t, cap);
    CutFrame(f, t, u, cap);
    assert parse(t) == ParseFrame(t, cap);
    assert Pongs(fs) + [] == Pongs(fs);
  }

  // ---------------------------------------------------------------- streams of messages

  datatype Msg = Msg(op: nat, payload: seq<byte>)

  /** A message WriteMessage can send and a reader with a buffer of cap bytes can return. */
  predicate Deliverable(m: Msg, cap: nat) {
    (m.op == TEXT_MESSAGE || m.op == BINARY_MESSAGE) && |m.payload| <= cap && |m.payload| < TWO63
  }

  /** Messages as WriteMessage encodes them. */
  function Encoded(ms: seq<Msg>): (ss: seq<seq<byte>>)
    ensures |ss| == |ms|
  {
    seq(|ms|, i requires 0 <= i < |ms| => EncodeMessage(ms[i].op, ms[i].payload))
  }

  function EncodeMessages(ms: seq<Msg>): seq<byte> {
    Flatten(Encoded(ms))
  }

  lemma EncodeOneMore(ms: seq<Msg>, m: Msg)
    ensures EncodeMessages(ms + [m]) == EncodeMessages(ms) + EncodeMessage(m.op, m.payload)
  {
    assert Encoded(ms + [m]) == Encoded(ms) + [EncodeMessage(m.op, m.payload)];
    FlattenSnoc(Encoded(ms), EncodeMessage(m.op, m.payload));
  }

  lemma EncodeFirst(ms: seq<Msg>)
    requires ms != []
    ensures EncodeMessages(ms) == EncodeMessage(ms[0].op, ms[0].payload) + EncodeMessages(ms[1..])
  {
    var ss, tail := Encoded(ms), Encoded(ms[1..]);
    assert ss[1..] == tail;
    FlattenFirst(ss);
  }

  lemma EncodePrefix(ms: seq<Msg>, i: nat)
    requires i < |ms|
    ensures EncodeMessages(ms[..i + 1]) == EncodeMessages(ms[..i]) + EncodeMessage(ms[i].op, ms[i].payload)
  {
    assert ms[..i + 1] == ms[..i] + [ms[i]];
    EncodeOneMore(ms[..i], ms[i]);
  }

  lemma EncodeSuffix(ms: seq<Msg>, i: nat)
    requires i < |ms|
    ensures EncodeMessages(ms[i..]) == EncodeMessage(ms[i].op, ms[i].payload) + EncodeMessages(ms[i + 1..])
  {
    EncodeFirst(ms[i..]);
    assert ms[i..][1..] == ms[i + 1..];
  }

  /** Successive ReadMessage calls, k of them or until one fails. */
  function ReadMany(parse: Parser, s: seq<byte>, k: nat): (g: (seq<Msg>, seq<byte>))
    decreases k, |s|
  {
    if k == 0 then ([], s)
    else
      var g := ReadMsg(parse, s, [], 0, 0);
      if g.end.Failed? then ([], g.rest)
      else
        var t := ReadMany(parse, g.rest, k - 1);
        ([Msg(g.end.op, g.end.payload)] + t.0, t.1)
  }

  lemma ReadWritten(parse: Parser, m: Msg, rest: seq<byte>, cap: nat)
    requires IsParser(parse, cap)
    requires Deliverable(m, cap)
    ensures ReadMsg(parse, EncodeMessage(m.op, m.payload) + rest, [], 0, 0)
         == Reading(Message(m.op, m.payload), [], rest, 1)
  {
    MessageIsFrame(m.op, m.payload);
    ParseEncoded(Frame(true, m.op, None, m.payload), rest, cap);
  }

  /** If every one of ss reads as one message, whatever follows it, then all together read as all messages. */
  lemma {:induction false} ReadFlattened(parse: Parser, ms: seq<Msg>, ss: seq<seq<byte>>, rest: seq<byte>)
    requires |ss| == |ms|
    requires forall i, t :: 0 <= i < |ms| ==>
               ReadMsg(parse, ss[i] + t, [], 0, 0) == Reading(Message(ms[i].op, ms[i].payload), [], t, 1)
    ensures ReadMany(parse, Flatten(ss) + rest, |ms|) == (ms, rest)
    decreases |ms|
  {
    if ms == [] {
      assert [] + rest == rest;
    } else {
      var t := Flatten(ss[1..]) + rest;
      FlattenFirst(ss);
      AppendAssoc(ss[0], Flatten(ss[1..]), rest);
      assert ReadMsg(parse, ss[0] + t, [], 0, 0) == Reading(Message(ms[0].op, ms[0].payload), [], t, 1);
      ReadFlattened(parse, ms[1..], ss[1..], rest);
      assert [ms[0]] + ms[1..] == ms;
    }
  }

  /** Any sequence of messages written one after the other is read back in order, unchanged. */
  lemma StreamRoundTrip(parse: Parser, ms: seq<Msg>, rest: seq<byte>, cap: nat)
    requires IsParser(parse, cap)
    requires forall m :: m in ms ==> Deliverable(m, cap)
    ensures ReadMany(parse, EncodeMessages(ms) + rest, |ms|) == (ms, rest)
  {
    var ss := Encoded(ms);
    forall i, t | 0 <= i < |ms|
      ensures ReadMsg(parse, ss[i] + t, [], 0, 0) == Reading(Message(ms[i].op, ms[i].payload), [], t, 1)
    {
      ReadWritten(parse, ms[i], t, cap);
    }
    ReadFlattened(parse, ms, ss, rest);
  }
}
