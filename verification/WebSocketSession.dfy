/** Whole WebSocket exchanges: messages sent with WriteMessage and Flush on one connection come out
    of successive ReadMessage calls on the other, whatever the buffers and however the bytes are cut. */
module WebSocketSession {
  import opened Bytes
  import opened Streams
  import opened BufReader
  import opened BufWriter
  import opened Frames
  import opened Messages
  import opened WebSocketConn

  method SendAll(c: Conn, ms: seq<Msg>) returns (e: Option<Error>)
    requires c.w.Valid()
    modifies c.w, c.w.buf, c.w.wr
    ensures c.w.Valid()
    ensures e == None ==> c.w.wr.sent == old(c.w.Stream()) + EncodeMessages(ms)
    ensures old(c.w.Healthy()) && c.w.buf.Length >= 8 ==> e == None
  {
    for i := 0 to |ms|
      invariant c.w.Valid()
      invariant c.w.Stream() == old(c.w.Stream()) + EncodeMessages(ms[..i])
      invariant old(c.w.Healthy()) && c.w.buf.Length >= 8 ==> c.w.Healthy()
    {
      var p := FromSeq(ms[i].payload);
      e := c.WriteMessage(ms[i].op, p);
      if e != None {
        return;
      }
      EncodePrefix(ms, i);
      AppendAssoc(old(c.w.Stream()), EncodeMessages(ms[..i]), EncodeMessage(ms[i].op, ms[i].payload));
    }
    assert ms[..|ms|] == ms;
    e := c.Flush();
  }

  method ReceiveOne(c: Conn, ghost m: Msg, ghost rest: seq<byte>) returns (got: Msg)
    requires c.Valid() && c.r.rd.Steady() && c.w.Healthy() && c.w.buf.Length >= 8
    requires Deliverable(m, c.r.buf.Length) && c.r.Unread() == EncodeMessage(m.op, m.payload) + rest
    modifies c, c.r, c.r.buf, c.r.rd, c.maskKey, c.w, c.w.buf, c.w.wr
    ensures c.Valid() && (c.maskKey == old(c.maskKey) || fresh(c.maskKey))
    ensures got == m && c.r.Unread() == rest
    ensures c.w.Stream() == old(c.w.Stream()) && c.w.Healthy()
  {
    ReadWritten(c.parse, m, rest, c.r.buf.Length);
    var op, payload, e := c.ReadMessage();
    assert c.w.Stream() == old(c.w.Stream()) + [];
    got := Msg(op, payload.Bytes());
  }

  /** A message that arrives in up to 102 frames, masked or not, with pings and pongs between them: one call
      returns the unmasked data, answers every ping with its own payload, in order, and reads nothing
      behind the final frame. The type is right exactly when the message came in one data frame or had
      data before the final one. */
  method ReceiveFragmented(c: Conn, ghost fs: seq<Frame>, ghost t: nat, ghost rest: seq<byte>)
    returns (op: nat, payload: Slice, e: Option<Error>)
    requires c.Valid() && c.r.rd.Steady() && c.w.Healthy() && c.w.buf.Length >= 8
    requires MessageFrames(fs, t, true) && AllFit(fs, c.r.buf.Length) && |fs| <= MAX_READ + 2
    requires t == TEXT_MESSAGE || t == BINARY_MESSAGE
    requires c.r.Unread() == EncodeFrames(fs) + rest
    modifies c, c.r, c.r.buf, c.r.rd, c.maskKey, c.w, c.w.buf, c.w.wr
    ensures c.Valid() && payload.Valid() && e == None && payload.Bytes() == Body(fs) && c.r.Unread() == rest
    ensures c.w.Stream() == old(c.w.Stream()) + EncodePongs(Pongs(fs))
    ensures op == t <==> (forall i :: 0 <= i < |fs| - 1 ==> Control(fs[i])) || Earlier(fs) != []
  {
    FragmentedMessage(c.parse, fs, t, rest, c.r.buf.Length);
    op, payload, e := c.ReadMessage();
  }

  method ReceiveAll(c: Conn, ghost ms: seq<Msg>, ghost rest: seq<byte>, k: nat) returns (got: seq<Msg>)
    requires c.Valid() && c.r.rd.Steady() && c.w.Healthy() && c.w.buf.Length >= 8
    requires k == |ms| && forall m :: m in ms ==> Deliverable(m, c.r.buf.Length)
    requires c.r.Unread() == EncodeMessages(ms) + rest
    modifies c, c.r, c.r.buf, c.r.rd, c.maskKey, c.w, c.w.buf, c.w.wr
    ensures c.Valid() && got == ms && c.r.Unread() == rest
    ensures c.w.Stream() == old(c.w.Stream())
  {
    got := [];
    for i := 0 to k
      invariant c.Valid() && c.w.Healthy()
      invariant c.maskKey == old(c.maskKey) || fresh(c.maskKey)
      invariant got == ms[..i]
      invariant c.r.Unread() == EncodeMessages(ms[i..]) + rest
      invariant c.w.Stream() == old(c.w.Stream())
    {
      EncodeSuffix(ms, i);
      AppendAssoc(EncodeMessage(ms[i].op, ms[i].payload), EncodeMessages(ms[i + 1..]), rest);
      var m := ReceiveOne(c, ms[i], EncodeMessages(ms[i + 1..]) + rest);
      got := got + [m];
    }
    assert ms[k..] == [] && [] + rest == rest;
  }

  /** One direction of a connection, end to end. The source delivers what the sink was sent, with any
      patience a steady source may have and any cutting into reads. */
  method RoundTrip(ms: seq<Msg>, writerSize: nat, readerSize: nat, patience: nat, lateEOF: bool) returns (got: seq<Msg>)
    requires writerSize >= 8 && readerSize > 0 && patience < MAX_EMPTY_READS
    requires forall m :: m in ms ==> Deliverable(m, readerSize)
    ensures got == ms
  {
    var sink := new Sink(true, true);
    var w := new Writer(sink, writerSize);
    var idle := new Source([], 0, false, false);
    var r0 := new Reader(idle, 16);
    var sender := new Conn(r0, w);
    var e := SendAll(sender, ms);

    var source := new Source(sink.sent, patience, false, lateEOF);
    var r := new Reader(source, readerSize);
    var sink1 := new Sink(true, true);
    var w1 := new Writer(sink1, 8);
    var receiver := new Conn(r, w1);
    assert EncodeMessages(ms) + [] == EncodeMessages(ms);
    got := ReceiveAll(receiver, ms, [], |ms|);
  }
}
