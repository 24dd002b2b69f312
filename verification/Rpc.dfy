/** The RPC exchange of server/mqtt/client.go and server/mqtt/server.go, step by step. */
module Rpc {
  import opened Bytes
  import opened Streams
  import opened BufReader
  import opened MessageFormat
  import opened Request
  import opened RpcFormat
  import Decimal
  import GrowBuffer

  const WRITER_SIZE: nat := 64 * 1024
  const REQ_TOPIC: seq<byte> := [47, 114, 101, 113]          // /req
  const RESP_TOPIC: seq<byte> := [47, 114, 101, 115, 112]    // /resp

  // ---------------------------------------------------------------- printing

  method WriteFirstLine(bw: GrowBuffer.Writer, uri: seq<byte>)
    requires bw.Valid()
    modifies bw, bw.buf
    ensures bw.Valid() && (bw.buf == old(bw.buf) || fresh(bw.buf))
    ensures bw.Contents() == old(bw.Contents()) + (RequestLine(uri) + CRLF)
  {
    bw.WriteBytes(REQ + [SP] + uri + [SP] + MQT + CRLF);
  }

  method WriteStatusLine(bw: GrowBuffer.Writer, code: int, scratch: seq<byte>)
    requires bw.Valid()
    modifies bw, bw.buf
    ensures bw.Valid() && (bw.buf == old(bw.buf) || fresh(bw.buf))
    ensures bw.Contents() == old(bw.Contents()) + (StatusLine(code, scratch) + CRLF)
  {
    bw.WriteBytes(MQT + [SP] + Decimal.Print(code) + [SP] + (scratch + [SP]) + CRLF);
  }

  method WriteHeader(wr: GrowBuffer.Writer, head: seq<byte>, context: seq<byte>)
    requires wr.Valid()
    modifies wr, wr.buf
    ensures wr.Valid() && (wr.buf == old(wr.buf) || fresh(wr.buf))
    ensures wr.Contents() == old(wr.Contents()) + PrintField(Field(head, context))
  {
    wr.WriteBytes(head + [COLON, SP] + context + CRLF);
  }

  method WriteHeaderInt(wr: GrowBuffer.Writer, head: seq<byte>, context: int)
    requires wr.Valid()
    modifies wr, wr.buf
    ensures wr.Valid() && (wr.buf == old(wr.buf) || fresh(wr.buf))
    ensures wr.Contents() == old(wr.Contents()) + PrintField(Field(head, Decimal.Print(context)))
  {
    wr.WriteBytes(head + [COLON, SP] + Decimal.Print(context) + CRLF);
  }

  /** The length header, the empty line and the body, after the other headers. */
  method WriteBody(wr: GrowBuffer.Writer, body: seq<byte>)
    requires wr.Valid()
    modifies wr, wr.buf
    ensures wr.Valid() && (wr.buf == old(wr.buf) || fresh(wr.buf))
    ensures wr.Contents() == old(wr.Contents()) + PrintField(Field(CONTENT_LENGTH, Decimal.Print(|body|))) + CRLF + body
  {
    WriteHeaderInt(wr, CONTENT_LENGTH, |body|);
    wr.WriteBytes(CRLF);
    wr.WriteBytes(body);
  }

  /** The contents after the first line, the content type, the message id and the rest. */
  lemma AllWritten(first: seq<byte>, ctype: seq<byte>, id: seq<byte>, body: seq<byte>,
                   c1: seq<byte>, c2: seq<byte>, c3: seq<byte>, c4: seq<byte>)
    requires c1 == [] + (first + CRLF)
    requires c2 == c1 + PrintField(Field(CONTENT_TYPE, ctype))
    requires c3 == c2 + PrintField(Field(MESSAGE_ID, id))
    requires c4 == c3 + PrintField(Field(CONTENT_LENGTH, Decimal.Print(|body|))) + CRLF + body
    ensures c4 == PrintMessage(first, HeaderFields(ctype, id, |body|), body)
  {
    var fs := HeaderFields(ctype, id, |body|);
    var a, b, c := PrintField(fs[0]), PrintField(fs[1]), PrintField(fs[2]);
    assert fs[1..] == [fs[1], fs[2]] && fs[2..] == [fs[2]];
    assert PrintFields([fs[2]]) == c + PrintFields([]) == c;
    assert PrintFields(fs) == a + (b + c);
    InOrder(first + CRLF, a, b, c, CRLF, body);
  }

  lemma InOrder(first: seq<byte>, a: seq<byte>, b: seq<byte>, c: seq<byte>, d: seq<byte>, e: seq<byte>)
    ensures [] + first + a + b + c + d + e == first + (a + (b + c) + (d + e))
  {
  }

  // ---------------------------------------------------------------- broker

  datatype Publication = Publication(topic: seq<byte>, payload: seq<byte>)

  /** The broker between the two sides: it keeps what was published, for delivery. */
  class Broker {
    var log: seq<Publication>
    const connected: bool

    constructor (connected: bool)
      ensures log == [] && this.connected == connected
    {
      log := [];
      this.connected := connected;
    }

    method PublishRaw(topic: seq<byte>, payload: Slice) returns (ok: bool)
      requires payload.Valid()
      modifies this
      ensures ok == connected
      ensures log == old(log) + if ok then [Publication(topic, payload.Bytes())] else []
    {
      if !connected {
        return false;
      }
      log := log + [Publication(topic, payload.Bytes())];
      return true;
    }
  }

  /** `ReadRequest(bufio.NewReader(strings.NewReader(raw)))` */
  method ParseRaw(raw: seq<byte>) returns (req: Request?, err: Option<Error>)
    ensures req != null ==> fresh(req) && req.body.Valid()
    ensures match ParseMessage(raw, READER_SIZE, true)
            case Accepted(msg) => err == None && req != null && req.Parsed() == msg
            case Rejected(e) => err == Some(e)
  {
    var src := new Source(raw, 0, false, true);
    var r := new Reader(src, READER_SIZE);
    ghost var late;
    req, err, late := ReadRequest(r);
  }

  // ---------------------------------------------------------------- server

  class Server<V(==)> {
    const service: Service<V>
    const broker: Broker
    const topic: seq<byte>

    constructor (service: Service<V>, broker: Broker, topic: seq<byte>)
      ensures this.service == service && this.broker == broker && this.topic == topic
    {
      this.service, this.broker, this.topic := service, broker, topic;
    }

    method PrintResponse(ctypes: seq<seq<byte>>, id: seq<byte>, buf: seq<byte>) returns (wr: GrowBuffer.Writer)
      ensures fresh(wr) && fresh(wr.buf) && wr.Valid() && wr.Contents() == ResponseText(ctypes, id, buf)
    {
      wr := new GrowBuffer.Writer(WRITER_SIZE);
      WriteStatusLine(wr, 200, SCRATCH);
      ghost var c1 := wr.Contents();
      var ctype := APPLICATION + ListText(ctypes);
      WriteHeader(wr, CONTENT_TYPE, ctype);
      ghost var c2 := wr.Contents();
      WriteHeader(wr, MESSAGE_ID, id);
      ghost var c3 := wr.Contents();
      WriteBody(wr, buf);
      AllWritten(StatusLine(200, SCRATCH), ctype, id, buf, c1, c2, c3, wr.Contents());
    }

    /** The reply to a parsed request, printed; null if there is none. */
    method PrintAnswer(m: Message) returns (wr: GrowBuffer.Writer?)
      ensures match Answer(service, m)
              case None => wr == null
              case Some(text) => wr != null && fresh(wr) && fresh(wr.buf) && wr.Valid() && wr.Contents() == text
    {
      var codec := CodecName(m.header);
      if |m.body| == 0 {
        return null;
      }
      if m.first.uri !in service.routes {
        return null;
      }
      var bbind := service.routes[m.first.uri];
      var req := service.codecs(codec).unmarshal(m.body, bbind.blank);
      var resp := bbind.handler(req);
      if resp == None {
        return null;
      }
      var ids := Values(m.header, MESSAGE_ID);
      if |ids| == 0 {
        return null;  // index out of range: the panic is recovered by the broker's goroutine
      }
      var buf := service.codecs(service.codec).marshal(resp.value);
      if buf == None {
        return null;
      }
      wr := PrintResponse(Values(m.header, CONTENT_TYPE), ids[0], buf.value);
    }

    /** The subscriber of topic + "/req". */
    method OnRequest(raw: seq<byte>)
      modifies broker
      ensures broker.log == old(broker.log) +
                match Serve(service, raw)
                case Some(text) => if broker.connected then [Publication(topic + RESP_TOPIC, text)] else []
                case None => []
    {
      var req, err := ParseRaw(raw);
      if err != None {
        return;
      }
      var m := Message(FirstLine(req.method_, req.uri, req.proto), req.host, req.header, req.body.Bytes());
      var wr := PrintAnswer(m);
      if wr != null {
        var p := wr.Buffer();
        var _ := broker.PublishRaw(topic + RESP_TOPIC, p);
      }
    }
  }

  // ---------------------------------------------------------------- client

  class Client<V(==)> {
    const service: Service<V>
    const broker: Broker
    var out: V        // the caller's variable for the reply
    var done: bool    // whether the waiting call was signalled

    constructor (service: Service<V>, broker: Broker, out: V)
      ensures this.service == service && this.broker == broker && this.out == out && !done
    {
      this.service, this.broker, this.out, done := service, broker, out, false;
    }

    /** Prints and publishes a request; false if the codec or the broker fails. */
    method Invoke(uri: seq<byte>, topic: seq<byte>, req: V, id: seq<byte>) returns (sent: bool)
      modifies broker
      ensures sent <==> service.codecs(service.codec).marshal(req).Some? && broker.connected
      ensures broker.log == old(broker.log) + if !sent then [] else
                [Publication(topic + REQ_TOPIC,
                             RequestText(service.codec, uri, id, service.codecs(service.codec).marshal(req).value))]
    {
      var wr := new GrowBuffer.Writer(WRITER_SIZE);
      WriteFirstLine(wr, uri);
      ghost var c1 := wr.Contents();
      var ctype := APPLICATION + service.codec;
      WriteHeader(wr, CONTENT_TYPE, ctype);
      ghost var c2 := wr.Contents();
      WriteHeader(wr, MESSAGE_ID, id);
      ghost var c3 := wr.Contents();
      var buf := service.codecs(service.codec).marshal(req);
      if buf == None {
        return false;
      }
      WriteBody(wr, buf.value);
      AllWritten(RequestLine(uri), ctype, id, buf.value, c1, c2, c3, wr.Contents());
      var p := wr.Buffer();
      sent := broker.PublishRaw(topic + REQ_TOPIC, p);
    }

    /** The subscriber of topic + "/resp". */
    method OnResponse(raw: seq<byte>)
      modifies this
      ensures match Receive(service, raw, old(out))
              case Some(v) => out == v && done
              case None => out == old(out) && done == old(done)
    {
      var resp, err := ParseRaw(raw);
      if err != None || resp.body.len == 0 {
        return;
      }
      var codec := CodecName(resp.header);
      out := service.codecs(codec).unmarshal(resp.body.Bytes(), out);
      done := true;
    }
  }

  // ---------------------------------------------------------------- exchange

  /** One call over a broker that delivers every publication to its topic's subscriber: it returns without
      error exactly when the route exists, the handler succeeds and both bodies fit, and then out is the
      handler's reply. */
  method Call<V(!new)>(client: Client<V>, server: Server<V>, uri: seq<byte>, req: V, id: seq<byte>) returns (ok: bool)
    requires client.broker == server.broker && client.service == server.service && !client.done
    requires PlainCodec(client.service.codec) && PlainURI(uri) && PlainValue(id)
    requires RoundTrips(client.service, client.out)
    requires uri in client.service.routes ==> RoundTrips(client.service, client.service.routes[uri].blank)
    modifies client, client.broker
    ensures var v := Expected(client.service, uri, req);
            && (ok <==> v.Some? && client.broker.connected)
            && client.out == if ok then v.value else old(client.out)
    ensures ok ==>
              && |client.broker.log| == old(|client.broker.log|) + 2
              && Carries(client.broker.log[old(|client.broker.log|) + 1].payload, id)
  {
    ghost var s, out := client.service, client.out;
    ExchangeSteps(s, uri, id, req, out);
    var broker := client.broker;
    var n := |broker.log|;
    var sent := client.Invoke(uri, server.topic, req, id);
    if !sent {
      return false;
    }
    assert broker.log[n].topic == server.topic + REQ_TOPIC;
    server.OnRequest(broker.log[n].payload);
    if |broker.log| > n + 1 {
      assert broker.log[n + 1].topic == server.topic + RESP_TOPIC;
      client.OnResponse(broker.log[n + 1].payload);
    }
    ok := client.done;
  }
}
