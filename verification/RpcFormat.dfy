/** What one RPC exchange of server/mqtt/client.go and server/mqtt/server.go means. */
module RpcFormat {
  import opened Bytes
  import opened Streams
  import opened MessageFormat
  import Decimal
  import Strings

  const READER_SIZE: nat := 4096

  const REQ: seq<byte> := [82, 69, 81]                                             // REQ
  const MQT: seq<byte> := [77, 81, 84, 47, 49, 46, 48]                             // MQT/1.0
  const SCRATCH: seq<byte> := [115, 99, 114, 97, 116, 99, 104]                     // scratch
  const CONTENT_TYPE: seq<byte> := [67, 111, 110, 116, 101, 110, 116, 45, 84, 121, 112, 101]
  const MESSAGE_ID: seq<byte> := [77, 101, 115, 115, 97, 103, 101, 45, 73, 100]
  const CONTENT_LENGTH: seq<byte> := [67, 111, 110, 116, 101, 110, 116, 45, 76, 101, 110, 103, 116, 104]
  const APPLICATION: seq<byte> := [97, 112, 112, 108, 105, 99, 97, 116, 105, 111, 110, 47]
  const JSON: seq<byte> := [106, 115, 111, 110]
  const PROTO: seq<byte> := [112, 114, 111, 116, 111]
  const APPCATION_PROTO: seq<byte> := [97, 112, 112, 99, 97, 116, 105, 111, 110, 47] + PROTO   // appcation/proto

  // ---------------------------------------------------------------- texts

  function RequestLine(uri: seq<byte>): seq<byte> {
    REQ + [SP] + uri + [SP] + MQT
  }

  /** A status line ends with a space of its own. */
  function StatusLine(code: int, scratch: seq<byte>): seq<byte> {
    MQT + [SP] + Decimal.Print(code) + [SP] + (scratch + [SP])
  }

  function HeaderFields(ctype: seq<byte>, id: seq<byte>, length: nat): seq<Field> {
    [Field(CONTENT_TYPE, ctype), Field(MESSAGE_ID, id), Field(CONTENT_LENGTH, Decimal.Print(length))]
  }

  function RequestText(codec: seq<byte>, uri: seq<byte>, id: seq<byte>, body: seq<byte>): seq<byte> {
    PrintMessage(RequestLine(uri), HeaderFields(APPLICATION + codec, id, |body|), body)
  }

  /** `%s` of a list of strings. */
  function ListText(vs: seq<seq<byte>>): seq<byte> {
    [91] + Strings.Join(vs, [SP]) + [93]
  }

  function ResponseText(ctypes: seq<seq<byte>>, id: seq<byte>, body: seq<byte>): seq<byte> {
    PrintMessage(StatusLine(200, SCRATCH), HeaderFields(APPLICATION + ListText(ctypes), id, |body|), body)
  }

  // ---------------------------------------------------------------- one exchange

  /** A codec: marshalling may fail, and unmarshalling says what becomes of the value it fills. */
  datatype Codec<!V> = Codec(marshal: V -> Option<seq<byte>>, unmarshal: (seq<byte>, V) -> V)

  /** A route: its handler, None for an error, and the empty value its binder makes. */
  datatype Bind<!V> = Bind(handler: V -> Option<V>, blank: V)

  datatype Service<!V> = Service(codecs: seq<byte> -> Codec<V>, codec: seq<byte>, routes: map<seq<byte>, Bind<V>>)

  /** The codec of a received body; only the misspelt content type names another one than json. */
  function CodecName(h: Header): seq<byte> {
    var ctypes := Values(h, CONTENT_TYPE);
    if ctypes != [] && ctypes[0] == APPCATION_PROTO then PROTO else JSON
  }

  /** The reply to a parsed request: None if there is no body, no such route, an error of the handler or
      codec, or no message id to copy. */
  function Answer<V>(s: Service<V>, m: Message): Option<seq<byte>> {
    if m.body == [] || m.first.uri !in s.routes then None
    else
      var b := s.routes[m.first.uri];
      var resp := b.handler(s.codecs(CodecName(m.header)).unmarshal(m.body, b.blank));
      var ids := Values(m.header, MESSAGE_ID);
      if resp == None || ids == [] then None
      else
        var buf := s.codecs(s.codec).marshal(resp.value);
        if buf == None then None else Some(ResponseText(Values(m.header, CONTENT_TYPE), ids[0], buf.value))
  }

  /** What the server publishes for a raw request, if anything. */
  function Serve<V>(s: Service<V>, raw: seq<byte>): Option<seq<byte>> {
    var r := ParseMessage(raw, READER_SIZE, true);
    if r.Accepted? then Answer(s, r.msg) else None
  }

  /** What becomes of out when the client receives a raw response; None if it goes on waiting. */
  function Receive<V>(s: Service<V>, raw: seq<byte>, out: V): Option<V> {
    var r := ParseMessage(raw, READER_SIZE, true);
    if r.Accepted? && r.msg.body != [] then Some(s.codecs(CodecName(r.msg.header)).unmarshal(r.msg.body, out)) else None
  }

  /** Request, reply and reception one after the other. */
  function Exchange<V>(s: Service<V>, uri: seq<byte>, id: seq<byte>, req: V, out: V): Option<V> {
    match s.codecs(s.codec).marshal(req)
    case None => None
    case Some(body) =>
      match Serve(s, RequestText(s.codec, uri, id, body))
      case None => None
      case Some(resp) => Receive(s, resp, out)
  }

  // ---------------------------------------------------------------- what it should do

  /** A body that both sides accept. */
  predicate Fits(body: seq<byte>) {
    body != [] && |body| < 4096
  }

  /** The handler's reply to the request, if there is a handler, it succeeds and both bodies fit. */
  function Expected<V>(s: Service<V>, uri: seq<byte>, req: V): Option<V> {
    var body := s.codecs(s.codec).marshal(req);
    if body == None || !Fits(body.value) || uri !in s.routes then None
    else
      var resp := s.routes[uri].handler(req);
      if resp == None then None
      else
        var reply := s.codecs(s.codec).marshal(resp.value);
        if reply.Some? && Fits(reply.value) then resp else None
  }

  /** What the server's codec marshals holds no zero byte, and json reads it back into t. */
  ghost predicate RoundTrips<V(!new)>(s: Service<V>, t: V) {
    forall v: V ::
      var b := s.codecs(s.codec).marshal(v);
      b.Some? ==> 0 !in b.value && s.codecs(JSON).unmarshal(b.value, t) == v
  }

  predicate PlainURI(uri: seq<byte>) {
    SP !in uri && LF !in uri
  }

  /** A header value that is printed and read unchanged. */
  predicate PlainValue(v: seq<byte>) {
    LF !in v && (v != [] ==> !Blank(v[0]) && !Blank(v[|v| - 1]))
  }

  predicate PlainCodec(codec: seq<byte>) {
    LF !in codec && (codec != [] ==> !Blank(codec[|codec| - 1]))
  }

  /** A name that is filed under itself. */
  predicate OwnName(k: seq<byte>) {
    Token(k) && WellCapitalised(k, true)
  }

  lemma ContentTypeIsOwn()
    ensures OwnName(CONTENT_TYPE)
  {
  }

  lemma MessageIdIsOwn()
    ensures OwnName(MESSAGE_ID)
  {
  }

  lemma ContentLengthIsOwn()
    ensures OwnName(CONTENT_LENGTH)
  {
  }

  /** The three printed names are canonical. */
  lemma NamesAreCanonical()
    ensures OwnName(CONTENT_TYPE) && OwnName(MESSAGE_ID) && OwnName(CONTENT_LENGTH)
  {
    ContentTypeIsOwn();
    MessageIdIsOwn();
    ContentLengthIsOwn();
  }

  /** The values a peer reads from the three printed fields. */
  lemma ValuesOfFields(ctype: seq<byte>, id: seq<byte>, length: nat)
    ensures ValuesOf(HeaderFields(ctype, id, length), CONTENT_TYPE) == [ctype]
    ensures ValuesOf(HeaderFields(ctype, id, length), MESSAGE_ID) == [id]
    ensures ValuesOf(HeaderFields(ctype, id, length), CONTENT_LENGTH) == [Decimal.Print(length)]
  {
    var fs := HeaderFields(ctype, id, length);
    assert fs[1..] == [fs[1], fs[2]] && fs[2..] == [fs[2]];
    NamesAreCanonical();
    NamesAreTheirOwn();
    assert ValuesOf([fs[2]], CONTENT_TYPE) == ValuesOf([fs[2]], MESSAGE_ID) == [];
    assert ValuesOf([fs[2]], CONTENT_LENGTH) == [fs[2].value];
    assert ValuesOf(fs[1..], CONTENT_TYPE) == [] && ValuesOf(fs[1..], MESSAGE_ID) == [id];
    assert ValuesOf(fs[1..], CONTENT_LENGTH) == [fs[2].value];
  }

  lemma NamesAreTheirOwn()
    ensures Named(CONTENT_TYPE, CONTENT_TYPE) && Named(MESSAGE_ID, MESSAGE_ID) && Named(CONTENT_LENGTH, CONTENT_LENGTH)
    ensures !Named(CONTENT_TYPE, MESSAGE_ID) && !Named(MESSAGE_ID, CONTENT_TYPE) && !Named(CONTENT_LENGTH, MESSAGE_ID)
    ensures !Named(CONTENT_TYPE, CONTENT_LENGTH) && !Named(MESSAGE_ID, CONTENT_LENGTH)
    ensures !Named(CONTENT_LENGTH, CONTENT_TYPE)
  {
    NamesAreCanonical();
    assert |CONTENT_TYPE| == 12 && |MESSAGE_ID| == 10 && |CONTENT_LENGTH| == 14;
  }

  lemma DecimalIsPlain(n: int)
    ensures PlainValue(Decimal.Print(n)) && SP !in Decimal.Print(n)
  {
  }

  lemma NamesArePlain()
    ensures COLON !in CONTENT_TYPE && LF !in CONTENT_TYPE
    ensures COLON !in MESSAGE_ID && LF !in MESSAGE_ID
    ensures COLON !in CONTENT_LENGTH && LF !in CONTENT_LENGTH
  {
  }

  lemma FieldsArePrintable(ctype: seq<byte>, id: seq<byte>, length: nat)
    requires PlainValue(ctype) && PlainValue(id)
    ensures forall f :: f in HeaderFields(ctype, id, length) ==> Printable(f)
  {
    DecimalIsPlain(length);
    NamesArePlain();
    assert Printable(Field(CONTENT_TYPE, ctype)) && Printable(Field(MESSAGE_ID, id));
  }

  lemma ContentTypeIsPlain(codec: seq<byte>)
    requires PlainCodec(codec)
    ensures PlainValue(APPLICATION + codec) && APPLICATION + codec != APPCATION_PROTO
  {
    var v := APPLICATION + codec;
    assert LF !in APPLICATION;
    assert v[0] == 97 && v[3] == 108;
    if codec == [] {
      assert v == APPLICATION;
    }
  }

  /** The printed message of either direction as its reader sees it. */
  lemma ReadBack(m: seq<byte>, uri: seq<byte>, proto: seq<byte>, ctype: seq<byte>, id: seq<byte>, body: seq<byte>)
    requires SP !in m && LF !in m && PlainURI(uri) && LF !in proto
    requires PlainValue(ctype) && PlainValue(id) && 0 !in body
    ensures var text := PrintMessage(m + [SP] + uri + [SP] + proto, HeaderFields(ctype, id, |body|), body);
            var r := ParseMessage(text, READER_SIZE, true);
            && (r.Accepted? <==> |body| < READER_SIZE)
            && (r.Accepted? ==> r.msg.first == FirstLine(m, uri, proto) && r.msg.body == body
                                && Values(r.msg.header, CONTENT_TYPE) == [ctype]
                                && Values(r.msg.header, MESSAGE_ID) == [id]
                                && Values(r.msg.header, CONTENT_LENGTH) == [Decimal.Print(|body|)])
  {
    FieldsArePrintable(ctype, id, |body|);
    ValuesOfFields(ctype, id, |body|);
    MessageRoundTrip(m, uri, proto, HeaderFields(ctype, id, |body|), body, READER_SIZE, true);
  }

  lemma ListIsPlain(codec: seq<byte>)
    requires PlainCodec(codec)
    ensures PlainValue(APPLICATION + ListText([APPLICATION + codec]))
    ensures APPLICATION + ListText([APPLICATION + codec]) != APPCATION_PROTO
  {
    var ctype := APPLICATION + codec;
    ContentTypeIsPlain(codec);
    var list := ListText([ctype]);
    assert list == [91] + ctype + [93];
    assert LF !in [91] && LF !in [93] && LF !in [91] + ctype;
    ContentTypeIsPlain(list);
  }

  /** No printed content type is the misspelt one: both sides always unmarshal json. */
  lemma AlwaysJson(h: Header, codec: seq<byte>)
    requires PlainCodec(codec) && Values(h, CONTENT_TYPE) == [APPLICATION + codec]
    ensures CodecName(h) == JSON
  {
    ContentTypeIsPlain(codec);
  }

  lemma ReadRequestText(codec: seq<byte>, uri: seq<byte>, id: seq<byte>, body: seq<byte>)
    requires PlainCodec(codec) && PlainURI(uri) && PlainValue(id) && 0 !in body
    ensures var r := ParseMessage(RequestText(codec, uri, id, body), READER_SIZE, true);
            && (r.Accepted? <==> |body| < READER_SIZE)
            && (r.Accepted? ==> r.msg.first == FirstLine(REQ, uri, MQT) && r.msg.body == body
                                && Values(r.msg.header, CONTENT_TYPE) == [APPLICATION + codec]
                                && Values(r.msg.header, MESSAGE_ID) == [id] && CodecName(r.msg.header) == JSON
                                && Values(r.msg.header, CONTENT_LENGTH) == [Decimal.Print(|body|)])
  {
    ContentTypeIsPlain(codec);
    ReadBack(REQ, uri, MQT, APPLICATION + codec, id, body);
    var r := ParseMessage(RequestText(codec, uri, id, body), READER_SIZE, true);
    if r.Accepted? {
      AlwaysJson(r.msg.header, codec);
    }
  }

  /** The response is read as a message whose method, URI and protocol are the parts of the status line,
      and it carries the request's message id. Its content type is the request's in brackets, behind a second
      `application/`. */
  lemma ReadResponseText(codec: seq<byte>, id: seq<byte>, body: seq<byte>)
    requires PlainCodec(codec) && PlainValue(id) && 0 !in body
    ensures var r := ParseMessage(ResponseText([APPLICATION + codec], id, body), READER_SIZE, true);
            && (r.Accepted? <==> |body| < READER_SIZE)
            && (r.Accepted? ==> r.msg.first == FirstLine(MQT, Decimal.Print(200), SCRATCH + [SP]) && r.msg.body == body
                                && Values(r.msg.header, CONTENT_TYPE)
                                   == [APPLICATION + ([91] + (APPLICATION + codec) + [93])]
                                && Values(r.msg.header, MESSAGE_ID) == [id] && CodecName(r.msg.header) == JSON
                                && Values(r.msg.header, CONTENT_LENGTH) == [Decimal.Print(|body|)])
  {
    var list := ListText([APPLICATION + codec]);
    assert list == [91] + (APPLICATION + codec) + [93];
    ListIsPlain(codec);
    DecimalIsPlain(200);
    assert LF !in SCRATCH + [SP];
    ReadBack(MQT, Decimal.Print(200), SCRATCH + [SP], APPLICATION + list, id, body);
  }

  /** A list is printed in brackets with a space between two values. */
  lemma ListTextIs(vs: seq<seq<byte>>, v: seq<byte>)
    ensures ListText([]) == [91, 93] && ListText([v]) == [91] + v + [93]
    ensures vs != [] ==> exists t :: ListText(vs) == t + [93] && ListText(vs + [v]) == t + [32] + v + [93]
  {
    if vs != [] {
      var t := [91] + Strings.Join(vs, [SP]);
      JoinOneMore(vs, v);
      AppendAssoc([91], Strings.Join(vs, [SP]), [SP] + v);
      assert ListText(vs) == t + [93] && ListText(vs + [v]) == t + [32] + v + [93];
    }
  }

  lemma {:induction false} JoinOneMore(vs: seq<seq<byte>>, v: seq<byte>)
    requires vs != []
    ensures Strings.Join(vs + [v], [SP]) == Strings.Join(vs, [SP]) + ([SP] + v)
    decreases |vs|
  {
    assert (vs + [v])[1..] == vs[1..] + [v];
    if |vs| > 1 {
      JoinOneMore(vs[1..], v);
      AppendAssoc(vs[0] + [SP], Strings.Join(vs[1..], [SP]), [SP] + v);
    } else {
      assert vs[1..] + [v] == [v];
    }
  }

  /** The codec is proto exactly if the first content type is `appcation/proto`, and else json. */
  lemma CodecIs(h: Header)
    ensures var ctypes := Values(h, CONTENT_TYPE);
            var misspelt := [97, 112, 112, 99, 97, 116, 105, 111, 110, 47, 112, 114, 111, 116, 111];
            CodecName(h) == if ctypes != [] && ctypes[0] == misspelt then [112, 114, 111, 116, 111]
                            else [106, 115, 111, 110]
  {
  }

  /** Every value under a name is that of a field whose name equals it up to case. */
  lemma {:induction false} ValuesComeFrom(fs: seq<Field>, k: seq<byte>, v: seq<byte>)
    requires v in ValuesOf(fs, k)
    ensures exists f :: f in fs && SameButCase(f.name, k) && f.value == v
    decreases |fs|
  {
    if Named(fs[0].name, k) && fs[0].value == v {
      assert fs[0] in fs && SameButCase(fs[0].name, k);
    } else {
      ValuesComeFrom(fs[1..], k, v);
    }
  }

  /** The first value under a name is that of the first field whose name equals it up to case. */
  lemma {:induction false} FirstValue(before: seq<Field>, f: Field, after: seq<Field>, k: seq<byte>)
    requires OwnName(k) && SameButCase(f.name, k) && forall g :: g in before ==> !SameButCase(g.name, k)
    ensures ValuesOf(before + [f] + after, k) != [] && ValuesOf(before + [f] + after, k)[0] == f.value
    decreases |before|
  {
    var fs := before + [f] + after;
    if before == [] {
      NamedInAnyCase(f.name, k);
      assert fs[0] == f;
    } else {
      assert before[0] in before && forall g :: g in before[1..] ==> g in before;
      assert fs[0] == before[0] && fs[1..] == before[1..] + [f] + after;
      NotNamed(before[0].name, k);
      FirstValue(before[1..], f, after, k);
    }
  }

  lemma NotNamed(name: seq<byte>, k: seq<byte>)
    requires !SameButCase(name, k)
    ensures !Named(name, k)
  {
  }

  lemma NoValues(fs: seq<Field>, k: seq<byte>)
    requires forall f :: f in fs ==> !SameButCase(f.name, k)
    ensures ValuesOf(fs, k) == []
  {
    if ValuesOf(fs, k) != [] {
      ValuesComeFrom(fs, k, ValuesOf(fs, k)[0]);
    }
  }

  lemma JsonUnlessMisspelt(h: Header, fs: seq<Field>)
    requires Holds(h, fs)
    requires forall f :: f in fs && SameButCase(f.name, CONTENT_TYPE) ==> f.value != APPCATION_PROTO
    ensures CodecName(h) == JSON
  {
    var ctypes := ValuesOf(fs, CONTENT_TYPE);
    assert Values(h, CONTENT_TYPE) == ctypes;
    if ctypes != [] {
      ValuesComeFrom(fs, CONTENT_TYPE, ctypes[0]);
    }
  }

  /** A printed message with any fields, read back by either side. */
  lemma ReadWhole(m: seq<byte>, uri: seq<byte>, proto: seq<byte>, fs: seq<Field>, body: seq<byte>)
    requires SP !in m && SP !in uri && LF !in m && LF !in uri && LF !in proto
    requires (forall f :: f in fs ==> Printable(f)) && 0 !in body && |body| < READER_SIZE
    ensures var r := ParseMessage(PrintMessage(m + [SP] + uri + [SP] + proto, fs, body), READER_SIZE, true);
            r.Accepted? && r.msg.first == FirstLine(m, uri, proto) && Holds(r.msg.header, fs) && r.msg.body == body
  {
    MessageRoundTrip(m, uri, proto, fs, body, READER_SIZE, true);
  }

  /** A request none of whose fields is a Message-Id in any case is never answered. */
  lemma NoIdNoAnswer<V>(s: Service<V>, m: seq<byte>, uri: seq<byte>, proto: seq<byte>, fs: seq<Field>, body: seq<byte>)
    requires SP !in m && SP !in uri && LF !in m && LF !in uri && LF !in proto
    requires forall f :: f in fs ==> Printable(f) && !SameButCase(f.name, MESSAGE_ID)
    requires 0 !in body
    ensures Serve(s, PrintMessage(m + [SP] + uri + [SP] + proto, fs, body)) == None
  {
    NoValues(fs, MESSAGE_ID);
    MessageRoundTrip(m, uri, proto, fs, body, READER_SIZE, true);
  }

  /** A request with any fields, the first Message-Id among them in any case being f: the answer copies its value. */
  lemma AnsweredInAnyCase<V>(s: Service<V>, m: seq<byte>, uri: seq<byte>, proto: seq<byte>,
                             before: seq<Field>, f: Field, after: seq<Field>, body: seq<byte>)
    requires SP !in m && SP !in uri && LF !in m && LF !in uri && LF !in proto
    requires forall g :: g in before + [f] + after ==> Printable(g)
    requires forall g :: g in before + [f] + after && SameButCase(g.name, CONTENT_TYPE) ==> g.value != APPCATION_PROTO
    requires SameButCase(f.name, MESSAGE_ID) && forall g :: g in before ==> !SameButCase(g.name, MESSAGE_ID)
    requires 0 !in body && Fits(body) && uri in s.routes
    ensures var fs, bind := before + [f] + after, s.routes[uri];
            var resp := bind.handler(s.codecs(JSON).unmarshal(body, bind.blank));
            Serve(s, PrintMessage(m + [SP] + uri + [SP] + proto, fs, body))
            == if resp == None || s.codecs(s.codec).marshal(resp.value) == None then None
               else Some(ResponseText(ValuesOf(fs, CONTENT_TYPE), f.value, s.codecs(s.codec).marshal(resp.value).value))
  {
    var fs := before + [f] + after;
    ReadWhole(m, uri, proto, fs, body);
    var r := ParseMessage(PrintMessage(m + [SP] + uri + [SP] + proto, fs, body), READER_SIZE, true);
    MessageIdIsOwn();
    FirstValue(before, f, after, MESSAGE_ID);
    assert Values(r.msg.header, MESSAGE_ID) == ValuesOf(fs, MESSAGE_ID);
    assert Values(r.msg.header, CONTENT_TYPE) == ValuesOf(fs, CONTENT_TYPE);
    JsonUnlessMisspelt(r.msg.header, fs);
  }

  /** The server answers a request exactly when its body fits, its route exists, its handler succeeds and
      the reply can be marshalled. */
  lemma ServeRequest<V(!new)>(s: Service<V>, uri: seq<byte>, id: seq<byte>, req: V, body: seq<byte>)
    requires PlainCodec(s.codec) && PlainURI(uri) && PlainValue(id)
    requires s.codecs(s.codec).marshal(req) == Some(body)
    requires uri in s.routes ==> RoundTrips(s, s.routes[uri].blank)
    requires 0 !in body
    ensures Serve(s, RequestText(s.codec, uri, id, body)) ==
            if !Fits(body) || uri !in s.routes then None
            else
              var resp := s.routes[uri].handler(req);
              if resp == None then None
              else
                var reply := s.codecs(s.codec).marshal(resp.value);
                if reply == None then None else Some(ResponseText([APPLICATION + s.codec], id, reply.value))
  {
    ReadRequestText(s.codec, uri, id, body);
  }

  /** The client gets out of a response exactly what was marshalled, if it fits. */
  lemma ReceiveResponse<V(!new)>(s: Service<V>, id: seq<byte>, resp: V, reply: seq<byte>, out: V)
    requires PlainCodec(s.codec) && PlainValue(id) && RoundTrips(s, out)
    requires s.codecs(s.codec).marshal(resp) == Some(reply)
    ensures Receive(s, ResponseText([APPLICATION + s.codec], id, reply), out)
         == if Fits(reply) then Some(resp) else None
  {
    ReadResponseText(s.codec, id, reply);
  }

  /** One exchange: out ends as the handler's reply to the request exactly when the route exists, the
      handler succeeds and both bodies are non-empty and shorter than the reader's buffer; otherwise out
      is left alone. */
  lemma ExchangeIsExpected<V(!new)>(s: Service<V>, uri: seq<byte>, id: seq<byte>, req: V, out: V)
    requires PlainCodec(s.codec) && PlainURI(uri) && PlainValue(id)
    requires RoundTrips(s, out) && (uri in s.routes ==> RoundTrips(s, s.routes[uri].blank))
    ensures Exchange(s, uri, id, req, out) == Expected(s, uri, req)
  {
    var body := s.codecs(s.codec).marshal(req);
    if body.Some? {
      ServeRequest(s, uri, id, req, body.value);
      if Fits(body.value) && uri in s.routes {
        var resp := s.routes[uri].handler(req);
        if resp.Some? {
          var reply := s.codecs(s.codec).marshal(resp.value);
          if reply.Some? {
            ReceiveResponse(s, id, resp.value, reply.value, out);
          }
        }
      }
    }
  }

  /** The text is a message with exactly this message id. */
  predicate Carries(text: seq<byte>, id: seq<byte>) {
    var r := ParseMessage(text, READER_SIZE, true);
    r.Accepted? && Values(r.msg.header, MESSAGE_ID) == [id]
  }

  /** The response of a successful exchange carries the message id of the request. */
  lemma ResponseCarriesId<V(!new)>(s: Service<V>, uri: seq<byte>, id: seq<byte>, req: V)
    requires PlainCodec(s.codec) && PlainURI(uri) && PlainValue(id)
    requires uri in s.routes ==> RoundTrips(s, s.routes[uri].blank)
    requires Expected(s, uri, req).Some?
    ensures var text := RequestText(s.codec, uri, id, s.codecs(s.codec).marshal(req).value);
            Carries(text, id) && Serve(s, text).Some? && Carries(Serve(s, text).value, id)
  {
    var body := s.codecs(s.codec).marshal(req).value;
    ServeRequest(s, uri, id, req, body);
    ReadRequestText(s.codec, uri, id, body);
    var resp := s.routes[uri].handler(req).value;
    ReadResponseText(s.codec, id, s.codecs(s.codec).marshal(resp).value);
  }

  /** An exchange in steps: what is published for the request, and what out becomes on the response. */
  lemma ExchangeSteps<V(!new)>(s: Service<V>, uri: seq<byte>, id: seq<byte>, req: V, out: V)
    requires PlainCodec(s.codec) && PlainURI(uri) && PlainValue(id)
    requires RoundTrips(s, out) && (uri in s.routes ==> RoundTrips(s, s.routes[uri].blank))
    ensures var body, v := s.codecs(s.codec).marshal(req), Expected(s, uri, req);
            if body == None then v == None
            else
              var served := Serve(s, RequestText(s.codec, uri, id, body.value));
              if served == None then v == None
              else Receive(s, served.value, out) == v && (v.Some? ==> Carries(served.value, id))
  {
    ExchangeIsExpected(s, uri, id, req, out);
    if Expected(s, uri, req).Some? {
      ResponseCarriesId(s, uri, id, req);
    }
  }
}
