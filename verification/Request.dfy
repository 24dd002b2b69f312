/** The message parser of server/mqtt/request.go, over the buffered reader. */
module Request {
  import opened Bytes
  import opened Streams
  import opened BufReader
  import opened MessageFormat

  /** What the next line of an unread stream is, over a late source or one that is not. */
  type Liner = (bool, seq<byte>) -> LineResult

  /** The lines read over a buffer of cap bytes. */
  ghost predicate IsLiner(lines: Liner, cap: nat) {
    cap >= 2 && forall b, u {:trigger LineOf(u, cap, b)} :: lines(b, u) == LineOf(u, cap, b)
  }

  /** What the header and body of an unread stream are, after a header h. */
  type Headers = (bool, Header, seq<byte>) -> HeaderResult

  ghost predicate IsHeaders(headers: Headers, cap: nat) {
    cap >= 2 && forall b, h, u {:trigger ParseHeaders(h, u, cap, b)} :: headers(b, h, u) == ParseHeaders(h, u, cap, b)
  }

  /** Which ways of reporting the end of the source account for what was read: by itself (late), together with
      the last bytes (early), or both. */
  datatype Ends = Ends(late: bool, early: bool) {
    predicate Has(b: bool) {
      if b then late else early
    }

    function And(other: Ends): Ends {
      Ends(late && other.late, early && other.early)
    }
  }

  const EITHER := Ends(true, true)

  /** Some way that is open to the source accounts for what was read; and while anything is left, both do. */
  predicate Fair(ends: Ends, late: bool, left: seq<byte>) {
    (ends.Has(true) || ends.Has(false)) && (late ==> ends.Has(true)) && (ends != EITHER ==> left == [])
  }

  lemma BothFair(first: Ends, second: Ends, late: bool, mid: seq<byte>, left: seq<byte>)
    requires Fair(first, late, mid) && Fair(second, late, left)
    requires mid == [] ==> second == EITHER && left == []
    ensures Fair(first.And(second), late, left)
  {
  }

  class Request {
    var method_: seq<byte>
    var uri: seq<byte>
    var proto: seq<byte>
    var host: seq<byte>
    var header: Header
    var body: Slice
    const reader: Reader
    ghost const lines: Liner
    ghost const headers: Headers

    constructor (reader: Reader)
      requires reader.Valid() && reader.buf.Length >= 2
      ensures Valid() && this.reader == reader && body == Slice(reader.buf, 0, 0)
    {
      this.reader := reader;
      ghost var cap := reader.buf.Length;
      lines := (b: bool, u: seq<byte>) => LineOf(u, cap, b);
      headers := (b: bool, h: Header, u: seq<byte>) => ParseHeaders(h, u, cap, b);
      method_, uri, proto, host, header := [], [], [], [], map[];
      body := Slice(reader.buf, 0, 0);
    }

    ghost predicate Valid()
      reads this, reader, reader.buf, reader.rd
    {
      reader.Valid() && IsLiner(lines, reader.buf.Length) && IsHeaders(headers, reader.buf.Length)
      && body.Valid() && body.arr == reader.buf
    }

    /** The parsed message; its body still lies in the reader's buffer. */
    ghost function Parsed(): Message
      requires body.Valid()
      reads this, body.arr
    {
      Message(FirstLine(method_, uri, proto), host, header, body.Bytes())
    }

    ghost predicate Accounted(ends: Ends)
      requires reader.Valid()
      reads reader, reader.buf, reader.rd
    {
      Fair(ends, reader.rd.lateEOF, reader.Unread())
    }

    /** One round of readLine: a piece of the line. */
    method ReadPiece() returns (l: Slice, more: bool, e: Option<Error>, ghost ends: Ends)
      requires Valid()
      modifies reader, reader.buf, reader.rd
      ensures Valid() && l.Valid()
      ensures e.Some? ==> !more && reader.FromSource(e.value) && (e == Some(EOF) ==> old(reader.Unread()) == [])
      ensures e.Some? ==> reader.Unread() == old(reader.Unread()) && ends == EITHER
      ensures e == None ==> |reader.Unread()| < |old(reader.Unread())|
      ensures reader.rd.Steady() ==> Accounted(ends)
      ensures more ==>
                forall b :: ends.Has(b) ==>
                  lines(b, old(reader.Unread())) == Joined(l.Bytes(), lines(b, reader.Unread()))
      ensures !more && e == None && reader.rd.Steady() ==>
                forall b :: ends.Has(b) ==> lines(b, old(reader.Unread())) == Line(l.Bytes(), reader.Unread())
    {
      ghost var u, cap := reader.Unread(), reader.buf.Length;
      l, more, e := reader.ReadLine();
      ends := EITHER;
      if more {
        ends := Ends(true, reader.Unread() != []);
        FullOfLine(lines, u, l.Bytes(), reader.Unread(), cap, ends);
      } else if e == None && reader.rd.Steady() {
        ends := Ends(reader.Unread() != [] || l.len < |u| || |u| < cap, true);
        LastOfLine(lines, u, l.Bytes(), reader.Unread(), cap, ends);
      }
    }

    /** The whole next line, reassembled from the pieces that the buffer cuts it into. */
    method ReadLine() returns (line: Slice, e: Option<Error>, ghost ends: Ends)
      requires Valid()
      modifies reader, reader.buf, reader.rd
      ensures Valid() && line.Valid() && |reader.Unread()| <= |old(reader.Unread())|
      ensures if e == None then |reader.Unread()| < |old(reader.Unread())| else reader.FromSource(e.value)
      ensures old(reader.Unread()) == [] ==> ends == EITHER
      ensures reader.rd.Steady() ==>
                && Accounted(ends)
                && (forall b :: ends.Has(b) ==> IsLine(lines(b, old(reader.Unread())), line, e))
    {
      var acc: seq<byte> := [];
      ghost var u := reader.Unread();
      ends := EITHER;
      StartLine(lines, u, reader.buf.Length);
      while true
        invariant Valid()
        invariant |reader.Unread()| <= |u|
        invariant reader.rd.Steady() ==> Accounted(ends)
        invariant u == [] ==> ends == EITHER
        invariant forall b :: ends.Has(b) ==> lines(b, u) == Joined(acc, lines(b, reader.Unread()))
        decreases |reader.Unread()|
      {
        var l, more;
        ghost var now;
        ghost var before := reader.Unread();
        l, more, e, now := ReadPiece();
        line := l;
        if e != None {
          return;
        }
        ends := ends.And(now);
        if acc == [] && !more {
          NextPiece(lines, u, [], before, l.Bytes(), reader.Unread(), ends);
          return;
        }
        NextPiece(lines, u, acc, before, l.Bytes(), reader.Unread(), ends);
        acc := acc + l.Bytes();
        if !more {
          break;
        }
      }
      line := FromSeq(acc);
    }

    /** The line, or the end, that was returned as line and e, with the rest now unread. */
    ghost predicate IsLine(l: LineResult, line: Slice, e: Option<Error>)
      requires reader.Valid() && line.Valid()
      reads reader, reader.buf, reader.rd, line.arr
    {
      match l
      case Line(text, rest) => e == None && line.Bytes() == text && reader.Unread() == rest
      case NoLine => e == Some(EOF) && reader.Unread() == []
    }

    /** A header line: trimmed, and cut at its first colon. */
    method ReadHeaderLine() returns (hl: HeaderLine, e: Option<Error>, ghost ends: Ends)
      requires Valid()
      modifies reader, reader.buf, reader.rd
      ensures Valid() && |reader.Unread()| <= |old(reader.Unread())|
      ensures if e == None then |reader.Unread()| < |old(reader.Unread())| else reader.FromSource(e.value)
      ensures old(reader.Unread()) == [] ==> ends == EITHER
      ensures reader.rd.Steady() ==>
                && Accounted(ends)
                && (forall b :: ends.Has(b) ==> IsHeaderLine(lines(b, old(reader.Unread())), hl, e))
    {
      var line;
      line, e, ends := ReadLine();
      if e != None {
        return EmptyLine, e, ends;
      }
      line := TrimSlice(line);
      hl := CutHeaderLine(line.Bytes());
    }

    /** The header line, or the end, that was returned as hl and e, with the rest now unread. */
    ghost predicate IsHeaderLine(l: LineResult, hl: HeaderLine, e: Option<Error>)
      requires reader.Valid()
      reads reader, reader.buf, reader.rd
    {
      match l
      case Line(text, rest) => e == None && hl == SplitHeaderLine(text) && reader.Unread() == rest
      case NoLine => e == Some(EOF) && reader.Unread() == []
    }

    method CutHeaderLine(line: seq<byte>) returns (hl: HeaderLine)
      ensures hl == SplitTrimmed(line)
    {
      if |line| == 0 {
        return EmptyLine;
      }
      var i := IndexByte(line, COLON);
      if i <= 0 {
        return BadLine;
      }
      var k := line[..i];
      i := i + 1;  // skip colon
      i := PastBlanks(line, i);
      return FieldLine(k, line[i..]);
    }

    /** The body: everything up to a zero byte or the end. */
    method ReadBody(ghost h: Header) returns (e: Option<Error>, ghost ends: Ends)
      requires Valid()
      modifies this`body, reader, reader.buf, reader.rd
      ensures Valid() && |reader.Unread()| <= |old(reader.Unread())|
      ensures old(reader.Unread()) == [] ==> ends == EITHER
      ensures reader.rd.Steady() ==>
                && Accounted(ends)
                && (forall b :: ends.Has(b) ==>
                      BodyOf(h, old(reader.Unread()), reader.buf.Length, b)
                      == HeaderResult(h, body.Bytes(), e, reader.Unread()))
    {
      body, e := reader.ReadSlice(0);
      ghost var s, rest, cap := body.Bytes(), reader.Unread(), reader.buf.Length;
      ends := Ends(rest != [] || e == None || |s| < cap || e == Some(BufferFull), rest != [] || e != Some(BufferFull));
      if reader.rd.Steady() {
        SliceIsBody(h, s, rest, e, cap, ends);
      }
    }

    /** The header is read up to here: what is left of the stream u gives the same result as all of it. */
    ghost predicate Underway(u: seq<byte>, ends: Ends)
      requires reader.Valid()
      reads this`header, reader, reader.buf, reader.rd
    {
      && (u == [] ==> reader.Unread() == [] && ends == EITHER)
      && (reader.rd.Steady() ==>
            && Accounted(ends)
            && (forall b :: ends.Has(b) ==> headers(b, header, reader.Unread()) == headers(b, map[], u)))
    }

    /** The header and body of the stream u are read, with error err. */
    ghost predicate Finished(u: seq<byte>, ends: Ends, err: Option<Error>)
      requires reader.Valid() && body.Valid()
      reads this`header, this`body, reader, reader.buf, reader.rd, body.arr
    {
      && (u == [] ==> reader.Unread() == [] && ends == EITHER)
      && (reader.rd.Steady() ==>
            && Accounted(ends)
            && (forall b :: ends.Has(b) ==>
                  headers(b, map[], u) == HeaderResult(header, body.Bytes(), err, reader.Unread())))
    }

    /** The empty line behind the header is read: the body follows. */
    method EndHeader(ghost u: seq<byte>, ghost ends0: Ends) returns (err: Option<Error>, ghost ends: Ends)
      requires Valid() && (u == [] ==> reader.Unread() == [] && ends0 == EITHER)
      requires reader.rd.Steady() ==>
                 && Accounted(ends0)
                 && (forall b :: ends0.Has(b) ==>
                       headers(b, map[], u) == BodyOf(header, reader.Unread(), reader.buf.Length, b))
      modifies this`body, reader, reader.buf, reader.rd
      ensures Valid() && Finished(u, ends, err)
    {
      ghost var before := reader.Unread();
      err, ends := ReadBody(header);
      if reader.rd.Steady() {
        BothFair(ends0, ends, reader.rd.lateEOF, before, reader.Unread());
      }
      ends := ends0.And(ends);
    }

    /** The next line of a header that is read up to here: it decides how the header goes on. */
    method ReadNext(ghost u: seq<byte>, ghost ends0: Ends)
      returns (hl: HeaderLine, err: Option<Error>, ghost ends: Ends)
      requires Valid() && Underway(u, ends0)
      modifies reader, reader.buf, reader.rd
      ensures Valid() && (u == [] ==> reader.Unread() == [] && ends == EITHER)
      ensures err == None ==> |reader.Unread()| < |old(reader.Unread())|
      ensures reader.rd.Steady() ==>
                && Accounted(ends)
                && (forall b :: ends.Has(b) ==>
                      headers(b, map[], u) == if err.Some? then HeaderResult(header, [], err, reader.Unread())
                                              else GoingOn(headers, header, hl, reader.Unread(), reader.buf.Length, b))
    {
      ghost var now, before := EITHER, reader.Unread();
      HeadersStep(headers, lines, header, before, reader.buf.Length);
      hl, err, now := ReadHeaderLine();
      if reader.rd.Steady() {
        BothFair(ends0, now, reader.rd.lateEOF, before, reader.Unread());
      }
      ends := ends0.And(now);
    }

    /** One round of the loop of readMIMEHeader. */
    method ReadField(ghost u: seq<byte>, ghost ends0: Ends) returns (done: bool, err: Option<Error>, ghost ends: Ends)
      requires Valid() && body.len == 0 && Underway(u, ends0)
      modifies this`header, this`body, reader, reader.buf, reader.rd
      ensures Valid()
      ensures done ==> Finished(u, ends, err)
      ensures !done ==> body.len == 0 && Underway(u, ends) && |reader.Unread()| < |old(reader.Unread())|
    {
      var hl;
      hl, err, ends := ReadNext(u, ends0);
      done := true;
      if err != None {
        return;
      }
      match hl {
        case EmptyLine =>
          err, ends := EndHeader(u, ends);
        case BadLine =>
          err := Some(MalformedHeader);
        case FieldLine(k, v) =>
          header := Add(header, k, v);
          done := false;
      }
    }

    method ReadMIMEHeader() returns (err: Option<Error>, ghost ends: Ends)
      requires Valid() && body.len == 0
      modifies this`header, this`body, reader, reader.buf, reader.rd
      ensures Valid() && Finished(old(reader.Unread()), ends, err)
    {
      header := map[];
      ghost var u := reader.Unread();
      ends := EITHER;
      while true
        invariant Valid() && body.len == 0 && Underway(u, ends)
        decreases |reader.Unread()|
      {
        var done;
        done, err, ends := ReadField(u, ends);
        if done {
          return;
        }
      }
    }

    /** The message after its first line. */
    method ReadRest() returns (err: Option<Error>, ghost ends: Ends)
      requires Valid() && body.len == 0
      modifies this`header, this`body, this`host, reader, reader.buf, reader.rd
      ensures Valid()
      ensures old(reader.Unread()) == [] ==> reader.Unread() == [] && ends == EITHER
      ensures reader.rd.Steady() ==>
                && Accounted(ends)
                && (forall b :: ends.Has(b) ==>
                      MessageWith(FirstLine(method_, uri, proto), headers(b, map[], old(reader.Unread())))
                      == if err == None then Accepted(Parsed()) else Rejected(err.value))
    {
      err, ends := ReadMIMEHeader();
      if err != None && err != Some(EOF) {
        return;
      }
      host := Get(header, HOST);
      err := None;
    }

    /** The first line, cut in three. */
    method ReadFirstLine() returns (err: Option<Error>, ghost ends: Ends)
      requires Valid()
      modifies this`method_, this`uri, this`proto, reader, reader.buf, reader.rd
      ensures Valid()
      ensures reader.rd.Steady() ==>
                && Accounted(ends)
                && (forall b :: ends.Has(b) ==>
                      MessageOf(headers, lines, old(reader.Unread()), b)
                      == if err == None
                         then MessageWith(FirstLine(method_, uri, proto), headers(b, map[], reader.Unread()))
                         else Rejected(err.value))
    {
      ghost var u := reader.Unread();
      var line;
      line, err, ends := ReadLine();
      if err != None {
        return;
      }
      FirstLineRead(headers, lines, u, line.Bytes(), reader.Unread());
      var first := SplitFirstLine(line.Bytes());
      if first == None {
        return Some(MalformedRequest), ends;
      }
      method_, uri, proto := first.value.method_, first.value.uri, first.value.proto;
    }

    /** The whole message: first line, header, body. */
    method ReadMessage() returns (err: Option<Error>, ghost ends: Ends)
      requires Valid() && body.len == 0
      modifies this, reader, reader.buf, reader.rd
      ensures Valid()
      ensures reader.rd.Steady() ==>
                && Accounted(ends)
                && (forall b :: ends.Has(b) ==>
                      MessageOf(headers, lines, old(reader.Unread()), b)
                      == if err == None then Accepted(Parsed()) else Rejected(err.value))
    {
      err, ends := ReadFirstLine();
      if err != None {
        return;
      }
      ghost var now, before := EITHER, reader.Unread();
      err, now := ReadRest();
      if reader.rd.Steady() {
        BothFair(ends, now, reader.rd.lateEOF, before, reader.Unread());
      }
      ends := ends.And(now);
    }
  }

  /** Reads and parses one message. A missing line or header error comes with what was read so far, a
      malformed first line with nothing; running out of input in header or body is no error. The result is
      that of a late source, or possibly that of one that reports its end with the last bytes, if this is one. */
  method ReadRequest(r: Reader) returns (req: Request?, err: Option<Error>, ghost late: bool)
    requires r.Valid() && r.buf.Length >= 2
    modifies r, r.buf, r.rd
    ensures r.Valid()
    ensures req == null <==> err == Some(MalformedRequest)
    ensures req != null ==> fresh(req) && req.Valid() && req.reader == r
    ensures r.rd.lateEOF ==> late
    ensures r.rd.Steady() ==>
              match ParseMessage(old(r.Unread()), r.buf.Length, late)
              case Accepted(msg) => err == None && req != null && req.Parsed() == msg
              case Rejected(e) => err == Some(e)
  {
    var q := new Request(r);
    ghost var u, ends := r.Unread(), EITHER;
    err, ends := q.ReadMessage();
    late := ends.late || r.rd.lateEOF;
    MessageStep(q.headers, q.lines, u, r.buf.Length, late);
    req := if err == Some(MalformedRequest) then null else q;
  }

  /** What a message is, given what lines and headers are. */
  function MessageOf(headers: Headers, lines: Liner, u: seq<byte>, late: bool): Reading {
    match lines(late, u)
    case NoLine => Rejected(EOF)
    case Line(l, rest) =>
      match SplitFirstLine(l)
      case None => Rejected(MalformedRequest)
      case Some(first) => MessageWith(first, headers(late, map[], rest))
  }

  lemma FirstLineRead(headers: Headers, lines: Liner, u: seq<byte>, text: seq<byte>, rest: seq<byte>)
    ensures forall b :: lines(b, u) == Line(text, rest) ==>
              MessageOf(headers, lines, u, b)
              == if SplitFirstLine(text).Some? then MessageWith(SplitFirstLine(text).value, headers(b, map[], rest))
                 else Rejected(MalformedRequest)
  {
  }

  lemma MessageStep(headers: Headers, lines: Liner, u: seq<byte>, cap: nat, late: bool)
    requires IsHeaders(headers, cap) && IsLiner(lines, cap)
    ensures ParseMessage(u, cap, late) == MessageOf(headers, lines, u, late)
  {
    assert lines(late, u) == LineOf(u, cap, late);
    var l := LineOf(u, cap, late);
    if l.Line? {
      assert headers(late, map[], l.rest) == ParseHeaders(map[], l.rest, cap, late);
    }
  }

  /** What the header and body are, given the next line, cut, and the rest. */
  function GoingOn(headers: Headers, h: Header, hl: HeaderLine, rest: seq<byte>, cap: nat, late: bool): HeaderResult {
    match hl
    case EmptyLine => BodyOf(h, rest, cap, late)
    case BadLine => HeaderResult(h, [], Some(MalformedHeader), rest)
    case FieldLine(k, v) => headers(late, Add(h, k, v), rest)
  }

  function HeaderAfter(headers: Headers, h: Header, l: LineResult, cap: nat, late: bool): HeaderResult {
    match l
    case NoLine => HeaderResult(h, [], Some(EOF), [])
    case Line(text, rest) => GoingOn(headers, h, SplitHeaderLine(text), rest, cap, late)
  }

  lemma HeaderStep(headers: Headers, lines: Liner, h: Header, u: seq<byte>, cap: nat, late: bool)
    requires IsHeaders(headers, cap) && IsLiner(lines, cap)
    ensures headers(late, h, u) == HeaderAfter(headers, h, lines(late, u), cap, late)
  {
    assert headers(late, h, u) == ParseHeaders(h, u, cap, late) && lines(late, u) == LineOf(u, cap, late);
    var l := LineOf(u, cap, late);
    if l.Line? {
      var f := SplitHeaderLine(l.text);
      if f.FieldLine? {
        assert headers(late, Add(h, f.name, f.value), l.rest)
            == ParseHeaders(Add(h, f.name, f.value), l.rest, cap, late);
      }
    }
  }

  /** One line of the header, over either kind of source. */
  lemma HeadersStep(headers: Headers, lines: Liner, h: Header, u: seq<byte>, cap: nat)
    requires IsHeaders(headers, cap) && IsLiner(lines, cap)
    ensures forall b :: headers(b, h, u) == HeaderAfter(headers, h, lines(b, u), cap, b)
  {
    HeaderStep(headers, lines, h, u, cap, true);
    HeaderStep(headers, lines, h, u, cap, false);
  }

  /** `for i < len(s) && (s[i] == ' ' || s[i] == '\t') { i++ }` */
  method PastBlanks(s: seq<byte>, i0: nat) returns (i: nat)
    requires i0 <= |s|
    ensures i0 <= i <= |s| && s[i..] == SkipBlanks(s[i0..])
  {
    i := i0;
    while i < |s| && Blank(s[i])
      invariant i0 <= i <= |s| && SkipBlanks(s[i..]) == SkipBlanks(s[i0..])
    {
      SkipFirst(s, i);
      i := i + 1;
    }
    KeepFirst(s, i);
  }

  lemma SkipFirst(s: seq<byte>, i: nat)
    requires i < |s| && Blank(s[i])
    ensures SkipBlanks(s[i..]) == SkipBlanks(s[i + 1..])
  {
    assert s[i..][1..] == s[i + 1..];
  }

  lemma KeepFirst(s: seq<byte>, i: nat)
    requires i <= |s| && (i < |s| ==> !Blank(s[i]))
    ensures SkipBlanks(s[i..]) == s[i..]
  {
  }

  method TrimSlice(s: Slice) returns (t: Slice)
    requires s.Valid()
    ensures t.Valid() && t.arr == s.arr && t.Bytes() == Trim(s.Bytes())
  {
    var b := s.Bytes();
    var i := PastBlanks(b, 0);
    assert b[0..] == b;
    var n := BeforeBlanks(b, i);
    t := s.Sub(i, n);
    assert t.Bytes() == b[i..n];
  }

  /** `for n > i && (s[n-1] == ' ' || s[n-1] == '\t') { n-- }`, from n = len(s). */
  method BeforeBlanks(s: seq<byte>, i: nat) returns (n: nat)
    requires i <= |s|
    ensures i <= n <= |s| && s[i..n] == DropBlanks(s[i..])
  {
    n := |s|;
    ghost var rest := s[i..];
    assert s[i..n] == rest;
    while n > i && Blank(s[n - 1])
      invariant i <= n <= |s| && s[i..n] <= rest && DropBlanks(s[i..n]) == DropBlanks(rest)
    {
      DropLast(s, i, n);
      n := n - 1;
    }
    KeepLast(s, i, n);
  }

  lemma DropLast(s: seq<byte>, i: nat, n: nat)
    requires i < n <= |s| && Blank(s[n - 1])
    ensures DropBlanks(s[i..n]) == DropBlanks(s[i..n - 1])
  {
    assert s[i..n][..n - i - 1] == s[i..n - 1];
  }

  lemma KeepLast(s: seq<byte>, i: nat, n: nat)
    requires i <= n <= |s| && (n > i ==> !Blank(s[n - 1]))
    ensures DropBlanks(s[i..n]) == s[i..n]
  {
  }

  /** A slice, with the error that ended it, is the body, for every kind of source that could have ended it so. */
  lemma SliceIsBody(h: Header, s: seq<byte>, rest: seq<byte>, e: Option<Error>, cap: nat, ends: Ends)
    requires |s| <= cap
    requires e == None ==> EndsAtFirst(s, 0)
    requires e.Some? ==> 0 !in s && if e == Some(BufferFull) then |s| == cap else e == Some(EOF) && rest == []
    requires e == Some(BufferFull) && ends.early ==> rest != []
    requires e == Some(EOF) && ends.late ==> |s| < cap
    ensures forall b :: ends.Has(b) ==> BodyOf(h, s + rest, cap, b) == HeaderResult(h, s, e, rest)
  {
    AppendParts(s, rest);
    if e.Some? {
      AbsentBefore(s + rest, 0, |s|);
      assert rest == [] ==> s + rest == s;
    } else {
      IndexByteAtEnd(s, rest, 0);
    }
  }

  lemma StartLine(lines: Liner, u: seq<byte>, cap: nat)
    requires IsLiner(lines, cap)
    ensures forall b :: lines(b, []) == NoLine && Joined([], lines(b, u)) == lines(b, u)
  {
    forall b
      ensures lines(b, []) == NoLine && Joined([], lines(b, u)) == lines(b, u)
    {
      assert lines(b, []) == LineOf([], cap, b);
      JoinedNothing(lines(b, u));
    }
  }

  lemma JoinedNothing(l: LineResult)
    ensures Joined([], l) == l
  {
    if l.Line? {
      assert [] + l.text == l.text;
    }
  }

  lemma JoinedTwice(a: seq<byte>, b: seq<byte>, l: LineResult)
    ensures Joined(a, Joined(b, l)) == Joined(a + b, l)
  {
    if l.Line? {
      AppendAssoc(a, b, l.text);
    }
  }

  /** Pieces a of a line, then its piece p: what they leave of the line is what p leaves of its own. */
  lemma NextPiece(lines: Liner, u: seq<byte>, a: seq<byte>, before: seq<byte>, p: seq<byte>, rest: seq<byte>,
                  ends: Ends)
    requires forall b :: ends.Has(b) ==> lines(b, u) == Joined(a, lines(b, before))
    ensures forall b :: ends.Has(b) && lines(b, before) == Joined(p, lines(b, rest)) ==>
              lines(b, u) == Joined(a + p, lines(b, rest))
    ensures forall b :: ends.Has(b) && lines(b, before) == Line(p, rest) ==> lines(b, u) == Line(a + p, rest)
    ensures a == [] ==> a + p == p
  {
    JoinedTwice(a, p, lines(true, rest));
    JoinedTwice(a, p, lines(false, rest));
  }

  /** A piece that filled the buffer is the front of its line. */
  lemma FullOfLine(lines: Liner, u: seq<byte>, p: seq<byte>, rest: seq<byte>, cap: nat, ends: Ends)
    requires IsLiner(lines, cap) && |u| >= cap && LF !in u[..cap]
    requires |p| == PieceLen(u, cap) && u == p + rest
    requires ends.early ==> rest != []
    ensures forall b :: ends.Has(b) ==> lines(b, u) == Joined(p, lines(b, rest))
    ensures |rest| < |u|
  {
    AppendParts(p, rest);
    forall b | ends.Has(b)
      ensures lines(b, u) == Joined(p, lines(b, rest))
    {
      LineInPieces(u, cap, b);
      assert lines(b, u) == LineOf(u, cap, b) && lines(b, rest) == LineOf(rest, cap, b);
    }
  }

  /** A last piece is its line: the bytes before the line's end, or all there is. */
  lemma LastOfLine(lines: Liner, u: seq<byte>, p: seq<byte>, rest: seq<byte>, cap: nat, ends: Ends)
    requires IsLiner(lines, cap) && LF !in p
    requires || u == p + CRLF + rest
             || (u == p + [LF] + rest && (p == [] || p[|p| - 1] != CR))
             || (u == p && p != [] && rest == [] && (ends.late ==> |u| < cap))
    ensures forall b :: ends.Has(b) ==> lines(b, u) == Line(p, rest)
  {
    forall b | ends.Has(b)
      ensures lines(b, u) == Line(p, rest)
    {
      if u == p + CRLF + rest {
        PrintedLine(p, rest, cap, b);
      } else if u == p + [LF] + rest && (p == [] || p[|p| - 1] != CR) {
        BareLine(p, rest, cap, b);
      } else {
        CutLine(u, cap, b);
      }
      assert lines(b, u) == LineOf(u, cap, b);
    }
  }

  lemma CutLine(u: seq<byte>, cap: nat, late: bool)
    requires cap >= 2 && LF !in u && u != [] && (late ==> |u| < cap)
    ensures LineOf(u, cap, late) == Line(u, [])
  {
  }
}
