/** Whole runs: what any interleaving of the operations of one object keeps. */
module Runs {
  import opened Bytes
  import opened Streams
  import opened BufReader
  import BufWriter
  import GrowBuffer
  import Pool

  // ---------------------------------------------------------------- reader

  /** What one operation hands its caller: bytes, a count of dropped bytes, or a line without its end. */
  datatype Result = Bytes(bytes: seq<byte>) | Dropped(count: nat) | Text(line: seq<byte>)

  /** The bytes got were taken from the front of u, leaving rest, by an operation that returned res. */
  ghost predicate Taken(u: seq<byte>, res: Result, got: seq<byte>, rest: seq<byte>) {
    u == got + rest && Accounts(res, got)
  }

  predicate Accounts(res: Result, got: seq<byte>) {
    match res
    case Bytes(s) => got == s
    case Dropped(k) => |got| == k
    case Text(line) => got == line || got == line + [LF] || got == line + CRLF
  }

  lemma TakenFront(u: seq<byte>, k: nat)
    requires k <= |u|
    ensures Taken(u, Bytes(u[..k]), u[..k], u[k..]) && Taken(u, Dropped(k), u[..k], u[k..])
    ensures Taken(u, Text(u[..k]), u[..k], u[k..]) && Taken(u, Bytes([]), [], u)
  {
  }

  lemma TakenByte(u: seq<byte>)
    requires u != []
    ensures Taken(u, Bytes([u[0]]), [u[0]], u[1..])
  {
  }

  /** One operation. */
  method ReadStep(b: Reader, n: int) returns (res: Result, ghost got: seq<byte>)
    requires b.Valid()
    modifies b, b.buf, b.rd
    ensures b.Valid() && Taken(old(b.Unread()), res, got, b.Unread())
  {
    if {
      case true => res, got := PopSome(b, n);
      case true => res, got := PopByte(b);
      case n >= 0 => res, got := CopyOut(b, n);
      case true => res, got := SliceOut(b);
      case true => res, got := LineOut(b);
      case true => res, got := DropSome(b, n);
    }
  }

  method PopSome(b: Reader, n: int) returns (res: Result, ghost got: seq<byte>)
    requires b.Valid()
    modifies b, b.buf, b.rd
    ensures b.Valid() && Taken(old(b.Unread()), res, got, b.Unread())
  {
    ghost var u := b.Unread();
    TakenFront(u, 0);
    var d, e := b.Pop(n);
    got := d.Bytes();
    res := Bytes(d.Bytes());
    if e == None {
      TakenFront(u, n);
    }
  }

  method PopByte(b: Reader) returns (res: Result, ghost got: seq<byte>)
    requires b.Valid()
    modifies b, b.buf, b.rd
    ensures b.Valid() && Taken(old(b.Unread()), res, got, b.Unread())
  {
    ghost var u := b.Unread();
    TakenFront(u, 0);
    var c, e := b.ReadByte();
    res, got := Bytes([]), [];
    if e == None {
      res, got := Bytes([c]), [c];
      TakenByte(u);
    }
  }

  method CopyOut(b: Reader, n: nat) returns (res: Result, ghost got: seq<byte>)
    requires b.Valid()
    modifies b, b.buf, b.rd
    ensures b.Valid() && Taken(old(b.Unread()), res, got, b.Unread())
  {
    ghost var u := b.Unread();
    var a := new byte[n];
    var k, e := b.Read(Slice(a, 0, n));
    res, got := Bytes(a[0..0 + k]), a[0..0 + k];
    TakenFront(u, k);
  }

  method SliceOut(b: Reader) returns (res: Result, ghost got: seq<byte>)
    requires b.Valid()
    modifies b, b.buf, b.rd
    ensures b.Valid() && Taken(old(b.Unread()), res, got, b.Unread())
  {
    var delim: byte := *;
    var line, e := b.ReadSlice(delim);
    res, got := Bytes(line.Bytes()), line.Bytes();
  }

  method LineOut(b: Reader) returns (res: Result, ghost got: seq<byte>)
    requires b.Valid()
    modifies b, b.buf, b.rd
    ensures b.Valid() && Taken(old(b.Unread()), res, got, b.Unread())
  {
    ghost var u := b.Unread();
    var line, more, e := b.ReadLine();
    var s := line.Bytes();
    ghost var rest := b.Unread();
    res := Text(s);
    got := if e == None && u == s + CRLF + rest then s + CRLF
           else if e == None && u == s + [LF] + rest then s + [LF]
           else s;
  }

  /** Peek takes nothing, Discard hands out nothing. */
  method DropSome(b: Reader, n: int) returns (res: Result, ghost got: seq<byte>)
    requires b.Valid()
    modifies b, b.buf, b.rd
    ensures b.Valid() && Taken(old(b.Unread()), res, got, b.Unread())
  {
    ghost var u := b.Unread();
    var k, e := 0, None;
    var d;
    if {
      case true => d, e := b.Peek(n);
      case true => k, e := b.Discard(n);
    }
    res, got := Dropped(k), u[..k];
    TakenFront(u, k);
  }

  /** Any operations in any order: what they took, one after the other, followed by what is still unread, is
      the original stream; and each of them returned the bytes it took, their number, or the line without
      its end. */
  method ReaderRun(b: Reader, args: seq<int>) returns (log: seq<Result>, ghost taken: seq<seq<byte>>)
    requires b.Valid()
    modifies b, b.buf, b.rd
    ensures b.Valid() && Flatten(taken) + b.Unread() == old(b.Unread())
    ensures |log| == |taken| == |args| && forall i :: 0 <= i < |log| ==> Accounts(log[i], taken[i])
  {
    log, taken := [], [];
    assert [] + b.Unread() == b.Unread();
    for i := 0 to |args|
      invariant b.Valid() && Flatten(taken) + b.Unread() == old(b.Unread())
      invariant |log| == |taken| == i && forall j :: 0 <= j < i ==> Accounts(log[j], taken[j])
    {
      var res;
      ghost var got;
      res, got := ReadStep(b, args[i]);
      FlattenSnoc(taken, got);
      AppendAssoc(Flatten(taken), got, b.Unread());
      log, taken := log + [res], taken + [got];
    }
  }

  /** A reader as fill leaves it when the source delivers the one byte x together with err. */
  method FilledWith(x: byte, err: Error) returns (b: Reader)
    requires err == EOF || err.Transport?
    ensures fresh(b) && fresh(b.buf) && fresh(b.rd) && b.Valid() && b.Unread() == [x]
    ensures b.err == Some(err) && b.buf[b.r..b.w] == [x] && (err == EOF ==> b.rd.Steady())
  {
    var source := new Source([], 0, err.Transport?, false);
    b := new Reader(source, 16);
    b.buf[0], b.r, b.w, b.err := x, 0, 1, Some(err);
    assert b.buf[0..1] == [x];
  }

  /** Reading into an empty slice reports the end of a stream of which a byte is still unread. */
  method EmptyReadReportsEOF(x: byte) returns (e: Option<Error>, x': byte)
    ensures e == Some(EOF) && x' == x
  {
    var b := FilledWith(x, EOF);
    var none := new byte[0];
    var n;
    n, e := b.Read(Slice(none, 0, 0));
    var e';
    x', e' := b.ReadByte();
  }

  /** A transport error that came with the start of a line is never seen: the line is returned without an
      error, and the reader has forgotten it. */
  method ReadLineForgetsError(x: byte, code: int) returns (line: seq<byte>, e: Option<Error>, err: Option<Error>)
    requires x != LF
    ensures line == [x] && e == None && err == None
  {
    var b := FilledWith(x, Transport(code));
    var l, more;
    l, more, e := b.ReadLine();
    line, err := l.Bytes(), b.err;
  }

  // ---------------------------------------------------------------- writer

  /** One write of the bytes s: those accepted are a prefix of them, all of them if there was no error
      on a lawful sink, and none of them after an error. */
  method WriteSome(w: BufWriter.Writer, s: seq<byte>) returns (accepted: seq<byte>, e: Option<Error>)
    requires w.Valid()
    modifies w, w.buf, w.wr
    ensures w.Valid() && w.Stream() == old(w.Stream()) + accepted && accepted <= s
    ensures e == w.err && (old(w.err).Some? ==> accepted == [] && w.err == old(w.err) && w.wr.sent == old(w.wr.sent))
    ensures e == None && w.wr.lawful ==> accepted == s
  {
    var p := FromSeq(s);
    var nn;
    if {
      case true => nn, e := w.Write(p);
      case true => nn, e := w.WriteString(s);
      case true => nn, e := w.WriteRaw(p);
    }
    accepted := s[..nn];
  }

  /** Writes of any kind and flushes in any order, over a sink that may fail at any time: the stream grows by
      exactly what was accepted, and nothing is accepted or sent once an error has occurred. */
  method WriterRun(w: BufWriter.Writer, ss: seq<seq<byte>>) returns (accepted: seq<byte>)
    requires w.Valid()
    modifies w, w.buf, w.wr
    ensures w.Valid() && w.Stream() == old(w.Stream()) + accepted
    ensures old(w.err).Some? ==> accepted == [] && w.err == old(w.err) && w.wr.sent == old(w.wr.sent)
    ensures w.wr.lawful ==> accepted <= Flatten(ss) && (w.err == None ==> accepted == Flatten(ss))
  {
    accepted := [];
    assert old(w.Stream()) + [] == old(w.Stream());
    for i := 0 to |ss|
      invariant w.Valid() && w.Stream() == old(w.Stream()) + accepted
      invariant old(w.err).Some? ==> accepted == [] && w.err == old(w.err) && w.wr.sent == old(w.wr.sent)
      invariant w.wr.lawful ==> accepted <= Flatten(ss[..i]) && (w.err == None ==> accepted == Flatten(ss[..i]))
    {
      if {
        case true =>
        case true => var _ := w.Flush();
      }
      var a, e := WriteSome(w, ss[i]);
      AppendAssoc(old(w.Stream()), accepted, a);
      assert ss[..i + 1] == ss[..i] + [ss[i]];
      FlattenSnoc(ss[..i], ss[i]);
      accepted := accepted + a;
    }
    assert ss[..|ss|] == ss;
  }

  // ---------------------------------------------------------------- growing buffer

  /** An operation of a growing buffer: bytes written, bytes filled in behind a Peek, or a Reset. */
  datatype Append = Written(bytes: seq<byte>) | Filled(bytes: seq<byte>) | Cleared

  /** What a buffer that held c holds after the operations. */
  function Held(c: seq<byte>, ops: seq<Append>): seq<byte> {
    if ops == [] then c
    else
      var op := ops[|ops| - 1];
      if op.Cleared? then [] else Held(c, ops[..|ops| - 1]) + op.bytes
  }

  /** How many bytes the operations append. */
  function Total(ops: seq<Append>): nat {
    if ops == [] then 0
    else
      var op := ops[|ops| - 1];
      Total(ops[..|ops| - 1]) + if op.Cleared? then 0 else |op.bytes|
  }

  /** The greatest length on the way, or peak if that is more. */
  function Longest(peak: nat, c: seq<byte>, ops: seq<Append>): nat {
    if ops == [] then peak else Max(Longest(peak, c, ops[..|ops| - 1]), |Held(c, ops)|)
  }

  lemma OneMoreAppend(peak: nat, c: seq<byte>, ops: seq<Append>, op: Append)
    ensures Held(c, ops + [op]) == if op.Cleared? then [] else Held(c, ops) + op.bytes
    ensures Total(ops + [op]) == Total(ops) + if op.Cleared? then 0 else |op.bytes|
    ensures Longest(peak, c, ops + [op]) == Max(Longest(peak, c, ops), |Held(c, ops + [op])|)
  {
    assert (ops + [op])[..|ops|] == ops;
  }

  method Overwrite(a: array<byte>, off: nat, s: seq<byte>)
    requires off + |s| <= a.Length
    modifies a
    ensures a[..off + |s|] == old(a[..off]) + s
  {
    forall i | 0 <= i < |s| {
      a[off + i] := s[i];
    }
  }

  /** Peek, then fill in the bytes. */
  method FillIn(w: GrowBuffer.Writer, s: seq<byte>)
    requires w.Valid()
    modifies w, w.buf
    ensures w.Valid() && (w.buf == old(w.buf) || fresh(w.buf))
    ensures w.Contents() == old(w.Contents()) + s
    ensures w.appended == old(w.appended) + |s|
    ensures w.peak == Max(old(w.peak), |w.Contents()|)
  {
    var p := w.Peek(|s|);
    assert w.buf[..p.off] == old(w.Contents());
    Overwrite(p.arr, p.off, s);
  }

  method AppendStep(w: GrowBuffer.Writer, op: Append)
    requires w.Valid()
    modifies w, w.buf
    ensures w.Valid() && (w.buf == old(w.buf) || fresh(w.buf))
    ensures w.Contents() == if op.Cleared? then [] else old(w.Contents()) + op.bytes
    ensures w.appended == old(w.appended) + if op.Cleared? then 0 else |op.bytes|
    ensures w.peak == Max(old(w.peak), |w.Contents()|)
  {
    match op
    case Written(s) => w.WriteBytes(s);
    case Filled(s) => FillIn(w, s);
    case Cleared => w.Reset();
  }

  /** Writes, peeks that the caller fills, and resets in any order: the buffer holds what was appended since
      the last reset, all copying ever done is at most twice all bytes ever appended, and the capacity is at
      most the initial size or three times the greatest length. */
  method AppendRun(w: GrowBuffer.Writer, ops: seq<Append>)
    requires w.Valid()
    modifies w, w.buf
    ensures w.Valid() && w.Contents() == Held(old(w.Contents()), ops)
    ensures w.appended == old(w.appended) + Total(ops) && w.copied <= 2 * w.appended
    ensures w.peak == Longest(old(w.peak), old(w.Contents()), ops)
    ensures w.buf.Length <= Max(w.initial, 3 * w.peak)
  {
    ghost var c, peak := w.Contents(), w.peak;
    for i := 0 to |ops|
      invariant w.Valid() && (w.buf == old(w.buf) || fresh(w.buf))
      invariant w.Contents() == Held(c, ops[..i]) && w.appended == old(w.appended) + Total(ops[..i])
      invariant w.peak == Longest(peak, c, ops[..i])
    {
      assert ops[..i + 1] == ops[..i] + [ops[i]];
      OneMoreAppend(peak, c, ops[..i], ops[i]);
      AppendStep(w, ops[i]);
    }
    assert ops[..|ops|] == ops;
  }

  // ---------------------------------------------------------------- pool

  /** One Get or Put. */
  method PoolStep(p: Pool.Pool, mine0: set<Pool.Buffer>) returns (mine: set<Pool.Buffer>)
    requires p.Valid() && mine0 == p.books.held
    modifies p`free, p`books, mine0
    ensures p.Valid() && mine == p.books.held
    ensures forall b :: b in p.books.windows ==> b in old(p.books.windows) || fresh(b)
  {
    mine := mine0;
    if {
      case true =>
        var b := p.Get();
        mine := mine + {b};
      case mine != {} =>
        var b :| b in mine;
        p.Put(b);
        mine := mine - {b};
    }
  }

  lemma HeldAreApart(p: Pool.Pool)
    requires p.Valid()
    ensures |p.books.chain| + |p.books.held| == p.books.grows * p.num
    ensures forall a, b :: a in p.books.held && b in p.books.held && a != b ==> Pool.Apart(a.buf, b.buf)
    ensures forall b :: b in p.books.held ==> b.buf.len == p.size && b !in p.books.chain
  {
    Pool.TimesIsProduct(p.books.grows, p.num);
    Pool.Acyclic(p.free, p.books.chain, p.books.held, p.books.links);
  }

  /** Any run of Get and Put from one init, each held buffer put back at most once: the buffers handed
      out are those not put back, they share no byte, and none is lost. */
  method PoolRun(num: nat, size: nat, steps: nat) returns (p: Pool.Pool, mine: set<Pool.Buffer>)
    requires num > 0
    ensures p.Valid() && mine == p.books.held
    ensures |p.books.chain| + |mine| == p.books.grows * num
    ensures forall a, b :: a in mine && b in mine && a != b ==> Pool.Apart(a.buf, b.buf)
    ensures forall b :: b in mine ==> b.buf.len == size && b !in p.books.chain
  {
    p := new Pool.Pool(num, size);
    mine := {};
    for i := 0 to steps
      invariant fresh(p) && p.Valid() && mine == p.books.held && p.num == num && p.size == size
      invariant forall b :: b in p.books.windows ==> fresh(b)
    {
      mine := PoolStep(p, mine);
    }
    HeldAreApart(p);
  }
}
