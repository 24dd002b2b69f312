/** The chunked transfer coding as the code reads and writes it (section 7.1 of RFC 9112, with a bare
    LF and an empty size accepted): what a decoder makes of a whole input, and the encoder's output. */
module ChunkGrammar {
  import opened Bits
  import opened Bytes
  import opened Streams
  import Hex

  const MAX_LINE: nat := 4096

  /** How a decoding ends. An unterminated size line that exactly fills the reader's buffer is reported
      as too long, or as an unexpected end if the source reports its own end together with the last bytes. */
  datatype End = Ended(err: Error) | LineFull

  /** Whether e reports the end, late saying that the source reports its own end by itself. */
  predicate Matches(end: End, e: Error, late: bool) {
    match end
    case Ended(err) => e == err
    case LineFull => e == LineTooLong || (!late && e == UnexpectedEOF)
  }

  /** All the data still to come out of a decoder, how it ends, and what it leaves unread. */
  datatype Decoding = Decoding(out: seq<byte>, end: End, rest: seq<byte>)

  datatype Line = Line(text: seq<byte>, rest: seq<byte>) | NoLine(end: End, rest: seq<byte>)

  predicate IsSpace(b: byte) {
    b == SP || b == TAB || b == LF || b == CR
  }

  function TrimRight(s: seq<byte>): (t: seq<byte>)
    ensures t <= s
  {
    if s != [] && IsSpace(s[|s| - 1]) then TrimRight(s[..|s| - 1]) else s
  }

  function BeforeSemi(s: seq<byte>): seq<byte> {
    var i := IndexByte(s, SEMI);
    if i < 0 then s else s[..i]
  }

  /** The size text of the next line of s, read through a buffer of cap bytes. */
  function ChunkLine(s: seq<byte>, cap: nat): (l: Line)
    ensures |l.rest| <= |s| && (l.Line? ==> |l.rest| < |s|)
  {
    var i := IndexByte(s, LF);
    if 0 <= i < cap then
      if i + 1 >= MAX_LINE then NoLine(Ended(LineTooLong), s[i + 1..])
      else Line(BeforeSemi(TrimRight(s[..i + 1])), s[i + 1..])
    else if |s| > cap then NoLine(Ended(LineTooLong), s[cap..])
    else NoLine(if |s| == cap then LineFull else Ended(UnexpectedEOF), [])
  }

  function Prepend(got: seq<byte>, d: Decoding): Decoding {
    d.(out := got + d.out)
  }

  /** What a decoder makes of the unread input s when n bytes of the current chunk are missing,
      and checkEnd says that the CR LF after a chunk comes next. */
  function Decode(n: nat, checkEnd: bool, s: seq<byte>, cap: nat): (d: Decoding)
    decreases |s|, checkEnd, cap
  {
    if checkEnd then
      if |s| < 2 then Decoding([], Ended(UnexpectedEOF), [])
      else if s[..2] != CRLF then Decoding([], Ended(MalformedChunk), s[2..])
      else Decode(n, false, s[2..], cap)
    else if n > 0 then
      if |s| < n then Decoding(s, Ended(UnexpectedEOF), [])
      else Prepend(s[..n], Decode(0, true, s[n..], cap))
    else
      match ChunkLine(s, cap)
      case NoLine(end, rest) => Decoding([], end, rest)
      case Line(text, rest) =>
        match Hex.ParseSize(text)
        case Invalid(err) => Decoding([], Ended(err), rest)
        case Size(0) => Decoding([], Ended(EOF), rest)
        case Size(k) => Decode(k, false, rest, cap)
  }

  /** What a decoder makes of its state and the unread input. */
  type Decoder = (nat, bool, seq<byte>) -> Decoding

  /** The decoder over a buffer of cap bytes. */
  ghost predicate IsDecoder(decode: Decoder, cap: nat) {
    forall n, checkEnd, s {:trigger Decode(n, checkEnd, s, cap)} ::
      decode(n, checkEnd, s) == Decode(n, checkEnd, s, cap)
  }

  /** A decoding can be taken up in the middle of a chunk's data. */
  lemma DecodeData(n: nat, k: nat, s: seq<byte>, cap: nat)
    requires 0 < k <= n && k <= |s|
    ensures Decode(n, false, s, cap) == Prepend(s[..k], Decode(n - k, k == n, s[k..], cap))
  {
    if k < n {
      if |s| < n {
        assert s == s[..k] + s[k..];
      } else {
        assert s[k..][..n - k] == s[k..n] && s[k..][n - k..] == s[n..];
        assert s[..k] + s[k..n] == s[..n];
        AppendAssoc(s[..k], s[k..n], Decode(0, true, s[n..], cap).out);
      }
    }
  }

  // ---------------------------------------------------------------- the grammar the code accepts

  /** A chunk as sent: the size line with its LF, and the data. */
  datatype Chunk = Chunk(line: seq<byte>, data: seq<byte>)

  /** A line whose first k bytes are digits, at most 16 and none for zero, with only white space behind them, or a
      semicolon and any text. */
  predicate SizeUpTo(line: seq<byte>, k: nat, size: nat) {
    && k < |line| && k <= 16 && Hex.AllDigits(line[..k]) && Hex.Value(line[..k]) == size
    && (line[k] == 59 || forall i :: k <= i < |line| ==> White(line[i]))
  }

  predicate White(b: byte) {
    b == 32 || b == 9 || b == 13 || b == 10
  }

  /** A line of the given size that fits the buffer and the limit on lines. */
  ghost predicate SizeLine(line: seq<byte>, size: nat, cap: nat) {
    |line| <= cap && |line| < 4096 && EndsAtFirst(line, 10) && exists k :: SizeUpTo(line, k, size)
  }

  ghost predicate ChunkOK(c: Chunk, cap: nat) {
    c.data != [] && SizeLine(c.line, |c.data|, cap)
  }

  function Serial(cs: seq<Chunk>): seq<byte> {
    if cs == [] then [] else cs[0].line + cs[0].data + CRLF + Serial(cs[1..])
  }

  function Data(cs: seq<Chunk>): seq<byte> {
    if cs == [] then [] else cs[0].data + Data(cs[1..])
  }

  /** s is the chunks cs, a size line of zero, and rest. */
  ghost predicate ChunkedBody(s: seq<byte>, cs: seq<Chunk>, last: seq<byte>, rest: seq<byte>, cap: nat) {
    && (forall c :: c in cs ==> ChunkOK(c, cap))
    && SizeLine(last, 0, cap)
    && s == Serial(cs) + (last + rest)
  }

  lemma {:induction false} TrimTail(s: seq<byte>)
    ensures var t := TrimRight(s);
            && (t != [] ==> !IsSpace(t[|t| - 1]))
            && forall i :: |t| <= i < |s| ==> IsSpace(s[i])
  {
    if s != [] && IsSpace(s[|s| - 1]) {
      TrimTail(s[..|s| - 1]);
    }
  }

  lemma TrimKeeps(s: seq<byte>, k: nat)
    requires k < |s| && !IsSpace(s[k])
    ensures |TrimRight(s)| > k
  {
    TrimTail(s);
  }

  lemma TrimLength(s: seq<byte>, k: nat)
    requires k <= |s| && forall i :: k <= i < |s| ==> IsSpace(s[i])
    requires k > 0 ==> !IsSpace(s[k - 1])
    ensures |TrimRight(s)| == k
  {
    TrimTail(s);
    if k > 0 {
      TrimKeeps(s, k - 1);
    }
  }

  lemma SemiBehind(s: seq<byte>, k: nat)
    requires k <= |s| && forall i :: 0 <= i < k ==> s[i] != SEMI
    ensures |BeforeSemi(s)| >= k
  {
  }

  /** The digits are what is left of the line. */
  lemma DigitsLeft(line: seq<byte>, k: nat, size: nat)
    requires SizeUpTo(line, k, size)
    ensures BeforeSemi(TrimRight(line)) == line[..k]
  {
    var t := TrimRight(line);
    assert forall i :: 0 <= i < k ==> Hex.DigitValue(line[..k][i]) >= 0 && line[..k][i] == line[i];
    if line[k] == 59 {
      TrimKeeps(line, k);
      assert t[..k] == line[..k];
      IndexByteIs(t, SEMI, k);
    } else {
      assert forall i :: k <= i < |line| ==> White(line[i]);
      TrimLength(line, k);
      assert t == line[..k];
    }
  }

  /** If what is left of a line is digits, the line is well-formed behind them. */
  lemma DigitsAreLeft(line: seq<byte>)
    requires EndsAtFirst(line, LF)
    ensures var d := BeforeSemi(TrimRight(line));
            Hex.AllDigits(d) && |d| <= 16 ==> d == line[..|d|] && SizeUpTo(line, |d|, Hex.Value(d))
  {
    var t, d := TrimRight(line), BeforeSemi(TrimRight(line));
    TrimTail(line);
    assert |d| < |line| && line[|line| - 1] == LF;
    if SEMI in t {
      assert t[|d|] == SEMI && line[|d|] == t[|d|];
    } else {
      assert forall i :: |d| <= i < |line| ==> IsSpace(line[i]);
    }
  }

  /** A line that fits is read as a size exactly when it is a size line. */
  lemma SizeLineIff(line: seq<byte>, size: nat, cap: nat)
    requires EndsAtFirst(line, LF) && |line| <= cap && |line| < MAX_LINE
    ensures SizeLine(line, size, cap) <==> Hex.ParseSize(BeforeSemi(TrimRight(line))) == Hex.Size(size)
  {
    var text := BeforeSemi(TrimRight(line));
    Hex.AcceptedSizes(text);
    DigitsAreLeft(line);
    forall k | SizeUpTo(line, k, size)
      ensures Hex.ParseSize(text) == Hex.Size(size)
    {
      DigitsLeft(line, k, size);
    }
  }

  lemma ReadSizeLine(line: seq<byte>, size: nat, t: seq<byte>, cap: nat)
    requires SizeLine(line, size, cap)
    ensures EndsAtFirst(line, LF)
    ensures ChunkLine(line + t, cap) == Line(BeforeSemi(TrimRight(line)), t)
    ensures Hex.ParseSize(BeforeSemi(TrimRight(line))) == Hex.Size(size)
  {
    SizeLineIff(line, size, cap);
    IndexByteAtEnd(line, t, LF);
    AppendParts(line, t);
  }

  /** Decoding one well-formed chunk gives its data and goes on behind it. */
  lemma DecodeChunk(c: Chunk, t: seq<byte>, cap: nat)
    requires ChunkOK(c, cap)
    ensures Decode(0, false, c.line + c.data + CRLF + t, cap) == Prepend(c.data, Decode(0, false, t, cap))
  {
    var body := c.data + (CRLF + t);
    assert c.line + c.data + CRLF + t == c.line + body;
    ReadSizeLine(c.line, |c.data|, body, cap);
    assert Decode(0, false, c.line + body, cap) == Decode(|c.data|, false, body, cap);
    assert body[..|c.data|] == c.data && body[|c.data|..] == CRLF + t;
    assert (CRLF + t)[..2] == CRLF && (CRLF + t)[2..] == t;
    assert Decode(0, true, CRLF + t, cap) == Decode(0, false, t, cap);
  }

  /** Every chunked body is decoded to its data, with EOF, and what follows it is left unread. */
  lemma {:induction false} BodyDecodes(s: seq<byte>, cs: seq<Chunk>, last: seq<byte>, rest: seq<byte>, cap: nat)
    requires ChunkedBody(s, cs, last, rest, cap)
    ensures Decode(0, false, s, cap) == Decoding(Data(cs), Ended(EOF), rest)
    decreases |cs|
  {
    if cs == [] {
      assert s == last + rest;
      ReadSizeLine(last, 0, rest, cap);
    } else {
      var s' := Serial(cs[1..]) + (last + rest);
      assert s == cs[0].line + cs[0].data + CRLF + s';
      assert forall c :: c in cs[1..] ==> c in cs;
      BodyDecodes(s', cs[1..], last, rest, cap);
      DecodeChunk(cs[0], s', cap);
    }
  }

  /** A line read as a size is a size line. */
  lemma FirstSizeLine(s: seq<byte>, cap: nat) returns (line: seq<byte>, rest: seq<byte>, size: nat)
    requires ChunkLine(s, cap).Line? && Hex.ParseSize(ChunkLine(s, cap).text).Size?
    ensures s == line + rest && SizeLine(line, size, cap)
    ensures rest == ChunkLine(s, cap).rest && size == Hex.ParseSize(ChunkLine(s, cap).text).n
  {
    var i := IndexByte(s, LF);
    line, rest, size := s[..i + 1], s[i + 1..], Hex.ParseSize(ChunkLine(s, cap).text).n;
    assert line[..i] == s[..i];
    SizeLineIff(line, size, cap);
  }

  /** A decoding that ends with EOF starts with a size line, and with size zero it ends there. */
  lemma DecodeFromLine(decode: Decoder, s: seq<byte>, cap: nat) returns (line: seq<byte>, rest: seq<byte>, size: nat)
    requires IsDecoder(decode, cap) && decode(0, false, s).end == Ended(EOF)
    ensures s == line + rest && SizeLine(line, size, cap)
    ensures decode(0, false, s) == if size == 0 then Decoding([], Ended(EOF), rest) else decode(size, false, rest)
  {
    assert decode(0, false, s) == Decode(0, false, s, cap);
    line, rest, size := FirstSizeLine(s, cap);
    assert decode(size, false, rest) == Decode(size, false, rest, cap);
  }

  lemma HeadAndTail(s: seq<byte>, k: nat)
    requires k <= |s|
    ensures s == s[..k] + s[k..]
  {
  }

  /** And it goes through the whole chunk and the CR LF behind it. */
  lemma DecodeThroughChunk(decode: Decoder, size: nat, s: seq<byte>, cap: nat) returns (data: seq<byte>, t: seq<byte>)
    requires IsDecoder(decode, cap) && size > 0 && decode(size, false, s).end == Ended(EOF)
    ensures |data| == size && s == data + (CRLF + t)
    ensures decode(size, false, s) == Prepend(data, decode(0, false, t))
  {
    assert decode(size, false, s) == Decode(size, false, s, cap);
    var u := s[size..];
    assert Decode(0, true, u, cap).end == Ended(EOF);
    data, t := s[..size], u[2..];
    HeadAndTail(s, size);
    HeadAndTail(u, 2);
    assert decode(0, false, t) == Decode(0, false, t, cap);
  }

  lemma {:induction false} ChunksDecoded(decode: Decoder, s: seq<byte>, cap: nat)
    returns (cs: seq<Chunk>, last: seq<byte>)
    requires IsDecoder(decode, cap) && decode(0, false, s).end == Ended(EOF)
    ensures ChunkedBody(s, cs, last, decode(0, false, s).rest, cap)
    ensures decode(0, false, s).out == Data(cs)
    decreases |s|
  {
    var line, rest, size := DecodeFromLine(decode, s, cap);
    if size == 0 {
      cs, last := [], line;
      BodyEnds(s, line, rest, cap);
    } else {
      var data, t := DecodeThroughChunk(decode, size, rest, cap);
      var tail;
      tail, last := ChunksDecoded(decode, t, cap);
      cs := [Chunk(line, data)] + tail;
      BodyGrows(s, rest, Chunk(line, data), t, tail, last, decode(0, false, s).rest, cap);
    }
  }

  /** An input whose decoding ends with EOF is a chunked body with exactly the decoded data. */
  lemma EOFMeansBody(s: seq<byte>, cap: nat) returns (cs: seq<Chunk>, last: seq<byte>)
    requires Decode(0, false, s, cap).end == Ended(EOF)
    ensures ChunkedBody(s, cs, last, Decode(0, false, s, cap).rest, cap)
    ensures Decode(0, false, s, cap).out == Data(cs)
  {
    var decode := (n: nat, checkEnd: bool, u: seq<byte>) => Decode(n, checkEnd, u, cap);
    cs, last := ChunksDecoded(decode, s, cap);
  }

  /** The last size line alone is a chunked body. */
  lemma BodyEnds(s: seq<byte>, line: seq<byte>, rest: seq<byte>, cap: nat)
    requires s == line + rest && SizeLine(line, 0, cap)
    ensures ChunkedBody(s, [], line, rest, cap) && Data([]) == []
  {
    assert s == [] + s;
  }

  /** A chunk in front of a chunked body. */
  lemma BodyGrows(s: seq<byte>, u: seq<byte>, c: Chunk, t: seq<byte>, cs: seq<Chunk>, last: seq<byte>, rest: seq<byte>,
                  cap: nat)
    requires s == c.line + u && u == c.data + (CRLF + t)
    requires ChunkOK(c, cap) && ChunkedBody(t, cs, last, rest, cap)
    ensures ChunkedBody(s, [c] + cs, last, rest, cap)
    ensures Data([c] + cs) == c.data + Data(cs)
  {
    SerialPrepend(c, cs, last + rest);
    AppendAssoc(c.data, CRLF, t);
    assert forall d :: d in [c] + cs ==> d == c || d in cs;
  }

  lemma SerialPrepend(c: Chunk, cs: seq<Chunk>, t: seq<byte>)
    ensures Serial([c] + cs) + t == c.line + (c.data + CRLF + (Serial(cs) + t))
    ensures Data([c] + cs) == c.data + Data(cs)
  {
    assert ([c] + cs)[1..] == cs;
  }

  /** Being a chunked body is exactly what ends a decoding with EOF. */
  lemma EOFIffBody(s: seq<byte>, cap: nat)
    ensures var d := Decode(0, false, s, cap);
            d.end == Ended(EOF) <==> exists cs, last :: ChunkedBody(s, cs, last, d.rest, cap) && d.out == Data(cs)
  {
    var d := Decode(0, false, s, cap);
    if d.end == Ended(EOF) {
      var cs, last := EOFMeansBody(s, cap);
    }
    forall cs, last | ChunkedBody(s, cs, last, d.rest, cap)
      ensures d.end == Ended(EOF)
    {
      BodyDecodes(s, cs, last, d.rest, cap);
    }
  }

  // ---------------------------------------------------------------- single lines and chunks

  predicate AllWhite(s: seq<byte>) {
    forall i :: 0 <= i < |s| ==> s[i] == 32 || s[i] == 9
  }

  predicate LineEnd(e: seq<byte>) {
    e == [13, 10] || e == [10]
  }

  lemma EndsOnce(s: seq<byte>, end: seq<byte>)
    requires LF !in s && LineEnd(end)
    ensures EndsAtFirst(s + end, LF)
  {
    assert (s + end)[..|s + end| - 1] == s + end[..|end| - 1];
  }

  lemma DigitsAreNoLF(d: seq<byte>)
    requires Hex.AllDigits(d)
    ensures LF !in d
  {
  }

  /** Digits, spaces and tabs, and CR LF or a bare LF make a size line. */
  lemma PlainLine(d: seq<byte>, blanks: seq<byte>, end: seq<byte>, cap: nat)
    requires Hex.AllDigits(d) && |d| <= 16 && AllWhite(blanks) && LineEnd(end)
    requires |d + blanks + end| <= cap && |d + blanks + end| < MAX_LINE
    ensures SizeLine(d + blanks + end, Hex.Value(d), cap)
  {
    var line := d + blanks + end;
    DigitsAreNoLF(d);
    EndsOnce(d + blanks, end);
    assert line[..|d|] == d;
    assert SizeUpTo(line, |d|, Hex.Value(d));
  }

  /** So do digits, a semicolon and any text, but only without white space in front of the semicolon. */
  lemma ExtendedLine(d: seq<byte>, blanks: seq<byte>, ext: seq<byte>, end: seq<byte>, cap: nat)
    requires Hex.AllDigits(d) && |d| <= 16 && AllWhite(blanks) && LF !in ext && LineEnd(end)
    requires var line := d + blanks + [59] + ext + end; |line| <= cap && |line| < MAX_LINE
    ensures SizeLine(d + blanks + [59] + ext + end, Hex.Value(d), cap) <==> blanks == []
  {
    var line := d + blanks + [59] + ext + end;
    DigitsAreNoLF(d);
    EndsOnce(d + blanks + [59] + ext, end);
    assert line[..|d|] == d;
    assert line[|d| + |blanks|] == 59;
    if blanks == [] {
      assert SizeUpTo(line, |d|, Hex.Value(d));
    } else {
      assert line[|d|] == blanks[0];
      forall k | SizeUpTo(line, k, Hex.Value(d))
        ensures k == |d|
      {
        DigitsReach(line, k, |d|);
      }
    }
  }

  /** Digits up to two positions, with no digit at either, reach one position. */
  lemma DigitsReach(line: seq<byte>, j: nat, k: nat)
    requires j < |line| && k < |line| && Hex.AllDigits(line[..j]) && Hex.AllDigits(line[..k])
    requires Hex.DigitValue(line[j]) < 0 && Hex.DigitValue(line[k]) < 0
    ensures j == k
  {
    if j < k {
      DigitInside(line, k, j);
    } else if k < j {
      DigitInside(line, j, k);
    }
  }

  lemma DigitInside(line: seq<byte>, k: nat, i: nat)
    requires i < k <= |line| && Hex.AllDigits(line[..k])
    ensures Hex.DigitValue(line[i]) >= 0
  {
    assert line[..k][i] == line[i];
  }

  /** A chunk with a printed size and any extension text comes out as its data. */
  lemma ExtendedChunk(data: seq<byte>, ext: seq<byte>, end: seq<byte>, t: seq<byte>, cap: nat)
    requires data != [] && |data| < TWO64 && LF !in ext && LineEnd(end)
    requires var k := |Hex.Print(|data|)| + 1 + |ext| + |end|; k <= cap && k < MAX_LINE
    ensures Decode(0, false, (Hex.Print(|data|) + [59] + ext + end) + data + CRLF + t, cap)
         == Prepend(data, Decode(0, false, t, cap))
  {
    var d := Hex.Print(|data|);
    Hex.PrintParse(|data|);
    Hex.AcceptedSizes(d);
    ExtendedLine(d, [], ext, end, cap);
    assert d + [] == d;
    DecodeChunk(Chunk(d + [59] + ext + end, data), t, cap);
  }

  /** A line that fits but is no size line ends the decoding behind it: as too large if it starts with 17 digits,
      and as a bad byte otherwise. */
  lemma BadLine(line: seq<byte>, t: seq<byte>, cap: nat)
    requires EndsAtFirst(line, LF) && |line| <= cap && |line| < MAX_LINE
    requires forall size :: !SizeLine(line, size, cap)
    ensures Decode(0, false, line + t, cap)
         == Decoding([], Ended(if |line| > 17 && Hex.AllDigits(line[..17]) then ChunkTooLarge else BadHexByte), t)
  {
    var text := BeforeSemi(TrimRight(line));
    IndexByteAtEnd(line, t, LF);
    AppendParts(line, t);
    assert ChunkLine(line + t, cap) == Line(text, t);
    if Hex.ParseSize(text).Size? {
      SizeLineIff(line, Hex.ParseSize(text).n, cap);
    }
    FirstDigitsLeft(line);
  }

  /** A line and what is left of it start with the same 17 digits, if either does. */
  lemma FirstDigitsLeft(line: seq<byte>)
    requires EndsAtFirst(line, LF)
    ensures var text := BeforeSemi(TrimRight(line));
            |text| >= 17 && Hex.AllDigits(text[..17]) <==> |line| > 17 && Hex.AllDigits(line[..17])
  {
    var t, text := TrimRight(line), BeforeSemi(TrimRight(line));
    TrimTail(line);
    assert line[|line| - 1] == LF;
    if |line| > 17 && Hex.AllDigits(line[..17]) {
      assert forall i :: 0 <= i < 17 ==> line[i] == line[..17][i] && Hex.DigitValue(line[i]) >= 0;
      TrimKeeps(line, 16);
      SemiBehind(t, 17);
    }
    if |text| >= 17 {
      assert text[..17] == line[..17];
    }
  }

  /** A size line that is too long for the buffer or the limit ends the decoding. */
  lemma LongLine(line: seq<byte>, t: seq<byte>, cap: nat)
    requires if |line| >= MAX_LINE && |line| <= cap then EndsAtFirst(line, LF)
             else LF !in line && |line| == cap && t != []
    ensures Decode(0, false, line + t, cap) == Decoding([], Ended(LineTooLong), t)
  {
    AppendParts(line, t);
    if |line| >= MAX_LINE && EndsAtFirst(line, LF) {
      IndexByteAtEnd(line, t, LF);
    } else {
      AbsentBefore(line + t, LF, |line|);
    }
  }

  /** Two bytes behind the data that are not CR LF end the decoding behind them, with the data decoded. */
  lemma BadFooter(c: Chunk, end: seq<byte>, t: seq<byte>, cap: nat)
    requires ChunkOK(c, cap) && |end| == 2 && end != [13, 10]
    ensures Decode(0, false, c.line + (c.data + (end + t)), cap) == Decoding(c.data, Ended(MalformedChunk), t)
  {
    var body := c.data + (end + t);
    ReadSizeLine(c.line, |c.data|, body, cap);
    assert Decode(0, false, c.line + body, cap) == Decode(|c.data|, false, body, cap);
    AppendParts(c.data, end + t);
    AppendParts(end, t);
    assert Decode(0, true, end + t, cap) == Decoding([], Ended(MalformedChunk), t);
    assert c.data + [] == c.data;
  }

  predicate CutShort(d: Decoding, data: seq<byte>) {
    d.end == Ended(UnexpectedEOF) && d.rest == [] && d.out <= data
  }

  /** Input that ends inside a size line. */
  lemma CutInLine(line: seq<byte>, size: nat, k: nat, cap: nat)
    requires SizeLine(line, size, cap) && k < |line|
    ensures Decode(0, false, line[..k], cap) == Decoding([], Ended(UnexpectedEOF), [])
  {
    AbsentBefore(line, LF, |line| - 1);
    assert LF !in line[..k];
  }

  /** Input that ends inside a chunk's data or the CR LF after it. */
  lemma CutInData(data: seq<byte>, k: nat, cap: nat)
    requires data != [] && k < |data| + 2
    ensures CutShort(Decode(|data|, false, (data + CRLF)[..k], cap), data)
    ensures Decode(|data|, false, (data + CRLF)[..k], cap).out == if k < |data| then data[..k] else data
  {
    var t := (data + CRLF)[..k];
    if k < |data| {
      assert t == data[..k];
    } else {
      assert t[..|data|] == data;
      assert Decode(0, true, t[|data|..], cap) == Decoding([], Ended(UnexpectedEOF), []);
      assert data + [] == data;
    }
  }

  lemma CutInChunk(c: Chunk, t: seq<byte>, k: nat, cap: nat)
    requires ChunkOK(c, cap) && k < |c.line| + |c.data| + 2
    ensures CutShort(Decode(0, false, (c.line + c.data + CRLF + t)[..k], cap), c.data)
  {
    var s := c.line + c.data + CRLF + t;
    if k < |c.line| {
      assert s[..k] == c.line[..k];
      CutInLine(c.line, |c.data|, k, cap);
    } else {
      var j := k - |c.line|;
      assert s[..k] == c.line + (c.data + CRLF)[..j];
      ReadSizeLine(c.line, |c.data|, (c.data + CRLF)[..j], cap);
      CutInData(c.data, j, cap);
    }
  }

  lemma TakePast<T>(a: seq<T>, t: seq<T>, k: nat)
    requires |a| <= k <= |a + t|
    ensures (a + t)[..k] == a + t[..k - |a|]
  {
  }

  lemma CutBehind(data: seq<byte>, d: Decoding, more: seq<byte>)
    requires CutShort(d, more)
    ensures CutShort(Prepend(data, d), data + more)
  {
  }

  /** A whole chunk before input that is cut short. */
  lemma CutPast(c: Chunk, t: seq<byte>, more: seq<byte>, cap: nat)
    requires ChunkOK(c, cap) && CutShort(Decode(0, false, t, cap), more)
    ensures CutShort(Decode(0, false, c.line + c.data + CRLF + t, cap), c.data + more)
  {
    DecodeChunk(c, t, cap);
    CutBehind(c.data, Decode(0, false, t, cap), more);
  }

  /** A chunked body that starts with a chunk goes on as a chunked body. */
  lemma BodyTail(s: seq<byte>, cs: seq<Chunk>, last: seq<byte>, cap: nat) returns (head: seq<byte>, t: seq<byte>)
    requires ChunkedBody(s, cs, last, [], cap) && cs != []
    ensures head == cs[0].line + cs[0].data + CRLF && s == head + t
    ensures ChunkOK(cs[0], cap) && ChunkedBody(t, cs[1..], last, [], cap)
  {
    head, t := cs[0].line + cs[0].data + CRLF, Serial(cs[1..]) + (last + []);
    AppendAssoc(head, Serial(cs[1..]), last + []);
    assert cs[0] in cs && forall c :: c in cs[1..] ==> c in cs;
  }

  /** A chunked body cut anywhere before its end is never taken for a whole one: the decoder reports an
      unexpected end, after a prefix of the data. */
  lemma {:induction false} Truncated(s: seq<byte>, cs: seq<Chunk>, last: seq<byte>, k: nat, cap: nat)
    requires ChunkedBody(s, cs, last, [], cap) && k < |s|
    ensures CutShort(Decode(0, false, s[..k], cap), Data(cs))
    decreases |cs|
  {
    if cs == [] {
      assert s == last;
      CutInLine(last, 0, k, cap);
    } else {
      var head, t := BodyTail(s, cs, last, cap);
      if k < |head| {
        CutInChunk(cs[0], t, k, cap);
      } else {
        Truncated(t, cs[1..], last, k - |head|, cap);
        CutPast(cs[0], t[..k - |head|], Data(cs[1..]), cap);
        TakePast(head, t, k);
      }
    }
  }

  // ---------------------------------------------------------------- the encoder's output

  /** One Write: nothing for no data, which would look like the end. */
  function EncodeChunk(data: seq<byte>): seq<byte> {
    if data == [] then [] else Hex.Print(|data|) + CRLF + data + CRLF
  }

  /** What it sends: the size in lower-case hexadecimal without leading zeros, CR LF, the data, CR LF. */
  lemma SentChunk(data: seq<byte>) returns (h: seq<byte>)
    requires data != []
    ensures EncodeChunk(data) == h + [13, 10] + data + [13, 10]
    ensures forall b :: b in h ==> 48 <= b <= 57 || 97 <= b <= 102
    ensures h != [] && h[0] != 48 && Hex.AllDigits(h) && Hex.Value(h) == |data|
  {
    h := Hex.Print(|data|);
    Hex.PrintForm(|data|);
    Hex.PrintValue(|data|);
  }

  function EncodeChunks(ws: seq<seq<byte>>): seq<byte> {
    if ws == [] then [] else EncodeChunks(ws[..|ws| - 1]) + EncodeChunk(ws[|ws| - 1])
  }

  const LAST_CHUNK: seq<byte> := [48, 13, 10]

  /** The size line of a write fits the reader's buffer. */
  predicate Sendable(data: seq<byte>, cap: nat) {
    |data| < TWO64 && |Hex.Print(|data|)| + 2 <= cap
  }

  lemma PrintedSizeLine(size: nat, cap: nat)
    requires size < TWO64 && |Hex.Print(size)| + 2 <= cap
    ensures SizeLine(Hex.Print(size) + CRLF, size, cap)
  {
    var h := Hex.Print(size);
    Hex.PrintParse(size);
    Hex.AcceptedSizes(h);
    PlainLine(h, [], CRLF, cap);
    assert h + [] == h;
  }

  /** The writes that send anything, as chunks. */
  function ChunksOf(ws: seq<seq<byte>>): seq<Chunk> {
    if ws == [] then []
    else
      var w := ws[|ws| - 1];
      ChunksOf(ws[..|ws| - 1]) + if w == [] then [] else [Chunk(Hex.Print(|w|) + CRLF, w)]
  }

  lemma {:induction false} SerialAppend(cs: seq<Chunk>, c: Chunk)
    ensures Serial(cs + [c]) == Serial(cs) + (c.line + c.data + CRLF)
    ensures Data(cs + [c]) == Data(cs) + c.data
  {
    if cs == [] {
      assert ([c])[1..] == [];
    } else {
      var tail, e := cs[1..], c.line + c.data + CRLF;
      SerialAppend(tail, c);
      assert (cs + [c])[1..] == tail + [c];
      AppendAssoc(cs[0].line + cs[0].data + CRLF, Serial(tail), e);
      AppendAssoc(cs[0].data, Data(tail), c.data);
    }
  }

  lemma {:induction false} WritesAreChunks(ws: seq<seq<byte>>, cap: nat)
    requires forall w :: w in ws ==> Sendable(w, cap)
    ensures forall c :: c in ChunksOf(ws) ==> ChunkOK(c, cap)
    ensures Serial(ChunksOf(ws)) == EncodeChunks(ws) && Data(ChunksOf(ws)) == Flatten(ws)
  {
    if ws != [] {
      var w, front := ws[|ws| - 1], ws[..|ws| - 1];
      assert w in ws;
      WritesAreChunks(front, cap);
      if w == [] {
        assert ChunksOf(ws) == ChunksOf(front);
      } else {
        PrintedSizeLine(|w|, cap);
        SerialAppend(ChunksOf(front), Chunk(Hex.Print(|w|) + CRLF, w));
      }
    }
  }

  /** Any writes followed by Close decode to the concatenated data; what follows is left unread. */
  lemma ChunkRoundTrip(ws: seq<seq<byte>>, rest: seq<byte>, cap: nat)
    requires cap >= 3 && forall w :: w in ws ==> Sendable(w, cap)
    ensures Decode(0, false, EncodeChunks(ws) + (LAST_CHUNK + rest), cap) == Decoding(Flatten(ws), Ended(EOF), rest)
  {
    WritesAreChunks(ws, cap);
    PrintedSizeLine(0, cap);
    assert Hex.Print(0) + CRLF == LAST_CHUNK;
    BodyDecodes(EncodeChunks(ws) + (LAST_CHUNK + rest), ChunksOf(ws), LAST_CHUNK, rest, cap);
  }
}
