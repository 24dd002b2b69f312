/** The text messages of the RPC layer: how server/mqtt/request.go reads a stream as lines, header and
    body, how server/mqtt/server.go prints them, and that reading undoes printing. */
module MessageFormat {
  import opened Bytes
  import opened Bits
  import opened Streams
  import opened BufReader

  // ---------------------------------------------------------------- lines

  datatype LineResult = Line(text: seq<byte>, rest: seq<byte>) | NoLine

  /** An unterminated last line u, read in pieces of a full buffer, is lost when the pieces come out even. */
  predicate LostTail(u: seq<byte>, cap: nat)
    requires cap >= 2
  {
    LostFrom(u, 0, cap)
  }

  /** The pieces from position i of u on come out even. */
  predicate LostFrom(u: seq<byte>, i: nat, cap: nat)
    requires cap >= 2 && i <= |u|
    decreases |u| - i
  {
    if |u| - i < cap then i == |u| else LostFrom(u, if u[i + cap - 1] == CR then i + cap - 1 else i + cap, cap)
  }

  lemma {:induction false} LostBehind(p: seq<byte>, t: seq<byte>, i: nat, cap: nat)
    requires cap >= 2 && i <= |t|
    ensures LostFrom(p + t, |p| + i, cap) == LostFrom(t, i, cap)
    decreases |t| - i
  {
    if |t| - i >= cap {
      assert (p + t)[|p| + i + cap - 1] == t[i + cap - 1];
      LostBehind(p, t, if t[i + cap - 1] == CR then i + cap - 1 else i + cap, cap);
    }
  }

  /** A line without its LF or CR LF. */
  function StripEOL(line: seq<byte>): (s: seq<byte>) {
    if line != [] && line[|line| - 1] == LF then
      if |line| > 1 && line[|line| - 2] == CR then line[..|line| - 2] else line[..|line| - 1]
    else line
  }

  /** The line that ends at position i of u, and what follows it. */
  function CutAfter(u: seq<byte>, i: nat): LineResult
    requires i < |u|
  {
    Line(StripEOL(u[..i + 1]), u[i + 1..])
  }

  /** The next line of u without its end. An unterminated last line is lost only if the source is late: if it
      reports its end by itself, not together with the last bytes. */
  function LineOf(u: seq<byte>, cap: nat, late: bool): (l: LineResult)
    requires cap >= 2
    ensures l.Line? ==> |l.rest| < |u|
  {
    var i := IndexByte(u, LF);
    if i >= 0 then CutAfter(u, i)
    else if u == [] || (late && LostTail(u, cap)) then NoLine
    else Line(u, [])
  }

  /** A line whose first piece is p and that goes on as l. */
  function Joined(p: seq<byte>, l: LineResult): LineResult {
    match l
    case Line(text, rest) => Line(p + text, rest)
    case NoLine => NoLine
  }

  /** A line is its first piece and the line of what follows: the CR of a CR LF that straddles the end
      of the buffer stays with its LF. */
  lemma LineInPieces(u: seq<byte>, cap: nat, late: bool)
    requires cap >= 2 && |u| >= cap && LF !in u[..cap] && (late || PieceLen(u, cap) < |u|)
    ensures var k := PieceLen(u, cap); LineOf(u, cap, late) == Joined(u[..k], LineOf(u[k..], cap, late))
  {
    var k := PieceLen(u, cap);
    var p, t := u[..k], u[k..];
    AbsentBefore(u, LF, cap);
    assert u == p + t;
    if LF in t {
      EndedInPieces(p, t, cap, late);
    } else {
      UnendedInPieces(p, t, cap, late);
    }
  }

  lemma EndedInPieces(p: seq<byte>, t: seq<byte>, cap: nat, late: bool)
    requires cap >= 2 && p != [] && LF !in p && LF in t
    requires p[|p| - 1] == CR ==> t[0] != LF
    ensures LineOf(p + t, cap, late) == Joined(p, LineOf(t, cap, late))
  {
    TerminatedInPieces(p, t);
  }

  lemma UnendedInPieces(p: seq<byte>, t: seq<byte>, cap: nat, late: bool)
    requires cap >= 2 && LF !in p && LF !in t
    requires |p + t| >= cap && |p| == PieceLen(p + t, cap) && (late || t != [])
    ensures LineOf(p + t, cap, late) == Joined(p, LineOf(t, cap, late))
  {
    AbsentInBoth(p, t, LF);
    LostBehind(p, t, 0, cap);
    assert LostTail(p + t, cap) == LostTail(t, cap);
  }

  lemma AbsentInBoth(p: seq<byte>, t: seq<byte>, b: byte)
    requires b !in p && b !in t
    ensures b !in p + t && IndexByte(p + t, b) < 0
  {
  }

  /** A piece without LF before a terminated line, not cutting CR LF in two. */
  lemma TerminatedInPieces(p: seq<byte>, t: seq<byte>)
    requires p != [] && LF !in p && LF in t
    requires p[|p| - 1] == CR ==> t[0] != LF
    ensures var i, j := IndexByte(p + t, LF), IndexByte(t, LF);
            i == |p| + j && StripEOL((p + t)[..i + 1]) == p + StripEOL(t[..j + 1]) && (p + t)[i + 1..] == t[j + 1..]
  {
    var j := IndexByte(t, LF);
    assert (p + t)[..|p| + j] == p + t[..j];
    AbsentInBoth(p, t[..j], LF);
    IndexByteIs(p + t, LF, |p| + j);
    assert (p + t)[..|p| + j + 1] == p + t[..j + 1];
    StripInPieces(p, t[..j + 1]);
  }

  lemma StripInPieces(p: seq<byte>, t: seq<byte>)
    requires t != [] && t[|t| - 1] == LF
    requires |t| == 1 ==> p != [] && p[|p| - 1] != CR
    ensures StripEOL(p + t) == p + StripEOL(t)
  {
    var s := p + t;
    assert s[|s| - 1] == t[|t| - 1];
    if |t| > 1 {
      assert s[|s| - 2] == t[|t| - 2];
      assert s[..|s| - 2] == p + t[..|t| - 2];
    }
    assert s[..|s| - 1] == p + t[..|t| - 1];
  }

  lemma {:induction false} LostFromWithoutCR(u: seq<byte>, i: nat, cap: nat)
    requires cap >= 2 && i <= |u| && CR !in u
    ensures LostFrom(u, i, cap) <==> (|u| - i) % cap == 0
    decreases |u| - i
  {
    if |u| - i >= cap {
      assert u[i + cap - 1] in u;
      OneLess(|u| - i, cap);
      LostFromWithoutCR(u, i + cap, cap);
    } else {
      DivModUnique(|u| - i, cap, 0, |u| - i);
    }
  }

  /** Without a CR in it, a tail is lost exactly when its length is a multiple of the buffer's. */
  lemma LostTailWithoutCR(u: seq<byte>, cap: nat)
    requires cap >= 2 && CR !in u
    ensures LostTail(u, cap) <==> |u| % cap == 0
  {
    LostFromWithoutCR(u, 0, cap);
  }

  lemma OneLess(n: nat, m: nat)
    requires 0 < m <= n
    ensures n % m == (n - m) % m
  {
    var q, r := n / m, n % m;
    assert q > 0 by { assert q <= 0 ==> q * m <= 0; }
    assert (q - 1) * m == q * m - m;
    DivModUnique(n - m, m, q - 1, r);
  }

  lemma PrintedLine(line: seq<byte>, t: seq<byte>, cap: nat, late: bool)
    requires LF !in line && cap >= 2
    ensures LineOf(line + CRLF + t, cap, late) == Line(line, t)
  {
    var u := line + CRLF + t;
    assert u[..|line| + 1] == line + [CR];
    IndexByteIs(u, LF, |line| + 1);
    var l := u[..|line| + 2];
    assert l == line + CRLF && u[|line| + 2..] == t;
    assert l[..|l| - 2] == line;
  }

  lemma BareLine(line: seq<byte>, t: seq<byte>, cap: nat, late: bool)
    requires LF !in line && cap >= 2 && (line == [] || line[|line| - 1] != CR)
    ensures LineOf(line + [LF] + t, cap, late) == Line(line, t)
  {
    var u := line + [LF] + t;
    assert u[..|line|] == line;
    IndexByteIs(u, LF, |line|);
    var l := u[..|line| + 1];
    assert l == line + [LF] && u[|line| + 1..] == t;
    assert l[..|l| - 1] == line;
  }

  /** An unterminated last line without CR is lost exactly if it fills the buffer a whole number of times and the
      source reports its end by itself. */
  lemma LastLine(u: seq<byte>, cap: nat, late: bool)
    requires cap >= 2 && u != [] && LF !in u && CR !in u
    ensures LineOf(u, cap, late) == if late && |u| % cap == 0 then NoLine else Line(u, [])
  {
    LostTailWithoutCR(u, cap);
  }

  // ---------------------------------------------------------------- first line

  datatype FirstLine = FirstLine(method_: seq<byte>, uri: seq<byte>, proto: seq<byte>)

  /** The three parts of a line, cut at its first two spaces. */
  function SplitFirstLine(line: seq<byte>): Option<FirstLine> {
    var s1 := IndexByte(line, SP);
    var s2 := IndexByte(line[s1 + 1..], SP);
    if s1 < 0 || s2 < 0 then None
    else Some(FirstLine(line[..s1], line[s1 + 1..][..s2], line[s1 + 1 + s2 + 1..]))
  }

  lemma SplitPrinted(m: seq<byte>, uri: seq<byte>, proto: seq<byte>)
    requires SP !in m && SP !in uri
    ensures SplitFirstLine(m + [SP] + uri + [SP] + proto) == Some(FirstLine(m, uri, proto))
  {
    var line := m + [SP] + uri + [SP] + proto;
    assert line[..|m|] == m;
    IndexByteIs(line, SP, |m|);
    var t := uri + [SP] + proto;
    assert line[|m| + 1..] == t;
    assert t[..|uri|] == uri;
    IndexByteIs(t, SP, |uri|);
    assert line[|m| + 1 + |uri| + 1..] == proto;
  }

  lemma CutAtByte(s: seq<byte>, i: nat)
    requires i < |s|
    ensures s == s[..i] + [s[i]] + s[i + 1..]
  {
  }

  lemma JoinParts(a: seq<byte>, b: seq<byte>, c: seq<byte>)
    ensures a + [SP] + (b + [SP] + c) == a + [SP] + b + [SP] + c
  {
  }

  lemma PartsJoined(line: seq<byte>)
    ensures match SplitFirstLine(line)
            case Some(f) => line == f.method_ + [SP] + f.uri + [SP] + f.proto && SP !in f.method_ && SP !in f.uri
            case None => true
  {
    var s1 := IndexByte(line, SP);
    var t := line[s1 + 1..];
    var s2 := IndexByte(t, SP);
    if s1 >= 0 && s2 >= 0 {
      CutAtByte(line, s1);
      CutAtByte(t, s2);
      DropDrop(line, s1 + 1, s2 + 1);
      JoinParts(line[..s1], t[..s2], t[s2 + 1..]);
    }
  }

  /** A line has three parts exactly when it has two spaces; the third part may hold more. */
  lemma SplitFirstLineIff(line: seq<byte>, f: FirstLine)
    ensures SplitFirstLine(line) == Some(f)
       <==> line == f.method_ + [32] + f.uri + [32] + f.proto && 32 !in f.method_ && 32 !in f.uri
  {
    PartsJoined(line);
    if line == f.method_ + [32] + f.uri + [32] + f.proto && 32 !in f.method_ && 32 !in f.uri {
      SplitPrinted(f.method_, f.uri, f.proto);
    }
  }

  // ---------------------------------------------------------------- headers

  type Header = map<seq<byte>, seq<seq<byte>>>

  predicate Blank(b: byte) {
    b == SP || b == TAB
  }

  function SkipBlanks(s: seq<byte>): (t: seq<byte>)
    ensures |t| <= |s|
    ensures t != [] ==> !Blank(t[0])
  {
    if s != [] && Blank(s[0]) then SkipBlanks(s[1..]) else s
  }

  function DropBlanks(s: seq<byte>): (t: seq<byte>)
    ensures t <= s && (t != [] ==> !Blank(t[|t| - 1]))
  {
    if s != [] && Blank(s[|s| - 1]) then DropBlanks(s[..|s| - 1]) else s
  }

  /** A line without leading and trailing spaces and tabs. */
  function Trim(s: seq<byte>): seq<byte> {
    DropBlanks(SkipBlanks(s))
  }

  predicate Upper(b: byte) {
    65 <= b <= 90
  }

  /** A byte that may occur in a header name (`token` of RFC 9110, section 5.6.2). */
  predicate TokenByte(b: byte) {
    IsASCIILower(b) || Upper(b) || IsASCIIDigit(b)
    || b in [33, 35, 36, 37, 38, 39, 42, 43, 45, 46, 94, 95, 96, 124, 126]
  }

  function Capitalised(s: seq<byte>, upper: bool): (t: seq<byte>)
    ensures |t| == |s|
  {
    if s == [] then []
    else
      [if upper && IsASCIILower(s[0]) then s[0] - 32 else if !upper && Upper(s[0]) then s[0] + 32 else s[0]]
      + Capitalised(s[1..], s[0] == 45)
  }

  /** `textproto.CanonicalMIMEHeaderKey`. */
  function Canonical(k: seq<byte>): seq<byte> {
    if Token(k) then Capitalised(k, true) else k
  }

  predicate Token(k: seq<byte>) {
    forall i :: 0 <= i < |k| ==> TokenByte(k[i])
  }

  /** Token bytes are the visible ASCII characters but for the delimiters `"(),/:;<=>?@[\]{}`. */
  lemma TokenBytes(b: byte)
    ensures TokenByte(b) <==>
            33 <= b <= 126 && b !in [34, 40, 41, 44, 47, 58, 59, 60, 61, 62, 63, 64, 91, 92, 93, 123, 125]
  {
  }

  /** The same letter, maybe in the other case, or the same byte. */
  predicate SameLetter(a: byte, b: byte) {
    a == b || (65 <= a <= 90 && b == a + 32) || (65 <= b <= 90 && a == b + 32)
  }

  /** Equal up to ASCII case. */
  predicate SameButCase(a: seq<byte>, b: seq<byte>) {
    |a| == |b| && forall i :: 0 <= i < |a| ==> SameLetter(a[i], b[i])
  }

  /** The right case at position i: a capital at the start, if wanted, and after hyphens. */
  predicate RightCase(s: seq<byte>, upper: bool, i: nat)
    requires i < |s|
  {
    if (if i == 0 then upper else s[i - 1] == 45) then !IsASCIILower(s[i]) else !Upper(s[i])
  }

  predicate WellCapitalised(s: seq<byte>, upper: bool) {
    forall i {:trigger RightCase(s, upper, i)} :: 0 <= i < |s| ==> RightCase(s, upper, i)
  }

  /** A field of this name is filed under k: a name of token bytes under the same letters with a capital at the
      start and after every hyphen and small letters elsewhere, and any other name under itself. */
  predicate Named(name: seq<byte>, k: seq<byte>) {
    if Token(name) then SameButCase(name, k) && WellCapitalised(k, true) else k == name
  }

  lemma {:induction false} CapitalisedForm(s: seq<byte>, upper: bool)
    ensures SameButCase(s, Capitalised(s, upper)) && WellCapitalised(Capitalised(s, upper), upper)
  {
    if s != [] {
      var c, t, up := Capitalised(s, upper), Capitalised(s[1..], s[0] == 45), s[0] == 45;
      CapitalisedForm(s[1..], up);
      assert c == [c[0]] + t && (c[0] == 45 <==> up);
      forall i | 0 <= i < |s|
        ensures SameLetter(s[i], c[i]) && RightCase(c, upper, i)
      {
        if i > 0 {
          assert SameLetter(s[1..][i - 1], t[i - 1]) && RightCase(t, up, i - 1);
        }
      }
    }
  }

  /** Names equal up to case and in the right case throughout are equal. */
  lemma OneCapitalisation(name: seq<byte>, a: seq<byte>, b: seq<byte>)
    requires SameButCase(name, a) && WellCapitalised(a, true) && SameButCase(name, b) && WellCapitalised(b, true)
    ensures a == b
  {
    forall i | 0 <= i < |a|
      ensures a[i] == b[i]
    {
      assert SameLetter(name[i], a[i]) && SameLetter(name[i], b[i]);
      assert i > 0 ==> SameLetter(name[i - 1], a[i - 1]) && SameLetter(name[i - 1], b[i - 1]);
      assert RightCase(a, true, i) && RightCase(b, true, i);
    }
  }

  lemma CanonicalIs(name: seq<byte>, k: seq<byte>)
    ensures Canonical(name) == k <==> Named(name, k)
  {
    CapitalisedForm(name, true);
    if Token(name) && Named(name, k) {
      OneCapitalisation(name, Canonical(name), k);
    }
  }

  /** Names of token bytes that are equal up to case have one canonical name. */
  lemma CanonicalOfAnyCase(a: seq<byte>, b: seq<byte>)
    requires Token(a) && SameButCase(a, b)
    ensures Token(b) && Canonical(a) == Canonical(b)
  {
    forall i | 0 <= i < |b|
      ensures TokenByte(b[i])
    {
      assert TokenByte(a[i]) && SameLetter(a[i], b[i]);
    }
    CapitalisedForm(a, true);
    CapitalisedForm(b, true);
    var c := Canonical(b);
    forall i | 0 <= i < |c|
      ensures SameLetter(a[i], c[i])
    {
      assert SameLetter(a[i], b[i]) && SameLetter(b[i], c[i]);
    }
    OneCapitalisation(a, Canonical(a), c);
  }

  /** A canonical name of token bytes is that of every name equal to it up to case. */
  lemma NamedInAnyCase(name: seq<byte>, k: seq<byte>)
    requires Token(k) && WellCapitalised(k, true) && SameButCase(name, k)
    ensures Named(name, k)
  {
    forall i | 0 <= i < |k|
      ensures SameLetter(k[i], name[i])
    {
      assert SameLetter(name[i], k[i]);
    }
    CanonicalOfAnyCase(k, name);
  }

  /** `Header.Add`. */
  function Add(h: Header, k: seq<byte>, v: seq<byte>): Header {
    var c := Canonical(k);
    h[c := (if c in h then h[c] else []) + [v]]
  }

  /** `Header.Get` of a canonical name. */
  function Get(h: Header, k: seq<byte>): seq<byte> {
    if k in h && h[k] != [] then h[k][0] else []
  }

  /** All values of a header, if it is there. */
  function Values(h: Header, k: seq<byte>): seq<seq<byte>> {
    if k in h then h[k] else []
  }

  const HOST: seq<byte> := [72, 111, 115, 116]

  /** The header collected, the body, the error if any, and what is left unread. */
  datatype HeaderResult = HeaderResult(header: Header, body: seq<byte>, err: Option<Error>, rest: seq<byte>)

  /** The body: up to and with the first zero byte, or all that is left if that fits the buffer; exactly a
      buffer full is too much for a late source. */
  function BodyOf(h: Header, u: seq<byte>, cap: nat, late: bool): HeaderResult {
    var i := IndexByte(u, 0);
    if 0 <= i < cap then HeaderResult(h, u[..i + 1], None, u[i + 1..])
    else if |u| > cap || (late && |u| == cap) then HeaderResult(h, u[..cap], Some(BufferFull), u[cap..])
    else HeaderResult(h, u, Some(EOF), [])
  }

  datatype HeaderLine = EmptyLine | BadLine | FieldLine(name: seq<byte>, value: seq<byte>)

  /** A header line, cut at its first colon. */
  function SplitHeaderLine(l: seq<byte>): HeaderLine {
    SplitTrimmed(Trim(l))
  }

  function SplitTrimmed(t: seq<byte>): HeaderLine {
    if t == [] then EmptyLine
    else
      var i := IndexByte(t, COLON);
      if i <= 0 then BadLine else FieldLine(t[..i], SkipBlanks(t[i + 1..]))
  }

  function ParseHeaders(h: Header, u: seq<byte>, cap: nat, late: bool): HeaderResult
    requires cap >= 2
    decreases |u|
  {
    match LineOf(u, cap, late)
    case NoLine => HeaderResult(h, [], Some(EOF), [])
    case Line(l, rest) =>
      match SplitHeaderLine(l)
      case EmptyLine => BodyOf(h, rest, cap, late)
      case BadLine => HeaderResult(h, [], Some(MalformedHeader), rest)
      case FieldLine(k, v) => ParseHeaders(Add(h, k, v), rest, cap, late)
  }

  // ---------------------------------------------------------------- messages

  datatype Message = Message(first: FirstLine, host: seq<byte>, header: Header, body: seq<byte>)

  datatype Reading = Accepted(msg: Message) | Rejected(err: Error)

  /** A first line with a header and body; running out of input in them is no error. */
  function MessageWith(first: FirstLine, r: HeaderResult): Reading {
    if r.err.Some? && r.err.value != EOF then Rejected(r.err.value)
    else Accepted(Message(first, Get(r.header, HOST), r.header, r.body))
  }

  /** What ReadRequest makes of a whole input. */
  function ParseMessage(u: seq<byte>, cap: nat, late: bool): Reading
    requires cap >= 2
  {
    match LineOf(u, cap, late)
    case NoLine => Rejected(EOF)
    case Line(l, rest) =>
      match SplitFirstLine(l)
      case None => Rejected(MalformedRequest)
      case Some(first) => MessageWith(first, ParseHeaders(map[], rest, cap, late))
  }

  datatype Field = Field(name: seq<byte>, value: seq<byte>)

  function PrintField(f: Field): seq<byte> {
    f.name + [COLON, SP] + f.value + CRLF
  }

  function PrintFields(fs: seq<Field>): seq<byte> {
    if fs == [] then [] else PrintField(fs[0]) + PrintFields(fs[1..])
  }

  /** A first line, headers, an empty line and a body, as the print helpers write them. */
  function PrintMessage(first: seq<byte>, fs: seq<Field>, body: seq<byte>): seq<byte> {
    first + CRLF + (PrintFields(fs) + (CRLF + body))
  }

  function AddAll(h: Header, fs: seq<Field>): Header
    decreases |fs|
  {
    if fs == [] then h else AddAll(Add(h, fs[0].name, fs[0].value), fs[1..])
  }

  /** A name without colon, line feed or leading blank, and a value without line feed or edge blanks. */
  predicate Printable(f: Field) {
    && f.name != [] && COLON !in f.name && LF !in f.name && !Blank(f.name[0])
    && LF !in f.value
    && (f.value != [] ==> !Blank(f.value[0]) && !Blank(f.value[|f.value| - 1]))
  }

  function AfterColon(f: Field): seq<byte> {
    if f.value == [] then [] else [SP] + f.value
  }

  lemma DropOneBlank(t: seq<byte>)
    requires t != [] && !Blank(t[|t| - 1])
    ensures DropBlanks(t + [SP]) == t
  {
    assert (t + [SP])[..|t|] == t;
  }

  /** What is left of a printed field's line: without its blank end if the value is empty. */
  lemma TrimPrintedField(f: Field)
    requires Printable(f)
    ensures Trim(f.name + [COLON, SP] + f.value) == f.name + [COLON] + AfterColon(f)
  {
    var line := f.name + [COLON, SP] + f.value;
    assert line[0] == f.name[0];
    assert SkipBlanks(line) == line;
    if f.value == [] {
      DropOneBlank(f.name + [COLON]);
      assert line == f.name + [COLON] + [SP];
    } else {
      assert line == f.name + [COLON] + ([SP] + f.value);
      assert line[|line| - 1] == f.value[|f.value| - 1];
    }
  }

  lemma SplitAtColon(name: seq<byte>, after: seq<byte>)
    requires name != [] && COLON !in name
    ensures SplitTrimmed(name + [COLON] + after) == FieldLine(name, SkipBlanks(after))
  {
    var t := name + [COLON] + after;
    assert t[..|name|] == name && t[|name| + 1..] == after;
    IndexByteIs(t, COLON, |name|);
  }

  lemma SkipOneBlank(v: seq<byte>)
    requires v != [] && !Blank(v[0])
    ensures SkipBlanks([SP] + v) == v
  {
    assert ([SP] + v)[1..] == v;
  }

  lemma SplitPrintedField(f: Field)
    requires Printable(f)
    ensures SplitHeaderLine(f.name + [COLON, SP] + f.value) == FieldLine(f.name, f.value)
  {
    TrimPrintedField(f);
    SplitAtColon(f.name, AfterColon(f));
    if f.value != [] {
      SkipOneBlank(f.value);
    }
  }

  /** Spaces and tabs. */
  predicate AllBlank(s: seq<byte>) {
    forall i :: 0 <= i < |s| ==> s[i] == 32 || s[i] == 9
  }

  lemma {:induction false} SkipLead(lead: seq<byte>, t: seq<byte>)
    requires AllBlank(lead) && (t == [] || !Blank(t[0]))
    ensures SkipBlanks(lead + t) == t
  {
    if lead == [] {
      assert [] + t == t;
    } else {
      assert (lead + t)[0] == lead[0] && (lead + t)[1..] == lead[1..] + t;
      SkipLead(lead[1..], t);
    }
  }

  lemma {:induction false} DropTrail(t: seq<byte>, trail: seq<byte>)
    requires AllBlank(trail) && (t == [] || !Blank(t[|t| - 1]))
    ensures DropBlanks(t + trail) == t
  {
    if trail == [] {
      assert t + [] == t;
    } else {
      var n := |trail| - 1;
      assert (t + trail)[|t + trail| - 1] == trail[n] && (t + trail)[..|t| + n] == t + trail[..n];
      DropTrail(t, trail[..n]);
    }
  }

  /** Trimming takes away the blanks at both ends and nothing else. */
  lemma TrimEnds(lead: seq<byte>, t: seq<byte>, trail: seq<byte>)
    requires AllBlank(lead) && AllBlank(trail)
    requires t != [] ==> !Blank(t[0]) && !Blank(t[|t| - 1])
    ensures Trim(lead + t + trail) == t
  {
    if t == [] {
      assert lead + t + trail == lead + trail + [];
      SkipLead(lead + trail, []);
    } else {
      assert (t + trail)[0] == t[0];
      AppendAssoc(lead, t, trail);
      SkipLead(lead, t + trail);
      DropTrail(t, trail);
    }
  }

  /** A header line of any form: blanks around it are dropped, and so are those in front of the value. A line of
      blanks ends the header, and a line without a colon, or with no name in front of it, is malformed. */
  lemma HeaderLines(lead: seq<byte>, t: seq<byte>, trail: seq<byte>)
    requires AllBlank(lead) && AllBlank(trail)
    requires t != [] ==> !Blank(t[0]) && !Blank(t[|t| - 1])
    ensures t == [] ==> SplitHeaderLine(lead + t + trail) == EmptyLine
    ensures t != [] && (58 !in t || t[0] == 58) ==> SplitHeaderLine(lead + t + trail) == BadLine
    ensures forall name, pad, value :: IsField(t, name, pad, value) ==>
              SplitHeaderLine(lead + t + trail) == FieldLine(name, value)
  {
    TrimEnds(lead, t, trail);
    forall name, pad, value | IsField(t, name, pad, value)
      ensures SplitTrimmed(t) == FieldLine(name, value)
    {
      SplitAtColon(name, pad + value);
      SkipLead(pad, value);
    }
  }

  /** A name without colon, a colon, blanks, and a value. */
  predicate IsField(t: seq<byte>, name: seq<byte>, pad: seq<byte>, value: seq<byte>) {
    && t == name + [58] + (pad + value)
    && name != [] && 58 !in name && AllBlank(pad) && (value != [] ==> !Blank(value[0]))
  }

  lemma FieldHasNoLF(f: Field)
    requires Printable(f)
    ensures LF !in f.name + [COLON, SP] + f.value
  {
    assert LF !in [COLON, SP];
    assert LF !in f.name + [COLON, SP];
  }

  lemma ParseField(h: Header, f: Field, t: seq<byte>, cap: nat, late: bool)
    requires cap >= 2 && Printable(f)
    ensures ParseHeaders(h, PrintField(f) + t, cap, late) == ParseHeaders(Add(h, f.name, f.value), t, cap, late)
  {
    var line := f.name + [COLON, SP] + f.value;
    FieldHasNoLF(f);
    PrintedLine(line, t, cap, late);
    SplitPrintedField(f);
  }

  lemma ParseEmptyLine(h: Header, body: seq<byte>, cap: nat, late: bool)
    requires cap >= 2
    ensures ParseHeaders(h, CRLF + body, cap, late) == BodyOf(h, body, cap, late)
  {
    PrintedLine([], body, cap, late);
    assert [] + CRLF + body == CRLF + body;
  }

  lemma {:induction false} ParseFields(h: Header, fs: seq<Field>, t: seq<byte>, cap: nat, late: bool)
    requires cap >= 2 && forall f :: f in fs ==> Printable(f)
    ensures ParseHeaders(h, PrintFields(fs) + t, cap, late) == ParseHeaders(AddAll(h, fs), t, cap, late)
    decreases |fs|
  {
    if fs == [] {
      assert [] + t == t;
    } else {
      var f, t' := fs[0], PrintFields(fs[1..]) + t;
      AppendAssoc(PrintField(f), PrintFields(fs[1..]), t);
      ParseField(h, f, t', cap, late);
      assert forall g :: g in fs[1..] ==> g in fs;
      ParseFields(Add(h, f.name, f.value), fs[1..], t, cap, late);
    }
  }

  lemma ParsePrintedHeaders(h: Header, fs: seq<Field>, body: seq<byte>, cap: nat, late: bool)
    requires cap >= 2 && forall f :: f in fs ==> Printable(f)
    ensures ParseHeaders(h, PrintFields(fs) + (CRLF + body), cap, late) == BodyOf(AddAll(h, fs), body, cap, late)
  {
    ParseFields(h, fs, CRLF + body, cap, late);
    ParseEmptyLine(AddAll(h, fs), body, cap, late);
  }

  /** What arrives of a body: nothing after its first zero byte, and nothing at all if it does not fit. */
  function Delivered(body: seq<byte>, cap: nat, late: bool): Option<seq<byte>> {
    var i := IndexByte(body, 0);
    if 0 <= i < cap then Some(body[..i + 1])
    else if |body| > cap || (late && |body| == cap) then None
    else Some(body)
  }

  /** A body arrives whole exactly when no zero byte comes before its end and it is shorter than the
      buffer, or fills it and ends with a zero byte or the source is not late. */
  lemma DeliveredWhole(body: seq<byte>, cap: nat, late: bool)
    requires cap > 0
    ensures Delivered(body, cap, late) == Some(body) <==>
            && (forall i :: 0 <= i < |body| - 1 ==> body[i] != 0)
            && (|body| < cap || (|body| == cap && (!late || body[cap - 1] == 0)))
  {
    var i, n := IndexByte(body, 0), |body|;
    if i >= 0 {
      AbsentBefore(body, 0, i);
      assert |body[..i + 1]| == i + 1;
      assert i == n - 1 ==> body[..i + 1] == body;
    }
  }

  /** A zero byte within the first buffer full ends the body and is part of it; behind them it comes too late. */
  lemma ZeroEnds(b: seq<byte>, t: seq<byte>, cap: nat, late: bool)
    requires 0 !in b
    ensures Delivered(b + [0] + t, cap, late) == if |b| < cap then Some(b + [0]) else None
  {
    var body := b + [0] + t;
    assert body[..|b|] == b && body[..|b| + 1] == b + [0];
    IndexByteIs(body, 0, |b|);
  }

  /** What a body with a zero byte within the first buffer full is read as, and what it leaves unread. */
  lemma EndedBody(h: Header, b: seq<byte>, t: seq<byte>, cap: nat, late: bool)
    requires 0 !in b && |b| < cap
    ensures BodyOf(h, b + [0] + t, cap, late) == HeaderResult(h, b + [0], None, t)
  {
    var z := b + [0];
    assert z[..|b|] == b;
    IndexByteAtEnd(z, t, 0);
    AppendParts(z, t);
  }

  /** And a longer one without. */
  lemma LongBody(h: Header, b: seq<byte>, t: seq<byte>, cap: nat, late: bool)
    requires 0 !in b && |b| == cap && (t != [] || late)
    ensures BodyOf(h, b + t, cap, late) == HeaderResult(h, b, Some(BufferFull), t)
  {
    AppendParts(b, t);
    AbsentBefore(b + t, 0, |b|);
  }

  /** The values, in order, of the fields that are filed under k. */
  function ValuesOf(fs: seq<Field>, k: seq<byte>): seq<seq<byte>>
    decreases |fs|
  {
    if fs == [] then []
    else (if Named(fs[0].name, k) then [fs[0].value] else []) + ValuesOf(fs[1..], k)
  }

  /** Adding fields to a header puts their values behind those it has. */
  lemma {:induction false} ValuesAdded(h: Header, fs: seq<Field>, k: seq<byte>)
    ensures Values(AddAll(h, fs), k) == Values(h, k) + ValuesOf(fs, k)
    ensures k in AddAll(h, fs) <==> k in h || ValuesOf(fs, k) != []
    decreases |fs|
  {
    if fs != [] {
      var h1 := Add(h, fs[0].name, fs[0].value);
      var one := if Named(fs[0].name, k) then [fs[0].value] else [];
      CanonicalIs(fs[0].name, k);
      assert Values(h1, k) == Values(h, k) + one;
      ValuesAdded(h1, fs[1..], k);
      AppendAssoc(Values(h, k), one, ValuesOf(fs[1..], k));
    }
  }

  /** The header holds the fields, every one under its canonical name, in order, and nothing else. */
  ghost predicate Holds(h: Header, fs: seq<Field>) {
    && (forall k :: Values(h, k) == ValuesOf(fs, k))
    && (forall k :: k in h <==> ValuesOf(fs, k) != [])
  }

  lemma AddedHolds(fs: seq<Field>)
    ensures Holds(AddAll(map[], fs), fs)
    ensures Get(AddAll(map[], fs), HOST) == First(ValuesOf(fs, HOST))
  {
    forall k
      ensures Values(AddAll(map[], fs), k) == ValuesOf(fs, k) && (k in AddAll(map[], fs) <==> ValuesOf(fs, k) != [])
    {
      ValuesAdded(map[], fs, k);
    }
  }

  /** A field is among the values of a canonical name that its own equals up to case. */
  lemma {:induction false} ValueInAnyCase(fs: seq<Field>, f: Field, k: seq<byte>)
    requires f in fs && Token(k) && WellCapitalised(k, true) && SameButCase(f.name, k)
    ensures f.value in ValuesOf(fs, k)
    decreases |fs|
  {
    if fs[0] == f {
      NamedInAnyCase(f.name, k);
    } else {
      ValueInAnyCase(fs[1..], f, k);
    }
  }

  function First(vs: seq<seq<byte>>): seq<byte> {
    if vs == [] then [] else vs[0]
  }

  /** Printing a message and reading it gives its parts back: the first line, every header value under its
      canonical name, in order, and as much of the body as is delivered. A body without zero bytes is
      accepted exactly when it is shorter than the reader's buffer, or as long and the source is not late. */
  lemma MessageRoundTrip(m: seq<byte>, uri: seq<byte>, proto: seq<byte>, fs: seq<Field>, body: seq<byte>,
                         cap: nat, late: bool)
    requires cap >= 2 && SP !in m && SP !in uri && LF !in m && LF !in uri && LF !in proto
    requires forall f :: f in fs ==> Printable(f)
    ensures var r := ParseMessage(PrintMessage(m + [SP] + uri + [SP] + proto, fs, body), cap, late);
            match Delivered(body, cap, late)
            case Some(b) =>
              && r.Accepted? && r.msg.first == FirstLine(m, uri, proto) && r.msg.body == b
              && Holds(r.msg.header, fs) && r.msg.host == First(ValuesOf(fs, HOST))
              && (forall f, k :: f in fs && Token(k) && WellCapitalised(k, true) && SameButCase(f.name, k) ==>
                    f.value in Values(r.msg.header, k))
            case None => r == Rejected(BufferFull)
    ensures 0 !in body ==>
              Delivered(body, cap, late) == if |body| < cap || (|body| == cap && !late) then Some(body) else None
  {
    var first, t := m + [SP] + uri + [SP] + proto, PrintFields(fs) + (CRLF + body);
    SplitPrinted(m, uri, proto);
    FirstLineHasNoLF(m, uri, proto);
    ParsePrintedHeaders(map[], fs, body, cap, late);
    ParsePrintedMessage(first, t, cap, late);
    AddedHolds(fs);
    forall f, k | f in fs && Token(k) && WellCapitalised(k, true) && SameButCase(f.name, k)
      ensures f.value in Values(AddAll(map[], fs), k)
    {
      ValueInAnyCase(fs, f, k);
    }
  }

  lemma FieldsThenEnd(fs: seq<Field>, line: seq<byte>, t: seq<byte>, cap: nat, late: bool)
    requires cap >= 2 && forall f :: f in fs ==> Printable(f)
    requires LF !in line && SplitHeaderLine(line) == BadLine
    ensures ParseHeaders(map[], PrintFields(fs), cap, late) == HeaderResult(AddAll(map[], fs), [], Some(EOF), [])
    ensures ParseHeaders(map[], PrintFields(fs) + (line + CRLF + t), cap, late)
         == HeaderResult(AddAll(map[], fs), [], Some(MalformedHeader), t)
  {
    ParseFields(map[], fs, [], cap, late);
    assert PrintFields(fs) + [] == PrintFields(fs);
    ParseFields(map[], fs, line + CRLF + t, cap, late);
    PrintedLine(line, t, cap, late);
  }

  /** Input that ends in the header is a message without a body. */
  lemma CutHeader(m: seq<byte>, uri: seq<byte>, proto: seq<byte>, fs: seq<Field>, cap: nat, late: bool)
    requires cap >= 2 && SP !in m && SP !in uri && LF !in m && LF !in uri && LF !in proto
    requires forall f :: f in fs ==> Printable(f)
    ensures var r := ParseMessage(m + [SP] + uri + [SP] + proto + CRLF + PrintFields(fs), cap, late);
            r.Accepted? && r.msg.first == FirstLine(m, uri, proto) && Holds(r.msg.header, fs) && r.msg.body == []
  {
    SplitPrinted(m, uri, proto);
    FirstLineHasNoLF(m, uri, proto);
    ParsePrintedMessage(m + [SP] + uri + [SP] + proto, PrintFields(fs), cap, late);
    ParseFields(map[], fs, [], cap, late);
    assert PrintFields(fs) + [] == PrintFields(fs);
    AddedHolds(fs);
  }

  /** Nothing to read, a first line with less than two spaces, and a malformed header line are rejected. */
  lemma RejectedMessages(line: seq<byte>, a: seq<byte>, b: seq<byte>, t: seq<byte>, cap: nat, late: bool)
    requires cap >= 2 && LF !in line && SP !in a && SP !in b
    ensures ParseMessage([], cap, late) == Rejected(EOF)
    ensures line == a || line == a + [SP] + b ==> ParseMessage(line + CRLF + t, cap, late) == Rejected(MalformedRequest)
  {
    PrintedLine(line, t, cap, late);
    if line == a || line == a + [SP] + b {
      NotThreeParts(line, a, b);
    }
  }

  lemma NotThreeParts(line: seq<byte>, a: seq<byte>, b: seq<byte>)
    requires SP !in a && SP !in b && (line == a || line == a + [SP] + b)
    ensures SplitFirstLine(line) == None
  {
    if line == a + [SP] + b {
      assert line[..|a|] == a && line[|a| + 1..] == b;
      IndexByteIs(line, SP, |a|);
    }
  }

  /** A malformed header line behind any printed fields rejects the message, whatever follows. */
  lemma RejectedHeader(m: seq<byte>, uri: seq<byte>, proto: seq<byte>, fs: seq<Field>, line: seq<byte>, t: seq<byte>,
                       cap: nat, late: bool)
    requires cap >= 2 && SP !in m && SP !in uri && LF !in m && LF !in uri && LF !in proto
    requires forall f :: f in fs ==> Printable(f)
    requires line != [] && !Blank(line[0]) && !Blank(line[|line| - 1]) && LF !in line
    requires COLON !in line || line[0] == COLON
    ensures ParseMessage(m + [SP] + uri + [SP] + proto + CRLF + (PrintFields(fs) + (line + CRLF + t)), cap, late)
         == Rejected(MalformedHeader)
  {
    SplitPrinted(m, uri, proto);
    FirstLineHasNoLF(m, uri, proto);
    ParsePrintedMessage(m + [SP] + uri + [SP] + proto, PrintFields(fs) + (line + CRLF + t), cap, late);
    NoField(line);
    FieldsThenEnd(fs, line, t, cap, late);
  }

  lemma NoField(line: seq<byte>)
    requires line != [] && !Blank(line[0]) && !Blank(line[|line| - 1]) && (COLON !in line || line[0] == COLON)
    ensures SplitHeaderLine(line) == BadLine
  {
    assert Trim(line) == line;
  }

  lemma FirstLineHasNoLF(m: seq<byte>, uri: seq<byte>, proto: seq<byte>)
    requires LF !in m && LF !in uri && LF !in proto
    ensures LF !in m + [SP] + uri + [SP] + proto
  {
    assert LF !in [SP];
    assert LF !in m + [SP];
    assert LF !in m + [SP] + uri;
    assert LF !in m + [SP] + uri + [SP];
  }

  lemma ParsePrintedMessage(first: seq<byte>, t: seq<byte>, cap: nat, late: bool)
    requires cap >= 2 && LF !in first && SplitFirstLine(first).Some?
    ensures ParseMessage(first + CRLF + t, cap, late)
         == MessageWith(SplitFirstLine(first).value, ParseHeaders(map[], t, cap, late))
  {
    PrintedLine(first, t, cap, late);
  }

  /** No message is read with a space or line feed in its URI: such a URI is never the one looked up. */
  lemma ParsedURIIsPlain(u: seq<byte>, cap: nat, late: bool)
    requires cap >= 2
    ensures var r := ParseMessage(u, cap, late); r.Accepted? ==> SP !in r.msg.first.uri && LF !in r.msg.first.uri
  {
    var l := LineOf(u, cap, late);
    if l.Line? {
      LineHasNoLF(u, cap, late);
      SplitURIIsPlain(l.text);
    }
  }

  lemma LineHasNoLF(u: seq<byte>, cap: nat, late: bool)
    requires cap >= 2 && LineOf(u, cap, late).Line?
    ensures LF !in LineOf(u, cap, late).text
  {
    var i := IndexByte(u, LF);
    if i >= 0 {
      var l := u[..i + 1];
      AbsentBefore(u, LF, i);
      assert forall k :: 0 <= k < |StripEOL(l)| ==> StripEOL(l)[k] == u[k];
    }
  }

  lemma SplitURIIsPlain(line: seq<byte>)
    requires LF !in line
    ensures var f := SplitFirstLine(line); f.Some? ==> SP !in f.value.uri && LF !in f.value.uri
  {
    var s1 := IndexByte(line, SP);
    var t := line[s1 + 1..];
    var s2 := IndexByte(t, SP);
    assert s2 >= 0 ==> forall k :: 0 <= k < s2 ==> t[..s2][k] == line[s1 + 1 + k];
  }
}
