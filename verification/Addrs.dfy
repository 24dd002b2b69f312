/** The broker address normaliser of broker/mqtt/utils.go. */
module Addrs {
  import opened Bytes
  import opened Decimal
  import opened Strings

  const SLASH: byte := 47
  const SCHEME_END: seq<byte> := [COLON, SLASH, SLASH]
  const TCP: seq<byte> := [116, 99, 112]
  const SSL: seq<byte> := [115, 115, 108]
  const WS: seq<byte> := [119, 115]

  datatype Address = Address(scheme: seq<byte>, host: seq<byte>, port: int)

  predicate Scheme(s: seq<byte>) {
    s == TCP || s == SSL || s == WS
  }

  /** A known scheme, a host without colon and a 64-bit port. */
  predicate WellFormed(a: Address) {
    Scheme(a.scheme) && COLON !in a.host && MIN_INT64 <= a.port <= MAX_INT64
  }

  /** `fmt.Sprintf("%s://%s:%d", scheme, host, port)` */
  function PrintAddress(a: Address): seq<byte> {
    a.scheme + SCHEME_END + (a.host + [COLON] + Print(a.port))
  }

  const LOCAL: Address := Address(TCP, [49, 50, 55, 46, 48, 46, 48, 46, 49], 1883)   // 127.0.0.1

  function DefaultPort(scheme: seq<byte>): int {
    if scheme == SSL then 8883 else if scheme == WS then 80 else 1883
  }

  /** The address that a string stands for: text after a second `://` or a second colon is ignored, and
      an unparsable port is 0. */
  function ReadAddress(s: seq<byte>): (a: Option<Address>)
    ensures a.Some? ==> WellFormed(a.value)
  {
    if s == [] then None
    else
      var parts := Split(s, SCHEME_END);
      var scheme := if |parts| < 2 then TCP else parts[0];
      var rest := if |parts| < 2 then parts[0] else parts[1];
      if !Scheme(scheme) then None
      else
        var hp := Split(rest, [COLON]);
        PartsArePlain(rest, COLON);
        assert hp[0] in hp;
        Some(Address(scheme, hp[0], if |hp| < 2 then DefaultPort(scheme) else Atoi(hp[1])))
  }

  /** What one string contributes: its address printed, or nothing. */
  function Contribution(s: seq<byte>): seq<seq<byte>> {
    var a := ReadAddress(s);
    if a.Some? then [PrintAddress(a.value)] else []
  }

  function Collect<T>(xs: seq<T>, f: T -> seq<T>): seq<T> {
    if xs == [] then [] else Collect(xs[..|xs| - 1], f) + f(xs[|xs| - 1])
  }

  lemma CollectNext<T>(xs: seq<T>, k: nat, f: T -> seq<T>)
    requires k < |xs|
    ensures Collect(xs[..k + 1], f) == Collect(xs[..k], f) + f(xs[k])
  {
    assert xs[..k + 1][..k] == xs[..k];
  }

  /** The readable addresses, printed, in order. */
  function Normalised(addrs: seq<seq<byte>>): seq<seq<byte>> {
    Collect(addrs, Contribution)
  }

  function NormalAddrs(addrs: seq<seq<byte>>): (out: seq<seq<byte>>)
    ensures out != []
  {
    var out := Normalised(addrs);
    if out == [] then [PrintAddress(LOCAL)] else out
  }

  method SetAddrs(addrs: seq<seq<byte>>) returns (cAddrs: seq<seq<byte>>)
    ensures cAddrs == NormalAddrs(addrs)
  {
    cAddrs := [];
    for k := 0 to |addrs|
      invariant cAddrs == Normalised(addrs[..k])
    {
      CollectNext(addrs, k, Contribution);
      var addr := addrs[k];
      if |addr| == 0 {
        continue;
      }
      var scheme, host, port;
      var parts := Split(addr, SCHEME_END);
      if |parts| < 2 {
        scheme := TCP;
        parts := Split(parts[0], [COLON]);
      } else {
        scheme := parts[0];
        parts := Split(parts[1], [COLON]);
      }
      if |parts| == 0 {
        continue;
      }
      if !(scheme == TCP || scheme == SSL || scheme == WS) {
        continue;
      }
      if |parts| < 2 {
        host := parts[0];
        port := if scheme == TCP then 1883 else if scheme == SSL then 8883 else 80;
      } else {
        host := parts[0];
        port := Atoi(parts[1]);
      }
      cAddrs := cAddrs + [PrintAddress(Address(scheme, host, port))];
    }
    assert addrs[..|addrs|] == addrs;
    if |cAddrs| == 0 {
      cAddrs := [PrintAddress(LOCAL)];
    }
  }

  /** A printed address in which the scheme's end occurs once and the colon of the port once. */
  lemma SplitPrinted(a: Address)
    requires WellFormed(a)
    ensures var hp := a.host + [COLON] + Print(a.port);
            Split(PrintAddress(a), SCHEME_END) == [a.scheme, hp] && Split(hp, [COLON]) == [a.host, Print(a.port)]
  {
    var port := Print(a.port);
    var hp := a.host + [COLON] + port;
    NoSecondScheme(a.host, port);
    IndexAbsent(hp, SCHEME_END);
    SplitOnce(a.scheme, SCHEME_END, hp);
    IndexOfMissingByte(port, COLON);
    SplitOnce(a.host, [COLON], port);
  }

  lemma NoSecondScheme(host: seq<byte>, port: seq<byte>)
    requires COLON !in host && forall i :: 0 <= i < |port| ==> IsASCIIDigit(port[i]) || port[i] == MINUS
    ensures forall i: nat :: !OccursAt(host + [COLON] + port, SCHEME_END, i)
  {
    var hp := host + [COLON] + port;
    forall i: nat
      ensures !OccursAt(hp, SCHEME_END, i)
    {
      if i + 3 <= |hp| {
        assert hp[i..i + 3][0] == hp[i] && hp[i..i + 3][1] == hp[i + 1];
      }
    }
  }

  /** Reading a printed address gives it back. */
  lemma ReadPrinted(a: Address)
    requires WellFormed(a)
    ensures ReadAddress(PrintAddress(a)) == Some(a)
  {
    SplitPrinted(a);
    PrintAtoi(a.port);
  }

  ghost predicate Nowhere(sep: seq<byte>, s: seq<byte>) {
    forall i: nat :: !OccursAt(s, sep, i)
  }

  /** What follows the host: nothing, or a colon and the port, up to another colon. */
  predicate PortText(tail: seq<byte>, port: Option<seq<byte>>) {
    match port
    case None => tail == []
    case Some(p) => 58 !in p && [58] + p <= tail && (|tail| == |p| + 1 || tail[|p| + 1] == 58)
  }

  lemma SplitHostPort(host: seq<byte>, tail: seq<byte>, port: Option<seq<byte>>)
    requires COLON !in host && PortText(tail, port)
    ensures var hp := Split(host + tail, [COLON]);
            hp[0] == host && if port == None then |hp| == 1 else |hp| >= 2 && hp[1] == port.value
  {
    if port == None {
      assert host + tail == host;
      IndexOfMissingByte(host, COLON);
    } else {
      var p, t := port.value, tail[1..];
      assert tail == [COLON] + t && t[..|p|] == p;
      IndexAfter(host, [COLON], t);
      assert host + tail == host + [COLON] + t;
      AppendParts(host, tail);
      assert (host + tail)[|host| + 1..] == t;
      if |t| == |p| {
        assert t == p;
        IndexOfMissingByte(p, COLON);
      } else {
        IndexAfter(p, [COLON], t[|p| + 1..]);
        assert t == p + [COLON] + t[|p| + 1..];
      }
    }
  }

  lemma SchemeEndAt(s: seq<byte>, i: nat)
    requires OccursAt(s, SCHEME_END, i)
    ensures s[i] == COLON && s[i + 1] == SLASH && s[i + 2] == SLASH
  {
    var t := s[i..i + 3];
    assert t[0] == s[i] && t[1] == s[i + 1] && t[2] == s[i + 2];
  }

  /** A separator found nowhere in y is first found behind it: its first byte does not occur in it again. */
  lemma FirstBehind(y: seq<byte>, junk: seq<byte>)
    requires Nowhere(SCHEME_END, y) && SCHEME_END <= junk
    ensures Index(y + junk, SCHEME_END) == |y|
  {
    var s, i := y + junk, Index(y + junk, SCHEME_END);
    assert s[|y|..|y| + 3] == SCHEME_END;
    assert OccursAt(s, SCHEME_END, |y|);
    SchemeEndAt(s, |y|);
    if i < |y| {
      if i < 0 {
        IndexIsFirst(s, SCHEME_END, |y|);
      } else {
        SchemeEndAt(s, i);
        assert i + 3 <= |y|;
        assert s[i..i + 3] == y[i..i + 3];
        assert OccursAt(y, SCHEME_END, i);
      }
    }
    if i > |y| {
      IndexIsFirst(s, SCHEME_END, |y|);
    }
  }

  /** Cutting a text that may start with a scheme and go on behind a second `://`. */
  lemma SplitAtScheme(scheme: seq<byte>, y: seq<byte>, junk: seq<byte>)
    requires COLON !in scheme && Nowhere(SCHEME_END, y) && (junk == [] || SCHEME_END <= junk)
    ensures Split(y, SCHEME_END) == [y]
    ensures var parts := Split(scheme + SCHEME_END + (y + junk), SCHEME_END);
            |parts| >= 2 && parts[0] == scheme && parts[1] == y
  {
    IndexAbsent(y, SCHEME_END);
    var s, t := scheme + SCHEME_END + (y + junk), y + junk;
    IndexAfter(scheme, SCHEME_END, t);
    assert s[..|scheme|] == scheme && s[|scheme| + 3..] == t;
    if junk == [] {
      assert t == y;
    } else {
      FirstBehind(y, junk);
      AppendParts(y, junk);
    }
    assert Split(t, SCHEME_END)[0] == y;
  }

  /** A scheme or none, a host without colon, and a port or none. Without a scheme it is tcp, and without a port
      1883, 8883 or 80; text behind a second colon or a second `://` is ignored. */
  lemma ReadForms(scheme: seq<byte>, host: seq<byte>, tail: seq<byte>, port: Option<seq<byte>>, junk: seq<byte>)
    requires Scheme(scheme) && 58 !in host && PortText(tail, port)
    requires Nowhere([58, 47, 47], host + tail) && (junk == [] || [58, 47, 47] <= junk)
    ensures ReadAddress(scheme + [58, 47, 47] + (host + tail + junk))
         == Some(Address(scheme, host, if port.Some? then Atoi(port.value)
                                       else if scheme == TCP then 1883 else if scheme == SSL then 8883 else 80))
    ensures host + tail != [] ==>
              ReadAddress(host + tail) == Some(Address(TCP, host, if port.Some? then Atoi(port.value) else 1883))
  {
    SplitAtScheme(scheme, host + tail, junk);
    SplitHostPort(host, tail, port);
  }

  lemma NoSchemeInHost(host: seq<byte>)
    requires COLON !in host
    ensures Nowhere(SCHEME_END, host)
  {
    forall i: nat
      ensures !OccursAt(host, SCHEME_END, i)
    {
      assert i + 3 <= |host| ==> host[i..i + 3][0] == host[i];
    }
  }

  /** Without a port the scheme decides it. */
  lemma ReadHost(scheme: seq<byte>, host: seq<byte>)
    requires Scheme(scheme) && COLON !in host
    ensures ReadAddress(scheme + SCHEME_END + host)
         == Some(Address(scheme, host, if scheme == TCP then 1883 else if scheme == SSL then 8883 else 80))
  {
    NoSchemeInHost(host);
    assert host + [] == host;
    ReadForms(scheme, host, [], None, []);
  }

  /** An address that names no scheme is a tcp address. */
  lemma ReadWithoutScheme(host: seq<byte>, port: int)
    requires COLON !in host && MIN_INT64 <= port <= MAX_INT64
    ensures ReadAddress(host + [COLON] + Print(port)) == Some(Address([116, 99, 112], host, port))
    ensures host != [] ==> ReadAddress(host) == Some(Address([116, 99, 112], host, 1883))
  {
    var tail := [COLON] + Print(port);
    NoSecondScheme(host, Print(port));
    assert host + [COLON] + Print(port) == host + tail;
    ReadForms(TCP, host, tail, Some(Print(port)), []);
    PrintAtoi(port);
    assert host + [] == host;
    NoSchemeInHost(host);
    ReadForms(TCP, host, [], None, []);
  }

  /** Nothing is read from the empty string, nor from an address with any other scheme. */
  lemma Unreadable(x: seq<byte>, t: seq<byte>)
    requires !Scheme(x) && forall i: nat :: i < |x| ==> !OccursAt(x + SCHEME_END + t, SCHEME_END, i)
    ensures ReadAddress([]) == None && ReadAddress(x + SCHEME_END + t) == None
  {
    var s := x + SCHEME_END + t;
    var i := Index(s, SCHEME_END);
    assert s[|x|..|x| + 3] == SCHEME_END;
    assert OccursAt(s, SCHEME_END, |x|);
    if i < 0 || i > |x| {
      IndexIsFirst(s, SCHEME_END, |x|);
    }
    assert s[..|x|] == x;
  }

  /** Every string contributes by itself, in order. */
  lemma {:induction false} Distributes(addrs: seq<seq<byte>>, more: seq<seq<byte>>)
    ensures Normalised(addrs + more) == Normalised(addrs) + Normalised(more)
    decreases |more|
  {
    if more == [] {
      assert addrs + more == addrs;
    } else {
      var front, last := more[..|more| - 1], more[|more| - 1];
      Distributes(addrs, front);
      assert (addrs + more)[..|addrs + more| - 1] == addrs + front;
      AppendAssoc(Normalised(addrs), Normalised(front), Contribution(last));
    }
  }

  lemma LocalText()
    ensures PrintAddress(LOCAL) == [116, 99, 112, 58, 47, 47, 49, 50, 55, 46, 48, 46, 48, 46, 49, 58, 49, 56, 56, 51]
  {
    assert Digits(1) == [49];
    assert Digits(18) == [49, 56];
    assert Digits(188) == [49, 56, 56];
  }

  /** Without any address that can be read, the one used is tcp://127.0.0.1:1883. */
  lemma {:induction false} DefaultAddress(addrs: seq<seq<byte>>)
    requires forall s :: s in addrs ==> ReadAddress(s) == None
    ensures Normalised(addrs) == []
    ensures NormalAddrs(addrs)
         == [[116, 99, 112, 58, 47, 47, 49, 50, 55, 46, 48, 46, 48, 46, 49, 58, 49, 56, 56, 51]]
  {
    LocalText();
    if addrs != [] {
      assert addrs[|addrs| - 1] in addrs;
      DefaultAddress(addrs[..|addrs| - 1]);
    }
  }

  /** A string in normal form. */
  ghost predicate Normal(s: seq<byte>) {
    exists a :: WellFormed(a) && s == PrintAddress(a)
  }

  /** Every output is in normal form. */
  lemma {:induction false} OutputsAreNormal(addrs: seq<seq<byte>>)
    ensures |Normalised(addrs)| <= |addrs|
    ensures forall s :: s in Normalised(addrs) ==> Normal(s)
  {
    if addrs != [] {
      OutputsAreNormal(addrs[..|addrs| - 1]);
    }
  }

  lemma NormalIsKept(s: seq<byte>)
    requires Normal(s)
    ensures Contribution(s) == [s]
  {
    var a :| WellFormed(a) && s == PrintAddress(a);
    ReadPrinted(a);
  }

  lemma {:induction false} CollectKept<T>(xs: seq<T>, f: T -> seq<T>)
    requires forall i :: 0 <= i < |xs| ==> f(xs[i]) == [xs[i]]
    ensures Collect(xs, f) == xs
  {
    if xs != [] {
      CollectKept(xs[..|xs| - 1], f);
      FrontAndLast(xs);
    }
  }

  lemma FrontAndLast<T>(xs: seq<T>)
    requires xs != []
    ensures xs[..|xs| - 1] + [xs[|xs| - 1]] == xs
  {
  }

  /** Exactly the non-empty lists of normal addresses are left alone. */
  lemma FixedPoints(addrs: seq<seq<byte>>)
    ensures NormalAddrs(addrs) == addrs <==> addrs != [] && forall s :: s in addrs ==> Normal(s)
  {
    OutputsAreNormal(addrs);
    assert WellFormed(LOCAL) && Normal(PrintAddress(LOCAL));
    if addrs != [] && forall s :: s in addrs ==> Normal(s) {
      forall i | 0 <= i < |addrs|
        ensures Contribution(addrs[i]) == [addrs[i]]
      {
        NormalIsKept(addrs[i]);
      }
      CollectKept(addrs, Contribution);
    }
  }

  /** Normalising is idempotent. */
  lemma Idempotent(addrs: seq<seq<byte>>)
    ensures NormalAddrs(NormalAddrs(addrs)) == NormalAddrs(addrs)
  {
    OutputsAreNormal(addrs);
    assert WellFormed(LOCAL) && Normal(PrintAddress(LOCAL));
    FixedPoints(NormalAddrs(addrs));
  }
}
