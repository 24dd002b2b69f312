/** The name converter of cmd/protoc-gen-go-mqtt/mqtt.go. */
module CamelCase {
  import opened Bytes
  import opened Bits
  import opened Strings

  const UNDERSCORE: byte := 95
  const DOT: byte := 46
  const CAPITAL_X: byte := 88

  function Capital(c: byte): byte {
    if IsASCIILower(c) then c - 32 else c
  }

  /** One byte at a time: a lower-case letter is kept only after a letter kept or made before it. */
  function Words(s: seq<byte>, inWord: bool): seq<byte>
    decreases |s|
  {
    if s == [] then []
    else
      var c := s[0];
      if inWord && IsASCIILower(c) then [c] + Words(s[1..], true)
      else if c == UNDERSCORE && |s| > 1 && IsASCIILower(s[1]) then Words(s[1..], false)
      else if IsASCIIDigit(c) then [c] + Words(s[1..], false)
      else [Capital(c)] + Words(s[1..], true)
  }

  /** The camel-cased name: a leading underscore becomes an X. */
  function Camel(s: seq<byte>): seq<byte> {
    if s != [] && s[0] == UNDERSCORE then [CAPITAL_X] + Words(s[1..], false) else Words(s, false)
  }

  /** `if isASCIILower(c) { c ^= ' ' }` */
  method ToCapital(c: byte) returns (d: byte)
    ensures d == Capital(c)
  {
    d := c;
    if IsASCIILower(c) {
      assert Pow2(5) == 32 && Pow2(8) == 256;
      XorSetBit(c, 5, 8);
      d := BitXor(c, 32);
    }
  }

  lemma WordsKeep(t: seq<byte>, s: seq<byte>, i: nat)
    requires i < |s| && IsASCIILower(s[i])
    ensures t + Words(s[i..], true) == t + [s[i]] + Words(s[i + 1..], true)
  {
    assert s[i..][1..] == s[i + 1..];
    AppendAssoc(t, [s[i]], Words(s[i + 1..], true));
  }

  lemma WordsSkip(s: seq<byte>, i: nat)
    requires i + 1 < |s| && s[i] == UNDERSCORE && IsASCIILower(s[i + 1])
    ensures Words(s[i..], false) == Words(s[i + 1..], false)
  {
    assert s[i..][1..] == s[i + 1..];
  }

  lemma WordsDigit(t: seq<byte>, s: seq<byte>, i: nat)
    requires i < |s| && IsASCIIDigit(s[i])
    ensures t + Words(s[i..], false) == t + [s[i]] + Words(s[i + 1..], false)
  {
    assert s[i..][1..] == s[i + 1..];
    AppendAssoc(t, [s[i]], Words(s[i + 1..], false));
  }

  lemma WordsCapital(t: seq<byte>, s: seq<byte>, i: nat)
    requires i < |s| && !IsASCIIDigit(s[i])
    requires s[i] == UNDERSCORE ==> i + 1 == |s| || !IsASCIILower(s[i + 1])
    ensures t + Words(s[i..], false) == t + [Capital(s[i])] + Words(s[i + 1..], true)
  {
    assert s[i..][1..] == s[i + 1..];
    AppendAssoc(t, [Capital(s[i])], Words(s[i + 1..], true));
  }

  /** Where a word ends it makes no difference that it was one. */
  lemma WordEnds(s: seq<byte>)
    requires s != [] ==> !IsASCIILower(s[0])
    ensures Words(s, true) == Words(s, false)
  {
  }

  method ToCamelCase(s: seq<byte>) returns (t: seq<byte>)
    ensures t == Camel(s)
  {
    if s == [] {
      return [];
    }
    t := [];
    var i := 0;
    ghost var r := Camel(s);
    assert s[0..] == s;
    if s[0] == UNDERSCORE {
      t := t + [CAPITAL_X];
      i := i + 1;
    }
    while i < |s|
      invariant 0 <= i <= |s|
      invariant t + Words(s[i..], false) == r
    {
      var c := s[i];
      if c == UNDERSCORE && i + 1 < |s| && IsASCIILower(s[i + 1]) {
        WordsSkip(s, i);
        i := i + 1;
        continue;
      }
      if IsASCIIDigit(c) {
        WordsDigit(t, s, i);
        t := t + [c];
        i := i + 1;
        continue;
      }
      WordsCapital(t, s, i);
      c := ToCapital(c);
      t := t + [c];
      t, i := CopyLowerCase(s, i + 1, t);
    }
  }

  /** The inner loop: the lower-case letters from position i0 on are appended to t0. */
  method CopyLowerCase(s: seq<byte>, i0: nat, t0: seq<byte>) returns (t: seq<byte>, i: nat)
    requires i0 <= |s|
    ensures i0 <= i <= |s| && t + Words(s[i..], false) == t0 + Words(s[i0..], true)
  {
    t, i := t0, i0;
    while i < |s| && IsASCIILower(s[i])
      invariant i0 <= i <= |s|
      invariant t + Words(s[i..], true) == t0 + Words(s[i0..], true)
    {
      WordsKeep(t, s, i);
      t := t + [s[i]];
      i := i + 1;
    }
    WordEnds(s[i..]);
  }

  // ---------------------------------------------------------------- byte by byte

  predicate SmallLetter(s: seq<byte>, i: nat) {
    i < |s| && 97 <= s[i] <= 122
  }

  /** What byte i of a name becomes: a leading underscore an X, an underscore in front of a small letter nothing,
      a small letter in front or behind an underscore or digit a capital, and any other byte itself. */
  function ByteOf(s: seq<byte>, i: nat): seq<byte>
    requires i < |s|
  {
    if s[i] == 95 && i == 0 then [88]
    else if s[i] == 95 && SmallLetter(s, i + 1) then []
    else if SmallLetter(s, i) && (i == 0 || s[i - 1] == 95 || 48 <= s[i - 1] <= 57) then [s[i] - 32]
    else [s[i]]
  }

  function BytesFrom(s: seq<byte>, i: nat): seq<byte>
    decreases |s| - i
  {
    if i >= |s| then [] else ByteOf(s, i) + BytesFrom(s, i + 1)
  }

  lemma {:induction false} WordsAreBytes(s: seq<byte>, i: nat, inWord: bool)
    requires i <= |s| && (i == 0 && s != [] ==> s[0] != 95)
    requires SmallLetter(s, i) ==> inWord == !(i == 0 || s[i - 1] == 95 || 48 <= s[i - 1] <= 57)
    ensures Words(s[i..], inWord) == BytesFrom(s, i)
    decreases |s| - i
  {
    if i < |s| {
      var c := s[i];
      assert s[i..][1..] == s[i + 1..];
      var skip := c == UNDERSCORE && SmallLetter(s, i + 1);
      var next := (inWord && IsASCIILower(c)) || !(skip || IsASCIIDigit(c));
      if c == UNDERSCORE && !skip {
        assert !SmallLetter(s, i + 1);
      }
      WordsAreBytes(s, i + 1, next);
      assert skip ==> [] + BytesFrom(s, i + 1) == BytesFrom(s, i + 1);
    }
  }

  /** The camel-cased name, byte by byte. */
  lemma CamelIs(s: seq<byte>)
    ensures Camel(s) == BytesFrom(s, 0)
  {
    if s != [] && s[0] == UNDERSCORE {
      WordsAreBytes(s, 1, false);
    } else {
      WordsAreBytes(s, 0, false);
      assert s[0..] == s;
    }
  }

  // ---------------------------------------------------------------- stable names

  /** No underscore or lower-case letter in front, and no lower-case letter after an underscore or digit. */
  predicate Stable(s: seq<byte>) {
    && (s != [] ==> s[0] != UNDERSCORE && !IsASCIILower(s[0]))
    && Settled(s)
  }

  predicate Settled(s: seq<byte>) {
    forall i :: 0 < i < |s| && IsASCIILower(s[i]) ==> s[i - 1] != UNDERSCORE && !IsASCIIDigit(s[i - 1])
  }

  lemma SettledCons(c: byte, t: seq<byte>)
    requires Settled(t)
    requires t != [] && IsASCIILower(t[0]) ==> c != UNDERSCORE && !IsASCIIDigit(c)
    ensures Settled([c] + t)
  {
    var s := [c] + t;
    forall i | 0 < i < |s| && IsASCIILower(s[i])
      ensures s[i - 1] != UNDERSCORE && !IsASCIIDigit(s[i - 1])
    {
      assert s[i] == t[i - 1];
      assert i > 1 ==> s[i - 1] == t[i - 2];
    }
  }

  /** Words are settled; outside a word they start with no lower-case letter, and after an underscore
      that was kept neither. */
  lemma {:induction false} WordsAreSettled(s: seq<byte>, inWord: bool)
    ensures var t := Words(s, inWord);
            Settled(t) && (t != [] && IsASCIILower(t[0]) ==> inWord && IsASCIILower(s[0]))
    ensures s != [] && !inWord && s[0] != UNDERSCORE ==> Words(s, inWord) != [] && Words(s, inWord)[0] == Capital(s[0])
    decreases |s|
  {
    if s != [] {
      var c := s[0];
      var skip := c == UNDERSCORE && |s| > 1 && IsASCIILower(s[1]);
      if inWord && IsASCIILower(c) {
        WordsAreSettled(s[1..], true);
        SettledCons(c, Words(s[1..], true));
      } else if skip {
        WordsAreSettled(s[1..], false);
      } else if IsASCIIDigit(c) {
        WordsAreSettled(s[1..], false);
        SettledCons(c, Words(s[1..], false));
      } else {
        WordsAreSettled(s[1..], true);
        SettledCons(Capital(c), Words(s[1..], true));
      }
    }
  }

  lemma OutputIsStable(s: seq<byte>)
    ensures Stable(Camel(s))
  {
    if s != [] && s[0] == UNDERSCORE {
      WordsAreSettled(s[1..], false);
      SettledCons(CAPITAL_X, Words(s[1..], false));
    } else {
      WordsAreSettled(s, false);
    }
  }

  /** Settled words are copied. */
  lemma {:induction false} SettledIsCopied(s: seq<byte>, inWord: bool)
    requires Settled(s) && (s != [] && IsASCIILower(s[0]) ==> inWord)
    ensures Words(s, inWord) == s
    decreases |s|
  {
    if s != [] {
      var c, t := s[0], s[1..];
      assert s == [c] + t;
      assert Settled(t) && (t != [] && IsASCIILower(t[0]) ==> c != UNDERSCORE && !IsASCIIDigit(c)) by {
        assert forall i :: 0 <= i < |t| ==> t[i] == s[i + 1];
      }
      SettledIsCopied(t, !IsASCIIDigit(c));
    }
  }

  /** A name is left alone exactly when it is stable. */
  lemma FixedPoints(s: seq<byte>)
    ensures Camel(s) == s <==> Stable(s)
  {
    OutputIsStable(s);
    if Stable(s) {
      SettledIsCopied(s, false);
    }
  }

  lemma Idempotent(s: seq<byte>)
    ensures Camel(Camel(s)) == Camel(s)
  {
    OutputIsStable(s);
    FixedPoints(Camel(s));
  }

  /** A name without its underscores and case. */
  function Folded(s: seq<byte>): seq<byte> {
    if s == [] then [] else (if s[0] == UNDERSCORE then [] else [Capital(s[0])]) + Folded(s[1..])
  }

  lemma FoldCons(c: byte, s: seq<byte>)
    ensures Folded([c] + s) == (if c == UNDERSCORE then [] else [Capital(c)]) + Folded(s)
  {
    assert ([c] + s)[1..] == s;
  }

  lemma {:induction false} WordsKeepLetters(s: seq<byte>, inWord: bool)
    ensures Folded(Words(s, inWord)) == Folded(s)
    decreases |s|
  {
    if s != [] {
      var c := s[0];
      var skip := c == UNDERSCORE && |s| > 1 && IsASCIILower(s[1]);
      var next := (inWord && IsASCIILower(c)) || !(skip || IsASCIIDigit(c));
      WordsKeepLetters(s[1..], next);
      FoldCons(c, Words(s[1..], next));
      FoldCons(Capital(c), Words(s[1..], next));
    }
  }

  /** Only underscores and case are lost: two names collide only if they differ in nothing else, but for
      the X in place of a leading underscore. */
  lemma LettersAreKept(s: seq<byte>)
    ensures Folded(Camel(s)) == (if s != [] && s[0] == UNDERSCORE then [CAPITAL_X] else []) + Folded(s)
  {
    if s != [] && s[0] == UNDERSCORE {
      WordsKeepLetters(s[1..], false);
      FoldCons(CAPITAL_X, Words(s[1..], false));
    } else {
      WordsKeepLetters(s, false);
      assert [] + Folded(s) == Folded(s);
    }
  }

  // ---------------------------------------------------------------- dotted names

  function CamelEach(subs: seq<seq<byte>>): (vars: seq<seq<byte>>)
    ensures |vars| == |subs| && forall i :: 0 <= i < |subs| ==> vars[i] == Camel(subs[i])
  {
    seq(|subs|, i requires 0 <= i < |subs| => Camel(subs[i]))
  }

  function CamelVars(s: seq<byte>): seq<byte> {
    Join(CamelEach(Split(s, [DOT])), [DOT])
  }

  method ToCamelCaseVars(s: seq<byte>) returns (r: seq<byte>)
    ensures r == CamelVars(s)
  {
    var subs := Split(s, [DOT]);
    var vars: seq<seq<byte>> := [];
    for k := 0 to |subs|
      invariant |vars| == k && forall i :: 0 <= i < k ==> vars[i] == Camel(subs[i])
    {
      var c := ToCamelCase(subs[k]);
      vars := vars + [c];
    }
    assert vars == CamelEach(subs);
    r := Join(vars, [DOT]);
  }

  lemma {:induction false} WordsAddNoDot(s: seq<byte>, inWord: bool)
    requires DOT !in s
    ensures DOT !in Words(s, inWord)
    decreases |s|
  {
    if s != [] {
      assert s[0] != DOT && DOT !in s[1..];
      WordsAddNoDot(s[1..], true);
      WordsAddNoDot(s[1..], false);
    }
  }

  lemma CamelAddsNoDot(s: seq<byte>)
    requires DOT !in s
    ensures DOT !in Camel(s)
  {
    WordsAddNoDot(s, false);
    if s != [] {
      WordsAddNoDot(s[1..], false);
    }
  }

  /** The parts of a converted name are the converted parts. */
  lemma SplitCamelVars(s: seq<byte>)
    ensures Split(CamelVars(s), [DOT]) == CamelEach(Split(s, [DOT]))
  {
    var subs := Split(s, [DOT]);
    PartsArePlain(s, DOT);
    forall i | 0 <= i < |subs|
      ensures DOT !in Camel(subs[i])
    {
      assert subs[i] in subs;
      CamelAddsNoDot(subs[i]);
    }
    SplitJoined(CamelEach(subs), DOT);
  }

  /** Converting a dotted name twice changes nothing more. */
  lemma VarsIdempotent(s: seq<byte>)
    ensures CamelVars(CamelVars(s)) == CamelVars(s)
  {
    SplitCamelVars(s);
    var vars := CamelEach(Split(s, [DOT]));
    forall i | 0 <= i < |vars|
      ensures Camel(vars[i]) == vars[i]
    {
      Idempotent(Split(s, [DOT])[i]);
    }
    assert CamelEach(vars) == vars;
  }
}
