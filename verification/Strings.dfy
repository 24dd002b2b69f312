/** The functions of Go's `strings` package that the modelled code calls, on byte strings. */
module Strings {
  import opened Bytes

  predicate OccursAt(s: seq<byte>, sep: seq<byte>, i: nat) {
    i + |sep| <= |s| && s[i..i + |sep|] == sep
  }

  /** `strings.Index`: the first position of sep in s, or -1. */
  function Index(s: seq<byte>, sep: seq<byte>): (i: int)
    ensures -1 <= i <= |s|
    ensures i >= 0 ==> OccursAt(s, sep, i)
  {
    if |s| < |sep| then -1
    else if s[..|sep|] == sep then 0
    else if s == [] then -1
    else
      var i := Index(s[1..], sep);
      assert i >= 0 ==> s[1..][i..i + |sep|] == s[i + 1..i + 1 + |sep|];
      if i < 0 then -1 else i + 1
  }

  /** There is no occurrence before it, and none at all behind -1. */
  lemma {:induction false} IndexIsFirst(s: seq<byte>, sep: seq<byte>, j: nat)
    requires j < Index(s, sep) || Index(s, sep) < 0
    ensures !OccursAt(s, sep, j)
  {
    if j == 0 {
      assert |s| >= |sep| ==> s[0..|sep|] == s[..|sep|];
    } else if j + |sep| <= |s| {
      IndexIsFirst(s[1..], sep, j - 1);
      assert s[1..][j - 1..j - 1 + |sep|] == s[j..j + |sep|];
    }
  }

  /** `strings.Split` for a separator that is not empty. */
  function Split(s: seq<byte>, sep: seq<byte>): (parts: seq<seq<byte>>)
    requires sep != []
    ensures parts != []
    decreases |s|
  {
    var i := Index(s, sep);
    if i < 0 then [s] else [s[..i]] + Split(s[i + |sep|..], sep)
  }

  /** `strings.Join`. */
  function Join(parts: seq<seq<byte>>, sep: seq<byte>): seq<byte> {
    if parts == [] then []
    else if |parts| == 1 then parts[0]
    else parts[0] + sep + Join(parts[1..], sep)
  }

  /** A separator whose first byte does not occur before it is found where it stands. */
  lemma {:induction false} IndexAfter(a: seq<byte>, sep: seq<byte>, t: seq<byte>)
    requires sep != [] && sep[0] !in a
    ensures Index(a + sep + t, sep) == |a|
  {
    var s := a + sep + t;
    if a == [] {
      assert s[..|sep|] == sep;
    } else {
      assert s[..|sep|][0] == a[0];
      assert s[1..] == a[1..] + sep + t;
      IndexAfter(a[1..], sep, t);
    }
  }

  lemma {:induction false} IndexAbsent(s: seq<byte>, sep: seq<byte>)
    requires forall i: nat :: !OccursAt(s, sep, i)
    ensures Index(s, sep) == -1
  {
  }

  lemma IndexHits(s: seq<byte>, sep: seq<byte>)
    requires sep != []
    ensures var i := Index(s, sep); i >= 0 ==> i < |s| && s[i] == sep[0]
  {
    var i := Index(s, sep);
    if i >= 0 {
      assert s[i..i + |sep|][0] == s[i];
    }
  }

  lemma IndexOfMissingByte(s: seq<byte>, b: byte)
    requires b !in s
    ensures Index(s, [b]) == -1
  {
    IndexHits(s, [b]);
  }

  /** A string that holds the separator once is cut in two. */
  lemma SplitOnce(a: seq<byte>, sep: seq<byte>, t: seq<byte>)
    requires sep != [] && sep[0] !in a && Index(t, sep) == -1
    ensures Split(a + sep + t, sep) == [a, t]
  {
    IndexAfter(a, sep, t);
    var s := a + sep + t;
    assert s[..|a|] == a && s[|a| + |sep|..] == t;
    assert Split(t, sep) == [t];
    assert [a] + [t] == [a, t];
  }

  /** Before the first occurrence of a single byte there is none. */
  lemma {:induction false} BeforeIndex(s: seq<byte>, b: byte)
    ensures var i := Index(s, [b]); b !in if i < 0 then s else s[..i]
  {
    if s != [] && s[..1] != [b] {
      BeforeIndex(s[1..], b);
      var i := Index(s[1..], [b]);
      assert s[0] == s[..1][0];
      assert [s[0]] == s[..1];
      if i >= 0 {
        assert s[..i + 1] == [s[0]] + s[1..][..i];
      } else {
        assert s == [s[0]] + s[1..];
      }
    }
  }

  /** No part holds the byte that the string was cut at. */
  lemma {:induction false} PartsArePlain(s: seq<byte>, b: byte)
    ensures forall p :: p in Split(s, [b]) ==> b !in p
    decreases |s|
  {
    BeforeIndex(s, b);
    var i := Index(s, [b]);
    if i >= 0 {
      PartsArePlain(s[i + 1..], b);
    }
  }

  /** Cutting at a byte undoes joining with it. */
  lemma {:induction false} SplitJoined(parts: seq<seq<byte>>, b: byte)
    requires parts != [] && forall p :: p in parts ==> b !in p
    ensures Split(Join(parts, [b]), [b]) == parts
    decreases |parts|
  {
    assert b !in parts[0];
    if |parts| == 1 {
      IndexOfMissingByte(parts[0], b);
    } else {
      var t := Join(parts[1..], [b]);
      IndexAfter(parts[0], [b], t);
      var s := parts[0] + [b] + t;
      assert s[..|parts[0]|] == parts[0] && s[|parts[0]| + 1..] == t;
      SplitJoined(parts[1..], b);
    }
  }

  /** Joining undoes cutting. */
  lemma {:induction false} JoinSplit(s: seq<byte>, sep: seq<byte>)
    requires sep != []
    ensures Join(Split(s, sep), sep) == s
    decreases |s|
  {
    var i := Index(s, sep);
    if i >= 0 {
      JoinSplit(s[i + |sep|..], sep);
      assert Split(s, sep)[1..] == Split(s[i + |sep|..], sep);
      InThree(s, i, |sep|);
    }
  }

  lemma InThree(s: seq<byte>, i: nat, k: nat)
    requires i + k <= |s|
    ensures s[..i] + s[i..i + k] + s[i + k..] == s
  {
  }
}
