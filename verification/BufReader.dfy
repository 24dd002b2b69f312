/** The buffered reader of server/mqtt/bufio/bufio.go: a sliding window over an underlying source. */
module BufReader {
  import opened Bytes
  import opened Streams

  class Reader {
    const buf: array<byte>
    const rd: Source
    var r: nat
    var w: nat
    var err: Option<Error>

    constructor (rd: Source, size: nat)
      requires rd.Valid()
      requires size > 0
      ensures Valid() && fresh(buf) && this.rd == rd && buf.Length == size
      ensures Unread() == rd.data && err == None
    {
      this.rd, buf := rd, new byte[size];
      r, w, err := 0, 0, None;
    }

    ghost predicate Valid()
      reads this, buf, rd
    {
      && buf.Length > 0
      && r <= w <= buf.Length
      && rd.Valid()
      && (err.Some? ==> FromSource(err.value))
      && (err == Some(EOF) ==> rd.data == [])
      && (err == Some(EOF) && rd.lateEOF ==> w < buf.Length)
    }

    /** The error was reported by the source, or by `fill` about the source. */
    predicate FromSource(e: Error) {
      e == EOF || (!rd.Steady() && (e == NoProgress || e.Transport?))
    }

    /** What the caller has not consumed yet: the window, then what the source still holds. */
    ghost function Unread(): seq<byte>
      requires r <= w <= buf.Length
      reads this, buf, rd
    {
      buf[r..w] + rd.data
    }

    function Buffered(): nat
      requires r <= w
      reads this
    {
      w - r
    }

    method Slide()
      requires Valid()
      modifies this`r, this`w, buf
      ensures Valid() && r == 0 && w == old(w - r)
      ensures Unread() == old(Unread())
    {
      if r > 0 {
        ghost var window := buf[r..w];
        var _ := Copy(Slice(buf, 0, buf.Length), Slice(buf, r, w - r));
        w := w - r;
        r := 0;
        assert buf[r..w] == window;
      }
    }

    method Fill()
      requires Valid()
      requires w - r < buf.Length
      modifies this, buf, rd
      ensures Valid() && r == 0
      ensures Unread() == old(Unread())
      ensures w > old(w - r) || (w == old(w - r) && err.Some?)
      ensures err == None ==> old(err) == None
      ensures rd.idle == 0 ==> w > old(w - r) || err == Some(EOF) || err.value.Transport?
      ensures rd.idle == 0 ==> err == if rd.last.Some? then rd.last else old(err)
      ensures rd.idle > 0 ==> err == Some(NoProgress) && w == old(w - r) && rd.idle == old(rd.idle) + MAX_EMPTY_READS
    {
      Slide();
      var i := MAX_EMPTY_READS;
      while i > 0
        invariant Valid() && r == 0 && w == old(w - r) && w < buf.Length
        invariant Unread() == old(Unread())
        invariant err == old(err)
        invariant 0 <= i <= MAX_EMPTY_READS
        invariant rd.idle == old(rd.idle) + MAX_EMPTY_READS - i
      {
        var n, e := ReadMore();
        if e.Some? {
          err := e;
          return;
        }
        if n > 0 {
          return;
        }
        i := i - 1;
      }
      err := Some(NoProgress);
    }

    /** `n, err := b.rd.Read(b.buf[b.w:]); b.w += n`. */
    method ReadMore() returns (n: nat, e: Option<Error>)
      requires Valid() && r == 0 && w < buf.Length
      modifies this`w, buf, rd
      ensures r <= w == old(w) + n <= buf.Length && rd.Valid()
      ensures Unread() == old(Unread())
      ensures e.Some? ==> e == Some(EOF) || (rd.faulty && e.value.Transport?)
      ensures e == rd.last
      ensures e == Some(EOF) || old(rd.data) == [] ==> rd.data == []
      ensures e == Some(EOF) && rd.lateEOF ==> n == 0
      ensures err == Some(EOF) ==> n == 0
      ensures rd.idle == if n == 0 && e == None then old(rd.idle) + 1 else 0
    {
      ghost var window, rest := buf[r..w], rd.data;
      n, e := rd.Read(Slice(buf, w, buf.Length - w));
      assert buf[r..w] == window;
      w := w + n;
      assert buf[r..w] == window + rest[..n];
    }

    /** The front of the window is the front of the unread bytes. */
    lemma Front(k: nat)
      requires r + k <= w <= buf.Length
      ensures buf[r..r + k] == Unread()[..k] && buf[r + k..w] + rd.data == Unread()[k..]
    {
      var s, t := buf[r..r + k], buf[r + k..w];
      assert buf[r..w] == s + t;
      assert s + t + rd.data == s + (t + rd.data);
    }

    /** `b.r += k`: the next k bytes of the window are consumed. */
    method Advance(k: nat)
      requires Valid() && r + k <= w
      modifies this`r
      ensures Valid() && r == old(r) + k
      ensures old(Unread())[..k] == buf[old(r)..r] && Unread() == old(Unread())[k..]
    {
      Front(k);
      r := r + k;
    }

    /** The next k bytes of the window, consumed. */
    method Take(k: nat) returns (d: Slice)
      requires Valid() && r + k <= w
      modifies this`r
      ensures Valid() && r == old(r) + k && d == Slice(buf, old(r), k)
      ensures d.Bytes() == old(Unread())[..k] && Unread() == old(Unread())[k..]
    {
      d := Slice(buf, r, k);
      Advance(k);
    }

    method ReadErr() returns (e: Option<Error>)
      requires Valid()
      modifies this`err
      ensures Valid() && e == old(err) && err == None
    {
      e := err;
      err := None;
    }

    /** What Peek and Pop promise about an n that fits the buffer. */
    ghost predicate Supplied(n: nat, d: Slice, e: Option<Error>, u: seq<byte>)
      reads buf, rd
    {
      && d.arr == buf && d.Valid()
      && d.len <= |u| && d.Bytes() == u[..d.len]
      && (e == None ==> d.len == n)
      && (e.Some? ==> d.len < n && FromSource(e.value))
      && (e == Some(EOF) ==> |u| < n)
    }

    method Peek(n: int) returns (d: Slice, e: Option<Error>)
      requires Valid()
      modifies this, buf, rd
      ensures Valid() && Unread() == old(Unread())
      ensures n < 0 ==> e == Some(NegativeCount)
      ensures n > buf.Length ==> e == Some(BufferFull)
      ensures n < 0 || n > buf.Length ==> d.len == 0 && d.Valid()
      ensures 0 <= n <= buf.Length ==> Supplied(n, d, e, old(Unread()))
      ensures 0 <= n <= buf.Length ==> d.off == r && r + d.len <= w
      ensures 0 <= n <= old(w - r) ==>
                r == old(r) && w == old(w) && rd.data == old(rd.data) && err == old(err) && e == None
    {
      if n < 0 {
        return Slice(buf, 0, 0), Some(NegativeCount);
      }
      if n > buf.Length {
        return Slice(buf, 0, 0), Some(BufferFull);
      }
      while w - r < n && err == None
        invariant Valid() && Unread() == old(Unread())
        invariant n <= old(w - r) ==> r == old(r) && w == old(w) && rd.data == old(rd.data) && err == old(err)
        decreases err == None, n - (w - r)
      {
        Fill();
      }
      e := None;
      var avail := w - r;
      var k := n;
      if avail < n {
        k := avail;
        e := ReadErr();
        if e == None {
          e := Some(BufferFull);
        }
      }
      d := Slice(buf, r, k);
      Front(k);
    }

    method Pop(n: int) returns (d: Slice, e: Option<Error>)
      requires Valid()
      modifies this, buf, rd
      ensures Valid() && d.Valid()
      ensures n < 0 ==> e == Some(NegativeCount)
      ensures n > buf.Length ==> e == Some(BufferFull)
      ensures e == None ==> 0 <= n <= |old(Unread())| && d.arr == buf && d.len == n && d.off + n == r
      ensures e == None ==> d.Bytes() == old(Unread())[..n] && Unread() == old(Unread())[n..]
      ensures e.Some? ==> Unread() == old(Unread()) && d.len == 0
      ensures e.Some? && 0 <= n <= buf.Length ==> FromSource(e.value)
      ensures e == Some(EOF) && 0 <= n <= buf.Length ==> |Unread()| < n
    {
      d, e := Peek(n);
      if e == None {
        Advance(n);
        return;
      }
      d := Slice(buf, 0, 0);
    }

    method Discard(n: int) returns (discarded: nat, e: Option<Error>)
      requires Valid()
      modifies this, buf, rd
      ensures Valid()
      ensures n < 0 ==> discarded == 0 && e == Some(NegativeCount)
      ensures discarded <= |old(Unread())| && Unread() == old(Unread())[discarded..]
      ensures e == None ==> discarded == n
      ensures n >= 0 && e.Some? ==> discarded < n && FromSource(e.value)
      ensures n >= 0 && e == Some(EOF) ==> Unread() == []
    {
      if n < 0 {
        return 0, Some(NegativeCount);
      }
      if n == 0 {
        return 0, None;
      }
      ghost var u, done := Unread(), 0;
      assert u[0..] == u;
      var remain := n;
      while true
        invariant Valid() && 0 < remain && done + remain == n
        invariant done <= |u| && Unread() == u[done..]
        decreases remain
      {
        var skip := SkipSome(remain);
        DropDrop(u, done, skip);
        remain, done := remain - skip, done + skip;
        if remain == 0 {
          return n, None;
        }
        assert r == w && Unread() == rd.data;
        if err != None {
          e := ReadErr();
          return n - remain, e;
        }
      }
    }

    /** One round of Discard: what is buffered, after a fill if that is nothing, but at most remain. */
    method SkipSome(remain: nat) returns (skip: nat)
      requires Valid() && remain > 0
      modifies this, buf, rd
      ensures Valid() && skip <= remain && (skip > 0 || err.Some?)
      ensures skip <= |old(Unread())| && Unread() == old(Unread())[skip..]
      ensures skip < remain ==> r == w
    {
      skip := Buffered();
      if skip == 0 {
        Fill();
        skip := Buffered();
      }
      if skip > remain {
        skip := remain;
      }
      Advance(skip);
    }

    method Read(p: Slice) returns (n: nat, e: Option<Error>)
      requires Valid() && p.Valid() && p.arr != buf
      modifies this, buf, rd, p.arr
      ensures Valid()
      ensures n <= p.len && n <= |old(Unread())| && Unread() == old(Unread())[n..]
      ensures p.arr[p.off..p.off + n] == old(Unread())[..n]
      ensures forall i :: 0 <= i < p.arr.Length && !p.Covers(i) ==> p.arr[i] == old(p.arr[i])
      ensures e.Some? ==> FromSource(e.value)
      ensures e == Some(EOF) ==> (Unread() == [] <==> p.len > 0 || old(r) == old(w))
      ensures p.len == 0 ==> e == old(err) && err == None && Unread() == old(Unread())
      ensures n == 0 && p.len > 0 && e == None ==> p.len >= buf.Length && rd.idle > old(rd.idle)
    {
      n := p.len;
      if n == 0 {
        e := ReadErr();
        return 0, e;
      }
      if r == w {
        var done;
        done, n, e := ReadEmpty(p);
        if done {
          return;
        }
      }
      n := CopyOut(p);
      e := None;
    }

    /** `n = copy(p, b.buf[b.r:b.w]); b.r += n`. */
    method CopyOut(p: Slice) returns (n: nat)
      requires Valid() && p.Valid() && p.arr != buf
      modifies this`r, p.arr
      ensures Valid() && n == Min(p.len, old(w - r))
      ensures n <= |old(Unread())| && Unread() == old(Unread())[n..] && p.arr[p.off..p.off + n] == old(Unread())[..n]
      ensures forall i :: 0 <= i < p.arr.Length && !p.Covers(i) ==> p.arr[i] == old(p.arr[i])
    {
      n := Copy(p, Slice(buf, r, w - r));
      Advance(n);
    }

    /** What Read does about an empty window: it is done, or has filled it. */
    method ReadEmpty(p: Slice) returns (done: bool, n: nat, e: Option<Error>)
      requires Valid() && r == w && p.Valid() && p.len > 0 && p.arr != buf
      modifies this, buf, rd, p.arr
      ensures Valid()
      ensures n <= p.len && n <= |old(Unread())| && Unread() == old(Unread())[n..]
      ensures p.arr[p.off..p.off + n] == old(Unread())[..n]
      ensures forall i :: 0 <= i < p.arr.Length && !p.Covers(i) ==> p.arr[i] == old(p.arr[i])
      ensures e.Some? ==> FromSource(e.value)
      ensures e == Some(EOF) ==> Unread() == []
      ensures done && n == 0 && e == None ==> p.len >= buf.Length && rd.idle > old(rd.idle)
      ensures !done ==> n == 0 && r < w && e == None
    {
      if err != None {
        e := ReadErr();
        return true, 0, e;
      }
      if p.len >= buf.Length {
        // Large read into an empty buffer goes straight to the caller.
        n, e := ReadDirect(p);
        return true, n, e;
      }
      Fill();
      if r == w {
        e := ReadErr();
        return true, 0, e;
      }
      return false, 0, None;
    }

    /** `n, b.err = b.rd.Read(p); return n, b.readErr()`, with an empty window. */
    method ReadDirect(p: Slice) returns (n: nat, e: Option<Error>)
      requires Valid() && r == w && err == None
      requires p.Valid() && p.arr != buf && p.len >= buf.Length
      modifies this`err, rd, p.arr
      ensures Valid()
      ensures n <= p.len && n <= |old(Unread())| && Unread() == old(Unread())[n..]
      ensures p.arr[p.off..p.off + n] == old(Unread())[..n]
      ensures forall i :: 0 <= i < p.arr.Length && !p.Covers(i) ==> p.arr[i] == old(p.arr[i])
      ensures e.Some? ==> FromSource(e.value)
      ensures e == Some(EOF) ==> Unread() == []
      ensures n == 0 && e == None ==> rd.idle > old(rd.idle)
    {
      assert Unread() == rd.data;
      n, e := rd.Read(p);
      err := None;
    }

    method ReadByte() returns (c: byte, e: Option<Error>)
      requires Valid()
      modifies this, buf, rd
      ensures Valid()
      ensures e == None ==> old(Unread()) != [] && c == old(Unread())[0] && Unread() == old(Unread())[1..]
      ensures e.Some? ==> Unread() == old(Unread()) && FromSource(e.value)
      ensures e == Some(EOF) ==> Unread() == []
    {
      while r == w
        invariant Valid() && Unread() == old(Unread())
        decreases r == w, err == None
      {
        if err != None {
          e := ReadErr();
          return 0, e;
        }
        Fill();
      }
      c := buf[r];
      Advance(1);
      e := None;
    }

    /** What ReadSlice promises of its line: a piece of the unread stream u, all of it consumed. */
    ghost predicate Sliced(delim: byte, line: Slice, e: Option<Error>, u: seq<byte>)
      reads this, buf, rd
    {
      && line.arr == buf && line.Valid() && line.off + line.len == r && Valid()
      && u == line.Bytes() + Unread()
      && (e == None ==> EndsAtFirst(line.Bytes(), delim))
      && (e.Some? ==> delim !in line.Bytes())
      && (e.Some? ==> e == Some(BufferFull) || FromSource(e.value))
      && (e == Some(BufferFull) ==> line == Slice(buf, 0, buf.Length) && r == w)
      && (e == Some(EOF) ==> Unread() == [] && (rd.lateEOF ==> line.len < buf.Length))
    }

    method ReadSlice(delim: byte) returns (line: Slice, e: Option<Error>)
      requires Valid()
      modifies this, buf, rd
      ensures Sliced(delim, line, e, old(Unread()))
      ensures e.Some? && e != Some(BufferFull) ==> err == None
      ensures old(err).Some? ==> PendingSlice(delim, line, e, old(buf[r..w]), old(err))
    {
      while true
        invariant Valid() && Unread() == old(Unread())
        invariant old(err).Some? ==> err == old(err) && buf[r..w] == old(buf[r..w])
        decreases err == None, buf.Length - (w - r)
      {
        var done;
        done, line, e := SliceBuffered(delim);
        if done {
          return;
        }
        Fill();
      }
    }

    /** What becomes of a pending error e0 while window is buffered. */
    ghost predicate PendingSlice(delim: byte, line: Slice, e: Option<Error>, window: seq<byte>, e0: Option<Error>)
      reads this, buf
      requires line.Valid() && line.arr == buf
    {
      if delim in window then e == None && err == e0 else line.Bytes() == window && e == e0
    }

    lemma UpToFirst(s: seq<byte>, b: byte)
      requires b in s
      ensures EndsAtFirst(s[..IndexByte(s, b) + 1], b)
    {
      var i := IndexByte(s, b);
      assert s[..i + 1][..i] == s[..i];
    }

    /** The part of a round of ReadSlice that needs no reading. */
    method SliceBuffered(delim: byte) returns (done: bool, line: Slice, e: Option<Error>)
      requires Valid()
      modifies this`r, this`err
      ensures if done then Sliced(delim, line, e, old(Unread()))
              else r == old(r) && w == old(w) && err == old(err) == None && w - r < buf.Length
      ensures done && e.Some? && e != Some(BufferFull) ==> err == None
      ensures old(err).Some? ==> done && PendingSlice(delim, line, e, old(buf[r..w]), old(err))
    {
      var window := buf[r..w];
      var i := IndexByte(window, delim);
      if i >= 0 {
        line := Take(i + 1);
        UpToFirst(window, delim);
        assert line.Bytes() == window[..i + 1];
        return true, line, None;
      }
      if err != None {
        line := Take(w - r);
        e := ReadErr();
        return true, line, e;
      }
      if Buffered() >= buf.Length {
        line := Take(w - r);
        return true, line, Some(BufferFull);
      }
      return false, Slice(buf, 0, 0), None;
    }

    /** `b.r--`: the byte before the window becomes unread again. */
    method PutBack()
      requires Valid() && r > 0
      modifies this`r
      ensures Valid() && r == old(r) - 1
      ensures Unread() == [buf[r]] + old(Unread())
    {
      r := r - 1;
      assert buf[r..w] == [buf[r]] + buf[r + 1..w];
    }

    /** A piece that fills the buffer; a CR in its last place is left for the next call. */
    ghost predicate FullPiece(line: Slice, u: seq<byte>)
      reads this, buf, rd
      requires line.arr == buf && line.Valid() && Valid()
    {
      && |u| >= buf.Length && LF !in u[..buf.Length]
      && line.len == PieceLen(u, buf.Length) && u == line.Bytes() + Unread()
    }

    /** A whole line, without its end: CR LF, or LF behind anything else than CR. */
    ghost predicate LastPiece(line: Slice, u: seq<byte>)
      reads this, buf, rd
      requires line.arr == buf && line.Valid() && Valid()
    {
      var s, rest := line.Bytes(), Unread();
      && LF !in s && line.len < buf.Length
      && (u == s + CRLF + rest || (u == s + [LF] + rest && (s == [] || s[|s| - 1] != CR)))
    }

    /** A non-empty piece that the source's error or end cut off before any LF. */
    ghost predicate CutPiece(line: Slice, u: seq<byte>)
      reads this, buf, rd
      requires line.arr == buf && line.Valid() && Valid()
    {
      && line.len > 0 && u == line.Bytes() + Unread()
      && (rd.Steady() ==> LF !in u && line.len == |u| && (rd.lateEOF ==> |u| < buf.Length))
    }

    /** What ReadLine returns and consumes of the unread stream u. */
    ghost predicate Piece(line: Slice, more: bool, e: Option<Error>, u: seq<byte>)
      reads this, buf, rd
    {
      && line.arr == buf && line.Valid() && Valid() && line.off + line.len <= r
      && match e
         case Some(x) => !more && line.len == 0 && FromSource(x) && (x == EOF ==> u == []) && Unread() == u
         case None => if more then FullPiece(line, u) else LastPiece(line, u) || CutPiece(line, u)
    }

    /** What becomes of a pending error e0 while window is buffered: it is kept behind a line that ends in the
        window, returned for an empty window, and lost behind any other: the caller gets the bytes and no
        error, and the reader forgets it. */
    ghost predicate PendingLine(line: Slice, more: bool, e: Option<Error>, window: seq<byte>, e0: Option<Error>)
      reads this, buf
      requires line.Valid() && line.arr == buf
    {
      if LF in window then e == None && err == e0
      else if window == [] then e == e0 && err == None
      else e == None && !more && err == None && line.Bytes() == window
    }

    method ReadLine() returns (line: Slice, more: bool, e: Option<Error>)
      requires Valid()
      modifies this, buf, rd
      ensures Piece(line, more, e, old(Unread()))
      ensures old(err).Some? ==> PendingLine(line, more, e, old(buf[r..w]), old(err))
    {
      ghost var u := Unread();
      line, e := ReadSlice(LF);
      AppendParts(line.Bytes(), Unread());
      if e == Some(BufferFull) {
        line := KeepCR(line, u);
        return line, true, None;
      }
      more := false;
      if line.len == 0 {
        return;
      }
      line := FinishLine(line, e, u);
      e := None;
    }

    /** A non-empty piece that does not fill the buffer: without its LF or CR LF, if it ends in one. */
    method FinishLine(line0: Slice, ghost e0: Option<Error>, ghost u: seq<byte>) returns (line: Slice)
      requires Sliced(LF, line0, e0, u) && line0.len > 0 && e0 != Some(BufferFull)
      ensures Piece(line, false, None, u)
      ensures e0.Some? ==> line == line0
    {
      assert e0.Some? ==> line0.Bytes()[line0.len - 1] != LF;
      line := line0;
      if line.Bytes()[line.len - 1] == LF {
        line := DropEnd(line);
      }
    }

    /** A full buffer without an LF: a CR in its last place is put back for the next call, to pair with its LF. */
    method KeepCR(line0: Slice, ghost u: seq<byte>) returns (line: Slice)
      requires Valid() && r == w && line0 == Slice(buf, 0, buf.Length) && r == buf.Length
      requires |u| >= buf.Length && u == line0.Bytes() + Unread() && LF !in line0.Bytes()
      modifies this`r
      ensures Piece(line, true, None, u)
    {
      line := line0;
      if line.len > 0 && line.Bytes()[line.len - 1] == CR {
        PutBack();
        line := line.Sub(0, line.len - 1);
        assert u[line.len..] == [u[line.len]] + u[buf.Length..];
        assert line.Bytes() == line0.Bytes()[..line.len] == u[..line.len];
      }
    }

    /** A line that ends in LF, without its end. */
    method DropEnd(line0: Slice) returns (line: Slice)
      requires line0.Valid() && EndsAtFirst(line0.Bytes(), LF)
      ensures line.arr == line0.arr && line.Valid() && line.off == line0.off && line.len < line0.len
      ensures var s := line.Bytes();
              LF !in s && (line0.Bytes() == s + CRLF || (line0.Bytes() == s + [LF] && (s == [] || s[|s| - 1] != CR)))
    {
      var drop := 1;
      if line0.len > 1 && line0.Bytes()[line0.len - 2] == CR {
        drop := 2;
      }
      line := line0.Sub(0, line0.len - drop);
      ghost var raw := line0.Bytes();
      assert line.Bytes() == raw[..|raw| - drop];
      AbsentBefore(raw, LF, |raw| - 1);
      assert raw == raw[..|raw| - drop] + raw[|raw| - drop..];
    }
  }

  /** The length of the piece of u that a full buffer of the given size yields. */
  function PieceLen(u: seq<byte>, size: nat): nat
    requires 0 < size <= |u|
  {
    if u[size - 1] == CR then size - 1 else size
  }
}
