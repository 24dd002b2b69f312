/** Whole runs of the chunked coding: a run of reads of any sizes, and writes read back. */
module ChunkedSession {
  import opened Bytes
  import opened Streams
  import opened BufReader
  import opened ChunkGrammar
  import opened Chunked
  import Hex

  /** Reads of any non-empty sizes until an error. What came out is a prefix of the decoding of the
      input; and unless the transport failed, it is all of it, the error is the decoding's own, and
      exactly the decoding's rest is left unread. */
  method Drain(cr: ChunkedReader) returns (out: seq<byte>, e: Error)
    requires cr.Valid() && cr.err == None
    modifies cr, cr.r, cr.r.buf, cr.r.rd, cr.buf
    ensures cr.Valid()
    ensures var g := Decode(old(cr.n), old(cr.checkEnd), old(cr.r.Unread()), cr.r.buf.Length);
            && out <= g.out
            && (cr.r.rd.Steady() ==> !Fault(e))
            && (!Fault(e) ==> out == g.out && Matches(g.end, e, cr.r.rd.lateEOF) && cr.r.Unread() == g.rest)
  {
    ghost var g := cr.Pending();
    assert g == Decode(cr.n, cr.checkEnd, cr.r.Unread(), cr.r.buf.Length);
    out, e := DrainAll(cr, g);
  }

  /** The reads of Drain, for a decoding g that is still to come out. */
  method DrainAll(cr: ChunkedReader, ghost g: Decoding) returns (out: seq<byte>, e: Error)
    requires cr.Valid() && cr.err == None && g == cr.Pending()
    modifies cr, cr.r, cr.r.buf, cr.r.rd, cr.buf
    ensures cr.Valid() && cr.err == Some(e)
    ensures Decoded(cr.decode, cr.r.rd.lateEOF, g, out, Some(e), cr.n, cr.checkEnd, cr.r.Unread())
  {
    out := [];
    StartDecoding(g);
    while true
      invariant cr.Valid() && cr.err == None && g == Prepend(out, cr.Pending())
      decreases |g.out| - |out|
    {
      var size :| size > 0;
      var b := new byte[size](_ => 0);
      ghost var d := cr.Pending();
      var m, err := cr.Read(Slice(b, 0, size));
      DecodedTrans(cr.decode, cr.r.rd.lateEOF, g, out, d, b[..m], cr.err, cr.n, cr.checkEnd, cr.r.Unread());
      out := out + b[..m];
      if err != None {
        e := err.value;
        return;
      }
    }
  }

  /** Reads of the given sizes, empty ones included, stopped anywhere or gone on with after the end: what came
      out and what the reader's state still holds make up the decoding of the input. */
  method ReadRun(cr: ChunkedReader, sizes: seq<nat>) returns (out: seq<byte>)
    requires cr.Valid() && cr.err == None
    modifies cr, cr.r, cr.r.buf, cr.r.rd, cr.buf
    ensures cr.Valid()
    ensures Decoded(cr.decode, cr.r.rd.lateEOF, old(cr.Pending()), out, cr.err, cr.n, cr.checkEnd, cr.r.Unread())
    ensures out <= old(cr.Pending()).out
  {
    ghost var g := cr.Pending();
    out := [];
    StartDecoding(g);
    for i := 0 to |sizes|
      invariant cr.Valid()
      invariant Decoded(cr.decode, cr.r.rd.lateEOF, g, out, cr.err, cr.n, cr.checkEnd, cr.r.Unread())
    {
      var b := new byte[sizes[i]](_ => 0);
      ghost var ended, d := cr.err.Some?, cr.Pending();
      var m, _ := cr.Read(Slice(b, 0, sizes[i]));
      if !ended {
        DecodedTrans(cr.decode, cr.r.rd.lateEOF, g, out, d, b[..m], cr.err, cr.n, cr.checkEnd, cr.r.Unread());
      }
      out := out + b[..m];
    }
  }

  method WriteAll(cw: ChunkedWriter, ws: seq<seq<byte>>) returns (e: Option<Error>)
    modifies cw.wire
    ensures e == None && cw.wire.lawful ==> cw.wire.sent == old(cw.wire.sent) + (EncodeChunks(ws) + LAST_CHUNK)
    ensures cw.wire.reliable && cw.wire.lawful ==> e == None
  {
    e := None;
    for i := 0 to |ws|
      invariant e == None
      invariant cw.wire.lawful ==> cw.wire.sent == old(cw.wire.sent) + EncodeChunks(ws[..i])
    {
      var p := FromSeq(ws[i]);
      var n;
      n, e := cw.Write(p);
      if e != None {
        return;
      }
      assert ws[..i + 1][..i] == ws[..i];
      AppendAssoc(old(cw.wire.sent), EncodeChunks(ws[..i]), EncodeChunk(ws[i]));
    }
    assert ws[..|ws|] == ws;
    AppendAssoc(old(cw.wire.sent), EncodeChunks(ws), LAST_CHUNK);
    e := cw.Close();
  }

  /** Writes, then Close, then reads of any sizes from any steady source. */
  method RoundTrip(ws: seq<seq<byte>>, tail: seq<byte>, size: nat, patience: nat, lateEOF: bool)
    returns (out: seq<byte>, e: Error, ghost rest: seq<byte>)
    requires size >= MIN_READ_BUFFER && patience < MAX_EMPTY_READS
    requires forall w :: w in ws ==> Sendable(w, size)
    ensures out == Flatten(ws) && e == EOF && rest == tail
  {
    var sink := new Sink(true, true);
    var cw := new ChunkedWriter(sink);
    var _ := WriteAll(cw, ws);
    ghost var coded := EncodeChunks(ws) + LAST_CHUNK;
    assert sink.sent == [] + coded == coded;
    AppendAssoc(EncodeChunks(ws), LAST_CHUNK, tail);
    var source := new Source(sink.sent + tail, patience, false, lateEOF);
    var r := new Reader(source, size);
    var cr := new ChunkedReader(r);
    ChunkRoundTrip(ws, tail, size);
    assert r.Unread() == coded + tail;
    out, e := Drain(cr);
    rest := r.Unread();
  }
}
