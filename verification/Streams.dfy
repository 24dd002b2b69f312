/** The two ends of the wire: `io.Reader` and `io.Writer` as nondeterministic objects. */
module Streams {
  import opened Bytes

  /** Every error value of the modelled code. */
  datatype Error =
    | EOF
    | UnexpectedEOF
    | NoProgress
    | ShortWrite
    | BufferFull
    | NegativeCount
    | Transport(code: int)
    | ReservedBits
    | MessageClose
    | MessageMaxRead
    | UnknownOpcode(fin: bool, op: nat)
    | LineTooLong
    | MalformedChunk
    | BadHexByte
    | ChunkTooLarge
    | MalformedRequest
    | MalformedHeader

  const MAX_EMPTY_READS: nat := 100

  /** An `io.Reader`. It may return short reads, data together with an error, and empty reads.
      EOF is reported only once everything was delivered. */
  class Source {
    var data: seq<byte>     // not delivered yet
    var idle: nat           // empty reads in a row so far
    var last: Option<Error> // what the last read reported
    const patience: nat     // bound on empty reads in a row
    const faulty: bool      // may fail with an error other than EOF
    const lateEOF: bool     // reports EOF only on a read that returns nothing

    constructor (data: seq<byte>, patience: nat, faulty: bool, lateEOF: bool)
      ensures Valid() && this.data == data && idle == 0
      ensures this.patience == patience && this.faulty == faulty && this.lateEOF == lateEOF
    {
      this.data, idle, last := data, 0, None;
      this.patience, this.faulty, this.lateEOF := patience, faulty, lateEOF;
    }

    predicate Valid()
      reads this
    {
      idle <= patience
    }

    /** Delivers all its data before it fails, and soon enough for `fill`. */
    predicate Steady() {
      !faulty && patience < MAX_EMPTY_READS
    }

    method Read(p: Slice) returns (n: nat, err: Option<Error>)
      requires Valid() && p.Valid() && p.len > 0
      modifies this, p.arr
      ensures Valid()
      ensures n <= p.len && n <= |old(data)| && data == old(data)[n..]
      ensures p.arr[p.off..p.off + n] == old(data)[..n]
      ensures forall i :: 0 <= i < p.arr.Length && !p.Covers(i) ==> p.arr[i] == old(p.arr[i])
      ensures err == Some(EOF) ==> data == [] && (lateEOF ==> n == 0)
      ensures err.Some? && err != Some(EOF) ==> faulty && err.value.Transport?
      ensures if n == 0 && err == None then idle == old(idle) + 1 else idle == 0
      ensures err == last
    {
      n :| n <= p.len && n <= |data|;
      // The window past the first n bytes is scratch space.
      forall i | p.off <= i < p.off + p.len {
        p.arr[i] := *;
      }
      forall i | 0 <= i < n {
        p.arr[p.off + i] := data[i];
      }
      data := data[n..];
      err := None;
      var code: int := *;
      if {
        case faulty => err := Some(Transport(code));
        case data == [] && (lateEOF ==> n == 0) => err := Some(EOF);
        case n > 0 =>
        case idle < patience =>
        case n == 0 && data != [] && idle == patience && !faulty =>
          // Out of patience: deliver at least one byte.
          p.arr[p.off] := data[0];
          n, data := 1, data[1..];
      }
      idle := if n == 0 && err == None then idle + 1 else 0;
      last := err;
    }
  }

  /** An `io.Writer`. A lawful one reports every short count as an error. */
  class Sink {
    var sent: seq<byte>
    var last: Option<Error> // what the last write reported
    const lawful: bool
    const reliable: bool    // never fails and never writes short

    constructor (lawful: bool, reliable: bool)
      ensures sent == [] && this.lawful == lawful && this.reliable == reliable
    {
      sent, last := [], None;
      this.lawful, this.reliable := lawful, reliable;
    }

    method Write(p: Slice) returns (n: nat, err: Option<Error>)
      requires p.Valid()
      modifies this
      ensures n <= p.len && sent == old(sent) + p.Bytes()[..n]
      ensures n < p.len && err == None ==> n > 0 && !lawful
      ensures err.Some? ==> err.value.Transport?
      ensures reliable ==> n == p.len && err == None
      ensures err == last
    {
      var code: int := *;
      if {
        case true => n, err := p.len, None;
        case !reliable => n :| n <= p.len; err := Some(Transport(code));
        case !reliable && !lawful && p.len > 0 => n :| 0 < n <= p.len; err := None;
      }
      sent, last := sent + p.Bytes()[..n], err;
    }
  }
}
