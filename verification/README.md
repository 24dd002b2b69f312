# The wire stack of kratos-transport-rpc, in Dafny

This project models the byte-level part of `server/mqtt` — buffered I/O, WebSocket framing, the chunked transfer
coding, the RPC message printer and parser, and the two allocators — together with the broker address normaliser and
the name converter of the code generator, and proves what they are for.

Verify it with `dafny verify dfyconfig.toml` (resource limit 2000000).

| file | what it holds |
|---|---|
| `Bytes`, `Bits`, `Strings`, `Decimal` | bytes, slices over shared arrays, bit operators as arithmetic, and the functions of Go's standard library that the code calls |
| `Streams` | `io.Reader` and `io.Writer` as nondeterministic objects |
| `BufReader`, `BufWriter` | `server/mqtt/bufio/bufio.go` |
| `Frames`, `Messages`, `WebSocketConn`, `WebSocketSession` | the frame format of RFC 6455, what a `ReadMessage` call makes of a stream, `server/mqtt/conn.go`, and whole exchanges |
| `Hex`, `ChunkGrammar`, `Chunked`, `ChunkedSession` | chunk sizes, the chunk grammar of the code, `server/mqtt/internal/chunked.go`, and whole runs |
| `MessageFormat`, `Request` | the text messages and `server/mqtt/request.go` |
| `RpcFormat`, `Rpc` | what an exchange means, and `server/mqtt/client.go` with `server/mqtt/server.go` |
| `GrowBuffer`, `Pool` | `server/mqtt/bytes/writer.go` and `server/mqtt/bytes/buffer.go` |
| `Runs` | any interleaving of the operations of a reader, a writer, a growing buffer and a pool |
| `Addrs`, `CamelCase` | `broker/mqtt/utils.go` and the name converter of `cmd/protoc-gen-go-mqtt/mqtt.go` |

## How it is built

**Slices alias.** A Go slice is a `Slice` (array, offset, length). A slice returned by `Peek`, `Pop` or `ReadSlice` is a
window of the reader's own buffer, later calls slide that buffer, and unmasking happens in place inside it. The
contracts say which window is returned and what becomes of the unread bytes.

**The ends of the wire are adversaries.** `Source.Read` may return short reads, data together with an error, and up to
`patience` empty reads in a row; with `lateEOF` it reports EOF only on a read that returns nothing, as a
`strings.Reader` does. `Sink.Write` may write short and fail at any time; a lawful one reports every short count as an
error. A theorem about delivery asks for a steady source (no transport error, fewer than 100 empty reads in a row);
everything else holds for any source.

**Two views carry everything.** `Reader.Unread()` is `buf[r..w]` followed by what the source still holds, and
`Writer.Stream()` is what was sent followed by `buf[..n]`. Every codec is proved against a function of these.

**Buffered input of the chunked reader.** `chunked.go` imports Go's standard `bufio`, not the package beside it; the model
reads through `BufReader.Reader`. Of its contracts for `Read`, `ReadSlice`, `Peek` and `Buffered` the proofs use only what
the standard package promises as well.

**Helpers.** Some methods of the source are split (`ReadLengthOn`, `Spill`, `KeepCR`, `Advance`, `ReadPiece`, `Adopt`,
…) so that each proof stays small; they run in the source's order. A reading function is passed around as a ghost
arrow (`Parser`, `Decoder`, `Liner`, `Headers`, `Progress`) that agrees with the specification function.

**Every specification function is tied to something else.** A method proved against a function says little if the
function is wrong, so each one has a law that does not call it: the bits of an unmasked payload (`MaskedPayload`), the
size lines as digits, white space and extension (`SizeLine`), canonical names by case (`Named`), header lines by their
parts (`HeaderLines`), addresses by theirs (`ReadForms`), the camel-cased name byte by byte (`CamelIs`), numbers by
their positions (`FirstByteFirst`, `FirstDigit`, `AtoiIs`).

## What turned out

* A fragmented message whose data before the final frame is all empty is returned with the opcode of the final
  frame, 0: `Messages.FragmentedMessage` gives the type back *if and only if* the message was in one data frame or had
  data before its final one, and `Messages.EmptyFirstFragmentLosesType` is a concrete case.
* An unterminated last line whose pieces exactly fill the buffer, each time, is lost if the source reports its end by
  itself: `MessageFormat.LostTail`, which for a line without CR means a length divisible by the buffer size
  (`LostTailWithoutCR`).
* A body is accepted exactly when it is shorter than the reader's 4096 bytes, or fills them and ends with its only zero
  byte; it is cut after its first zero byte (`MessageFormat.DeliveredWhole`). Empty bodies are answered with nothing.
* `Content-Type` is compared with the misspelt `appcation/proto`, so both sides always unmarshal json, whatever codec
  marshalled the body (`RpcFormat.AlwaysJson`). The exchange theorem therefore asks that json reads back what the
  server's own codec writes.
* A size line without LF that exactly fills the reader's buffer is reported as `line too long`, but possibly as an
  unexpected end if the source reports its own end together with the last bytes (`ChunkGrammar.Matches`).
* White space in front of a chunk extension makes the size line malformed, because the code trims the line before it cuts
  the extension: `5 ;name=val` is an invalid byte in the length. Digits, blanks, a semicolon and any text are a size line
  *if and only if* there are no blanks (`ChunkGrammar.ExtendedLine`); `EOFIffBody` is stated over exactly the lines the
  code takes.
* A length of 64 bits with its top bit set is taken for no payload (`Frames.TopBitLength`).
* Text behind a second `://` or a second colon of a broker address is ignored (`Addrs.ReadForms`), and a number at or
  above 2^64 with text behind it is not rejected but taken for the greatest 64-bit integer (`Decimal.AtoiIs`).
* `Writer.WriteRaw` returns a short count without an error only over an unlawful sink.
* `Conn.WriteHeader` needs a writer buffer of 8 bytes for lengths from 65536 on; with a smaller one it fails after its
  two leading bytes, which stay in the stream.
* `ReadLine` loses a pending error exactly when the bytes buffered in front of it are some, and hold no line feed
  (`BufReader.Reader.PendingLine`, and `Runs.ReadLineForgetsError` for a concrete case).
* `Read` into an empty slice returns EOF with bytes still unread exactly if the window is not empty
  (`Runs.EmptyReadReportsEOF`).

## Model

| member | source | states |
|---|---|---|
| BufReader.Reader.Fill | server/mqtt/bufio/bufio.go:88-116 | called only with room left, it keeps every unread byte and gains bytes or records an error: exactly the one the source last reported, or `ErrNoProgress`, and that exactly after 100 empty reads in a row |
| BufReader.Reader.Peek | server/mqtt/bufio/bufio.go:128-150 | the next n unread bytes, none consumed; short only with the source's own error, and with EOF only if there are fewer than n; no slide and no read if n bytes are buffered |
| BufReader.Reader.Pop | server/mqtt/bufio/bufio.go:156-163 | exactly the next n bytes, consumed, in a window that ends where the unread bytes start; a failed Pop consumes nothing |
| BufReader.Reader.Discard | server/mqtt/bufio/bufio.go:170-196 | drops exactly the counted bytes from the front of the unread stream; n of them unless there is an error |
| BufReader.Reader.Read | server/mqtt/bufio/bufio.go:203-231 | the bytes copied are the front of the unread stream, the rest stays unread, and nothing outside the caller's slice changes; an empty slice takes the pending error, and EOF is returned with bytes still unread exactly for an empty slice over a non-empty window |
| BufReader.Reader.ReadByte | server/mqtt/bufio/bufio.go:235-247 | the first unread byte, or an error with nothing consumed |
| BufReader.Reader.ReadSlice | server/mqtt/bufio/bufio.go:259-287 | everything up to and with the first delimiter; without one, all that was buffered with the error or a full buffer; a pending error is kept behind a delimiter in the window and returned with the window otherwise |
| BufReader.Reader.ReadLine | server/mqtt/bufio/bufio.go:305-338 | a line without its end, or a piece that fills the buffer, leaving a CR in its last place unread; a pending error is lost exactly if the window is not empty and holds no line feed |
| Runs.EmptyReadReportsEOF | server/mqtt/bufio/bufio.go:203-207 | a read into an empty slice reports EOF while a byte is still unread |
| Runs.ReadLineForgetsError | server/mqtt/bufio/bufio.go:322-329 | a line start that came with a transport error is returned without it, and the reader has forgotten it |
| BufWriter.Writer.FlushBuffer | server/mqtt/bufio/bufio.go:404-425 | a partial write neither loses nor repeats a byte: sent bytes followed by the buffer are unchanged; a new error is the one the sink reported, or a short write exactly when an unlawful sink reported none; errors are sticky |
| BufWriter.Writer.Write | server/mqtt/bufio/bufio.go:437-459 | the stream grows by exactly the returned prefix of the argument, all of it without an error, nothing after an error |
| BufWriter.Writer.WriteString | server/mqtt/bufio/bufio.go:505-521 | as Write; a failing write of a non-empty string is always short |
| BufWriter.Writer.WriteRaw | server/mqtt/bufio/bufio.go:465-477 | as Write; past an empty buffer nothing is buffered, and a silent short count needs an unlawful sink |
| BufWriter.Writer.Peek | server/mqtt/bufio/bufio.go:483-499 | reserves k bytes directly behind the old stream, whatever flushes that takes |
| Runs.ReaderRun | server/mqtt/bufio/bufio.go:88-338 | over any interleaving of operations, what they took followed by what is unread is the original stream, and each returned the bytes it took, their number, or the line without its end |
| Runs.WriterRun | server/mqtt/bufio/bufio.go:404-521 | over any writes and flushes on a failing sink the stream grows by a prefix of the concatenated arguments, all of them if no error occurred; a run that starts after an error accepts and sends nothing |
| Bits.XorSelfInverse | server/mqtt/conn.go:254-260 | xor with the same byte twice gives the byte back |
| Bits.HeaderBits | server/mqtt/conn.go:193-224 | the masks of the header bytes test and select the intended bits |
| Bits.XorBits | server/mqtt/conn.go:254-260 | a bit of `a ^ b` is set exactly when the bits of a and b differ |
| Bits.FirstByteFirst | server/mqtt/conn.go:209-221 | the first byte of a big-endian number weighs most |
| Bits.BERoundTrip | server/mqtt/conn.go:100-107 | reading a big-endian number of k bytes gives back the number written, if it fits |
| Frames.MaskSelfInverse | server/mqtt/conn.go:254-260 | masking a payload twice with one key is the identity |
| Frames.MaskedPayload | server/mqtt/conn.go:180-247 | of two header bytes, the length, four key bytes and n raw bytes, every bit of the payload read is set exactly if raw byte i and key byte i mod 4 differ in it |
| Frames.LengthBytes | server/mqtt/conn.go:87-108 | a length takes 7 bits up to 125, two bytes up to 65535 and eight from there on, the most significant first |
| Frames.MessageIsFrame | server/mqtt/conn.go:71-118 | the bytes of a written message are one final unmasked frame as in section 5.2 of RFC 6455 |
| Frames.ParseEncoded | server/mqtt/conn.go:180-247 | reading the encoding of any frame that fits, masked or not, of any length form, gives its FIN bit, opcode and data, and leaves what follows |
| Frames.MoreBytes | server/mqtt/conn.go:180-247 | bytes that decide a frame decide it the same whatever arrives behind them |
| Frames.CutFrame | server/mqtt/conn.go:180-247 | no frame is read from less than all its bytes |
| Frames.CutKey | server/mqtt/conn.go:226-231 | a frame cut in its key leaves what there is of it unread (`CutExtension`, `CutPayload` and `CutMaskedPayload` say so of the other fields) |
| Frames.OversizePayload | server/mqtt/conn.go:238-241 | a payload longer than the buffer is refused behind its header |
| Frames.OversizeField | server/mqtt/conn.go:209-231 | a length or key field longer than the buffer is refused behind what comes before it |
| Frames.TopBitLength | server/mqtt/conn.go:216-238 | a 64-bit length with its top bit set is read as no payload |
| Frames.HeaderIsMinimal | server/mqtt/conn.go:80-110 | no shorter header makes the reader return the same message |
| WebSocketConn.Conn.constructor | server/mqtt/conn.go:66-68 | a connection with its own key buffer, apart from the reader's and the writer's |
| WebSocketConn.Conn.WriteHeader | server/mqtt/conn.go:80-110 | even if either Peek flushes in mid-header, the stream gains a prefix of the minimal header, all of it without an error, and no stale buffer byte; healthy writers succeed iff the buffer holds the fields, and else keep the two leading bytes |
| WebSocketConn.Conn.WriteBody | server/mqtt/conn.go:113-118 | the stream gains a prefix of the payload, all of it without an error |
| WebSocketConn.Conn.WriteMessage | server/mqtt/conn.go:71-77 | the stream gains a prefix of the encoded message, all of it without an error |
| WebSocketConn.Conn.ReadFrame | server/mqtt/conn.go:180-247 | returns what the frame format says of the unread stream, whose payload bits are those of `Frames.MaskedPayload`, and leaves exactly the bytes after the frame, though the key's slice is slid away and the payload is unmasked in the reader's buffer |
| WebSocketConn.MaskBytes | server/mqtt/conn.go:254-260 | in place, every bit of byte i ends up set exactly if it differs from that bit of key byte (pos + i) mod 4; nothing else is touched, and the next position is returned |
| WebSocketConn.Conn.ReadMessage | server/mqtt/conn.go:131-178 | a call ends as the reading of the stream does: its message or error, its rest left unread, and its pongs, in order, behind the old writer stream |
| Messages.ReachNext | server/mqtt/conn.go:137-177 | one frame takes a call from a state of its loop to the next, or ends it, with the pong it owes |
| Messages.FrameBudget | server/mqtt/conn.go:172-176 | every call stops within 102 frames |
| Messages.FragmentedMessage | server/mqtt/conn.go:131-178 | a message split into up to 102 frames with pings and pongs between them is read whole, each ping is answered, and the type comes back iff the message was not fragmented or had data before its final frame |
| Messages.FinalFrameEnds | server/mqtt/conn.go:142-156 | behind any frames that do not end a call, mixed types and lone continuations included, a final data frame ends it with all data; the type is its own if it names one or is the only data, and else the last one named |
| Messages.LastTypeIs | server/mqtt/conn.go:148-151 | the type remembered is that of the last data frame that is not a continuation |
| Messages.CloseEnds | server/mqtt/conn.go:164-170 | behind such frames a close frame ends the call with `ErrMessageClose` and a reserved opcode with its own error, with every ping answered and the rest unread |
| Messages.ReservedBitEnds | server/mqtt/conn.go:195-198 | behind such frames a first byte with any reserved bit ends the call |
| Messages.OversizeEnds | server/mqtt/conn.go:238-241 | behind such frames a payload longer than the buffer ends the call |
| Messages.CutStreamEnds | server/mqtt/conn.go:137-141 | a stream that ends between two frames or within one ends the call with EOF, with every ping answered |
| Messages.PongBytes | server/mqtt/conn.go:157-161 | a pong goes out as FIN with opcode 10, unmasked, with the payload of its ping |
| Messages.EmptyFirstFragmentLosesType | server/mqtt/conn.go:144-155 | a text message with an empty first fragment is returned with opcode 0 |
| Messages.FragmentsOverBudget | server/mqtt/conn.go:172-175 | 102 frames without a final one end with `ErrMessageMaxRead`, with every ping among them answered |
| Messages.StreamRoundTrip | server/mqtt/conn.go:71-247 | reading the encoding of a list of messages as often as there are messages gives the list and leaves what follows |
| WebSocketSession.SendAll | server/mqtt/conn.go:71-128 | messages written and flushed are all sent, in order, whatever the buffer size from 8 on |
| WebSocketSession.ReceiveFragmented | server/mqtt/conn.go:131-178 | the same of the code: one call returns the unmasked data of a fragmented message, writes one pong per ping with identical payload, and leaves what follows unread |
| WebSocketSession.ReceiveAll | server/mqtt/conn.go:131-247 | successive calls return the sent messages, whatever the buffer and the cutting of the stream, and write nothing |
| WebSocketSession.RoundTrip | server/mqtt/conn.go:71-247 | text and binary messages sent on one connection come out of the other, in order, with type and payload |
| Hex.ParseHexUint | server/mqtt/internal/chunked.go:243-262 | the shift-and-or loop on 64 bits computes the base-16 value, and rejects exactly a bad byte among the first 17 and then more than 16 digits |
| Hex.AcceptedSizes | server/mqtt/internal/chunked.go:243-262 | a size is accepted iff it is at most 16 digits of either case, and no bit of it is lost; it is a bad byte iff one of the first 17 is no digit, and else too large |
| Hex.PrintParse | server/mqtt/internal/chunked.go:210-210 | parsing the `%x` of any 64-bit number gives it back |
| Hex.FirstDigit | server/mqtt/internal/chunked.go:243-262 | the first digit weighs 16 to the number of digits behind it |
| Hex.DigitTable | server/mqtt/internal/chunked.go:245-253 | the digits are 0-9, a-f and A-F with their places as values, and no other byte is one |
| ChunkGrammar.EOFIffBody | server/mqtt/internal/chunked.go:45-122 | a decoding ends with EOF exactly if the input is well-formed chunks, a zero-size line and a rest, and then it is their data; a size line is digits with white space or a semicolon and any text behind them, in a line that fits |
| ChunkGrammar.SizeLineIff | server/mqtt/internal/chunked.go:128-149 | a line that fits is read as size n iff it is at most 16 digits of value n with only white space, or a semicolon and any text, behind them |
| ChunkGrammar.PlainLine | server/mqtt/internal/chunked.go:151-160 | digits, any spaces and tabs, and CR LF or LF make a size line |
| ChunkGrammar.ExtendedLine | server/mqtt/internal/chunked.go:162-180 | digits, blanks, a semicolon, any text and CR LF or LF make a size line iff there are no blanks |
| ChunkGrammar.ExtendedChunk | server/mqtt/internal/chunked.go:45-122 | a chunk with a printed size and any extension decodes to its data followed by the decoding of the rest |
| ChunkGrammar.BadLine | server/mqtt/internal/chunked.go:45-59 | a line that fits but is no size line ends the decoding behind it: too large if it starts with 17 digits, and else a bad byte |
| ChunkGrammar.LongLine | server/mqtt/internal/chunked.go:128-142 | a line longer than the buffer or the limit of 4096 ends it as too long |
| ChunkGrammar.BadFooter | server/mqtt/internal/chunked.go:78-82 | two bytes other than CR LF behind the data end it as malformed, after the data |
| ChunkGrammar.Truncated | server/mqtt/internal/chunked.go:45-122 | a chunked body cut anywhere before its end gives a prefix of the data and an unexpected end, never EOF |
| ChunkGrammar.BodyDecodes | server/mqtt/internal/chunked.go:45-122 | every chunked body in the code's own grammar is decoded to its data, and what follows it is left |
| ChunkGrammar.EOFMeansBody | server/mqtt/internal/chunked.go:45-122 | from a decoding that ends with EOF, the chunks it consists of |
| ChunkGrammar.ChunkRoundTrip | server/mqtt/internal/chunked.go:203-232 | what the writer makes of any writes and Close is decoded to their concatenation, and what follows is left |
| ChunkGrammar.SentChunk | server/mqtt/internal/chunked.go:203-227 | what one write sends is its size in lower-case hexadecimal without leading zeros, CR LF, the data, CR LF |
| Chunked.ChunkedReader.ChunkHeaderAvailable | server/mqtt/internal/chunked.go:61-68 | says whether a whole line is buffered, without reading or consuming anything |
| Chunked.ChunkedReader.BeginChunk | server/mqtt/internal/chunked.go:45-59 | takes the decoding one size line on: into the chunk, to EOF, or to the line's own error |
| Chunked.ReadChunkLine | server/mqtt/internal/chunked.go:128-149 | the size text of the next line, without trailing space and extension; never EOF, and every other error is the line's own or the transport's; a line that fills the buffer is too long for a source that reports its end by itself |
| Chunked.ChunkedReader.Read | server/mqtt/internal/chunked.go:70-122 | from any resumable state, the bytes returned and the state left continue the decoding of the remaining input; errors are sticky; no empty return without an error |
| Chunked.ChunkedWriter.Write | server/mqtt/internal/chunked.go:203-227 | the wire gains a prefix of the chunk, all of it without an error; empty data sends nothing |
| Chunked.ChunkedWriter.Close | server/mqtt/internal/chunked.go:229-232 | the wire gains the zero-size line |
| ChunkedSession.Drain | server/mqtt/internal/chunked.go:70-122 | over a whole run with any read sizes the bytes returned are always a prefix of the decoding, all of it unless the transport failed, with the decoding's own error and rest |
| ChunkedSession.ReadRun | server/mqtt/internal/chunked.go:70-122 | after reads of any sizes, empty ones included, stopped anywhere, the bytes returned and the state left make up the decoding of the input |
| ChunkedSession.WriteAll | server/mqtt/internal/chunked.go:203-232 | any writes and Close send their encoding |
| ChunkedSession.RoundTrip | server/mqtt/internal/chunked.go:70-232 | any list of writes, empty ones included, is read back to EOF as exactly the concatenated data, with everything after it left unread |
| MessageFormat.LineInPieces | server/mqtt/request.go:49-66 | a line is its first full piece and the line of what follows, also when CR LF straddles the end of the buffer |
| MessageFormat.LostTailWithoutCR | server/mqtt/bufio/bufio.go:314-325 | an unterminated last line without CR is lost, over a source that reports its end by itself, iff its length is a multiple of the buffer's |
| MessageFormat.LastLine | server/mqtt/request.go:49-66 | any other unterminated last line without CR is read as it is |
| Request.Request.ReadLine | server/mqtt/request.go:49-66 | reassembles the next line of any steady stream, for every buffer size from 2 on and every cutting, or reports the end; each piece consumes at least a byte; only an unterminated last line depends on how the source reports its end |
| Request.TrimSlice | server/mqtt/request.go:112-122 | the window without leading and trailing spaces and tabs |
| Request.Request.ReadMIMEHeader | server/mqtt/request.go:68-97 | the header and body that the format gives any steady stream, with its error and rest |
| Request.ReadRequest | server/mqtt/request.go:30-47 | the message, or the error, that the format gives the whole input of any steady source; no request exactly for a malformed first line |
| MessageFormat.SplitPrinted | server/mqtt/request.go:100-108 | a first line of three parts is cut into them at its first two spaces |
| MessageFormat.SplitFirstLineIff | server/mqtt/request.go:100-108 | a line has the parts m, uri and proto iff it is them with a space between and no space in m and uri |
| MessageFormat.SplitPrintedField | server/mqtt/request.go:79-95 | a printed header line is cut into its name and value |
| MessageFormat.HeaderLines | server/mqtt/request.go:74-95 | of any header line: blanks around it and in front of the value are dropped; a blank line ends the header, and one without a colon or a name is malformed |
| MessageFormat.CanonicalIs | server/mqtt/request.go:95-95 | a name of token bytes is filed under exactly the same letters with capitals at the start and after hyphens and small letters elsewhere, and any other name under itself |
| MessageFormat.CanonicalOfAnyCase | server/mqtt/request.go:95-95 | token names equal up to case are filed under one name |
| MessageFormat.TokenBytes | server/mqtt/request.go:95-95 | token bytes are visible ASCII but for the delimiters of section 5.6.2 of RFC 9110 |
| MessageFormat.ParsePrintedHeaders | server/mqtt/request.go:68-97 | printed headers are added one by one to the header read so far, and the body begins behind the empty line |
| MessageFormat.ValuesAdded | server/mqtt/request.go:88-95 | under every name the added fields' values stand behind those already there, in order, each under the one name that equals its own up to case with capitals at the start and after hyphens (`Named`), and no other name is added |
| MessageFormat.DeliveredWhole | server/mqtt/request.go:80-83 | a body arrives whole iff it has no zero byte before its end and is shorter than the buffer, or fills it and ends with zero or comes from a source that reports EOF with it |
| MessageFormat.ZeroEnds | server/mqtt/request.go:80-83 | a body with a zero byte arrives up to and with the first, if that is within the buffer, and else not at all |
| MessageFormat.EndedBody | server/mqtt/request.go:80-83 | what follows the zero byte is left unread |
| MessageFormat.LongBody | server/mqtt/request.go:80-83 | a body longer than the buffer is read as one full buffer and an error, with what follows left unread |
| MessageFormat.MessageRoundTrip | server/mqtt/request.go:30-122 | a printed first line is read back as its parts, every header value under its canonical name, in order, with nothing else in the header, and the body as far as it is delivered; a field whose name equals a canonical one up to case, such as `message-id`, is read under it; without zero bytes a body is accepted iff it is shorter than the buffer, or as long for a source that reports EOF with it |
| MessageFormat.CutHeader | server/mqtt/request.go:30-47 | input that ends in the header is accepted without a body |
| MessageFormat.RejectedMessages | server/mqtt/request.go:30-47 | empty input is rejected with EOF and a first line with less than two spaces as malformed |
| MessageFormat.RejectedHeader | server/mqtt/request.go:84-87 | a malformed header line behind any fields rejects the message |
| MessageFormat.ParsedURIIsPlain | server/mqtt/request.go:100-108 | no parsed URI holds a space or a line feed, so a registered URI with one is never looked up |
| GrowBuffer.Writer.Grow | server/mqtt/bytes/writer.go:49-57 | room for k more bytes, the contents kept, copies at most twice the appended bytes, capacity at most the initial size or three times the length needed |
| GrowBuffer.Writer.Write | server/mqtt/bytes/writer.go:44-47 | appends, with the new size, copy count and peak exact, keeping the amortised bound on copying and the bound on capacity |
| GrowBuffer.Writer.Peek | server/mqtt/bytes/writer.go:35-41 | appends k bytes for the caller to fill, with the same exact counts and bounds |
| Runs.AppendRun | server/mqtt/bytes/writer.go:25-57 | over any writes, filled-in peeks and resets the buffer is what was appended since the last reset; all copying ever done is at most twice all bytes ever appended, and the capacity is at most the initial size or three times the greatest length reached |
| Pool.Pool.constructor | server/mqtt/bytes/buffer.go:58-63 | one batch of free buffers, none held |
| Pool.Pool.Grow | server/mqtt/bytes/buffer.go:66-84 | a new batch becomes the free list: num buffers whose windows are, in order, the consecutive pieces of one new array, apart from every older window |
| Pool.Pool.Get | server/mqtt/bytes/buffer.go:87-96 | a buffer that is not held, with a window of size bytes apart from every held one; the pool grows exactly if nothing is free |
| Pool.Pool.Put | server/mqtt/bytes/buffer.go:99-104 | a held buffer becomes the first free one; no window changes |
| Pool.Acyclic | server/mqtt/bytes/buffer.go:29-34 | the free list never meets itself and holds no buffer that is out |
| Runs.PoolRun | server/mqtt/bytes/buffer.go:58-104 | over any run of Get and well-formed Put, free plus held is num times the number of grows, and held buffers are pairwise disjoint and not free |
| Rpc.WriteFirstLine | server/mqtt/server.go:158-160 | appends the request's first line |
| Rpc.WriteStatusLine | server/mqtt/server.go:162-164 | appends the status line, with the space before its end |
| Rpc.WriteHeader | server/mqtt/server.go:166-168 | appends a header line |
| Rpc.WriteHeaderInt | server/mqtt/server.go:170-172 | appends a header line with a decimal value |
| RpcFormat.AlwaysJson | server/mqtt/client.go:119-123 | no content type that is ever printed is the one compared with, so json is always chosen |
| RpcFormat.CodecIs | server/mqtt/server.go:231-235 | the codec is proto iff the first content type is `appcation/proto`, and else json |
| RpcFormat.ReadRequestText | server/mqtt/server.go:227-238 | the server reads a printed request as its method, URI, protocol, headers and body, iff the body is shorter than 4096 bytes |
| RpcFormat.ReadResponseText | server/mqtt/client.go:115-127 | the client reads a response as method MQT/1.0, URI 200 and the reason with a space, with the message id it was given, the length of its body, and as content type the request's in brackets behind a second `application/` |
| RpcFormat.ServeRequest | server/mqtt/server.go:224-273 | a request is answered iff its body fits, its route exists, its handler succeeds and the reply can be marshalled, and then with the handler's reply and the request's id |
| RpcFormat.AnsweredInAnyCase | server/mqtt/server.go:224-273 | a request with any fields is answered with the value of its first field named Message-Id in any case, if its handler succeeds and the reply can be marshalled |
| RpcFormat.NoIdNoAnswer | server/mqtt/server.go:258-260 | a request without such a field is never answered |
| RpcFormat.ListTextIs | server/mqtt/server.go:258-259 | content types are printed in brackets, with a space between two |
| RpcFormat.ReceiveResponse | server/mqtt/client.go:114-131 | the reply that was marshalled is what out becomes, iff it fits |
| RpcFormat.ExchangeIsExpected | server/mqtt/client.go:90-143 | out ends as the handler's reply to the request iff the route exists, the handler succeeds and both bodies are non-empty and shorter than 4096 bytes; else out is left alone |
| RpcFormat.ResponseCarriesId | server/mqtt/server.go:258-268 | request and response of a successful exchange carry the same message id |
| Rpc.Server.OnRequest | server/mqtt/server.go:224-273 | publishes exactly the reply the request is due on the response topic, or nothing |
| Rpc.Client.Invoke | server/mqtt/client.go:90-109 | publishes exactly the printed request on the request topic, or nothing if marshalling or publishing fails |
| Rpc.Client.OnResponse | server/mqtt/client.go:114-131 | fills out and signals the waiting call exactly for a response with a body |
| Rpc.Call | server/mqtt/client.go:90-143 | one call through both sides: it returns without error iff the exchange is expected to succeed and the broker is connected, out is then the handler's reply and the response carries the request's id |
| Decimal.PrintAtoi | broker/mqtt/utils.go:68-71 | parsing the decimal print of any 64-bit integer, negative ones included, gives it back |
| Decimal.AtoiIs | broker/mqtt/utils.go:68-71 | of every string: a sign or none, digits and other text give the nearest 64-bit integer, and 0 without digits or with text behind a number below 2^64 |
| Addrs.SetAddrs | broker/mqtt/utils.go:12-82 | the loop keeps the readable addresses, in order, in normal form, or the default |
| Addrs.ReadPrinted | broker/mqtt/utils.go:24-71 | a printed address is read back as its scheme, host and port |
| Addrs.ReadHost | broker/mqtt/utils.go:50-64 | a host without port gets port 1883 for tcp, 8883 for ssl and 80 for ws |
| Addrs.ReadForms | broker/mqtt/utils.go:24-71 | a scheme, a colon-free host and a port up to a second colon are read as such, whatever follows a second `://`; without a port it is 1883 for tcp, 8883 for ssl and 80 for ws, and without a scheme the address is tcp |
| Addrs.ReadWithoutScheme | broker/mqtt/utils.go:27-35 | a bare host is tcp on port 1883, and a host with any printed 64-bit port is tcp on that port |
| Addrs.Unreadable | broker/mqtt/utils.go:16-18 | nothing is read from the empty string or from a text whose part before the first `://` is no known scheme |
| Addrs.DefaultAddress | broker/mqtt/utils.go:77-80 | without any readable address the result is exactly tcp://127.0.0.1:1883 |
| Addrs.Distributes | broker/mqtt/utils.go:15-73 | every address contributes by itself, in order |
| Addrs.OutputsAreNormal | broker/mqtt/utils.go:66-72 | every output is scheme://host:port with scheme tcp, ssl or ws, a colon-free host and a 64-bit port |
| Addrs.FixedPoints | broker/mqtt/utils.go:12-82 | a list is left alone iff it is not empty and all in normal form |
| Addrs.Idempotent | broker/mqtt/utils.go:12-82 | normalising twice is normalising once |
| CamelCase.ToCapital | cmd/protoc-gen-go-mqtt/mqtt.go:279-281 | xor with a space takes a lower-case letter to its capital |
| CamelCase.ToCamelCase | cmd/protoc-gen-go-mqtt/mqtt.go:253-290 | the nested loops compute the one-pass conversion |
| CamelCase.CamelIs | cmd/protoc-gen-go-mqtt/mqtt.go:253-290 | byte by byte: a leading underscore becomes X, an underscore in front of a small letter vanishes, a small letter in front or behind an underscore or digit becomes a capital, and every other byte is kept |
| CamelCase.OutputIsStable | cmd/protoc-gen-go-mqtt/mqtt.go:253-290 | no output starts with an underscore or lower-case letter or has a lower-case letter after an underscore or digit |
| CamelCase.FixedPoints | cmd/protoc-gen-go-mqtt/mqtt.go:253-290 | a name is left alone iff it is of that form |
| CamelCase.Idempotent | cmd/protoc-gen-go-mqtt/mqtt.go:253-290 | converting twice is converting once |
| CamelCase.LettersAreKept | cmd/protoc-gen-go-mqtt/mqtt.go:245-252 | only underscores and case are lost, but for the X in place of a leading underscore |
| CamelCase.ToCamelCaseVars | cmd/protoc-gen-go-mqtt/mqtt.go:236-243 | every dotted part is converted |
| CamelCase.VarsIdempotent | cmd/protoc-gen-go-mqtt/mqtt.go:236-243 | converting a dotted name twice is converting it once |

## Left out

- `Reset` and `ResetBuffer` in mid-stream: a reader and a writer keep their buffer and their end of the wire.
- The minimum buffer sizes that `NewReaderSize` and `NewWriterSize` enforce: buffers of any size are modelled, and each theorem names the size it needs.
- `Conn.Close` and `Conn.Peek`: calls passed through.
- `sync.Pool` wrappers, mutexes, the global pool, `FlushAfterChunkWriter`, `RequestRead`, `appendTime`: plumbing or unused code. One goroutine uses a buffer at a time.
- Client library, connection handling and broker: the broker of `Rpc` keeps publications and delivers each to its topic's subscriber, once and in order; quality of service and lost connections are not modelled.
- Timeouts and contexts: a call that gets no reply ends without one.
- json, proto and gob: a codec is a pair of functions; the exchange theorem assumes that json reads back what the server's codec writes and that it writes no zero byte.
- Handlers with effects of their own, and middleware: a handler is a function from request to reply or error.
- Message ids and concurrent calls: the id is a parameter, and one call is outstanding, because the client does not match ids.
- A response to a request without message id: the source's index panic is recovered by the broker's goroutine, so the model answers nothing.
- Request.ReadRequest: says nothing of the message read from a source that fails; `ReadLine` may have dropped the failure, and the code only ever reads from a `strings.Reader`, which does not fail.
- Request.Request.ReadMIMEHeader: the same.
- Errors carry no text: one constructor stands for each error value, with the opcode or transport code where the source's differs.
- The code generators, regular-expression path helpers, command-line tools, generated files and examples.
