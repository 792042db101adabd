# RESP request reader of kv-store, in Dafny

kv-store is a small Redis-like key-value server written in Go. Its clients
send commands in the Redis Serialization Protocol (RESP): a request is an
array frame `*<n>\r\n` followed by `n` frames, usually bulk strings
`$<len>\r\n<bytes>\r\n`. This project models the part of the server that
turns the byte stream into `Value` records, and proves what it does.

- `resp/resp.go` is the current reader. `Read` takes one type byte and
  dispatches on it: `*` to `readArray`, `$` to `readBulk`, `:` to
  `readInteger`. Every other byte, including `+` and `-`, is an
  "unknown type" error. Arrays are read recursively, and the first failing
  element fails the whole array. Lines are read one byte at a time until
  the byte before the last one is a CR, so the byte after the CR is never
  checked. A bulk body is read with a single `Read` into a zero-filled
  buffer, and one more line is then read with its error ignored.
- `resp.go` is the older reader, in package `main`. It accepts only `*`
  and `$`. Its `readArray` reads the count and returns that many zero
  values without reading any element bytes.
- `resp/value.go` holds the shared `Value` record and `Marshal`, which is
  still a stub that writes no bytes.
- `command/handler.go` holds the `ping` handler and the `Handlers` table,
  whose only entry is `"ping"`.
- `pkg/utils/utils.go` holds the generic `Insert`.

Each reader is modelled in two layers.

- **Stream functions** say what one read step does on the whole stream
  `d` from position `p`. `Wire.LineAt`, `Wire.IntegerAt`, `Wire.BulkAt`,
  `Resp.ParseFrame`, `Resp.ArrayAt` and `Resp.ElemsAt` each return a
  `Step`: either a value and the next position, or an error and the
  position the failed step stopped at. A failing step still consumes
  bytes.
- **Classes** follow the Go code statement by statement. `Resp.Resp` and
  `LegacyResp.Resp` each wrap a `Wire.Reader`, which models
  `bufio.Reader` as the byte stream plus a read position. Every method
  is proved to leave the reader where the matching stream function says,
  and to return that function's outcome.

The properties are proved about the stream functions:

- the dispatch on the type byte;
- the shapes of the values `Read` can return;
- arrays as runs of frames read back to back, where the first failure
  ends the run;
- what a bulk body holds, including a truncated stream;
- how the two readers compare;
- a round trip against a reference RESP encoder, `Frames.Encode`. The
  source's own `Marshal` cannot serve here because it is a stub.

## Model

| member | source | states |
|---|---|---|
| Wire.LineEnd | resp/resp.go:38-48 | the position where `readLine`'s loop stops is a CR at or after the start, with one more byte after it in the stream |
| Wire.LineEndFirst | resp/resp.go:38-48 | that CR is the first one: no byte from the start up to it is a CR, and when no such CR exists, no byte but the last is a CR |
| Wire.LineEndAt | resp/resp.go:45-47 | a CR with a byte after it and no CR before it is exactly where the loop stops |
| Wire.LineAt | resp/resp.go:37-51 | a successful line consumes its bytes plus the CR and one more byte; on a missing CR the whole rest of the stream is consumed and the error is `io.EOF` |
| Wire.LineAtContents | resp/resp.go:44-50 | the line is exactly the stream bytes before the CR and holds no CR; a failed line saw no CR except possibly in the last byte |
| Wire.LineAtPrefix | resp/resp.go:37-51 | converse: a CR-free prefix followed by CR and any byte is read as exactly that line |
| Wire.ParseInt64 | resp/resp.go:59-62 | a parsed line is a signed 64-bit value |
| Wire.DigitsValueDefined | resp/resp.go:59 | a run of bytes has a decimal value exactly when every byte is a digit |
| Wire.ParseInt64Accepts | resp/resp.go:59-62 | `ParseInt(line, 10, 64)` succeeds exactly on an optional sign followed by one or more digits whose signed value fits in 64 bits, and it returns that signed value |
| Wire.ParseDecimal | resp/resp.go:59 | every int64 written in canonical decimal parses back to itself (partner of `ParseInt64`) |
| Wire.IntegerAt | resp/resp.go:53-66 | an integer line consumes at least its CR and the following byte, yields an int64, and fails only with `io.EOF` or a parse error; a malformed line is still consumed |
| Wire.IntegerAtDecimal | resp/resp.go:53-66 | a decimal line followed by CR is read as its value with exactly its length consumed |
| Wire.Body | resp/resp.go:121-125 | the body of a bulk string has exactly the declared length |
| Wire.BodyEnd | resp/resp.go:127-128 | the trailing `readLine` starts after the bytes actually read and ends within the stream |
| Wire.BulkAt | resp/resp.go:111-131 | a bulk step fails only with `io.EOF`, a parse error or a negative length, and otherwise consumes at least the length line |
| Wire.BulkBody | resp/resp.go:121-125 | each body byte is the stream byte at that place, CR and LF included, or zero past the end of the stream |
| Wire.ReadIntoZeros | resp/resp.go:121-123 | a zero-filled buffer after one `Read` is the body |
| Wire.BodyInStream | resp/resp.go:121-128 | a body that is wholly in the stream and followed by a CR is read as exactly those bytes, ending two bytes after it |
| Wire.Reader.constructor | resp/resp.go:31-33 | `bufio.NewReader` starts at the first byte of the stream |
| Wire.Reader.ReadByte | resp/resp.go:39 | `ReadByte` returns the next byte and advances by one, or returns `io.EOF` at the end without moving |
| Wire.Reader.Read | resp/resp.go:123 | `Read(buf)` copies as many bytes as remain, up to `len(buf)`, advances by that count, and leaves the rest of `buf` as it was |
| Values.Marshal | resp/value.go:20-27 | `Marshal` writes no bytes, for arrays and every other tag alike |
| Resp.ParseFrame | resp/resp.go:68-85 | a successful `Read` consumes at least one byte and stays within the stream |
| Resp.BulkFrameAt | resp/resp.go:111-131 | `readBulk` yields a value tagged "bulk" of one of the readable shapes |
| Resp.IntegerFrameAt | resp/resp.go:133-143 | `readInteger` yields a value tagged `objects.INTEGER` of one of the readable shapes |
| Resp.ArrayAt | resp/resp.go:87-109 | `readArray` yields a value tagged `objects.ARRAY` and consumes at least its count line |
| Resp.ElemsAt | resp/resp.go:97-106 | a successful run of `k` element reads holds exactly `k` values |
| Resp.ElemsAdvance | resp/resp.go:98-106 | one more element read moves that element from the frames still to read to the end of the elements already read |
| Resp.ReadDispatch | resp/resp.go:69-84 | an empty stream is `io.EOF`; `+`, `-` and every other byte except `*`, `$` and `:` is an unknown type; a successful frame's tag is array, bulk or integer exactly when its first byte is `*`, `$` or `:` |
| Resp.ReadIsReadable | resp/resp.go:68-143 | every value `Read` returns is an array of such values, a "bulk" string or an int64, with no other field set |
| Resp.ElemsReadable | resp/resp.go:97-106 | every element of a successful run is such a value |
| Resp.ElemsChain | resp/resp.go:98-106 | a successful run of `k` elements is `k` frames read back to back, from the first position to the run's end |
| Resp.ChainElems | resp/resp.go:98-106 | converse: frames read back to back are a successful run of those values |
| Resp.ChainFailure | resp/resp.go:99-102 | the first element that fails fails the whole run, with its own error and stream position |
| Resp.ArrayFrame | resp/resp.go:87-109 | a successful array with count `c` holds `max(c, 0)` elements, which are the frames that follow the count line, in stream order |
| Resp.NegativeCount | resp/resp.go:92-98 | a negative count reads as an empty array that consumes only its count line |
| Resp.BulkFrame | resp/resp.go:111-131 | a negative length is the `make` failure; any other length always succeeds, tagged "bulk" and not `objects.BULK_STRING`, with the body and end position above |
| Resp.IntegerFrame | resp/resp.go:133-143 | an integer frame succeeds exactly when its line is a base-10 int64, which it then carries; otherwise it fails with the line consumed |
| Resp.Resp.constructor | resp/resp.go:31-33 | `NewResp` reads the given stream from its start |
| Resp.Resp.ReadLine | resp/resp.go:37-51 | the byte loop ends where `LineAt` says, returning the line and its byte count, or `io.EOF` with no line |
| Resp.Resp.ReadIntegerFromInput | resp/resp.go:53-66 | the value, byte count, error and new position are those of `IntegerAt` |
| Resp.Resp.Read | resp/resp.go:68-85 | the outcome and new position are those of `ParseFrame` |
| Resp.Resp.ReadArray | resp/resp.go:87-109 | the outcome and new position are those of `ArrayAt`; the loop invariant is the run of elements still to read |
| Resp.Resp.ReadBulk | resp/resp.go:111-131 | the outcome and new position are those of `BulkFrameAt` |
| Resp.Resp.ReadInteger | resp/resp.go:133-143 | the outcome and new position are those of `IntegerFrameAt` |
| Frames.ReadEncoded | resp/resp.go:68-143 | round trip: every readable value is read back from its wire form, whatever follows it, with exactly that form consumed |
| Frames.ReadEncodedArray | resp/resp.go:87-109 | an encoded array is read back as itself |
| Frames.ReadEncodedAll | resp/resp.go:98-106 | encoded elements are read back in order |
| Frames.ReadWholeFrame | resp/resp.go:68-85 | reading a stream that holds exactly one encoded value yields that value and consumes the whole stream |
| Frames.BulkStringTagLost | resp/resp.go:114 | a value tagged `objects.BULK_STRING` is read back tagged "bulk", so it is not itself |
| Frames.SimpleFramesRefused | resp/resp.go:74-84 | encoded simple strings and errors are refused by their type byte |
| Frames.MarshalDoesNotRestoreFrame | resp/value.go:20-27 | `Marshal` of a value that was read never gives back the frame it was read from |
| Frames.ReadMarshalled | resp/value.go:20-27 | what `Marshal` writes reads as `io.EOF` and differs from the wire form |
| LegacyResp.Zeroes | resp.go:102 | `make([]Value, n)` holds `n` zero values |
| LegacyResp.ParseFrame | resp.go:76-90 | a successful `Read` consumes at least a type byte and a line, and returns one of the two shapes this reader builds |
| LegacyResp.ArrayAt | resp.go:92-108 | `readArray` yields an "array" of zero values and consumes only its count line |
| LegacyResp.BulkFrameAt | resp.go:110-130 | `readBulk` yields a "bulk" value |
| LegacyResp.ReadDispatch | resp.go:82-89 | only `*` and `$` are accepted, and `:` is an unknown type here; a successful frame is an array exactly when its first byte is `*` |
| LegacyResp.ArraySkipsElements | resp.go:97-105 | a count `c >= 0` yields `c` zero values and consumes only the count line; a negative count is the `make` failure (no allocation limit is modelled for large counts) |
| LegacyResp.NonNumericHeader | resp.go:61-74 | a count or length line that is not a number fails the frame, with the line consumed |
| LegacyResp.AgreesOnBulk | resp.go:110-130 | on a `$` frame both readers agree on outcome, error, body and end position |
| LegacyResp.RequestElementsLeftInStream | resp.go:92-108 | a client request is read as its count of zero values, and its encoded elements stay in the stream where the next `Read` starts |
| LegacyResp.Resp.constructor | resp.go:39-41 | `NewResp` reads the given stream from its start |
| LegacyResp.Resp.ReadLine | resp.go:45-59 | the byte loop ends where `LineAt` says |
| LegacyResp.Resp.ReadInteger | resp.go:61-74 | the value, byte count, error and new position are those of `IntegerAt` |
| LegacyResp.Resp.Read | resp.go:76-90 | the outcome and new position are those of this reader's `ParseFrame` |
| LegacyResp.Resp.ReadArray | resp.go:92-108 | the outcome and new position are those of this reader's `ArrayAt` |
| LegacyResp.Resp.ReadBulk | resp.go:110-130 | the outcome and new position are those of this reader's `BulkFrameAt` |
| Command.Ping | command/handler.go:10-15 | the reply is a simple string: "PONG" with no arguments, otherwise the first argument's bulk payload, with no other field set |
| Command.PingIgnoresLaterArgs | command/handler.go:14 | arguments after the first do not change the reply |
| Command.PingNeverFails | command/handler.go:10-15 | the reply is never an error and never a bulk string under either bulk tag |
| Command.HandlersHoldOnlyPing | command/handler.go:17-19 | the table's only name is lower-case "ping", so "PING" is not in it, and its entry is `ping` |
| Command.PingEchoesRequest | command/handler.go:10-19 | a lower-case `ping <arg>` request read off the wire names the table's handler, which, given the elements after the name (the lemma's own dispatch convention, since the source has none), answers with exactly the argument's bytes |
| Utils.Insert | pkg/utils/utils.go:3-18 | an index outside `0..len(slice)` returns the slice unchanged; otherwise the result is the slice with `value` spliced in at `index`: longer by one, the same before `index`, and the rest shifted one place right |
| Utils.Spliced | pkg/utils/utils.go:8-15 | the grow, shift and write steps together build the slice with `value` spliced in, which is an append when `index == len(slice)` |

## Left out

- aof/aof.go and main.go are not part of this model: the append-only file, the network listener and the connection loop.
- I/O errors from the underlying `io.Reader` other than `io.EOF` are not modelled: the stream is a fixed byte sequence.
- Wire.Reader.Read: a `bufio.Reader` may return fewer bytes than remain even when more are coming. The model copies every remaining byte up to `len(buf)`, so a body split across buffer boundaries or network reads is not modelled. `bufio.Reader` returns only the already-buffered bytes whenever its 4096-byte buffer is non-empty.
- Wire.ParseInt64: `strconv`'s `ErrSyntax` and `ErrRange` are one error, `InvalidInteger`, because every caller only checks `err != nil`. The message texts are not modelled, including the "unknown type" text.
- Resp.BulkFrameAt: the run-time panic of `make([]byte, len)` for a negative length is modelled as the error outcome `NegativeLength`. A length too large to allocate also fails in Go, with the same "len out of range" panic above the runtime's allocation limit and an out-of-memory failure below it. Here it reads as success, with a zero-padded body. The same holds for Wire.BulkAt, Resp.BulkFrame and LegacyResp.BulkFrameAt.
- Resp.BulkFrame: its "any other length always succeeds" does not cover a length too large for `make`, which fails in Go.
- LegacyResp.ArrayAt: the same `make` panic, for a negative count, is the error outcome `NegativeLength`. A count too large for `make([]Value, len)` also fails in Go, with the "len out of range" panic or out of memory. For example, `*100000000000000\r\n` panics. Here it reads as success with that many zero values, because no allocation limit is modelled.
- LegacyResp.ArraySkipsElements: its "a count `c >= 0` yields `c` zero values" holds only for counts `make` can allocate, for the reason above.
- LegacyResp.Resp.ReadArray: it carries the same gap, returning `c` zero values for a count too large for `make`.
- Values.Marshal: it is a stub in the source and is modelled as one. The round trip is proved against the reference encoder `Frames.Encode`, which writes the wire form the protocol defines. It is not source code.
- Go pointers (`*Value`) and the difference between a nil slice and an empty slice are not modelled: values are immutable records, and `nil` with an error is the `Err` outcome.
- Utils.Insert: Go's `append` reuses the caller's backing array when it has spare capacity, and `copy` then shifts the caller's elements in place. The model always builds a fresh array, so it does not capture that aliasing.
- The `Handler` functions of command/handler.go are Dafny function values. No command other than `ping` exists in the source.
- Concurrency: the core has none. main.go serves its one accepted connection in its main goroutine. The program's only goroutine is the flush ticker of aof/aof.go, which is left out along with that file.
