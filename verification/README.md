# Verified model of the gateway core

This project models the parts of the gateway whose correctness rests on state, arithmetic or interleaving,
and proves what they are for. `dafny verify dfyconfig.toml` checks it.

| files | what they model |
|---|---|
| Bytes.dfy, Numerals.dfy, WhiteSpace.dfy, ChunkGrammar.dfy, ChunkedLines.dfy, ChunkedReader.dfy | the streaming chunked decoder, as a refinement of a one-shot decoder that accepts exactly the gateway's chunked grammar |
| ChunkedByRFC.dfy | that grammar compared with the letter of section 7.1 of RFC 9112 |
| HeaderFraming.dfy, HeaderParser.dfy, StreamingBody.dfy | the request head, the framing decision, and the reader for bodies of known length |
| FramingByRFC.dfy | the framing decision compared with the letter of section 6.3 of RFC 9112 |
| HeadGrammar.dfy, FramingCases.dfy | the accepted heads as a grammar, and what the framing decision comes to field by field |
| Pipeline.dfy, ServerTurn.dfy | requests one after the other on one connection: on one shared buffer, and as the server reads them |
| CircuitBreaker.dfy, WeightedRoundRobin.dfy, WeightedSplit.dfy | the breaker, smooth weighted round-robin, the weighted splitter and the weighted random choice |
| TokenBucket.dfy, RateLimiter.dfy, TtlEviction.dfy | the token bucket, the map with its LRU list, and what forgetting idle buckets can change |
| Reactor.dfy, UdpSessions.dfy, UdpBuffers.dfy, TcpProxy.dfy | the concurrent lifecycles, as step systems over all interleavings |
| Deadline.dfy | amortized connection deadlines |
| ProxyPath.dfy | joining the request path to the upstream's path |

Conventions. Objects whose methods update fields are classes; their methods are proved against functions on
values, and the laws are lemmas about those functions over whole runs. In the step systems one section under a
lock, or one channel operation, is one step; a program counter says where each goroutine stands. A clock is a
parameter in nanoseconds that does not go back; one request, and one call that asks for a state, reads it once.
`float64` is `real`. A buffered reader is the bytes still to come, a
position, and whether the stream ends cleanly or breaks. Over the network a read returns what has come by then, as
far as it was asked for, under any schedule of arrivals; over another buffered reader it fills a buffer of 4096 bytes
by one such read. `path.Clean`,
`strings.TrimSpace`, `strings.ToLower`, `strconv.ParseUint` and `strconv.ParseInt` are written out as functions.

Where the code differs from what it is meant to do, the model follows the code, gives a concrete input, and
proves exactly when the intended property holds:

- A per-hour rate limit is weaker than it reads: with the default time-to-live an idle bucket is forgotten
  before it is full again. `TtlEviction.TtlUnobservableIff` gives the exact condition for every limit and
  `TtlEviction.DefaultTtl` shows that it fails for all per-hour limits and no others.
- `SetAmortizedReadDeadline(0)` goes by what the tracker remembers: after a reset it reports success and
  leaves the deadline on the socket (`Deadline.ClearsIff`, `Deadline.ClearAfterResetKeepsDeadline`).
- `JoinProxyPath` uses the target as it is written, dots included, when the whole request path is stripped
  (`ProxyPath.DotFreeIff`, `ProxyPath.TargetAsWritten`). Its textual guard can let a request path that does not
  begin with a slash leave the target, which `ProxyPath.UnrootedContainedIff` characterises and
  `ProxyPath.UnrootedEscapes` shows. Behind the router this cannot happen: it roots every path first, and
  `ProxyPath.ReceivedStaysUnderTarget` proves containment for every path that comes to it. The sidecar
  (pkg/sidecar/proxy.go:337) calls the proxy without the router, on an origin without a path; there the empty path of
  an absolute-form request is sent on as `/.` (`ProxyPath.EmptyRequestIsDot`), and `ProxyPath.UnrootedAloneDotFreeIff` says
  exactly which paths come out free of dots.
- Chunked messages are accepted that section 7.1 of RFC 9112 does not derive: white space may stand before a
  trailer's name and between it and the colon, control characters that Go counts as white space around its value, and a
  chunk extension may be any text without control characters. For accepted messages those are all the differences
  (`ChunkedByRFC.AcceptedLinesIff`, `ChunkedByRFC.SpaceBeforeColon`, `ChunkedByRFC.ControlBeforeValue`,
  `ChunkedByRFC.ExtensionWithoutName`). In the other direction every message of the standard within the limits is
  accepted (`ChunkedByRFC.DecodesRFC`), but a trailer value that begins or ends with other white space of Unicode is handed
  on without it (`ChunkedByRFC.ValuesKeptIff`, `ChunkedByRFC.NoBreakSpaceIsDropped`).
- Heads are framed that section 6.3 of RFC 9112 does not frame, in three cases: a signed length such as `+5`, a
  `chunked` spelled with the Kelvin sign, and white space other than SP and HTAB at an end of the value or of one of
  its list items. And heads are refused that it frames: those that name a coding besides `chunked`, and those with both a
  Transfer-Encoding and a Content-Length, for which the standard allows that; those with an empty list item in either,
  which a recipient is to ignore; and lengths beyond 64 bits. Together these are all the differences of the decision
  (`FramingByRFC.FramesAsRFC` and the six inputs beside it). Outside this comparison: the decision never sees the
  protocol version, so a Transfer-Encoding in an HTTP/1.0 request (section 6.1) is framed like any other; and the line
  parser refuses a tab right behind `Transfer-Encoding:`, which the standard allows.
- A body whose stream ends early and cleanly is reported complete: success means the whole body if and only if the
  stream has it or breaks (`StreamingBody.StreamingBodyReader.ReadAll`, `StreamingBody.ShortBody`).
- The server reads a chunked body through a second buffer (pkg/server/server.go:361-366), which may take more from the
  connection than the body. Behind a message that fits that buffer, and behind every message read in pieces that do, the
  connection stands at the next request if and only if one of the buffer's fills, which depend on nothing but what had
  come when each was made, ends with the message (`ServerTurn.ReadChunkedBody`, `ServerTurn.StandsIff`,
  `ServerTurn.ExactFills`). A request that came along with the body of the one before it is lost (`ServerTurn.LostRequest`,
  `ServerTurn.LostExample`). On one shared buffer, as `ParseRequest` uses it, requests are split exactly
  (`Pipeline.ReceiveAll`).
- The byte count check after each header line (pkg/httpparser/parser.go:183-186) can never fire, because the
  line was read within what is left of the budget (`HeaderParser.ReadFields`).

## Model

| member | source | states |
|---|---|---|
| Bytes.TokenAlphabet | pkg/httpparser/parser.go:84-104 | the characters of a token are those section 5.6.2 of RFC 9110 lists |
| Bytes.TextAlphabet | pkg/httpparser/parser.go:211 | what is not refused as a control character is HTAB, SP, a visible character, or a byte from 0x80 on; blanks are SP and HTAB |
| Bytes.LowerByteIs | pkg/httpparser/chunked.go:485 | lowering exchanges each capital letter for the small one of its place and keeps every other byte |
| WhiteSpace.RunesAreSpaces | pkg/httpparser/chunked.go:394-409 | what trimming takes off are exactly the UTF-8 encodings of the white-space code points of Unicode |
| Numerals.ValueOfNumeral | pkg/httpparser/chunked.go:302-338 | writing a number in any base from 2 to 16 and reading it gives it back, behind any number of zeros |
| Numerals.ValueOfLower | pkg/httpparser/chunked.go:302-338 | capital and small digits have the same value |
| Numerals.ValueIff | pkg/httpparser/chunked.go:302-338 | a text is read as n exactly when it is, in either case and behind any zeros, the shortest numeral of n |
| Numerals.HexIff | pkg/httpparser/chunked.go:302-338 | the digits of a chunk size are those of base 16 in either case, and the size is the number they denote |
| Numerals.DecimalIff | pkg/httpparser/parser.go:279-286 | the digits of a length are those of base 10, and the length is the number they denote |
| Numerals.HexLength | pkg/httpparser/chunked.go:302-338 | a number below 16 to the k has at most k digits, so every 64-bit size fits a size line |
| ChunkGrammar.ParseSizeIsGrammar | pkg/httpparser/chunked.go:262-338 | a size line is read as n exactly when it is a hexadecimal numeral of n in either case, at most MaxInt64, optional blanks and a bounded extension without control characters |
| ChunkGrammar.DataInPieces | pkg/httpparser/chunked.go:126-178 | taking chunk data in any pieces yields what taking it at once yields |
| ChunkGrammar.ParseTrailerIsGrammar | pkg/httpparser/chunked.go:380-427 | a trailer line is read as a field exactly when it is white space, a token that is not forbidden, white space, a colon, white space, a bare clean value, white space |
| ChunkGrammar.DecodeComplete | pkg/httpparser/chunked.go:91-228 | every message derived from the gateway's grammar, followed by anything, decodes to its body and trailers and stops exactly at its end |
| ChunkGrammar.DecodeSound | pkg/httpparser/chunked.go:91-228 | whatever is accepted is a rendered message of that grammar followed by the bytes left unread |
| ChunkGrammar.DecodeIsGrammar | pkg/httpparser/chunked.go:91-228 | the one-shot decoder accepts exactly that grammar of size lines, data and trailer fields, with the derivation's body, trailers and rest |
| ChunkGrammar.CutShortIsRefused | pkg/httpparser/chunked.go:91-228 | a message that breaks off after any of its bytes is refused, for the broken stream, or as unexpected end, or, inside the two bytes behind a chunk's data, as malformed |
| ChunkGrammar.RoundTrip | pkg/httpparser/chunked.go:102-224 | for every list of non-empty chunks and every following bytes, encoding then decoding gives the concatenated chunks and leaves exactly what followed |
| ChunkedLines.ReadLine | pkg/httpparser/chunked.go:232-258 | byte-wise line reading into a fixed buffer finds the first line feed within the cap, takes exactly that line, and never more than one byte over the cap |
| ChunkedLines.SplitAtSemicolon | pkg/httpparser/chunked.go:268-338 | splitting at the first semicolon and trimming, as the code does, reads the same size as the grammar's forward scan, for every line |
| ChunkedLines.ParseSizeLine | pkg/httpparser/chunked.go:259-338 | the staged checks on a size line accept exactly the grammar's lines, with their value |
| ChunkedLines.LeadingColon | pkg/httpparser/chunked.go:388-425 | a trailer line that begins with a colon is always refused, by whichever check meets it first |
| ChunkedLines.ParseTrailerLine | pkg/httpparser/chunked.go:388-427 | the staged checks on a trailer line accept exactly the fields of the grammar: token name, not forbidden, clean value |
| ChunkedByRFC.SizeLineByRFC | pkg/httpparser/chunked.go:262-338 | a size line read within the limits is one of RFC 9112 if and only if its extensions are |
| ChunkedByRFC.TrailerByRFC | pkg/httpparser/chunked.go:380-427 | a trailer line read as a field is that field in RFC 9112 if and only if the name stands right before the colon and only SP and HTAB around the value |
| ChunkedByRFC.AcceptedAndTidyIsRFC | pkg/httpparser/chunked.go:91-228 | the messages of RFC 9112 within the gateway's limits whose trailer values have no white space of Unicode at their ends are exactly the accepted ones with tidy trailers and well-formed extensions, field values included |
| ChunkedByRFC.AcceptedIsRFCIff | pkg/httpparser/chunked.go:91-228 | an accepted message is one of RFC 9112 if and only if it is tidy |
| ChunkedByRFC.LineByRFC | pkg/httpparser/chunked.go:380-427 | a trailer line read as a field is one of RFC 9112, with whatever value, if and only if the name stands right before the colon and no control character is behind it |
| ChunkedByRFC.AcceptedLinesIff | pkg/httpparser/chunked.go:91-228 | RFC 9112 derives the lines of an accepted message if and only if its extensions are well formed and its trailer lines clean |
| ChunkedByRFC.RfcFieldIsRead | pkg/httpparser/chunked.go:394-420 | a field of RFC 9112 is read with its name and its value trimmed of all white space |
| ChunkedByRFC.DecodesRFC | pkg/httpparser/chunked.go:91-228 | every message of RFC 9112 within the limits decodes to its body and to its fields with trimmed values, up to its last byte |
| ChunkedByRFC.ValuesKeptIff | pkg/httpparser/chunked.go:413-420 | its field values are handed on as received if and only if none has white space of Unicode at an end |
| ChunkedByRFC.SpaceBeforeColon | pkg/httpparser/chunked.go:394-397 | the trailer line "X :v" is accepted, and is none of RFC 9112 for any field |
| ChunkedByRFC.ControlBeforeValue | pkg/httpparser/chunked.go:413-418 | a vertical tab before the value is accepted, and the line is none of RFC 9112 for any field |
| ChunkedByRFC.NoBreakSpaceIsDropped | pkg/httpparser/chunked.go:413 | a no-break space behind a value belongs to it in RFC 9112, and the gateway hands the value on without it |
| ChunkedByRFC.ExtensionWithoutName | pkg/httpparser/chunked.go:262-300 | the size line "5;" is accepted, and is none of RFC 9112 for any size |
| ChunkedReader.ChunkedBodyReader.constructor | pkg/httpparser/chunked.go:56-71 | a new reader has delivered nothing and expects the one-shot decoding of everything unread |
| ChunkedReader.ChunkedBodyReader.SetCloser | pkg/httpparser/chunked.go:73-76 | only the connection to close is replaced; the refinement is kept |
| ChunkedReader.ChunkedBodyReader.IsEOF | pkg/httpparser/chunked.go:86-88 | true exactly in the state behind the last trailer |
| ChunkedReader.ChunkedBodyReader.ParseChunkSizeLine | pkg/httpparser/chunked.go:231-338 | reads the size the decoder reads from the same bytes, with its errors, in a bounded number of bytes |
| ChunkedReader.ChunkedBodyReader.TakeData | pkg/httpparser/chunked.go:126-178 | a short read of chunk data keeps delivered bytes plus remaining decoding equal to the whole decoding |
| ChunkedReader.ChunkedBodyReader.DataStep | pkg/httpparser/chunked.go:126-178 | one data step keeps the refinement, never delivers over the ceiling, and fails with BodyTooLarge only when the body exceeds it or breaks off there |
| ChunkedReader.ChunkedBodyReader.CRLFStep | pkg/httpparser/chunked.go:179-204 | the two bytes behind chunk data are taken exactly, and anything but CRLF is the decoder's error |
| ChunkedReader.ChunkedBodyReader.ParseTrailers | pkg/httpparser/chunked.go:341-427 | reads the trailers the decoder reads, with its errors, in at most the trailer limits |
| ChunkedReader.ChunkedBodyReader.Read | pkg/httpparser/chunked.go:91-228 | for every buffer size and every pattern of short reads: the bytes written are the next ones of the one-shot decoding, errors are deferred behind delivered bytes, the state invariant holds again, and the wire bytes taken are bounded |
| ChunkedReader.ChunkedBodyReader.Refines | pkg/httpparser/chunked.go:91-228 | at every moment: only a prefix of the body was delivered, a complete message within the ceiling never fails, an incomplete one never ends, and in the final state the unread input is exactly the next message |
| ChunkedReader.ChunkedBodyReader.ReadAll | pkg/proxy/proxy.go:1160-1220 | reading to the end with any positive buffer sizes ends without error exactly when the decoder accepts and the body is within the ceiling, and then returned the whole body |
| ChunkedReader.ChunkedBodyReader.Drain | pkg/httpparser/chunked.go:446-466 | the drain ends, takes at most MaxDrainBytes body bytes and a bounded number of wire bytes, and completes every message with less than that left |
| ChunkedReader.ChunkedBodyReader.Close | pkg/httpparser/chunked.go:430-474 | afterwards the connection stands at the next message or has been closed, from every reachable state; what it takes is bounded |
| ChunkedReader.StreamingRoundTrip | pkg/httpparser/chunked.go:91-228 | a reader over an encoded message never fails, and when done has delivered exactly its chunks and stands exactly at the following bytes |
| HeaderFraming.FramingIsUnique | pkg/httpparser/parser.go:223-297 | a head allows at most one framing: one chunked coding and no length, one agreed length and no coding, or neither |
| HeaderFraming.NumberIff | pkg/httpparser/parser.go:283-286 | a list item is read as the length n exactly when it is a decimal numeral of n within 64 bits, one behind a plus, or one of 0 behind a minus |
| FramingCases.FramingIgnoresCase | pkg/httpparser/parser.go:218-224 | the case of field names makes no difference to the framing or to the error |
| FramingCases.LengthIsFramed | pkg/httpparser/parser.go:274-297 | one Content-Length that is a decimal numeral of n, and no Transfer-Encoding: framed with length n within 64 bits, and in no other way |
| FramingCases.ChunkedIsFramed | pkg/httpparser/parser.go:230-272 | one Transfer-Encoding that is chunked in any case, and no Content-Length: chunked, and nothing else |
| FramingCases.NeitherOrBoth | pkg/httpparser/parser.go:222-227 | neither field: no body, and nothing else; both: refused as malformed |
| FramingCases.TrailersKeepFraming | pkg/httpparser/chunked.go:480-498 | put beside the fields of the head, trailers change neither the framing nor the two fields it rests on |
| FramingCases.TrailersNeverGovern | pkg/httpparser/chunked.go:480-498 | no trailer of any decoded input has a name that frames, routes or governs the connection |
| HeaderFraming.FrameByCodings | pkg/httpparser/parser.go:230-272 | a Transfer-Encoding is accepted exactly when all its codings, over all fields, are one chunked; refused as unknown exactly when some coding is another and no item is empty, and else as malformed |
| HeaderFraming.ReadLengths | pkg/httpparser/parser.go:277-291 | succeeds exactly when all numbers of a value are one number that agrees with the one before |
| HeaderFraming.FrameByLengths | pkg/httpparser/parser.go:274-293 | a Content-Length is accepted exactly when all its numbers, over all fields, are one n, and then with that n |
| HeaderFraming.DecideFraming | pkg/httpparser/parser.go:222-297 | accepts with the framing the fields allow, refuses only when they allow none, and then with the error of the first cause |
| FramingByRFC.ChunkedSpellings | pkg/httpparser/parser.go:241 | exactly the ASCII spellings of chunked and the ones with the Kelvin sign are lowered to chunked |
| FramingByRFC.BlockIsTrimmed | pkg/httpparser/parser.go:215-219 | the fields of a head are the received ones with their values trimmed |
| FramingByRFC.FramesAsRFC | pkg/httpparser/parser.go:222-297 | from the received values: framed by section 6.3 of RFC 9112 and supported (no coding besides chunked, no empty item, not both fields, a 64-bit length), if and only if framed by the gateway without a signed length, a Kelvin spelling or odd white space |
| FramingByRFC.NoBreakSpaceIsAccepted | pkg/httpparser/parser.go:215-276 | a length followed by a no-break space frames the body, and RFC 9112 does not frame it in any way |
| FramingByRFC.EmptyItemIsRefused | pkg/httpparser/parser.go:232-239 | a comma behind chunked makes the head refused, where RFC 9112 frames it |
| FramingByRFC.EmptyLengthItemIsRefused | pkg/httpparser/parser.go:277-282 | a comma behind a length makes the head refused, where RFC 9112 frames it |
| FramingByRFC.BothFieldsAreRefused | pkg/httpparser/parser.go:222-227 | a Content-Length beside chunked makes the head refused, where RFC 9112 frames it as chunked |
| HeaderParser.HeadFramedAsRFC | pkg/httpparser/parser.go:123-297 | the same for every head that is read, from its bytes |
| FramingByRFC.PlusIsAccepted | pkg/httpparser/parser.go:283-286 | a length of +5 frames the body, and RFC 9112 does not frame it in any way |
| FramingByRFC.KelvinIsAccepted | pkg/httpparser/parser.go:241-258 | a coding with the Kelvin sign frames the body as chunked, and RFC 9112 does not frame it in any way |
| HeaderFraming.BlockIsLocal | pkg/httpparser/parser.go:165-220 | a block of fields fits its budget, ends with an empty line, and is read the same whatever follows it |
| HeaderFraming.BlockRoundTrip | pkg/httpparser/parser.go:165-220 | written fields followed by anything are read back as they were, and exactly their bytes are taken |
| HeaderParser.HeadIsLocal | pkg/httpparser/parser.go:123-220 | an accepted head uses at most MaxHeaderBytes, ends with its empty line, and nothing behind it is looked at |
| HeaderParser.HeadRoundTrip | pkg/httpparser/parser.go:123-220 | a written request line and fields followed by anything are read back as they were, up to the last byte |
| HeadGrammar.SplitIff | pkg/httpparser/parser.go:143-147 | splitting yields the one list of parts without separators that joins to the text |
| HeadGrammar.FieldIff | pkg/httpparser/parser.go:187-219 | a field line is accepted exactly when it is a token, a colon, and a value without control characters between white space, with no tab behind the colon of a Transfer-Encoding; and with that name and value |
| HeadGrammar.StartIff | pkg/httpparser/parser.go:137-164 | a request line is accepted exactly when it is three words between single spaces, the last HTTP/1.1 or HTTP/1.0 |
| HeadGrammar.StartRefused | pkg/httpparser/parser.go:137-164 | three words with another last one are refused for the protocol, all others as malformed |
| HeadGrammar.BlockIsGrammar | pkg/httpparser/parser.go:165-220 | fields are read exactly from field lines and an empty line, each ended by CRLF or LF, within the budget |
| HeadGrammar.HeadIsGrammar | pkg/httpparser/parser.go:123-220 | a head is accepted exactly when its bytes are a request line, field lines and an empty line in at most MaxHeaderBytes, and with those parts |
| HeadGrammar.HeadCutShort | pkg/httpparser/parser.go:123-220 | of an accepted head every beginning is refused for the end of the stream, and every smaller budget for its length |
| HeaderParser.ReadLineBounded | pkg/httpparser/parser.go:468-488 | finds the first line feed within the bound, takes exactly that line, and never more than one byte over |
| HeaderParser.ParseFieldLine | pkg/httpparser/parser.go:175-219 | the staged checks on a header line accept exactly token names with clean, trimmed values, and no tab after Transfer-Encoding |
| HeaderParser.ReadFields | pkg/httpparser/parser.go:165-220 | reads the block the specification reads, with its errors, and stops behind its empty line |
| HeaderParser.ParseHeader | pkg/httpparser/parser.go:123-297 | accepts with the one framing of the fields, having taken exactly the head and at most MaxHeaderBytes; refuses otherwise, for the cause that comes first |
| StreamingBody.StreamingBodyReader.constructor | pkg/httpparser/parser.go:325-348 | a new reader has taken nothing of the unread bytes |
| StreamingBody.StreamingBodyReader.Read | pkg/httpparser/parser.go:351-392 | never takes more than min(length, limit + 1) bytes; each result for exactly its cause; closes the connection exactly when the ceiling is passed |
| StreamingBody.StreamingBodyReader.ReadAll | pkg/httpparser/parser.go:351-392 | a length within the ceiling yields exactly the bytes of it that came; it succeeds exactly when all came or the stream ended cleanly, so success means the whole body if and only if the stream has it or breaks; a body over the ceiling is refused one byte over |
| StreamingBody.ShortBody | pkg/httpparser/parser.go:388-391 | three bytes of a body of five, then a clean end: success |
| StreamingBody.StreamingBodyReader.Close | pkg/httpparser/parser.go:395-404 | takes nothing and closes the connection once |
| Pipeline.RequestRoundTrip | pkg/httpparser/parser.go:123-297 | a sent request followed by anything: its head is read as sent, its framing is the announced one, and its body stands behind the head |
| Pipeline.ChunkedRoundTrip | pkg/httpparser/parser.go:429-436 | a chunked body behind its head decodes to its content and stops at the following bytes |
| Pipeline.ReadFull | pkg/httpparser/parser.go:446-461 | exactly n bytes by any short reads, or all there are |
| Pipeline.ParseRequest | pkg/httpparser/parser.go:412-466 | the head's fields with a chunked reader at the body, or with exactly the announced bytes; refused for the head, a body over the limit, or a body cut short |
| Pipeline.ReceiveOne | pkg/httpparser/parser.go:412-466 | if a request that fits was sent it is received as sent, for any sizes of reads, and the connection stands at what follows |
| Pipeline.ReceiveAll | pkg/httpparser/parser.go:412-466 | a connection of requests followed by anything is split into exactly those |
| ChunkedLines.BufReader.Fill | pkg/server/server.go:365 | one read of the connection's buffer takes what has come or 4096 bytes, and the second buffer holds exactly that |
| ChunkedLines.BufReader.Read | pkg/server/server.go:365 | hands on the next bytes, and all that was taken from beneath is handed on or still buffered |
| ChunkedLines.BufReader.ReadPast | pkg/server/server.go:365 | a read as long as the buffer passes it by, with the same account |
| ServerTurn.StandsIff | pkg/server/server.go:361-366 | the connection stands where the second buffer does if and only if nothing is left in it |
| ServerTurn.ExactFills | pkg/server/server.go:361-366 | unless a single read took more than the buffer holds, nothing is left if and only if one of the fills, each made where the one before it ended, ends here |
| ServerTurn.NothingBeyond | pkg/server/server.go:361-366 | if nothing behind the message had come when a fill was made, nothing is left |
| ServerTurn.SomethingBeyond | pkg/server/server.go:361-366 | if something always had, and the message is shorter than the buffer, something is left |
| ServerTurn.BehindMessage | pkg/server/server.go:361-366 | behind a whole message the connection stands less than a buffer's length too far, and exactly right under the conditions above |
| ServerTurn.ReadChunkedBody | pkg/server/server.go:361-366 | a chunked body through the second buffer is delivered whole exactly when it is complete and within the limit, and the connection then stands so |
| ServerTurn.ReadSome | pkg/server/server.go:361-552 | reads of any lengths reach the end of a message if and only if it is complete and they ask for more than its body |
| ServerTurn.FinishBody | pkg/server/server.go:489-537 | closing keeps the connection if and only if the end was reached, or the response is an error and the drain reaches it |
| ServerTurn.ChunkedTurn | pkg/server/server.go:361-552 | the connection is kept if and only if the message is complete, within the limit, and asked for beyond its last byte, or short of that by less than the drain behind an error response; then it stands behind the message as said above, and else it is closed |
| ServerTurn.SizedTurn | pkg/server/server.go:367-552 | the connection is kept if and only if the whole body was taken; every read that asks for bytes takes some while there are any |
| ServerTurn.Turn | pkg/server/server.go:361-552 | exactly when a turn keeps the connection, for every framing; and a kept connection stands at the next request, behind a chunked body as said above |
| ServerTurn.LostRequest | pkg/server/server.go:241-366 | of any two fitting requests that arrive together within the buffer's length, the first with a chunked body, the second is not received |
| ServerTurn.BothFit | pkg/server/server.go:241-366 | there are such requests |
| ServerTurn.LostExample | pkg/server/server.go:241-366 | two of them |
| CircuitBreaker.UpstreamTarget.constructor | pkg/proxy/circuit_breaker.go:99-122 | a new target is closed, with the defaults for limits that are not positive |
| CircuitBreaker.UpstreamTarget.Clone | pkg/proxy/proxy.go:137-175 | a balancer's copy has the target's health, its weight if that is positive and else 1, and no credit |
| CircuitBreaker.UpstreamTarget.GetState | pkg/proxy/circuit_breaker.go:125-134 | an open breaker whose cooldown has passed becomes half-open and restarts its clock; nothing else changes |
| CircuitBreaker.UpstreamTarget.RecordSuccess | pkg/proxy/circuit_breaker.go:137-144 | closes the breaker and forgets the failures |
| CircuitBreaker.UpstreamTarget.RecordFailure | pkg/proxy/circuit_breaker.go:147-157 | counts a failure and opens the breaker when the count reaches the limit |
| CircuitBreaker.RunShape | pkg/proxy/circuit_breaker.go:125-157 | after any run: the count is the failures since the last success, closed means below the limit, open and half-open carry the right times |
| CircuitBreaker.VerdictOfRun | pkg/proxy/circuit_breaker.go:125-157 | after any run of results and questions the state equals a stateless verdict on the results alone |
| CircuitBreaker.HealthyIff | pkg/proxy/circuit_breaker.go:125-134 | a target takes part exactly when it is not open within its cooldown |
| CircuitBreaker.HealthyByResults | pkg/proxy/circuit_breaker.go:125-157 | so exactly when fewer than maxFailures failures came since the last success, or the last is a cooldown ago, whatever was asked in between |
| WeightedRoundRobin.StepConserves | pkg/proxy/proxy.go:177-208 | under every health pattern a selection leaves the sum of credits as it was |
| WeightedRoundRobin.StepDeterministic | pkg/proxy/proxy.go:177-208 | weights, credits and health determine the choice and the new credits |
| WeightedRoundRobin.Ledger | pkg/proxy/proxy.go:177-208 | after any k picks while the same targets are healthy each credit is k times the weight minus W times its picks, above -W, and all sum to 0 |
| WeightedRoundRobin.PickIsPositive | pkg/proxy/proxy.go:177-208 | the chosen target's raised credit is positive, so no credit ever falls to -W |
| WeightedRoundRobin.NeverAheadByOne | pkg/proxy/proxy.go:177-208 | after any k picks a target has been picked fewer than k*w/W + 1 times |
| WeightedRoundRobin.FirstBlock | pkg/proxy/proxy.go:177-208 | the first W picks take each healthy target exactly its weight and return all credits to 0 |
| WeightedRoundRobin.Periodic | pkg/proxy/proxy.go:177-208 | picks and credits repeat with period W |
| WeightedRoundRobin.ExactlyFair | pkg/proxy/proxy.go:177-208 | for every health pattern that stays, any W consecutive picks, wherever they start, take each healthy target exactly its weight and no other |
| WeightedRoundRobin.WeightedRoundRobinBalancer.constructor | pkg/proxy/proxy.go:160-175 | the balancer works on copies with credit 0; a positive weight is kept, any other becomes 1 |
| WeightedRoundRobin.WeightedRoundRobinBalancer.Raise | pkg/proxy/proxy.go:184-200 | the loop raises exactly the healthy targets by their weight, sums those weights, and finds the first richest |
| WeightedRoundRobin.WeightedRoundRobinBalancer.Next | pkg/proxy/proxy.go:177-208 | fails exactly when no target is closed or half-open; otherwise takes the step in place; a target open within its cooldown is neither chosen nor credited |
| WeightedRoundRobin.ChooseFairly | pkg/proxy/proxy.go:177-208 | calls of Next on a new balancer while the same targets stay healthy: every W consecutive ones choose each of these exactly its weight |
| WeightedRoundRobin.BalanceFairly | pkg/proxy/proxy.go:160-208 | the same from the targets as they were given: each healthy one as often as its given weight, or once if that is not positive |
| WeightedSplit.SlotExists | pkg/sidecar/splitter.go:45-56 | every draw below the total lies in some slot, so the final return after the loop is unreachable |
| WeightedSplit.SlotUnique | pkg/sidecar/splitter.go:45-56 | and in only one |
| WeightedSplit.HitsFromZero | pkg/proxy/proxy.go:258-278 | of all draws below n exactly those between the summed weights around a slot hit it; of all possible draws exactly its weight |
| WeightedSplit.ExactSplit | pkg/sidecar/splitter.go:39-56 | any total-weight consecutive counter values hit each slot exactly its weight |
| WeightedSplit.WeightedSplitter.constructor | pkg/sidecar/splitter.go:16-36 | keeps the targets in order; a positive weight is kept, any other becomes 1 |
| WeightedSplit.WeightedSplitter.Select | pkg/sidecar/splitter.go:39-56 | with more than one target advances the counter by one; returns the target of the counter's slot |
| WeightedSplit.SelectRound | pkg/sidecar/splitter.go:39-56 | as many calls as the weights sum to, from any counter value, choose each target exactly its weight |
| WeightedSplit.SplitFairly | pkg/sidecar/splitter.go:16-56 | from the targets as they were given and after any number of calls: a round chooses each as often as its given weight, or once if that is not positive |
| WeightedSplit.WeightedRandomBalancer.CollectHealthy | pkg/proxy/proxy.go:247-257 | exactly the closed and half-open targets, in order, with their total weight |
| WeightedSplit.WeightedRandomBalancer.Pick | pkg/proxy/proxy.go:268-277 | subtracting weights from the draw ends in the draw's slot |
| WeightedSplit.WeightedRandomBalancer.Next | pkg/proxy/proxy.go:243-278 | fails exactly when every target is open within its cooldown; otherwise the draw's slot among the others, whose widths are the given weights, or 1 |
| TokenBucket.TokenBucket.constructor | pkg/router/rate_limiter.go:65-72 | a new bucket is full |
| TokenBucket.TokenBucket.Allow | pkg/router/rate_limiter.go:75-98 | refills up to the burst, then takes one token or denies with the delay |
| TokenBucket.RefillTwice | pkg/router/rate_limiter.go:79-86 | refilling in two steps is refilling in one |
| TokenBucket.EarnedSeconds | pkg/router/rate_limiter.go:79-86 | in k seconds a bucket earns k times its rate |
| TokenBucket.EarnedAdds | pkg/router/rate_limiter.go:79-86 | what it earns in two spans it earns in both together, so no fraction is lost |
| TokenBucket.RunKeepsRange | pkg/router/rate_limiter.go:75-98 | in every run the tokens stay between 0 and the burst |
| TokenBucket.Budget | pkg/router/rate_limiter.go:75-98 | requests allowed plus tokens left never exceed the first call's tokens plus the refill since |
| TokenBucket.WindowBound | pkg/router/rate_limiter.go:75-98 | in any run, any window of calls allows at most burst + rate * length |
| TokenBucket.LevelIff | pkg/router/rate_limiter.go:75-98 | before every call of every run a bucket holds x exactly when the account over the earlier verdicts does: from what it held at first, and from a full bucket at each call since |
| TokenBucket.AllowedIff | pkg/router/rate_limiter.go:75-98 | a call is allowed if and only if that account holds a token; a denial names the least whole number of seconds, at least one, after which it would |
| TokenBucket.AllowsAllThatFits | pkg/router/rate_limiter.go:75-98 | a new bucket allows a call if and only if with it no window of calls that ends there exceeds burst + rate * length |
| TokenBucket.DelayIsLeast | pkg/router/rate_limiter.go:92-97 | the delay is the least whole number of seconds, at least one, after which a token is there |
| TokenBucket.DeniedCallsRefill | pkg/router/rate_limiter.go:75-98 | calls that are all denied only refill |
| TokenBucket.RetrySucceeds | pkg/router/rate_limiter.go:75-98 | after a denial with delay d, with only denials in between, every call at least d later succeeds |
| RateLimiter.EvictStaleIsExact | pkg/router/rate_limiter.go:227-238 | on an ordered list the tail-only loop removes exactly the entries idle longer than the time-to-live |
| RateLimiter.TouchKeepsLru | pkg/router/rate_limiter.go:249-294 | every call keeps the list duplicate-free, ordered by last access and within capacity |
| RateLimiter.CapacityEvictsOldest | pkg/router/rate_limiter.go:274-284 | a capacity eviction removes the least recently used entry and no other |
| RateLimiter.RateLimiter.constructor | pkg/router/rate_limiter.go:130-180 | starts empty, with the defaults for limits that are not positive |
| RateLimiter.RateLimiter.Len | pkg/router/rate_limiter.go:242-246 | the number of buckets held |
| RateLimiter.RateLimiter.CleanupStale | pkg/router/rate_limiter.go:221-239 | removes the stale tail from list and map alike |
| RateLimiter.RateLimiter.GetBucket | pkg/router/rate_limiter.go:249-294 | map and list keep the same keys; the list becomes exactly what eviction, promotion or insertion at the front make of it |
| RateLimiter.RateLimiter.Handle | pkg/router/rate_limiter.go:363-420 | one request: the client's bucket, its verdict, and no other bucket touched |
| TtlEviction.SameVerdicts | pkg/router/rate_limiter.go:249-294 | if a bucket refills before it is forgotten, every verdict and delay of every run that never fills the table equals that of a table that never forgets |
| TtlEviction.TableDenies | pkg/router/rate_limiter.go:75-98 | if it does not, two bursts one time-to-live apart are not both allowed by such a table |
| TtlEviction.LimiterAllows | pkg/router/rate_limiter.go:249-294 | but the limiter allows both |
| TtlEviction.TtlUnobservableIff | pkg/router/rate_limiter.go:249-294 | forgetting idle buckets is unobservable if and only if a bucket refills before it is forgotten |
| TtlEviction.ParseRateLimit | pkg/router/rate_limiter.go:25-53 | an accepted limit has a positive rate, and its count is its burst |
| TtlEviction.RateIsCount | pkg/router/rate_limiter.go:25-53 | a limit is accepted exactly for a positive count of a known unit, and its count is what a bucket earns in one second, minute or hour |
| TtlEviction.DefaultTtl | pkg/router/rate_limiter.go:25-53 | with the default time-to-live: unobservable for every per-second and per-minute limit, observable for every per-hour one |
| Reactor.RunInv | pkg/reactor/reactor.go:154-304 | in every state of every interleaving: each accepted connection is in one place, is tracked while it must be, and the phases of queue, workers and shutdown agree |
| Reactor.SweptMeansClosed | pkg/reactor/reactor.go:247-304 | once the sweep of Shutdown is done, every tracked connection is closed in every later state |
| Reactor.HandledAtMostOnce | pkg/reactor/reactor.go:212-273 | no connection reaches the handler twice |
| Reactor.NoneTurnedAway | pkg/reactor/reactor.go:154-273 | before a shutdown every accepted connection waits for its handler or has had it, and none is closed that has not |
| Reactor.AllHandled | pkg/reactor/reactor.go:154-273 | when Serve has returned without a shutdown, exactly the accepted connections were handled |
| Reactor.NeverSendsOnClosed | pkg/reactor/reactor.go:154-209 | nothing is sent on the closed task channel, and it is closed once |
| Reactor.TrackedBound | pkg/reactor/reactor.go:154-273 | tracked connections never exceed MaxQueueSize + WorkerPoolSize + 1 |
| Reactor.NothingLeaks | pkg/reactor/reactor.go:154-304 | when Serve has returned every accepted connection is closed, unless a shutdown has begun and not yet swept |
| Reactor.NeverStuck | pkg/reactor/reactor.go:154-273 | with a connection in hand, or once it has left its loop, Serve or a worker can always go on until Serve has returned |
| UdpSessions.ExactlyOneOwner | pkg/proxy/udp.go:234-280 | in every interleaving each dialled socket is owned by exactly one of registry, worker, sweeper, or is closed |
| UdpSessions.SessionsAreInjective | pkg/proxy/udp.go:234-280 | no socket serves two clients; at most one session per client |
| UdpSessions.DialsOnlyOnMiss | pkg/proxy/udp.go:234-253 | a client with a session keeps it, open, without another dial; only for one without a socket is dialled |
| UdpSessions.PublishServes | pkg/proxy/udp.go:234-280 | publishing in an open proxy leaves the client with a session on an open socket, the one just dialled exactly if there was none, and changes no other session |
| UdpSessions.SessionStays | pkg/proxy/udp.go:234-356 | a session keeps its socket, open, until a sweep takes it or Close clears the registry |
| UdpSessions.ClearedForGood | pkg/proxy/udp.go:332-356 | once Close has cleared the registry it stays empty, and when workers and sweeper are through every socket is closed |
| UdpBuffers.ExactlyOneHolder | pkg/proxy/udp.go:162-218 | each buffer is held by exactly one of pool, reader, queue, worker or response reader |
| UdpBuffers.NoDoublePut | pkg/proxy/udp.go:162-218 | no step puts back a buffer that is in the pool already |
| UdpBuffers.DroppedOnlyWhenFull | pkg/proxy/udp.go:190-218 | a datagram is queued behind the others, unless the queue holds maxWorkers or the proxy is closed |
| UdpBuffers.AllBuffersReturn | pkg/proxy/udp.go:162-218 | when Serve has returned and the response readers have ended, every buffer is back |
| UdpBuffers.NeverStuck | pkg/proxy/udp.go:162-218 | except while it waits for a datagram, the reader or a worker can always go on until Serve has returned |
| TcpProxy.LimitHolds | pkg/proxy/tcp.go:124-195 | activeConns equals the unfinished handlers, plus one between the increment and the start, and never exceeds maxConnections |
| TcpProxy.RejectedIffFull | pkg/proxy/tcp.go:124-150 | a connection is rejected if and only if as many handlers as the limit are unfinished, and is open until then |
| TcpProxy.DialsWithOpenClient | pkg/proxy/tcp.go:151-195 | until the sweep no connection is closed under a handler that dials |
| TcpProxy.NothingStaysRegistered | pkg/proxy/tcp.go:151-195 | when the handlers are done no connection is left registered |
| TcpProxy.SweepIsFinal | pkg/proxy/tcp.go:276-300 | after the sweep of Close the registered set stays empty and every connection that was in it is closed |
| TcpProxy.SweepReachesEveryRelay | pkg/proxy/tcp.go:151-195 | from then on no relay has an open connection, whenever it registered |
| TcpProxy.NothingLeaks | pkg/proxy/tcp.go:124-195 | when the accept loop holds none and the handlers are done, every connection accepted or dialled is closed |
| Deadline.SoundRun | pkg/server/deadline.go:53-181 | in every run a remembered timeout vouches for the deadline on the socket, set no later than now |
| Deadline.WindowAfterRun | pkg/server/deadline.go:53-83 | after any mix of amortized, forced and reset calls, working or failing, a successful amortized call leaves a deadline in (now + t/2, now + t], and a failed one leaves the socket as it was |
| Deadline.CallsAreSpaced | pkg/server/deadline.go:53-83 | with one timeout the working system calls are at least t - t/2 apart, and the telemetry counts exactly them |
| Deadline.CallBound | pkg/server/deadline.go:53-83 | over a span D at most 1 + D/(t - t/2) system calls besides those that fail |
| Deadline.ClearsIff | pkg/server/deadline.go:57-64 | after any run, a call without a timeout that reports success has cleared the deadline if and only if the last call that touched the memory did not empty it, or there was no deadline |
| Deadline.MemoryIsReal | pkg/server/deadline.go:53-136 | without resets and failures the memory is the socket's own deadline, so clearing clears |
| Deadline.ForcedDeadlineStays | pkg/server/deadline.go:120-153 | a forced deadline is the socket's, exactly, through resets and failing calls, and the next amortized call makes a system call |
| Deadline.ClearAfterResetKeepsDeadline | pkg/server/deadline.go:57-64 | clearing after a reset reports success and leaves the old deadline |
| Deadline.ConnDeadlineTracker.constructor | pkg/server/deadline.go:26-28 | a new tracker remembers nothing |
| Deadline.ConnDeadlineTracker.SetAmortizedReadDeadline | pkg/server/deadline.go:53-83 | the read side takes the step and lands in the window; the write side is untouched |
| Deadline.ConnDeadlineTracker.SetAmortizedWriteDeadline | pkg/server/deadline.go:87-117 | the write side takes the step and lands in the window; the read side is untouched |
| Deadline.ConnDeadlineTracker.ForceSetReadDeadline | pkg/server/deadline.go:120-127 | the deadline is set at once, remembered even if the call fails, and never counts as fresh |
| Deadline.ConnDeadlineTracker.ForceSetWriteDeadline | pkg/server/deadline.go:130-137 | the same for writing |
| Deadline.ConnDeadlineTracker.ResetReadAmortization | pkg/server/deadline.go:140-145 | the memory is emptied, the socket is not touched |
| Deadline.ConnDeadlineTracker.ResetWriteAmortization | pkg/server/deadline.go:148-153 | the same for writing |
| Deadline.ConnDeadlineTracker.SetDeadline | pkg/server/deadline.go:171-181 | both sides are forced |
| ProxyPath.CleanRooted | pkg/proxy/proxy.go:1529-1541 | the cleaned form of a rooted path is its resolved names, free of dots, and can be read back |
| ProxyPath.ResolveByRules | pkg/proxy/proxy.go:1529-1541 | a dot goes, a name goes with the two dots behind it, two dots at the root go, and the rest stays: the rules that determine the cleaned path |
| ProxyPath.GuardNeverFires | pkg/proxy/proxy.go:1540-1545 | under a rooted target a rooted path passes the textual guard, so neither fallback is ever used |
| ProxyPath.JoinIsDestination | pkg/proxy/proxy.go:1527-1602 | for all rooted requests and all stripped ones under all rooted or empty targets the branching code equals a form without branches and guards, slash at the end included |
| ProxyPath.ElementsOfDestination | pkg/proxy/proxy.go:1527-1602 | the names reached are the target's followed by the resolved remainder |
| ProxyPath.StaysUnderTarget | pkg/proxy/proxy.go:1527-1602 | for clean targets, up to one slash at the end: the target's names, then the resolved remainder, and no dot anywhere |
| ProxyPath.PrefixIsStripped | pkg/proxy/proxy.go:1527-1602 | a prefix to be stripped is taken off whatever follows it; one the path does not have, or that is to be kept, changes nothing |
| ProxyPath.DotFreeIff | pkg/proxy/proxy.go:1553-1575 | for targets that are not clean, dots survive exactly when the whole request path is stripped and the target has some |
| ProxyPath.UnrootedIsClimb | pkg/proxy/proxy.go:1529-1532 | an unrooted path resolves to its climb followed by what the rooted one resolves to |
| ProxyPath.UnrootedElements | pkg/proxy/proxy.go:1529-1549 | where an unrooted request path ends up, both ways the guard can go |
| ProxyPath.UnrootedContainedIff | pkg/proxy/proxy.go:1529-1549 | an unrooted request path stays under the target's names if and only if the guard refuses the names after the climb or they begin with the target's |
| ProxyPath.UnrootedStaysIff | pkg/proxy/proxy.go:1529-1549 | an unrooted request path is treated like a rooted one if and only if it does not climb, or the target has no names, or it climbs to the root and lands on text the target does not begin |
| ProxyPath.UnrootedAlone | pkg/proxy/proxy.go:1529-1538 | without a target path it keeps its climb, and an empty one becomes a dot |
| ProxyPath.CleanedKeepsNames | pkg/router/router.go:999-1011 | the router's cleaning roots every path and keeps what its rooted reading resolves to; a rooted path becomes exactly its resolved names, with its slash at the end |
| ProxyPath.ReceivedStaysUnderTarget | pkg/router/router.go:1040 | for every path that comes to the router: cleaning and joining end on a clean target's names followed by the resolved rest, without dots |
| ProxyPath.UnrootedAloneDotFreeIff | pkg/sidecar/proxy.go:337 | without the router and without a target path an unrooted path is sent on free of dots if and only if it does not climb and comes to something |
| ProxyPath.CleanedIsDotFreeIff | pkg/router/router.go:999-1011 | cleaning alone leaves dots exactly for unrooted paths that climb or come to nothing |
| ProxyPath.UnrootedEscapes | pkg/proxy/proxy.go:1541-1545 | ../v1x under /v1 reaches v1x, outside the target |
| ProxyPath.EmptyRequestIsDot | pkg/proxy/proxy.go:1529-1538 | the empty request path is sent on as a dot |
| ProxyPath.TargetAsWritten | pkg/proxy/proxy.go:1557-1560 | /a/.. is sent on as it is when the whole request path is stripped |

## Left out

- ChunkedReader.ChunkedBodyReader.ParseTrailers: trailers are an ordered list of fields; canonical header keys and the second copy into the request's header are not modelled.
- ChunkedReader.ChunkedBodyReader.Drain: each pass uses a new buffer where the code reuses a slice of one.
- ChunkedReader.ChunkedBodyReader.SetCloser: called before the first failure, as the server does; a closer attached after a failure is closed by Close only.
- HeaderParser.ParseHeader: whether the request target makes a URL is a parameter; header keys are compared by name instead of being canonical map keys, and the rewritten Content-Length value is not modelled.
- WeightedSplit.WeightedRandomBalancer.Next: targets are distinct objects, as their construction makes them; the random draw is a parameter.
- TtlEviction.ParseRateLimit: the text is already split into a count and a unit; fmt.Sscanf is not part of this model.
- TokenBucket.TokenBucket.Allow: rate and burst are positive, as the middleware guarantees; rounding of float64 is not modelled.
- Deadline.ConnDeadlineTracker.SetDeadline: the system call works for both directions or for neither; SetReadDeadline and SetWriteDeadline only delegate to the forced calls.
- Reactor.TrackedBound: Serve is called once per reactor; a handler may close its connection itself, and what else it does is not modelled.
- UdpSessions.ExactlyOneOwner: which sessions count as expired is left open, so every choice of the sweeper is covered; dial errors carry no data.
- TcpProxy.LimitHolds: copying bytes and idle timing in the relay are left out; only when it closes its connections is kept.
- Wrap-around of 64-bit counters and of the failure count; latency averages, metrics, logging, audit log and client-key extraction.
- I/O errors other than a stream that ends cleanly or breaks; errors reported by closing a connection.
- Pipeline.ParseRequest: pooled body buffers are fresh ones here; the closer of a chunked body is a parameter.
- ServerTurn.ExactFills: after a single read of more than 4096 bytes the lengths of the reads decide as well; ServerTurn.StandsIff and ServerTurn.NothingBeyond hold there too.
- ServerTurn.Turn: the activity reader between the two buffers passes bytes on unchanged, without its deadlines, byte ceiling and rate clamp; responses, upgrades and streamed response bodies are left out, and a connection that ends without being closed here is closed by the caller.
- RoundRobinBalancer, LeastConnBalancer and the other balancers: single loops over healthy targets; they would only add easy members.
- Fairness of scheduling: the step systems prove safety over all interleavings, and that the reactor and the UDP reader can always go on, not that they do.
- WebSocket proxying, transport and TLS setup, health probes, caching, discovery, ingress, ACME, JWT, WAF and the dashboard.
