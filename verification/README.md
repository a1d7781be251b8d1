# A verified model of libcoio

libcoio is a header-only C++20 coroutine library over io_uring with a small HTTP/1.x client. This project
models its three hardest parts in Dafny and proves what each of them promises, for every input and every run.

**The HTTP byte machines** (`include/http/picohttpparser.h`). `ChunkedSpec` is the chunked transfer decoder as
a byte-at-a-time machine with the 64-bit size word of the source. `ChunkedLanguage` is a grammar of chunked
bodies (section 4.1 of RFC 7230 with the decoder's leniency: any spelling of a size, stray CRs, bare LFs), and
the decoder completes on exactly those texts. `ChunkedDecoder` is the code as written, with its nested loops,
fall-through cases and in-place compaction of the caller's array, proved equal to the machine. `HeadSpec` is the
reference meaning of the head parser, `HeadPrefix` its incremental behaviour, `PreScan` the effect of the
"is it complete yet" scan, `HeadLanguage` the grammar of heads it accepts, and `HeadParser` the code as written, with the 16-byte block skip, the 8-byte
unrolled loop and the header array filled in place.

**The client's framing layer** (`include/stream_buffer.hpp`, `include/http/httpclient.hpp`). `StreamBuffer` is
the get/put buffer as a FIFO. `HttpClient` runs `read_until`, `read_headers` and `read_body` against a socket
that cuts the stream however it likes and may fail. `HttpExchange` joins them: the head, the content-length found
in it, and that many bytes of body. `RequestMessage` prints requests with `build_msg` and reads them back with the
repository's own request parser.

**The coroutine protocols** (`include/future.hpp`, `include/when_all.hpp`, `include/io_context.hpp`). `Future` is
the two-sided completion handshake for any number of threads, interleavings and nested coroutines. `Ring` is the
life of an I/O operation from the submission queue to the resumed coroutine. `TaskQueues` is a queue with the
history of what was posted and what ran on which thread, `IoContext` the run loop over three of them, and `WhenAll` the counter on which a parent waits for any number of tasks.

Integers are unbounded in Dafny; the decoder's `size_t` and the 64-bit task counter are reduced modulo 2^64
explicitly, and the proofs show that neither ever wraps. The network, the kernel and user code are
nondeterministic methods or steps of a state machine. Atomics are sequentially consistent single steps.

Where code and comments disagree, the model follows the code:

- `read_headers` says that a parse error is a negative result, but converts the parser's `int` to `bool`. A head
  the parser rejects is therefore reported as read. `HttpClient.Client.ReadHeaders` states the result it gives and
  `HttpExchange.RejectedHeadIsRead` shows such a head.
- `phr_decode_chunked` documents the new buffer length for calls without an error. The code also sets it on an
  error, and closes the gap in front of the unread bytes then too.
- `run` clears the stop flag before it looks at the binding, so a refused call still forgets an earlier
  `request_stop`. `IoContext.Context.Loop` states this.
- In the documented use the pre-scan of `phr_parse_response` never changes a success, but it may change the kind of a
  failure, both ways. `PreScan.VerdictKept` says exactly when, on the bytes; `PreScan.CallsRejectForGood` shows that
  an error is never reported for a head that could still have been completed.
- A negative content-length wraps to a very large `size_t`, and `read_body` throws when it reserves that much, after
  the waiting bytes are taken from the buffer. `HttpExchange.ReadableIff` gives the exact condition.
- `read_body` asks for at least 64 bytes and clamps before it commits, so bytes after the body may be neither
  returned nor kept. `HttpClient.NothingVanishes` says exactly when none can be.

## Model

| member | source | states |
|---|---|---|
| `ChunkedSpec.StreamingEqualsOneShot` | include/http/picohttpparser.h:585-698 | From any decoder state, feeding any pieces one call after another gives the payload, state, verdict and undecoded tail of a single call on the whole. |
| `ChunkedSpec.RunConcat` | include/http/picohttpparser.h:585-698 | One cut: an incomplete first part is resumed by the second, a finished one keeps its verdict and leaves the second part in the tail. |
| `ChunkedSpec.ReachableStates` | include/http/picohttpparser.h:590-689 | In every state reachable from zero-filled, in pieces or not: while a size is read the counter is the value of the digits just seen and below 16^digits; it is positive in data and zero in the CRLF and trailer states. |
| `ChunkedSpec.SizeNeverWraps` | include/http/picohttpparser.h:592-610 | The modular 64-bit accumulation of a digit equals the unbounded one, up to the sixteenth digit. |
| `ChunkedSpec.StepKeepsValid` | include/http/picohttpparser.h:590-689 | Every accepted byte keeps the state invariant. |
| `ChunkedSpec.RunKeepsValid` | include/http/picohttpparser.h:585-698 | Every call keeps the invariant, never yields more bytes than it got, and reads everything when it asks for more. |
| `ChunkedSpec.RunKeepsSizeMatches` | include/http/picohttpparser.h:592-612 | After any incomplete call the partial size is the hexadecimal value of the last digits fed. |
| `ChunkedSpec.DigitIsItsPlace` | include/http/picohttpparser.h:573-583 | For every byte: a digit is worth its place in "0123456789abcdef" or "0123456789ABCDEF", and any other byte is no digit. |
| `ChunkedLanguage.RoundTrip` | include/http/picohttpparser.h:590-697 | Decoding the text of any well-formed body returns its chunks joined, stops in the right state and leaves exactly the suffix, with and without trailer consumption. |
| `ChunkedLanguage.AcceptedIsBody` | include/http/picohttpparser.h:590-697 | Whatever the decoder completes on is the text of a well-formed body with that payload, followed by the reported tail. |
| `ChunkedLanguage.AcceptsExactlyBodies` | include/http/picohttpparser.h:590-697 | Both directions together: completion with a payload and a tail if and only if some well-formed body says so. |
| `ChunkedLanguage.HexRoundTrip` | include/http/picohttpparser.h:573-610 | Reading a size printed in hexadecimal, in either letter case, gives the size. |
| `ChunkedLanguage.HexFits` | include/http/picohttpparser.h:601-608 | A size below 2^64 needs no more than the sixteen digits the decoder takes. |
| `ChunkedLanguage.EncodeRoundTrip` | include/http/picohttpparser.h:585-698 | Decoding what the usual encoder prints for any non-empty chunks gives back their data joined and leaves exactly what follows. |
| `ChunkedLanguage.RunSizeLine` | include/http/picohttpparser.h:592-632 | A size line in any spelling with any extension leads to data, to the trailer or to completion, depending on its value and the flag. |
| `ChunkedLanguage.RunData` | include/http/picohttpparser.h:633-649 | Data bytes are emitted unchanged and counted down, across any cut. |
| `ChunkedLanguage.RunChunk` | include/http/picohttpparser.h:592-664 | A whole chunk emits its data and returns the machine to its initial state. |
| `ChunkedLanguage.RunTrailer` | include/http/picohttpparser.h:665-687 | Trailer lines are swallowed up to the empty line and the rest is the tail. |
| `ChunkedDecoder.MemMove` | include/http/picohttpparser.h:633-649 | An overlapping move to a lower address: what arrives is what stood there before, nothing else changes. |
| `ChunkedDecoder.CloseGap` | include/http/picohttpparser.h:691-697 | On exit the payload is followed directly by the untouched tail. |
| `ChunkedDecoder.InPlaceDecoder.constructor` | include/http/picohttpparser.h:78-84 | A zero-filled struct is the initial state of the machine. |
| `ChunkedDecoder.InPlaceDecoder.ReadSize` | include/http/picohttpparser.h:592-612 | The size loop refines the machine: same state, same position, same early exits. |
| `ChunkedDecoder.InPlaceDecoder.ReadExt` | include/http/picohttpparser.h:614-632 | The extension loop does, including the last chunk with and without trailer consumption. |
| `ChunkedDecoder.InPlaceDecoder.CopyData` | include/http/picohttpparser.h:633-649 | The block copy emits what the machine emits byte by byte and overwrites no unread byte. |
| `ChunkedDecoder.InPlaceDecoder.ReadCrlf` | include/http/picohttpparser.h:651-664 | CRs are skipped, a line feed leads to the next size, anything else is the error the machine reports. |
| `ChunkedDecoder.InPlaceDecoder.ReadTrailerHead` | include/http/picohttpparser.h:665-675 | At the head of a trailer line a line feed ends the body, as in the machine. |
| `ChunkedDecoder.InPlaceDecoder.ReadTrailerMiddle` | include/http/picohttpparser.h:676-685 | The rest of a trailer line is skipped to its line feed, as in the machine. |
| `ChunkedDecoder.InPlaceDecoder.Turn` | include/http/picohttpparser.h:590-689 | One turn of the outer loop from any phase: destination stays at or below source, unread bytes stay intact, payload and state are the machine's. |
| `ChunkedDecoder.InPlaceDecoder.Loop` | include/http/picohttpparser.h:590-689 | The outer loop terminates, because every turn that goes on has read a byte, with the machine's outcome. |
| `ChunkedDecoder.InPlaceDecoder.DecodeChunked` | include/http/picohttpparser.h:585-698 | The call in place: return code, state, payload at the front and tail behind it are those of the machine, and bytes beyond the given size are untouched. |
| `ChunkedDecoder.DecodePieces` | include/http/picohttpparser.h:86-94 | The documented calling pattern, with the in-place code and any pieces, yields what one pass over the joined input yields. |
| `HeadPrefix.ResponseExtends` | include/http/picohttpparser.h:339-408 | More input keeps an acceptance with all its outputs, keeps a rejection, and only adds headers to those counted on "incomplete". |
| `HeadPrefix.PrefixesOfAccepted` | include/http/picohttpparser.h:477-539 | Every cut before the end of an accepted head is "incomplete"; every cut at or after it is accepted alike. |
| `HeadPrefix.ConsumedInRange` | include/http/picohttpparser.h:477-511 | An accepted head lies within the buffer and is longer than its fixed status prefix. |
| `HeadPrefix.StopsAtBlankLine` | include/http/picohttpparser.h:273-299 | Parser and blank-line scan agree on where an accepted head ends. |
| `HeadPrefix.StopsAtFirstEmptyLine` | include/http/picohttpparser.h:343-352 | The end of an accepted head is an empty line and no earlier position is one. |
| `HeadPrefix.ScanFromMiddle` | include/http/picohttpparser.h:273-299 | Started anywhere before the closing line ends, even between CR and LF, the scan still finds an end no later. |
| `HeadPrefix.PreScanKeepsSuccess` | include/http/picohttpparser.h:513-539 | With `last_len` inside an acceptable head the entry point gives the plain parse, all outputs included. |
| `HeadPrefix.PreScanIsTransparent` | include/http/picohttpparser.h:513-539 | If the first `last_len` bytes were incomplete, the entry point succeeds if and only if a parse without the scan does, with equal outputs. The failure codes are the subject of `PreScan.VerdictKept`. |
| `PreScan.ScanVerdict` | include/http/picohttpparser.h:273-299 | The scan fails if and only if a bare CR comes before any pair of line ends, and asks for more if and only if there is neither. |
| `PreScan.VerdictKept` | include/http/picohttpparser.h:513-539 | For every buffer and `last_len`: the entry point keeps the verdict of the plain parse if and only if, from the scan's start, no bare CR comes first (incomplete), something stops the scan (error), or a pair of line ends comes first (success); otherwise the two failures turn into each other. |
| `PreScan.RejectionIsFinal` | include/http/picohttpparser.h:513-539 | If the first `last_len` bytes were incomplete, an error stays an error under every extension, and no extension would have been accepted without the scan. |
| `PreScan.CallsAccept` | include/http/picohttpparser.h:513-539 | For any growing lengths, each call told the one before: the calls accept at the first prefix that holds the head, with the outputs of one parse of the whole, and only ask for more until then. |
| `PreScan.CallsRejectForGood` | include/http/picohttpparser.h:513-539 | Judged by the calls' own results, an error means that no continuation of the buffer is a response. |
| `PreScan.KindOfFailureChanges` | include/http/picohttpparser.h:273-299 | Both changes of code do occur, with a buffer for each. |
| `HeadLanguage.LinesParse` | include/http/picohttpparser.h:339-408 | Any well-formed field and continuation lines are reported one by one at the right offsets. |
| `HeadLanguage.ResponseRoundTrip` | include/http/picohttpparser.h:477-511 | Printing any head and parsing it gives back version, status, message and every header, and consumes exactly the head whatever follows. |
| `HeadLanguage.AcceptedIsMessage` | include/http/picohttpparser.h:477-511 | Whatever is accepted is the text of a well-formed head. |
| `HeadLanguage.AcceptsExactlyMessages` | include/http/picohttpparser.h:301-408 | Acceptance of n bytes if and only if they are the text of a well-formed head with no more lines than allowed. |
| `HeadParser.TokenCharIsTchar` | include/http/picohttpparser.h:160-168 | The 256-entry table is the tchar set of section 3.2.6 of RFC 7230. |
| `HeadParser.EolRanges` | include/http/picohttpparser.h:205-214 | The block-skip ranges for text are exactly the control bytes other than HT. |
| `HeadParser.TokenRanges` | include/http/picohttpparser.h:135-141 | The ranges for request tokens are exactly the bytes that end or break one. |
| `HeadParser.NameRanges` | include/http/picohttpparser.h:361-384 | The ranges for header names skip only token characters. |
| `HeadParser.FindCharFast` | include/http/picohttpparser.h:170-200 | The block skip passes no byte in range, stops on one when it says so, and otherwise leaves fewer than 16 bytes, or all of them without the instruction. |
| `HeadParser.SkipUnrolled` | include/http/picohttpparser.h:220-245 | The unrolled loop passes no control byte and stops on one when it says so. |
| `HeadParser.GetTokenToEol` | include/http/picohttpparser.h:202-271 | With or without fast paths, the same token, cursor and verdict as the byte-at-a-time reference. |
| `HeadParser.AdvanceToken` | include/http/picohttpparser.h:135-158 | The token macro gives the reference token up to the first space. |
| `HeadParser.ScanName` | include/http/picohttpparser.h:370-384 | The name scan stops at the first byte that is not a token character. |
| `HeadParser.ParseHeaderLine` | include/http/picohttpparser.h:357-405 | One header or continuation line as in the reference, errors included. |
| `HeadParser.ParseHeaders` | include/http/picohttpparser.h:339-408 | The array holds the reference's headers in order up to the count, on every outcome, and nothing past the limit is written. |
| `HeadParser.IsComplete` | include/http/picohttpparser.h:273-299 | The pre-scan loop computes the reference blank-line scan from its starting point. |
| `HeadParser.ParseHttpVersion` | include/http/picohttpparser.h:321-337 | The version bytes one by one give the reference version, and the returned cursor is inside the buffer. |
| `HeadParser.ParseResponseFrom` | include/http/picohttpparser.h:477-511 | The parser as written has the reference's return code and headers, and on every outcome the start-line outputs hold what had been read so far. |
| `HeadParser.ParseResponseEntry` | include/http/picohttpparser.h:513-539 | The entry point with its pre-scan does too; a scan that stops it leaves the outputs at their defaults. |
| `HeadSpec.WrittenIsFinal` | include/http/picohttpparser.h:301-319 | An understood status line is written whole, and what an incomplete one has written already is what any extension writes. |
| `HeadParser.ParseRequestEntry` | include/http/picohttpparser.h:410-475 | The request entry point on a buffer not seen before has the reference's return code, headers and line outputs on every outcome, and an understood line is written whole. |
| `RequestMessage.DecimalRoundTrip` | include/http/httpclient.hpp:220-224 | Reading back the printed content length gives the length. |
| `RequestMessage.BuildMsg` | include/http/httpclient.hpp:206-238 | The message appended piece by piece is the grammar text of its header lines in order, an empty line and the body. |
| `RequestMessage.LinesLegal` | include/http/httpclient.hpp:214-224 | The printed lines are well formed if and only if host, names and values hold only legal bytes. |
| `RequestMessage.RequestRoundTrip` | include/http/httpclient.hpp:206-238 | The repository's request parser recovers the request as printed if and only if every part holds only legal bytes and the headers fit the limit. |
| `RequestMessage.RequestSays` | include/http/picohttpparser.h:410-475 | What the recovered spans read: the printed verb and target, each header line in printed order, and the body right after the consumed head. |
| `RequestMessage.MethodRoundTrip` | include/http/httpclient.hpp:28-39 | A reader of "GET", "POST" and "HEAD" gives back the method from its printed text. |
| `RequestMessage.RequestMeans` | include/http/httpclient.hpp:206-238 | What a server makes of the recovered request: the caller's method, path, "?" and query, "Host" first, the caller's headers in order, and "Content-Length" with the body's length exactly for a body or a POST. |
| `StreamBuffer.StreamBuf.constructor` | include/stream_buffer.hpp:13-17 | A new buffer of 128 bytes holds nothing. |
| `StreamBuffer.StreamBuf.Commit` | include/stream_buffer.hpp:27-30 | Appends what stands in the put area, at most what fits, to the waiting bytes. |
| `StreamBuffer.StreamBuf.Consume` | include/stream_buffer.hpp:32-36 | Drops from the front, at most what waits, including bytes written but not yet in the get area. |
| `StreamBuffer.StreamBuf.Reserve` | include/stream_buffer.hpp:59-72 | Makes room; the vector only grows and the waiting bytes are unchanged. |
| `StreamBuffer.StreamBuf.Prepare` | include/stream_buffer.hpp:42-45 | The span handed out lies in the put area inside the vector, away from waiting bytes. |
| `StreamBuffer.StreamBuf.Data` | include/stream_buffer.hpp:49-51 | Exactly the committed bytes that have not been consumed. |
| `StreamBuffer.StreamBuf.TryGetData` | include/stream_buffer.hpp:52-57 | The first n waiting bytes, or nothing when fewer wait. |
| `StreamBuffer.StreamBuf.Underflow` | include/stream_buffer.hpp:76-82 | Shows the next waiting byte without taking it, or end of file exactly when none waits. |
| `StreamBuffer.StreamBuf.Overflow` | include/stream_buffer.hpp:85-94 | Appends one byte, growing if it must; end of file stores nothing. |
| `HttpClient.UptoIsShortest` | include/http/httpclient.hpp:178-204 | The specification of a head: the shortest prefix ending in the delimiter, if any does. |
| `HttpClient.ResumedSearch` | include/http/httpclient.hpp:187-195 | Searching on from the overlap position finds the first delimiter of the whole text, however it was cut. |
| `HttpClient.SearchStep` | include/http/httpclient.hpp:187-195 | One turn of the search: found is the first occurrence in everything ahead, and otherwise the new start position is safe. |
| `HttpClient.Client.ReceiveInto` | include/http/httpclient.hpp:184-185 | One receive: the buffer gains what came, up to the limit, the peer's stream loses exactly what came, and it is reported as failed exactly when the receive failed. |
| `HttpClient.Client.Search` | include/http/httpclient.hpp:184-197 | The receive loop loses nothing and reports failure exactly when a receive failed; otherwise it finds the first delimiter of everything ahead, or reads to the end and there is none. |
| `HttpClient.Client.ReadUntil` | include/http/httpclient.hpp:178-204 | It returns if and only if no receive failed, and then, whatever the fragments, the shortest prefix of buffer and stream ending in the delimiter, or everything; what is returned and what is ahead together are what was ahead. An empty delimiter returns all that was received, at least one new byte unless the peer has closed. |
| `HttpClient.Client.ReadHeaders` | include/http/httpclient.hpp:131-140 | Unless a receive failed, success exactly when the head ends in CRLFCRLF, and then the parser's headers and outputs for that head. |
| `HttpClient.Client.Gather` | include/http/httpclient.hpp:160-172 | The body loop collects and loses exactly what the sizes of its receives say, and ends early exactly when a receive failed. |
| `HttpClient.OneReceive` | include/http/httpclient.hpp:161-170 | One more receive, whether it fails, finds the end, brings part of the rest or more than the rest, adds its size to that account. |
| `HttpClient.Client.ReadBody` | include/http/httpclient.hpp:142-176 | It throws if and only if more is missing than a string can hold, and the waiting bytes are gone then; otherwise a prefix of what is ahead, as long as the receives' sizes say, cut short exactly when one failed. |
| `HttpClient.BodyIsExact` | include/http/httpclient.hpp:142-176 | Unless a receive fails, exactly min(need, available) bytes are returned; fewer than 64 vanish, and none from a body that is not whole. |
| `HttpClient.NothingVanishes` | include/http/httpclient.hpp:160-170 | However the stream is cut nothing vanishes, if and only if the buffer already holds the body or no more than the body is ahead. |
| `HttpClient.UnluckyLoses` | include/http/httpclient.hpp:160-170 | Every loss from 1 to 63 bytes occurs, for every body with that much behind it. |
| `HttpExchange.GetHeaderValue` | include/http/http_parser.hpp:81-88 | The value of the first header whose name compares equal, empty if there is none. |
| `HttpExchange.LowerIsSmall` | include/http/http_parser.hpp:17-21 | A capital becomes the small letter at its place in the alphabet, and every other byte stays. |
| `HttpExchange.FoundIffSpelled` | include/http/http_parser.hpp:17-21 | A name is found as the content-length if and only if it is spelled "content-length" with each letter in either case. |
| `HttpExchange.StoIReads` | include/http/http_parser.hpp:74-76 | White space, a sign or none, digits, then anything else: worth what the digits say if there are any and they fit an `int`, and an exception otherwise. |
| `HttpExchange.EveryTextIsANumber` | include/http/http_parser.hpp:74-76 | Every text is of that form, so this says what each value does. |
| `HttpExchange.StoIReadsDecimal` | include/http/http_parser.hpp:74-76 | A printed content-length is read back as the number. |
| `HttpExchange.HeadIsCutOut` | include/http/httpclient.hpp:131-140 | The delimiter search cuts exactly the printed head out of a stream, whatever its lines and whatever follows. |
| `HttpExchange.LengthTextIsFound` | include/http/http_parser.hpp:64-88 | In any printed head the client's parser finds the value of the first line spelled "content-length" in any letter case. |
| `HttpExchange.ReadableIff` | include/http/httpclient.hpp:109-111 | A body is read, however many bytes wait, if and only if there is no length or it parses and is not negative. |
| `HttpExchange.Exchange` | include/http/httpclient.hpp:96-113 | Unless a receive fails, the reply is a function of the bytes of the stream alone: no head, an exception, or the written status with the announced number of bytes behind the shortest head or all there are. A failed receive gives an exception or a shorter body. |
| `HttpExchange.PrintedIsReceived` | include/http/httpclient.hpp:96-113 | That function gives back the status and exactly the body of every printed response, whatever its lines, however it spells "content-length" and whatever follows it. |
| `HttpExchange.Fetch` | include/http/httpclient.hpp:96-113 | End to end: a printed response comes out of the client with its status and exactly its body, however it was cut, if no receive fails. |
| `HttpExchange.NegativeIsRefused` | include/http/httpclient.hpp:155-159 | Every printed response whose first content-length is negative ends in an exception. |
| `HttpExchange.MinusOneIsRefused` | include/http/httpclient.hpp:155-159 | One such response, with any bytes behind it. |
| `HttpExchange.RejectedHeadIsRead` | include/http/httpclient.hpp:131-140 | A head the parser rejects is replied as received, without a status. |
| `HttpClient.HeadAgreement` | include/http/httpclient.hpp:131-140 | The parser consumes the whole head if and only if the head ends with its first empty line. |
| `HttpClient.CrlfHeadIsConsumed` | include/http/httpclient.hpp:178-204 | A head cut at the first CRLFCRLF without a bare LF is consumed whole, so the body starts where parsing stopped. |
| `Future.NextKeepsInv` | include/future.hpp:23-48 | Every step of either side, of user code and of destructors keeps the invariant linking stacks, frames, flags and continuations. |
| `Future.RunKeepsInv` | include/future.hpp:23-48 | So does every interleaving of any length. |
| `Future.AwaitKeepsInv` | include/future.hpp:130-138 | Awaiting resumes the child nested on the same thread and keeps the invariant. |
| `Future.ExchangeAwaitKeepsInv` | include/future.hpp:41-44 | The awaiter's exchange does, whether it suspends or goes on. |
| `Future.ExchangeFinalKeepsInv` | include/future.hpp:26-32 | The completer's exchange does, on whatever thread it happens. |
| `Future.ResumeKeepsInv` | include/future.hpp:29-31 | Resuming the continuation does; the finished frame is not used again. |
| `Future.DestroyKeepsInv` | include/future.hpp:144-148 | Destroying a future keeps it whenever its owner is running or gone. |
| `Future.OthersUntouched` | include/future.hpp:126-138 | A step changes no frame outside the set of those it touches. |
| `Future.NoUseAfterDestroy` | include/future.hpp:126-138 | In every run no step touches a destroyed frame. |
| `Future.OnlyIdleFramesGo` | include/future.hpp:130-148 | What is destroyed or awaited has never been started or has finished: no thread is inside it. |
| `Future.ResumedOnce` | include/future.hpp:23-48 | A continuation runs at most once, only after the result is stored, and has run if and only if both sides have exchanged the flag and the completer is not just about to resume it. |
| `Future.StoresWhatItReturned` | include/future.hpp:62-68 | In every run a frame holds an outcome if and only if its own coroutine returned or threw it in that run. |
| `Future.ReceivesChildsResult` | include/future.hpp:161-172 | Every value or exception an awaiter got is one a child of its own returned or threw. |
| `Future.EveryResultArrives` | include/future.hpp:161-172 | Once a continuation has been resumed, its frame has the child's outcome or reads it as its next step. |
| `Future.ResultIsThere` | include/future.hpp:87-92 | Reading a result never finds it missing. |
| `Future.NoLostWakeup` | include/future.hpp:23-48 | When all threads are idle and nothing outside is pending, no frame waits, every awaited one resumed its owner exactly once, and the owner has its outcome. |
| `Future.MeetingsHappen` | include/future.hpp:23-48 | The three ways the two sides can meet all occur: inside the await, after it, and between its two steps on another thread; each delivers the outcome. |
| `Future.NeverStuck` | include/future.hpp:23-48 | A thread inside a frame can always take its next step there. |
| `Ring.NextKeepsLinear` | include/io_context.hpp:182-201 | Submitting, entering the kernel, completing and reaping each keep every operation in exactly one place with its own answer. |
| `Ring.RunKeepsLinear` | include/io_context.hpp:250-264 | So does every run. |
| `Ring.HeldOnce` | include/io_context.hpp:182-201 | In every run each started operation is in the submission queue, in flight, in the completion queue or resumed, in one of them and once. |
| `Ring.OwnResult` | include/io_context.hpp:254-264 | In every run each resumed coroutine got what the kernel completed its own operation with. |
| `Ring.ResumedOnce` | include/io_context.hpp:254-264 | No coroutine is resumed twice. |
| `Ring.InFlightIsNew` | include/io_context.hpp:182-201 | An operation in flight was neither completed nor resumed before. |
| `Ring.TimeoutKeepsLinear` | include/io_context.hpp:290-297 | The bare timeout of the wait disturbs no operation. |
| `Ring.HandedMeans` | include/io_context.hpp:182-201 | An operation no longer waiting for submission is with the kernel, completed or resumed, in one of these and once. |
| `Ring.NextOnward` | include/io_context.hpp:250-297 | No step takes an operation back. |
| `Ring.NeverStuck` | include/io_context.hpp:182-201 | From every state, whatever its answer is to be, a started operation can still be resumed. |
| `TaskQueues.OldestFirst` | include/io_context.hpp:326-349 | Executing a task keeps posting order if and only if it is the oldest of the swapped-out batch. |
| `TaskQueues.Conserved` | include/io_context.hpp:326-349 | With no batch swapped out, what was posted is what ran followed by what waits, in order. |
| `TaskQueues.RoundServed` | include/io_context.hpp:266-269 | Draining the three queues in turn serves everything posted to each before the round, whatever joins meanwhile. |
| `IoContext.Context.Post` | include/io_context.hpp:110-116 | The context takes on this task once more and disturbs nothing; it never runs it now, and a foreign thread never touches the unlocked local queue. |
| `IoContext.Context.Dispatch` | include/io_context.hpp:120-127 | The task is taken on once: executed now by the bound thread, or queued without any execution by another. |
| `IoContext.Context.Schedule` | include/io_context.hpp:132-144 | A coroutine that goes on is on the bound thread; any other is taken on once and waits, with nothing executed. |
| `IoContext.Context.CoSpawn` | include/io_context.hpp:147-155 | The coroutine is taken on once: started now by the bound thread, or left to it. |
| `IoContext.Context.SubmitIo` | include/io_context.hpp:187-197 | Awaiting I/O on the bound thread adds one fresh operation and keeps every operation in one place. |
| `IoContext.Context.ReapOne` | include/io_context.hpp:256-264 | The oldest completion resumes its own coroutine with its result on the bound thread; a timeout runs nobody. |
| `IoContext.Context.ForEachCqe` | include/io_context.hpp:351-361 | Resumes, oldest first and with its result, the coroutine of every completion ready at the start or arriving meanwhile; it ends and leaves none behind. |
| `IoContext.Context.Drain` | include/io_context.hpp:333-335 | A swapped-out batch is executed task by task, whole and in order even if a task asks to stop, on the bound thread; what it posts stays queued. |
| `IoContext.Context.Resolve` | include/io_context.hpp:311-349 | With other threads posting around the unlocked test, everything posted to the list before the call has run, each task once and in order; the local list runs exactly that and not what its tasks post; the count is what ran. |
| `IoContext.Context.RunOnce` | include/io_context.hpp:250-272 | One round runs all that was queued in three lists and resumes all that was ready, in order, on the bound thread; its count is exact. |
| `IoContext.Context.Submit` | include/io_context.hpp:290-297 | Everything waiting goes to the kernel together with one timeout, no completion is lost, and posts that arrive during the wait join their queues. |
| `IoContext.Context.Loop` | include/io_context.hpp:274-288 | Refuses other threads; otherwise goes round until its limit or until a stop was requested since it cleared the flag. Everything queued or ready at the start is served in the first round, and after any round all I/O started so far has been handed to the kernel. |
| `TaskQueues.ServedAccounts` | include/io_context.hpp:250-272 | After a round everything the context had been given before it has been executed. |
| `IoContext.Life` | include/io_context.hpp:88-155 | From construction on, for any list of calls from any threads: every execution, queued, immediate or resumed from I/O, was on the bound thread; each queue's posted tasks are those executed, once and in order, followed by those waiting; all that was handed in was taken on. What was handed in before a run that made a round has been executed, and the I/O started before it is with the kernel, completed or resumed, once. A run on the bound thread that falls short of its limit was asked to stop. |
| `WhenAll.NextKeepsInv` | include/details/await_counter.hpp:15-42 | Starting, finishing and awaiting keep the counter equal to the unfinished tasks and the continuation registered exactly while waiting for one. |
| `WhenAll.CountsDown` | include/when_all.hpp:67-109 | For any number of tasks and any order, including completion during start, the counter is what is left and never wraps, and the parent goes on at most once and only after all are done. |
| `WhenAll.NoLostWakeup` | include/details/await_counter.hpp:17-38 | A waiting parent always has an unfinished task. |
| `WhenAll.EveryRunEnds` | include/when_all.hpp:67-109 | A run for n tasks has at most 2n + 1 steps, and the parent has gone on if and only if all of them were taken. |
| `WhenAll.NeverStuck` | include/when_all.hpp:67-109 | As long as the parent has not gone on, some step can be taken. |
| `WhenAll.MayEndAnyTime` | include/when_all.hpp:94-100 | A started task may end at any moment, also while others are still to be started. |
| `WhenAll.AllAtOnce` | include/when_all.hpp:94-102 | If all tasks end inside their start, for any number of them, the parent goes on without suspending. |
| `WhenAll.ResultBelongs` | include/details/task_with_callback.hpp:43-51 | Slot i holds what task i ended with, from the moment it ends. |
| `WhenAll.Collect` | include/when_all.hpp:45-53 | All values in order if no task with a value threw, and otherwise the exception of the lowest such index; void tasks never rethrow. |
| `WhenAll.Gather` | include/when_all.hpp:102-108 | After any run that let the parent go on, value i is what task i finished with, the only way it finished, or the exception is that of the lowest task with a value that threw. |

## Left out

- The protocols of `future` and `when_all` are state machines on values, one step per atomic action, and not classes: destruction appears as a phase of a frame and not as freed memory.
- Weak memory orders, and data races on the queues: an enqueue by `post` or `dispatch` is one atomic step, although the lock guard there is an unnamed temporary.
- `awaitable_counter` shared by several threads: checking the count and storing the continuation are one step, as on a single thread.
- IoContext.Context.Loop: shows the first `limit` rounds for any limit, because the source's loop need not end; the binding of a context to its thread never changes, and `poll` and `stop_token` are not modelled.
- IoContext.Context.Submit: does not say that a completion is ready afterwards, because the wait may be interrupted.
- IoContext.Context.ForEachCqe: the kernel takes submissions only in `nonpoll_submit`, so SQPOLL mode is not covered, nor is a full submission queue.
- IoContext.Context.Dispatch: what a task run at once does is part of its caller's further actions and not a nested call.
- HttpExchange.Exchange: covers the first request of a client; a later one would start from unread bytes and from the length left by the request before it. Resolving, connecting and sending are not modelled. The reply's header list is missing, because the spans the client copies point into the head string, which is gone by then (`include/http/httpclient.hpp` lines 103-104 and 131-140); streams of 2^62 bytes or more are not described.
- HttpExchange.GetHeaderValue: letter case is that of ASCII; bytes above 127 are compared as they are.
- ChunkedDecoder.InPlaceDecoder.DecodeChunked: calls after completion or an error are not described; the decoder is used again only while it returns -2.
- HeadParser.ParseHeaders: array slots between the count and the limit keep no promise.
- HeadParser.ParseRequestEntry: only `last_len` 0, because with another value the code parses from the middle of the buffer.
- RequestMessage.BuildMsg: takes the user's headers in any order, so the key order of `std::map` is not used.
- The 32-bit `int` conversions of consumed lengths and of `pbump` and `gbump`, and exhaustion of memory. The largest string is taken as 2^63 - 1 bytes; no length that fits an `int` comes near any implementation's limit.
- `url::parse`: splits a URL into the parts `build_msg` prints; those parts are arbitrary byte strings here.
- `phr_parse_headers`: the header loop proved here without a start line before it.
- `phr_decode_chunked_is_in_data`: a test of the decoder's phase.
- liburing, sockets, files, DNS, and the combinators `generator`, `just`, `fmap`, `flat_map`, `result` and `time_delay`.
