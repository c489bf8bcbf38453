# bursthttp, modelled and verified in Dafny

bursthttp is an HTTP/1.1 client. This project models the parts of it that are hard to get right and proves what
they promise, for every input, every interleaving and every way the network cuts a byte stream.

How the project is laid out:

- `Bytes`, `Scan`, `Headers`, `Source`, `Response`, `Chunked`, `ChunkReader`, `Reader`, `ReadResponse`: the response
  parser. The two readers are imperative, over a transport that hands out the stream in arbitrary pieces and then
  fails. Each is proved against one description of what a stream means (`Reader.ParseMessage`), and the descriptions
  against independent ones: an encoder for chunked bodies (`ChunkCoding`), header blocks built from lines (`Blocks`,
  `LineSearch`), whole messages (`Messages`), and what each status, length and encoding means for the caller
  (`Framing`). `Samples` holds the concrete inputs.
- `Pipeline` and the eight modules named after it: one epoch of a pipelined connection, from connecting to the end of
  `closeConn`, as a state machine. Callers, the response reader and `closeConn` take atomic steps in any order. The
  reader's parse step is `Reader.ParseMessage`, so FIFO delivery is proved end to end, from bytes to callers.
  `PipelineProgress` shows that every run comes to rest with every written request answered, `PipelineClosing` what
  closes a connection and what follows, `PipelineLeaving` what becomes of a Response whose caller left;
  `PipelineDesync` is a run in which FIFO order is lost.
- `PoolAccounting`, `PoolSelection`, `Claims`: the connection pool under compare-and-swap races, the selection loops,
  and the claim flag of sequential connections.
- `Encoder`, `Requests`, `RoundTrip`, `RequestLines`: the three request encoders, each with its own sequence of writes,
  `SetHeader`, and encode-then-parse, headers and request line.
- `RateLimit`, `Health`, `Dns`, `Retry`, `Client`: the token bucket, health and depth tuning, the DNS cache, the retry
  policy, and the retry loop with the fate of every Response it acquires.

Conventions. A `byte` is an integer below 256. Go's 64-bit and 32-bit wrap-around is written out where a value can
reach it. A read that would panic in Go is the outcome `SlicePanic`. Gzip is a function parameter; clocks, random draws,
resolver answers and cancellations are parameters or actions. Floating point is modelled over `real`.

## What the code does that its description does not say

Each item names a lemma at a concrete input or run first, and then the lemma with the exact condition.

- A body buffer that grows after the first chunk is stored loses what it held: 65537 bytes in two chunks come back with
  the first 65536 zeroed (`GrowthLosesData`; exactly when: `DecodedBodyExactly`).
- A Content-Length body cut off by EOF after its first byte is EOF for one reader and an unexpected EOF for the other
  (`ShortBodyErrors`; `CompareReaders`, `ReadersAgree`).
- The two readers treat a body limit that is not positive differently (`ZeroLimitDiffers`; `ReadersAgree`).
  `NewConnection` never passes one.
- A header with an empty value is visible to `HeaderBytes` and invisible to `HeaderValues` (`EmptyHeaderSeenOnce`;
  `ZeroCopyAgrees`).
- A chunked body refused for its size is reported with a status and stays in the stream of a pipelined connection that
  goes on, so the next request receives a part of it (`RefusedBodyBreaksOrder`, `LargeChunkCarries` at the default
  limit; `NextReadStarts`, `ReadKeepsOrder`). A Content-Length above the limit closes the connection instead
  (`DoomedStays`).
- After `closeConn` has swept the queue, a caller can release a Response that the reader is still reading into
  (`ReleasedWhileRead`; `UseAfterReleaseExactly`).
- A caller whose context ends just after the reader looked at its cancelled flag leaves its Response in a channel nobody
  reads, never released (`LeftTooLate`, `LeftForGood`; `LeftReleasedExactly`).
- A method or target with a blank in it is sent as it is, and then the words of the request line are others
  (`RequestLineComesBack`).
- A Content-Length header added by the caller is read instead of the one the encoder writes (`UserLengthWins`;
  `HeadAnnouncesLength`).
- A connection dialed while the pool is stopped is neither listed nor stopped (`ConnectionLost`;
  `EveryConnectionAccounted`).
- A user that reaches a sequential connection without a claim overlaps a claimed request (`UnclaimedUserOverlaps`;
  `OneAtATime`). An abandoned claim leaves `activeReqs` at 1 until a user comes without a claim and consumes it
  (`AbandonedClaimLeft`; `LeftOverUntilEntered`, `EntrantConsumesClaim`).
- A pipeline limit of 2147483647 overflows on the first fast answer (`DepthOverflows`; `DepthBounded`).
- A connection with a measured latency reports score 0 until its first window of 50 requests closes
  (`OneSuccessScoresZero`; `FirstWindowScore`).
- A forced DNS refresh stores a good list while callers are still refused for an earlier failure
  (`RefusedAfterRefresh`; `ForcedListServes`).
- A path that holds a line end is sent as it is and can come back as one more header (`BrokenPathAddsHeader`;
  `HeadParsesExactly`).
- A Retry-After of 9223372037 seconds wraps to a negative duration and the client retries at once (`HintWraps`;
  `HintHonoured`).

The limit per host that is enforced, and that `PoolAccounted` is stated for, is `MaxIdleConnsPerHost` when it is
positive (pool.go:226-233); `PoolSize`, documented as the limit, applies only otherwise.

## Model

| member | source | states |
|---|---|---|
| Scan.FindHeaderEnd | parser.go:428-443 | the scan that jumps over CR LF pairs finds what the naive search for the first CR LF CR LF finds, or -1 |
| Scan.HeaderEndPrefix | parser.go:428-443 | once a block is complete, more bytes cannot move its end, and a prefix that covers it gives the same end |
| Scan.ParseStatusCode | parser.go:445-468 | the three digits after the first run of blanks, in 100 to 599, or failure, for every buffer |
| Scan.ParseContentLength | parser.go:470-516 | the value after the first content-length: in any letter case, digits with blanks skipped, wrapped to 64 bits; failure on any other byte or no digit |
| Scan.BlanksSkipped | parser.go:495-513 | spaces and tabs between the digits of a length change nothing |
| Scan.LengthBytes | parser.go:495-513 | a length is read exactly when the value has a digit and nothing but digits, spaces and tabs |
| Scan.ParseTransferEncoding | parser.go:518-555 | true exactly when some transfer-encoding: line holds the word chunked in any letter case, although the scan skips to the end of each rejected line |
| Scan.SkippedMatchesAreRejected | parser.go:541-553 | an occurrence inside a line that was just rejected would be rejected too, so skipping it is safe |
| Scan.ContainsChunked | parser.go:557-579 | whether a value contains chunked in any letter case |
| Headers.ParseHeaders | parser.go:653-717 | the header list is the trimmed fields of the lines up to the blank line, in order, without fields that have an empty name or value; untouched when there is no second line |
| Headers.TabsAreTrimmed | parser.go:653-717 | spaces and tabs are trimmed on both sides of a value |
| Headers.HeaderBytesFromRaw | parser.go:581-651 | the zero-copy lookup returns the value of the first field with that name in any letter case, or nothing |
| Headers.HeaderValues | response.go:116-125 | all values of a name in any letter case, in order |
| Headers.EqualFoldLoop | response.go:140-157 | equality up to ASCII case, length included |
| Headers.FoldsTogether | response.go:140-157 | two bytes count as equal exactly when they are the same or the two cases of one letter from A to Z |
| Headers.ValuesByIndex | response.go:116-125 | the values of a name are those of the fields at exactly the indices with that name, in increasing order |
| Headers.IsConnectionClose | response.go:131-138 | true exactly when some header is Connection with the value close, in any letter case |
| Headers.ZeroCopyAgrees | parser.go:581-717 | for every block with a first line and every non-empty key, the zero-copy lookup equals the first entry of the parsed list if and only if the first line of that name in the block, if any, does not have an empty value |
| Samples.EmptyHeaderSeenOnce | parser.go:707-709 | for a block with the line "X: " the zero-copy lookup finds an empty value and the parsed list has no X |
| Responses.GrownSize | response.go:45-74 | growth fails exactly when the size limit is positive and below the request; otherwise the buffer covers the request and never shrinks |
| Responses.GrowthDoubles | response.go:45-74 | a buffer that grows at least doubles, in whole units of 4 KiB below 1 MiB and 64 KiB from there on with less than one to spare, or has the size of the limit |
| Responses.Response.EnsureBufferSize | response.go:45-74 | a buffer that is large enough is kept; one that grows is replaced by zeroed memory and nothing is copied |
| Responses.Response.Reset | response.go:89-96 | everything but the buffer is cleared |
| Source.ByteSource.Fill | parser.go:97-111 | reads in pieces until the range is full; the bytes are the next ones of the stream, and a failure is the one of the transport |
| Source.ByteSource.ReadFull | parser.go:386-388 | the same through io.ReadFull, where EOF after the first byte becomes an unexpected EOF |
| ChunkReader.Cursor.ReadLine | parser.go:136-173 | the line reader keeps at most 64 bytes, drops a final CR, and consumes through the first LF, whether bytes come from the header buffer or the transport |
| ChunkReader.Cursor.ReadExact | parser.go:175-194 | fills the range with the next bytes of leftover then transport, or reports the transport's failure |
| ChunkReader.SkipTrailers | parser.go:217-226 | consumes trailer lines through the first empty one |
| ChunkReader.ReadChunk | parser.go:228-241 | one chunk: limits, growth, data and line end, as the description of the coding says |
| ChunkReader.ReadChunkedBody | parser.go:126-247 | for any leftover and any cutting of the stream, error or body, length, buffer size and remaining stream are those of decoding leftover plus stream |
| ChunkCoding.SizeLineValue | parser.go:154-215 | extensions and the 64-byte clip never change the size read, for sizes below 2^63 |
| ChunkCoding.SizesComeBack | parser.go:200-215 | a size written in hexadecimal, in either case and with or without a plus sign, is read back exactly when it is below 2^63; with a minus sign only zero is |
| ChunkCoding.ClippedAt64 | parser.go:136-173 | a line of 64 bytes or more is cut to 64, less a final CR, and consumed whole |
| ChunkCoding.LineEndIgnored | parser.go:228-241 | whatever stands between the data of a chunk and the next LF is dropped unread |
| ChunkCoding.TrailersMayBeCut | parser.go:217-226 | a body is complete after its last size line even if the stream ends inside the trailers |
| ChunkCoding.DecodeEncoded | parser.go:126-247 | decoding an encoded list of chunks with extensions and trailers stores the chunks in order and stops exactly after the final blank line, whatever follows |
| ChunkCoding.DecodeOverruns | parser.go:228-236 | a valid body that exceeds a limit is given up at its first chunk that does, with that error, and the data of that chunk and everything after it stay in the stream |
| ChunkCoding.StoreAllWipes | response.go:45-74 | the stored bytes are the concatenation with everything below the last growth zeroed |
| ChunkCoding.DecodedBodyExactly | parser.go:228-241 | the body is the concatenation of the chunks if and only if the bytes below the last growth were zero, in particular when nothing grows once data is stored |
| ChunkCoding.RoomyBufferKeepsAll | response.go:45-74 | a buffer that holds the whole body never grows, so nothing is lost |
| ChunkCoding.GrowthLosesData | response.go:45-74 | decoding a chunk of 65536 bytes and one of 1 byte into the 65536-byte buffer the client hands out, under any limits that allow 65537 bytes, succeeds and gives 65536 zeros and the last byte |
| Reader.DecompressBody | parser.go:392-426 | a decompressed body replaces the body, is cut to the buffer when growth is forbidden, and a corrupt one is an error; what that means for the caller is in `Framing.CallerGets` |
| Framing.StatusLineReads | parser.go:445-468 | a status from 100 to 599 written out after HTTP/, any version and any blanks is read back, for every status, unless the whole is shorter than twelve bytes |
| Framing.StatusLineIs | parser.go:445-468 | and nothing else is read as a status |
| Framing.NoBodyRead | parser.go:48-54 | a response to HEAD and one with status 204, 304 or 101 is complete after its header block, whatever the block announces and whatever follows |
| Framing.BodyRead | parser.go:48-124 | every other response, 1xx included, has the body its block announces: chunked first, then Content-Length with every limit and cut-off case of both readers, then up to the end of the stream |
| Framing.HeaderFails | parser.go:12-40 | a block that does not end within the buffer is too large once the buffer is full, and the failure of the stream otherwise |
| Framing.CallerGets | parser.go:392-426 | a body that is not empty reaches the caller as read when it is not compressed, as what it expands to when it is, cut to the buffer when there is no room, or as an error with the status kept; anything else is reported as read |
| Samples.LengthsWithoutBody | parser.go:48-54 | Content-Length: 5 in the answer to HEAD, in a 304 and in a 204 announces no body: the next bytes stay in the stream |
| ReadResponse.FillHeader | parser.go:12-40 | reads until a blank line is in the buffer; finds the first one of the whole stream, or fails exactly when it does not fit the buffer |
| ReadResponse.FillHeaderByByte | parser.go:317-334 | stops exactly after the first blank line of the stream, or fails exactly when it does not fit |
| ReadResponse.ReadFixed | parser.go:68-124 | a Content-Length body made of leftover and reads is the next bytes of the stream, with every limit and failure case |
| ReadResponse.ReadSequential | parser.go:12-124 | status, headers, body and error depend only on the stream, not on how it was cut into reads |
| ReadResponse.ReadAndDecompress | connection.go:849-873 | the same after decompression; the response object holds the body read, or what it expands to, cut to the buffer when there is no room, or an error comes back |
| ReadResponse.ReadBuffered | parser.go:315-390 | the same description for the buffered reader, unexpected EOF included; it leaves the stream exactly where the description says, after a failure too; the response object holds the body, expanded when it is compressed |
| ReadResponse.CompareReaders | parser.go:315-390 | over the same bytes cut in any two ways, with equal buffers and a limit that is positive or respected: the same status and headers, success together and then with the same body, and the same error if and only if the body is not cut off by EOF after its first byte |
| ReadResponse.ReadersAgree | parser.go:68-124 | the two readers report the same on a stream if and only if the body limit is positive or the announced length respects it, and a Content-Length body is not cut off by EOF after its first byte |
| ReadResponse.CutOffReports | parser.go:386-388 | in the cut-off case the one reader reports EOF and the other an unexpected EOF, with the same status and headers |
| Samples.ShortBodyErrors | parser.go:386-388 | that case at Content-Length: 5 followed by abc and EOF |
| Samples.ZeroLimitDiffers | parser.go:68-70 | with limit 0 a five-byte body is refused without a status by one reader and read with status 200 and its five bytes by the other |
| Messages.MessageRead | parser.go:315-390 | one read of a well-formed message gives that message and leaves the stream exactly at what follows |
| Messages.StreamRead | parser.go:315-390 | n reads on the concatenation of n well-formed messages give the n separate parses in order, each stopping exactly at its own end, also when a body does not decompress |
| Messages.CompleteRead | parser.go:315-390 | one read of any complete message, with or without room for it, reports what the message alone would give and leaves what that leaves, in front of what follows |
| Messages.PlaceKept | parser.go:315-390 | a read of a complete message leaves the stream at its end if and only if the limits and the buffer leave room for its body, whether or not it decompresses; it reports a status and leaves the stream elsewhere if and only if the body is refused after the status was set |
| PipelineSafety.RunsAreSafe | connection.go:476-568 | in every run the requests written are those served, then those queued, then those swept, in write order without duplicates; only the lock holder writes; the reader works on the first unserved request; and until the sweep activeReqs counts what the epoch inherited, the queue, the active writer and the request being counted off |
| PipelineFifo.RunsAreFifo | connection.go:901-1049 | in every run each read starts where the one before it stopped, read k was made for request k of the wire, reads run at most one ahead of removals, and deliveries carry the recorded parses |
| PipelineFifo.FifoDelivery | connection.go:901-1049 | for every interleaving of writers, reader, cancellations and closes, as long as no message before the k-th is refused after its status was set, the k-th request written gets the k-th message or nothing, parsed as if it were alone and with a status; nothing else is delivered until a read that has reported a status times out or meets a body without framing |
| PipelineFifo.ReadKeepsOrder | connection.go:957-986 | in every run, under the same condition, read k starts at message k; it ends at message k + 1 if and only if there is room for message k; it reports a status and ends elsewhere if and only if message k is refused after its status was set; without a status it is the last read |
| PipelineFifo.NextReadStarts | connection.go:969-986 | exactly when a later request reads bytes that are not its own: the read after read k starts inside message k if and only if message k is refused after its status was set |
| PipelineFifo.DoomedStays | connection.go:987-1023 | once the reader has met a reason to end, in any continuation of the run nothing more is read or delivered |
| PipelineDesync.RefusedBodyBreaksOrder | connection.go:969-986 | for every limit, every chunk above it whose data begins with a response, and every continuation of the stream: a run in which request 0 gets a failed response and request 1 gets the response inside the body of message 0 |
| PipelineDesync.LargeChunkCarries | config.go:113 | there is such a chunk one byte above the default limit of 10 MiB |
| PipelineOwnership.OwnershipSafe | connection.go:557-567 | in every run each Response is released at most once; a returned one is never released and never in the reader's hand; a transferred one is released only by the reader |
| PipelineOwnership.TakenOnce | connection.go:557-567 | in every run a caller that has its response was sent it by the reader, and its channel is empty |
| PipelineOwnership.NoStrandedCaller | connection.go:729-757 | once the queue is swept, every request ever written has an outcome, was cancelled, or is the one the reader is about to answer |
| PipelineOwnership.NothingAfterSweep | connection.go:527-555 | nothing is written or queued after the sweep, in any continuation of the run |
| PipelineOwnership.NoLostWakeup | connection.go:912-930 | while requests are queued and the reader is parked, its signal is pending or about to be sent, and a live epoch with written requests has a reader |
| PipelineProgress.RunsAreBounded | connection.go:476-1049 | in every run callers, reader and closeConn together take at most 26 steps for each caller that arrives and 12 more |
| PipelineProgress.NeverStuck | connection.go:729-757 | in every reachable state with a written request that has no outcome, the lock holder, a caller about to signal, the reader or closeConn can take a step by itself |
| PipelineProgress.EveryScheduleAnswers | connection.go:901-1049 | from every reachable state, whatever order the goroutines move in by themselves, they stop after a bounded number of steps, and not before every written request has its outcome |
| PipelineProgress.CanBeAnswered | connection.go:901-1049 | from every reachable state there is a finite schedule of such steps that answers a given written request |
| PipelineUse.UseAfterReleaseExactly | connection.go:919-1049 | in every run the Response the reader works on has been released if and only if its request was swept by closeConn and its caller took that error and released |
| PipelineUse.ReleasedWhileRead | connection.go:729-757 | a run in which the caller takes the sweep's error and releases while the reader is still parsing into the Response |
| PipelineClosing.CloseHeaderEnds | connection.go:969-1045 | the reader goes on after a response exactly when it has a status and no Connection: close header; otherwise nothing more is read or delivered in any continuation |
| PipelineClosing.ClosedExactly | connection.go:729-757 | at rest closeConn has run to its end and the reader has ended if and only if it was called from outside, a write failed, or the reader met a response without a status or with Connection: close; otherwise the connection is open and the reader waits |
| PipelineClosing.NoWriteBegins | connection.go:526-538 | once closeConn has begun no write begins: at most the one under way ends, in any continuation |
| PipelineClosing.NoReadBegins | connection.go:925-930 | nor does a read begin |
| PipelineClosing.LateReaderLeaves | connection.go:901-910 | a reader that starts after the socket was dropped leaves without waiting, reading or taking the wake-up token, in any continuation |
| PipelineLeaving.NothingLeftBehind | connection.go:962-1049 | at rest nothing is queued, and the Response of a caller that left was released by the reader or is, or its error is, in a channel |
| PipelineLeaving.LeftInTime | connection.go:962-1049 | a caller that left before the reader looked at its cancelled flag: its response is never sent, in any continuation, and at rest it has been released unless closeConn failed the request |
| PipelineLeaving.LeftReleasedExactly | connection.go:557-567 | at rest the Response of a caller that left has been released, once, if and only if the reader found the cancelled flag set after reading |
| PipelineLeaving.LeftTooLate | connection.go:962-980 | for every first response with a status there is a run in which the caller leaves between that look and the delivery, and its Response is in the channel unreleased |
| PipelineLeaving.LeftForGood | connection.go:962-980 | and in no continuation is it taken or released |
| PoolAccounting.PoolAccounted | pool.go:317-368 | in every interleaving of the compare-and-swap loops activeCount and idleCount equal the listed connections plus what goroutines still owe, plus what Stop took out; activeCount stays in 0 to maxIdle; the list has no duplicates |
| PoolAccounting.RemovedStaysOut | pool.go:317-368 | a removed connection never reappears and is stopped or about to be, in any continuation of the run |
| PoolAccounting.EveryConnectionAccounted | pool.go:513-551 | in every interleaving a dialed connection was given up because Stop had swapped the list out if and only if it is not listed, not with the goroutine that dialed it, not stopped and not about to be |
| PoolAccounting.LostForGood | pool.go:533-538 | such a connection is never listed or stopped in any continuation of the run |
| PoolAccounting.ConnectionLost | pool.go:533-538 | a run in which a connection is dialed and then neither listed nor stopped |
| PoolSelection.SlotCovers | pool.go:392-394 | stepping from any start index visits every slot of the list |
| PoolSelection.ScanWindow | pool.go:387-411 | nothing is found exactly when no connection of the window accepts; otherwise the best score of the window |
| PoolSelection.PerfectIsBest | pool.go:402-410 | stopping at a score of 100 loses nothing, as no score exceeds it |
| PoolSelection.ScanRest | pool.go:432-459 | past the window, nothing is found exactly when nobody accepts |
| PoolSelection.WindowIs | pool.go:387-394 | the scan window is the sixteen slots from the start index on, around the end of the list |
| PoolSelection.HostPool.RemoveUnhealthy | pool.go:317-368 | the list loses exactly the given connections, both counters drop by as many, and those connections are stopped |
| PoolSelection.HostPool.Claim | pool.go:420-427 | succeeds exactly when the connection is pipelined or has no active request; then a sequential one gets one active request and the claim flag; otherwise, and for a pipelined one, nothing changes |
| PoolSelection.HostPool.GetIdle | pool.go:370-461 | without interference, null exactly when no listed connection is healthy, not stopped and below its depth or without a request; otherwise one that is, with the best score of the scan window if the window has any; the index moves just past it; healthy connections stay listed; terminates because each rescan shrinks the list |
| PoolSelection.FirstHealthy | pool.go:474-501 | finds a healthy connection, or none of the up to eight slots scanned is healthy and there are broken ones to remove |
| PoolSelection.HostPool.GetAny | pool.go:463-511 | null exactly when no listed connection is healthy and not stopped; healthy ones stay untouched; terminates by the same measure |
| Claims.RunsAreAccounted | connection.go:359-363 | in every run activeReqs equals running requests plus the at most one unconsumed claim |
| Claims.BackToZero | connection.go:359-363 | when all requests are over the counter is 0 if and only if no claim is left, and a claim is left only by a user that never ran |
| Claims.AbandonedClaimLeft | pool.go:420-430 | a run in which a claimant never runs: the counter stands at 1, nobody is on the connection and nobody can claim it |
| Claims.LeftOverUntilEntered | connection.go:359-363 | over any continuation, such a claim and the 1 in the counter stay exactly until a user enters; up to then nobody can claim |
| Claims.EntrantConsumesClaim | connection.go:359-363 | the first to enter came without a claim, consumes the one left over without adding to the counter, and leaves it at 0 |
| Claims.ClaimCanBeConsumed | connection.go:359-363 | from every such state there is a continuation that brings the counter back to 0 |
| Claims.OneAtATime | pool.go:420-430 | if every user comes through getIdleConnection, no two requests run at once |
| Claims.UnclaimedUserOverlaps | connection.go:359-363 | a user without a claim runs beside a claimed one |
| Encoder.PartsAgree | writer.go:78-242 | the bytes of part 1, header block and part 3, described from their own writes, are the bytes of writeRequest if and only if proxy auth is empty or the proxy is a forward proxy |
| Encoder.PrefixAgrees | writer.go:7-76 | header prefix and length line are the bytes of writeRequest if and only if no continue is expected or the body is not empty |
| Encoder.Out.Put | writer.go:244-269 | all or nothing: appended when it fits, nothing changed otherwise |
| Encoder.Out.PutInt | writer.go:271-321 | appends the decimal digits of a non-negative number, by hand up to four digits and through a 20-byte buffer above, and refuses a negative one |
| Encoder.WriteRequest | writer.go:78-168 | its own sequence of writes succeeds exactly when the whole head fits, and then the buffer holds exactly the description of the head, which `RequestLines` and `RoundTrip` read back |
| Encoder.WriteHeaderPrefix | writer.go:7-76 | the same for the reusable prefix and its own sequence of writes |
| Encoder.WritePart1 | writer.go:170-223 | the same for the first part and its own sequence of writes |
| RequestLines.HeadBegins | writer.go:78-131 | the bytes of all three encoders begin with the method or GET, a space, the path of the URL, else the path, else /, as a whole URL for a forward proxy, HTTP/1.1, and Host: with the host and the port unless it is the default |
| RequestLines.RequestLineComesBack | request.go:260-268 | the first two words of an encoded head, whatever follows it, are the method and the target if and only if neither holds a blank |
| RequestLines.UrlPathIsSent | request.go:260-268 | a request whose URL has the path /x asks for /x |
| RequestLines.HostNamed | writer.go:105-124 | the value of the Host header that is read back is the host, with a colon and the port unless it is 443 for TLS, 80 otherwise, or not positive |
| Encoder.WritePart3 | writer.go:225-242 | the same for the last part |
| Encoder.SendParts | connection.go:806-847 | what reaches the wire is writeRequest's head and the body exactly when proxy auth exists only for forward proxies; nothing is sent when a part does not fit |
| Encoder.SendPreEncoded | connection.go:788-804 | prefix, length line and body; the 64-byte line buffer is always enough |
| Requests.ContainsCrlf | request.go:165-172 | true exactly when byte 13 or byte 10 is in the string |
| Requests.HeaderBuffer.EnsureHeaderBufferSize | request.go:300-322 | growth keeps the headers, fails exactly above 1 MiB, and gives the size the rounding rule says |
| Requests.HeaderGrowthDoubles | request.go:300-322 | growth at least doubles the buffer, in whole units of 4 KiB with less than one to spare, and stops at 1 MiB |
| Requests.HeaderBuffer.SetHeader | request.go:175-200 | accepted exactly when neither name nor value holds CR or LF and the header fits the buffer or 1 MiB; then the buffer holds all headers added so far, rendered in order, through any growth |
| Requests.SetHeaders | request.go:175-200 | any sequence of SetHeader calls adds exactly the accepted headers, in order |
| Requests.HeaderBuffer.Reset | request.go:82-101 | no headers are left and the buffer is kept |
| Blocks.HeaderComesBack | parser.go:653-717 | a header added with SetHeader parses back to itself if and only if its name is non-empty, trimmed and colon-free and its value non-empty and trimmed |
| Blocks.AllComeBack | parser.go:653-717 | a list of headers parses back in order if and only if every one of them does |
| Blocks.BlockParses | parser.go:653-717 | a block of a first line and rendered headers, none with a line end inside, parses to what each header parses to alone, whatever follows |
| Blocks.AnyBlockParses | parser.go:653-717 | a block with any first line, line ends included, parses to the headers found behind the line ends of that line and then, unless a blank line cuts it short, to its own headers |
| Blocks.BlockEnds | parser.go:428-443 | the first blank line of such a block is the one that ends it |
| LineSearch.FoldInLine | parser.go:470-555 | a search for a header name in any letter case cannot match across a line end |
| LineSearch.LengthOfBlock | parser.go:470-516 | the length read from a block is what its first line that mentions content-length: says, and none if no line does |
| LineSearch.SilentBlockIsNotChunked | parser.go:518-555 | a block without a line that mentions transfer-encoding: is not chunked |
| LineSearch.ChunkedOfBlock | parser.go:518-555 | a block is chunked if and only if one of its lines holds transfer-encoding: and chunked behind it, in any letter case |
| RoundTrip.HeadIsRendered | writer.go:78-168 | the encoder writes the request line, the fixed headers, the caller's headers, proxy auth, expectation and length in that order, then a blank line |
| RoundTrip.HeadParses | writer.go:78-168 | parsing an encoded head, whatever follows it, gives exactly its headers in order if and only if each of them is plain, provided no value holds a line end |
| RoundTrip.HeadParsesExactly | writer.go:78-168 | the same without any condition on method and path: the headers come back if and only if all are plain and the start line brings no header along behind a line end, or a blank line cuts the start line short and it brings along exactly these |
| RoundTrip.BrokenPathAddsHeader | writer.go:78-168 | a path that holds a line end and a header comes back as that header, with the version at its end, in front of the others, if and only if all of them are plain |
| RoundTrip.HeadEnds | writer.go:78-168 | the first blank line of an encoded request is the end of its head |
| RoundTrip.DecimalValue | writer.go:271-321 | the digits written for n read back as n, for every n |
| RoundTrip.HeadAnnouncesLength | writer.go:161-168 | the length read back from an encoded head is that of the body, unless a line the caller chose mentions content-length: in any letter case, and then it is what the first such line says; equal to the body length if and only if there is no such line or it says so |
| RoundTrip.UserLengthWins | request.go:175-200 | after SetHeader("Content-Length", m) the length read back is m, whatever the body |
| RoundTrip.SetWriteParse | request.go:175-200 | any sequence of SetHeader calls, then writeRequest, then parseHeaders gives back the fixed headers and the accepted ones in order if and only if all of them are plain, provided method, path, host and proxy auth hold no line end |
| RateLimit.NewTokenBucket | ratelimit.go:17-27 | no bucket without a positive rate and burst; otherwise a full one at rps / 1e9 tokens per nanosecond |
| RateLimit.TokenBucket.PollOnce | ratelimit.go:31-47 | one critical section: the bucket after it, whether a token was taken, and the sleep otherwise |
| RateLimit.TokenBucket.Wait | ratelimit.go:29-55 | with other callers polling in between, passes at its first poll that finds a token; a cancelled caller has taken none |
| RateLimit.TokensConserved | ratelimit.go:32-45 | over any sequence of polls and any clock, grants plus tokens left plus overflow equal tokens at the start plus rate times the advance of lastTick |
| RateLimit.RunKeeps | ratelimit.go:32-45 | tokens stay between 0 and capacity and lastTick never goes back, on every run |
| RateLimit.RateRespected | ratelimit.go:29-55 | in any window of any run grants are at most capacity plus rate times the advance of lastTick, even when the clock steps back |
| RateLimit.RefusedOnlyWhenSpent | ratelimit.go:41-46 | a refusal means less than one token of the budget is left |
| RateLimit.SleepIsEnough | ratelimit.go:46-53 | the computed sleep is never too long, and too short by what the clock is behind the last refill, up to one nanosecond |
| Health.Tracker.constructor | connection.go:156-160 | a fresh connection starts at the configured depth, or 10 |
| Health.Tracker.RecordSuccess | connection.go:248-266 | average, window and depth after a success |
| Health.Tracker.RecordError | connection.go:298-304 | window after a failure |
| Health.Tracker.AdvanceWindow | connection.go:306-336 | counts the event and closes a window of 50 |
| Health.Tracker.TuneDepth | connection.go:268-296 | the new depth, 32-bit overflow included |
| Health.Tracker.ReportScore | connection.go:338-344 | a connection without a score or a latency reports 100 |
| Health.RunDescribed | connection.go:306-336 | on every run the counters are the average of the latencies, the position in the window, the failures since it opened, and the score of the last full window of exactly 50 events; the clamp at 0 never acts |
| Health.ScoreInRange | connection.go:312-335 | on every run the score is in 0 to 100 and errors never exceed the events of the window |
| Health.ScoreFalls | connection.go:312-335 | more latency or more errors never raise the score |
| Health.ScorePoints | connection.go:312-335 | one point off for every 10 ms above 50, up to 60, and 40 points off when all fifty requests fail |
| Health.FirstWindowScore | connection.go:338-344 | with fewer than 50 events the reported score is 100 if and only if the average is 0, and 0 otherwise |
| Health.OneSuccessScoresZero | connection.go:338-344 | one success of one nanosecond takes the reported score from 100 to 0 |
| Health.AverageWithinSamples | connection.go:252-261 | on every run the average lies within the range of the samples, despite the rounding shift |
| Health.EighthOfTheWay | connection.go:252-261 | a sample moves the average an eighth of the way, rounded down, and the first one sets it |
| Health.SteadySettles | connection.go:255-261 | under a steady latency the average ends within 7 ns below it, after at most as many samples as the gap has nanoseconds, and stays there |
| Health.DepthBounded | connection.go:268-296 | the depth stays between 1 and its limit on every run if and only if the limit is below 2147483647 |
| Health.DepthOverflows | connection.go:282-286 | at that limit one fast success takes the depth below 1 |
| Health.CappedAfterFast | connection.go:271-286 | after the first average below 10 ms the depth never exceeds 32 again |
| Health.DepthFollowsLatency | connection.go:281-295 | k slow answers lower the depth by k down to 1, k fast ones raise it by k up to the cap, others leave it |
| Health.DepthOfRun | connection.go:268-296 | on every run the depth is the configured one tuned by the averages after each success, in order, if tuning is on, and the configured one otherwise |
| Dns.RunsKeep | dns.go:55-188 | in every interleaving of lookups, refreshes, forced refreshes and evictions, table, entries and callers agree with the resolver calls made |
| Dns.SingleFlight | dns.go:87-111 | at most one caller is between registering and unregistering a lookup, the table holds exactly its lookup, and unregistering removes no other |
| Dns.NoStrandedWaiter | dns.go:87-98 | a waiter can wake, or some caller is still resolving the lookup it waits on |
| Dns.AnswersAreSourced | dns.go:55-133 | in every run, each answer has its source among the steps of the caller itself: a hit is an address of the list its own read found, stored by a resolver call less than ttl before; a refusal is the negative entry its own read found; otherwise it is the first address of the lookup it joined, or, if that one failed, the expired list its own read found, or, without one, the failure |
| Dns.OwnLookupDecides | dns.go:87-133 | conversely, a caller that joined lookup f and is done got exactly what f decides, as its leader or as a waiter, whatever others stored or evicted meanwhile |
| Dns.RefusedAfterRefresh | dns.go:175-188 | a run in which a forced refresh has stored a good list and the next caller is still refused for an earlier failure |
| Dns.NegativeExactly | dns.go:55-133 | in every run a live negative entry is there if and only if some failed lookup without a stale list was stored less than negativeTtl before and neither replaced, lifted nor evicted since |
| Dns.ForcedListServes | dns.go:175-188 | in every run, while the list of a forced refresh is cached and fresh, a caller is refused if and only if such a failure still stands; otherwise it gets one of the addresses of the refresh |
| Dns.HitsRotate | dns.go:67-79 | any run of as many consecutive hits as the list has addresses uses every position, and none twice, across background refreshes, if and only if the 32-bit counter does not wrap among them or the number of addresses divides 2^32 |
| Dns.RefreshesKeepRotation | dns.go:159-173 | over any stretch of any run in which nothing drops the entry and no caller's own answer replaces it, each hit takes the counter value after the one before it, through any number of background refreshes, whatever lists they bring |
| Dns.AnswerStartsOver | dns.go:125-132 | after any run, once a lookup stores its answer the next caller before the expiry gets its first address, whatever entry or failure was there before |
| Retry.NewRetryer | retry.go:21-37 | no retryer without a positive number of retries; otherwise the configured one with exactly the given status codes |
| Retry.ComputeBackoff | retry.go:52-64 | the multiplication loop computes base times multiplier to the attempt, capped, with jitter, cut to an integer |
| Retry.JitterRange | retry.go:60-62 | jitter keeps a delay between half of it and all of it |
| Retry.JitterReaches | retry.go:60-62 | and every delay from half of it up is drawn by some jitter |
| Retry.BackoffGrows | retry.go:52-64 | with a multiplier of at least 1 and no negative delays, backoff without jitter never shrinks from one attempt to a later one and starts at the base delay or the cap; with jitter it is at least half of any earlier one, up to a nanosecond |
| Retry.BackoffIs | retry.go:52-64 | with a whole multiplier and no jitter the backoff is the base delay times its powers, up to the cap |
| Retry.BackoffBounded | retry.go:52-64 | no backoff exceeds the largest delay, for any draw and any configuration |
| Retry.SleepBounded | retry.go:93-109 | nor does any planned sleep, for any Retry-After value |
| Retry.HintHonoured | retry.go:93-102 | a Retry-After of n seconds is honoured up to the cap if and only if it fits 64 bits or wraps to at least the cap |
| Retry.HintWraps | retry.go:119-123 | 9223372037 seconds give no sleep at all |
| Client.RunAttempt | client.go:246-316 | one attempt: whether the call goes on, how it ends, what the next wait is told, and how often the Response went back to the pool; `RetriesExactly`, `SleepAfter` and `OneFatePerResponse` say what these are |
| Client.RetriesExactly | retry.go:39-50 | an attempt is retried if and only if there is a retryer with retries left and the attempt ended in a retryable error, or in a status of the configured codes, with an error or not; never once the Response belongs to the connection |
| Client.SleepAfter | retry.go:93-109 | the wait after an attempt is the hint of a 429 up to the cap, nothing after a timeout or a connection error, and the backoff otherwise, never negative |
| Client.AdaptiveDelay | retry.go:93-109 | the planned sleep for what the last attempt left behind |
| Client.DoWithContext | client.go:215-322 | at most 1 + maxRetries attempts, every one but the last worth retrying: a retryable error or a configured status; it ends inside the loop, on the first attempt that is not or with no retry left, and reports that attempt: its response, its error or both; or in a wait that is positive and cancelled; each wait depends only on the attempt just before; all sleeps together at most maxRetries times maxDelay; exact releases of every Response |
| Client.OneFatePerResponse | client.go:246-316 | every Response is released exactly once, or returned to the caller, or left to the connection |

## Left out

- Until-EOF bodies (parser.go:249-313): a message without length or chunking ends in the outcome `UntilEof`.
- Gzip itself (compressor.go): a function of headers and body chosen by the environment.
- Reconnecting: the pipeline is proved per epoch, one connect up to its `closeConn`; a later epoch starts with any signal token and any value of activeReqs, but a reader that outlives its epoch (connection.go:689-690) is not modelled.
- FifoDelivery: after a read that has reported a status and then times out, or meets a body without framing, the position of the stream is left open.
- The branch for a pending request without a Response (connection.go:933-943): every request of `doPipelined` carries one.
- The pipeline lets the steps of `closeConn` and the reader interleave more freely than the mutexes allow.
- CompareReaders: until-EOF bodies end both readers in the same outcome without a body.
- Scheduler (scheduler.go), and so response ownership on the path through it.
- Dialing, TLS, proxies and SOCKS (dialer.go, tls.go, proxy.go, socks5.go).
- Deadlines, the cached clock and timers: a read succeeds or fails as the transport decides, and in the pipeline every read ends.
- Expect: 100-continue exchange in `doSequential` (connection.go:408-431).
- Idle eviction, warm-up and graceful stop of the pool (pool.go:79-183): other users of the same removal step.
- PoolSelection: the selection loops run without interference; races on the list are in `PoolAccounting`.
- URL parsing (request.go:206-258): host, port and path are inputs of the encoder.
- Multipart, streaming, batches, inspector, metrics, configuration defaults, error texts and logging.
- TokenBucket: float64 rounding, and rates so slow that a sleep exceeds 64 bits.
- Health: updates are serialized, and latency differences beyond 2^63 nanoseconds are not modelled.
- Dns: one host, IP literals are not modelled, resolver successes are non-empty, and `Invalidate`, `Clear` and the janitor are evictions at any time.
- AdaptiveDelay: the Retry-After header arrives parsed; the text forms (retry.go:119-135) are not modelled beyond whole seconds.
- ComputeBackoff: float64 rounding and overflow are not modelled.
