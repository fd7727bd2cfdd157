# Mzani: a verified model

Mzani is an HTTP/1.x load balancer. This project models its core in Dafny 4.11 and proves what the
core promises:

- **HTTP framing.** A message arrives in fragments. The code finds the end of the head, picks a body
  mode (fixed, chunked, until the connection ends), decodes the body and prints the response again with
  one Content-Length. Bytes are numbers below 256 and strings are bytes that passed the UTF-8 check, as
  in the original; UTF-8 and Unicode white space are modelled in full. A stream is its bytes, what a read
  reports after the last byte (closed, timed out, failed) and a schedule of fragment sizes; every
  statement "for every schedule" quantifies over it.
- **Backend selection and health.** Tickets, the cyclic scan over health flags with the 2^64 wrap-around
  of release builds, retries, the saturating probe counters with two thresholds, and the transition log.
  Concurrent selection is a transition system with one step per ticket draw and flag load.
- **Worker pool and shutdown.** A transition system over the owner, the workers, the metrics, log and
  health threads, with bounded queues and the sets of owners of each channel sender and of the context.
  The owner's shutdown sequence is a method that lets an arbitrary scheduler run the other threads while
  it waits for a join.

Files: `Bytes`, `Text`, `Numbers`, `Streams` (foundations); `Headers`, `Requests`, `Chunked`, `Responses`,
`Forwarding`, `PrintedResponses` (HTTP); `Modular`, `Selection`, `Probes`, `Backends`, `Proxying`, `ConcurrentSelection`
(backends); `MetricsAggregation`, `Pool`, `Shutdown`, `Serving` (pool). `dafny verify dfyconfig.toml` checks all of it.

Results worth knowing before changing the code:

- A head of L bytes is accepted under every fragmentation if L is at most `max_header_bytes` + 1, under
  none if L exceeds `max_header_bytes` + 4096, and in between it depends on the fragmentation
  (`HeadIgnoresScheduleIff`). This window is the only dependence of a response on the schedule
  (`ResponseIgnoresScheduleIff`).
- Forwarding is a fixpoint exactly while the printed head stays within the same bound
  (`ForwardingIsFixpointIff`); the added Content-Length can exceed it (`AnswerCanOutgrowLimit`).
- Bytes after a short request body become part of the request or not, depending on the fragmentation;
  `RequestIgnoresScheduleIff` gives the exact condition.
- A scan whose indices wrap at 2^64 skips a backend, unless the number of backends divides 2^64
  (`LooksEverywhereIff`, `LastTicketMissesBackend`). `select_next` documents its error as "every backend is
  unhealthy"; for all healths of the backends that holds exactly outside this case
  (`FailureMeansAllDownIff`).
- `shutdown_threads` documents only a panic as its failure. While a clone of the log sender, or any reference
  to the context, strong or weak, is held outside, no run ever finishes it (`OutsidersBlockShutdown`), and the
  shutdown ends in a deadlock, waiting for the metrics or the log thread (`MaximalRunEnds`,
  `OutsidersDeadlock`). Even a weak reference does it, because `Arc::get_mut` fails while one exists.
  With neither held outside, every interleaving of the threads, from the moment the health monitor is told to
  stop, is finite and ends with everything drained (`ShutdownIsFinite`, `MaximalRunEnds`). This rests on every
  handler and probe returning: the code sets no write timeout on client streams, so a handler whose client
  does not read may not return, and then the shutdown does not either.
- Statistics never outnumber the handlers that ran, none of the first 2^64 requests is recorded twice, and
  each record has the id and worker of its handler (`RecordsHaveHandlers`).
- Selection shares are exact under concurrency too: with fixed health, n calls with consecutive tickets return
  each of n backends as often as its share, however they interleave, clear of the wrap-around
  (`ConcurrentShares`).
- Chunk extensions must be UTF-8 here, while RFC 9112 (section 7.1.1) allows other bytes in quoted values. Of
  the chunked bodies of the standard, with size lines below 8192 bytes and at most one line of trailers,
  exactly those with UTF-8 extensions and within the limit are decoded (`SentBodyIff`, `ObsTextIsRefused`).
- Body framing, for every response as a backend prints it: a status of 1xx, 204 or 304 ends with its head
  (`NoBodyIsAnswered`); else `Transfer-Encoding: chunked` wins over a Content-Length (`ChunkedAnswerIff`), a
  Content-Length comes next (`FixedIsAnswered`), and without either only a close completes the body
  (`UnframedIsAnswered`). A chunked body cut off anywhere is never taken for a whole one (`CutEncodingIsDry`).
- The decoder reads more size lines than the standard has: a plus sign and Unicode white space around the
  digits, but nothing else (`SizeOfIff`).
- The stop flag alone decides a connection's fate: before it none is answered 503 by a worker, from it on no
  handler begins (`NoRefusalBeforeFlag`, `NoHandlerAfterFlag`).
- The reported average latency is the whole duration once more than 2^32 - 1 requests are counted
  (`TakeSnapshot`), and statistics of a retried request are reported under the first backend drawn, whichever
  answered (`Serve`).

## Model

| member | source | states |
|---|---|---|
| Bytes.Find | src/core/request.rs:204-206 | the position returned holds a match, no earlier one does; none means there is no match |
| Bytes.FindInPrefix | src/core/request.rs:150 | searching a partly filled buffer finds exactly the first match of the whole stream, once the buffer reaches past it |
| Bytes.JoinUndoesSplit | src/core/request.rs:162 | joining the CRLF-free pieces of a head gives the head back |
| Bytes.HeadEndOfPrintLines | src/core/response.rs:60-61 | the first empty line of a printed head is the one that closes it, whatever follows |
| Bytes.SplitPrintLines | src/core/response.rs:60-61 | splitting a printed head gives back its lines and the closing empty ones |
| Text.Utf8Concat | src/core/request.rs:161 | after a valid string, the concatenation is valid exactly when the rest is |
| Text.Utf8Cut | src/core/request.rs:161-171 | cutting a valid string in front of a non-continuation byte leaves two valid strings |
| Text.TrimMeaning | src/core/request.rs:171 | trimming removes Unicode white space from both ends, nothing else, and leaves none there |
| Text.TrimIs | src/core/request.rs:171 | trimming leaves exactly what stands between white space and has none at its ends |
| Text.TrimUndoesSpace | src/core/response.rs:56 | trimming undoes the space printed in front of a trimmed value |
| Text.NextWordBeforeSpace | src/core/response.rs:69-75 | splitting on white space yields the word in front of a space, then goes on behind it |
| Text.NextWordIs | src/core/response.rs:69-75 | the next word is what stands behind any white space up to the next white space or the end; white space alone has none |
| Numbers.ParseUndoesPrint | src/core/response.rs:58 | decimal and hexadecimal parsing undo printing for either case and any leading zeros, and reject values over the maximum |
| Numbers.DigitsIgnoreCase | src/core/response.rs:179 | digits that differ only in the case of letters have the same value |
| Numbers.DigitsValueIff | src/core/response.rs:179 | exactly the non-empty strings of digits of the radix have a value |
| Numbers.ParseNumberIff | src/core/request.rs:197-202 | decimal parsing reads exactly the numbers that fit, printed after perhaps a plus sign and zeros |
| Numbers.ParseIff | src/core/request.rs:197-202 | parsing gives the value of the digits, after at most one plus sign, when it fits, and fails for everything else |
| Streams.ByteStream.Read | src/core/request.rs:144 | a read delivers the next fragment of the scheduled size, or what the end of the stream reports |
| Streams.ByteStream.ReadExact | src/core/request.rs:86 | reads exactly the next n bytes whatever the fragmentation, or fails and leaves nothing |
| Streams.PrefixReader.Read | src/core/response.rs:117-131 | delivers a non-empty piece of the unread prefix followed by the connection, and keeps the remainder |
| Streams.PrefixReader.ReadExact | src/core/response.rs:191 | exactly the next n bytes of prefix and connection together, or an error |
| Headers.ReadHeaderBlock | src/core/request.rs:134-157 | returns the head up to the first empty line and the bytes read past it, which with the rest of the stream make up the input; on every path, errors included, the buffer holds exactly the bytes taken off the stream, at most max + 4096 |
| Headers.FittingHeadIsAccepted | src/core/request.rs:139-156 | a head of at most max + 1 bytes is accepted under every schedule, reading fewer than 4096 bytes past it |
| Headers.HugeHeadIsRejected | src/core/request.rs:140-142 | a head over max + 4096 bytes is rejected under every schedule |
| Headers.EndlessHeadIsRejected | src/core/request.rs:140-147 | without an empty line the error depends on the bytes alone |
| Headers.AcceptedHead | src/core/request.rs:150-155 | an accepted head is the one up to the first empty line, and the buffer stays within max + 4096 bytes |
| Headers.WindowHeadDependsOnSchedule | src/core/request.rs:139-156 | between the two bounds one schedule accepts and another rejects |
| Headers.HeadIgnoresScheduleIff | src/core/request.rs:134-157 | the outcome ignores the schedule exactly when the head length is outside the window |
| Headers.ParseHeaderFields | src/core/request.rs:160-175 | the loop yields the fields up to the first empty line, or the error of the first line without a colon |
| Headers.FieldsOfPrinted | src/core/request.rs:165-172 | parsing printed clean fields gives them back |
| Headers.FieldsAreClean | src/core/request.rs:170-171 | every parsed field is trimmed, UTF-8, has no colon in its name, and prints to a line without CRLF |
| Headers.HeaderFieldsIff | src/core/request.rs:160-175 | the fields are those of the lines before the first empty one, each cut at its first colon and trimmed; a line without a colon, or bytes that are not UTF-8, give their errors |
| Headers.HeaderFieldAfter | src/core/request.rs:190-195 | the field found is the first with the name: fields of other names in front do not matter |
| Headers.HeaderFieldIs | src/core/request.rs:190-195 | the value found is that of the first field with the name; none is found exactly when no field has it |
| Requests.MethodRoundTrip | src/core/request.rs:25-53 | printing a parsed method gives back its token; different tokens give different methods |
| Requests.ParseUndoesMethod | src/core/request.rs:25-53 | a method's token parses to the method, except for `Other` with a token that another method has |
| Requests.ParseUndoesRequestHead | src/core/request.rs:177-187 | parsing a printed request head gives back its method, path and fields |
| Requests.ParseHeadIs | src/core/request.rs:177-187 | any white space separates method and path; a line without a first or a second word gives its error |
| Requests.ContentLengthIff | src/core/request.rs:197-202 | the declared length is the number, in decimal after perhaps a plus sign and zeros, in the first Content-Length field, 0 without one, and an error exactly when the value is no number that fits |
| Requests.DeclaredBodyIsTaken | src/core/request.rs:71-97 | a printed request takes exactly the number of bytes its first Content-Length says, or none without one, when no read goes past them; over the limit, no number, or too few bytes give their errors; bytes read ahead are taken too, up to the limit |
| Requests.FromStream | src/core/request.rs:71-97 | on success the request is the bytes taken, cut after the parsed head, and its wire form followed by the rest of the stream is the input; how many bytes are taken, and every error, is as specified |
| Requests.RequestExtent | src/core/request.rs:74-88 | a request covers head and declared body, its body is within the limit, and it takes no more than head and declared body or max header + 4096 bytes |
| Requests.ReadAheadDependsOnSchedule | src/core/request.rs:79-88 | with bytes after a short body, one schedule takes exactly head and body and another does not |
| Requests.RequestIgnoresScheduleIff | src/core/request.rs:71-97 | the request is schedule-independent exactly when the head is outside the window and nothing can be read past the declared body |
| Chunked.ReadLine | src/core/response.rs:199-213 | returns the bytes up to the first CRLF when at most 8191 precede it, else the error the limit or the end gives |
| Chunked.ReadExactDelimiter | src/core/response.rs:215-222 | succeeds exactly when the next bytes are the delimiter |
| Chunked.ReadChunkedBody | src/core/response.rs:173-197 | the loop computes the decoding of the unread bytes and leaves what the decoding leaves, for every fragmentation |
| Chunked.DecodeComplete | src/core/response.rs:173-197 | every well-formed encoding within the limit decodes to its data and leaves what follows, however the connection ends |
| Chunked.DecodeSound | src/core/response.rs:173-197 | on success the bytes taken are well-formed records, and the result is their data within the limit |
| Chunked.FramingDetermined | src/core/response.rs:173-197 | two well-formed framings of the same bytes are the same |
| Chunked.DecodeIff | src/core/response.rs:173-197 | decoding succeeds with a body and a rest exactly when the input is a well-formed encoding of it followed by the rest |
| Chunked.CutEncodingIsDry | src/core/response.rs:173-213 | a well-formed encoding within the limit, cut off anywhere, gives the error of a connection that runs dry |
| Chunked.BadDelimiterIsRefused | src/core/response.rs:193 | data not followed by CRLF is malformed |
| Chunked.HexSpells | src/core/response.rs:179 | every non-empty string of hexadecimal digits is, up to the case of letters, the printed form of a number behind leading zeros |
| Chunked.SizeOfIff | src/core/response.rs:177-179 | a line is read as a size exactly when it is UTF-8 and consists of white space, perhaps a plus sign, hexadecimal digits of a number that fits, white space, and perhaps an extension; the error otherwise |
| Chunked.SizeLineIsAccepted | src/core/response.rs:177-179 | a size line as RFC 9112 has it (digits in any mixture of cases, leading zeros, padding, an extension without CRLF), below 8192 bytes, denotes its number when the extension is UTF-8 and the number fits the machine's integers; otherwise the error is the one of the check that fails |
| Chunked.ObsTextIsRefused | src/core/response.rs:177 | a size line of the standard with a byte above ASCII in a quoted extension is refused |
| Chunked.DecodeTooLarge | src/core/response.rs:186-188 | a well-formed encoding of more than the limit is refused as too large, at any point of the body |
| Chunked.SentBodyIsDecoded | src/core/response.rs:173-197 | a body sent with such size lines, all extensions UTF-8, decodes to its data and leaves what follows it when the data is within the limit, and is refused as too large when not |
| Chunked.NonUtf8IsRefused | src/core/response.rs:177-188 | a body sent with such size lines, some extension not UTF-8, is refused for that line or, when the limit is passed first, as too large |
| Chunked.SentBodyIff | src/core/response.rs:173-197 | a body sent with such size lines is decoded, to its data, exactly when all extensions are UTF-8 and the data is within the limit |
| Responses.ReadFixedBody | src/core/response.rs:133-155 | the body is the next `length` bytes for every fragmentation; the two overrun checks are unreachable |
| Responses.ReadUntilEof | src/core/response.rs:157-171 | the body is everything when the connection closes within the limit, else the error |
| Responses.EncodeForwardedResponse | src/core/response.rs:43-64 | the loop prints the status line, the kept fields, one Content-Length and the body |
| Responses.KeptMeaning | src/core/response.rs:52-57 | every field is kept as often as it stands in the original, except those named transfer-encoding and content-length in any case, which are never kept |
| Responses.KeptConcat | src/core/response.rs:52-57 | fields are kept in their order: dropping from two lists joined is joining what is kept of each |
| Responses.ReadHttpResponse | src/core/response.rs:26-40 | the whole reader computes its specification for every stream and schedule |
| Responses.ResponseMeetsSpec | src/core/response.rs:26-40 | outside the header-limit window the answer is a function of bytes and end alone |
| Forwarding.ResponseIgnoresScheduleIff | src/core/response.rs:26-40 | the answer ignores the schedule exactly outside the header-limit window |
| Forwarding.NoWaitForCloseIff | src/core/response.rs:19-21 | a response read stays the same under any continuation and end exactly when its mode is not until-EOF |
| Forwarding.FixedBodyIff | src/core/response.rs:133-155 | a fixed body is returned exactly when it is the next `length` bytes within the limit |
| Forwarding.UntilEofIff | src/core/response.rs:157-171 | an unframed body is complete exactly when the peer closes within the limit; a time-out or failure gives its error |
| Forwarding.BodyWithinLimit | src/core/response.rs:147-149 | no decoded body exceeds the limit, in any mode |
| Forwarding.RebuiltHeadReads | src/core/response.rs:51-61 | a printed head reads back as its status line and fields |
| Forwarding.ReframingKeepsMeaning | src/core/response.rs:43-77 | for a status that allows a body (not 1xx, 204 or 304) the answer has the same status and fields in order, without Transfer-Encoding and Content-Length, plus one Content-Length equal to the decoded length, then the decoded body |
| Forwarding.ModeOfReframed | src/core/response.rs:79-96 | a reframed field list selects fixed mode with the decoded length |
| Forwarding.ForwardingIsFixpoint | src/core/response.rs:26-96 | reading an answer again gives the answer, for every schedule, continuation and end, when its head is at most max + 1 bytes |
| Forwarding.ForwardingIsFixpointIff | src/core/response.rs:26-96 | that bound is exact |
| Forwarding.StatusLineReads | src/core/response.rs:66-77 | a printed status line reads back as its code |
| Forwarding.AnswerCanOutgrowLimit | src/core/response.rs:58 | a family of responses whose answers exceed the limit their originals meet |
| PrintedResponses.NoBodyIsAnswered | src/core/response.rs:43-46 | a printed response with status 1xx, 204 or 304 is answered with its head, whatever its fields say and whatever follows |
| PrintedResponses.ChunkedIsAnswered | src/core/response.rs:79-96 | when the first Transfer-Encoding says chunked, a well-formed body is answered with the status line, the kept fields, the length of the data, and the data; over the limit it is refused |
| PrintedResponses.ChunkedAnswerIff | src/core/response.rs:26-96 | then there is an answer exactly for a well-formed body within the limit, and it is that one |
| PrintedResponses.FixedIsAnswered | src/core/response.rs:79-96 | else, with a Content-Length, the answer has exactly the next so many bytes; no number, over the limit, or too few bytes give their errors |
| PrintedResponses.UnframedIsAnswered | src/core/response.rs:79-96 | with neither, the answer has everything up to a close within the limit; a time-out or failure gives its error |
| PrintedResponses.StatusCodeIs | src/core/response.rs:66-77 | the code is the second word of the first line if that is a number of 16 bits; a missing or bad word gives its error |
| Selection.LooksEverywhereIff | src/state/backend.rs:70-72 | a scan looks at every backend exactly when it does not wrap at 2^64 or their number divides 2^64 |
| Selection.WrapSkipsIndex | src/state/backend.rs:72 | otherwise one backend is skipped |
| Selection.LastTicketMissesBackend | src/state/backend.rs:70-78 | a concrete selection that fails although a backend is healthy |
| Selection.PickIff | src/state/backend.rs:64-79 | for cyclic scans, the index selected is the first healthy one at or behind the ticket's place |
| Selection.PickFailsIff | src/state/backend.rs:61-63 | selection fails exactly when no backend is healthy, for cyclic scans |
| Selection.FailureMeansAllDownIff | src/state/backend.rs:61-63 | with a ticket, failure means that no backend is healthy, for all healths, exactly when the scan is cyclic |
| Selection.TimesIsShare | src/state/backend.rs:64-79 | any n consecutive places of the cycle choose each backend as often as its distance from the healthy one in front of it |
| Selection.ExactShares | src/state/backend.rs:64-79 | the same for n consecutive tickets clear of the wrap-around |
| Selection.SharesSumUp | src/state/backend.rs:64-79 | the shares sum to n, and all are 1 when every backend is healthy |
| Probes.CountersAreRuns | src/state/backend.rs:86-95 | the counters are the lengths of the current runs, cut off at 2^32 - 1 |
| Probes.HealthIsHistory | src/state/backend.rs:82-119 | healthy exactly when the latest position ending a long enough run is a success, or there is none; for all histories and thresholds |
| Probes.EventsAlternate | src/state/health.rs:62-80 | transition events alternate starting with unhealthy, and their parity is the health |
| Probes.FlappingIsBounded | src/state/health.rs:62-80 | failure threshold times unhealthy events plus recovery threshold times recoveries is at most the number of probes; the counts differ by 0 or 1 |
| Backends.BackendSet.constructor | src/state/backend.rs:28-42 | one fresh, healthy entry per address |
| Backends.BackendSet.SelectNext | src/state/backend.rs:64-79 | draws one ticket and returns what the scan from it finds, without touching health |
| Backends.BackendSet.EntryFor | src/state/backend.rs:128-130 | finds an entry with the address, or there is none |
| Backends.BackendSet.RecordProbeSuccess | src/state/backend.rs:82-99 | the entry with the address takes a success step, no other changes |
| Backends.BackendSet.RecordProbeFailure | src/state/backend.rs:102-119 | the entry with the address takes a failure step, no other changes |
| Backends.BackendSet.IsHealthy | src/state/backend.rs:123-126 | true exactly when an entry with the address is healthy |
| Backends.ProbeOne | src/state/health.rs:62-80 | records one result and logs exactly a change of health |
| Backends.HealthLoop | src/state/health.rs:55-84 | after any probes each backend and its events are those of its own share of the results |
| Backends.LogIsBounded | src/state/health.rs:55-84 | for a loop from fresh entries: alternation, parity, history health and flapping bound per backend |
| Proxying.RetryReturnsFirstAnswer | src/state/context.rs:351-368 | the loop returns the first answer along the cycle of healthy backends, or the last error, within the attempts, and draws one ticket for each further attempt |
| Proxying.AttemptsAreBounded | src/state/context.rs:351-368 | a request makes at most one attempt more than its retries, stops earlier only on an answer, and comes to what the last attempt is answered |
| Proxying.RetryCovers | src/state/context.rs:351-368 | with as many attempts as backends, a healthy backend that answers is reached |
| Proxying.Context.ProxyWithRetries | src/state/context.rs:351-368 | the loop computes its specification, draws the tickets it says and never needs the made-up error |
| Proxying.Context.Serve | src/state/context.rs:217-328 | without a healthy backend or a readable request the matching error, one ticket and no statistics; else the response is what the retry loop from the backend drawn gives: the first answer, or the last error; statistics under the backend drawn first exactly when the proxying failed or the client took the response |
| ConcurrentSelection.CallsAreJustified | src/state/backend.rs:70-78 | in every interleaving, each flag a call relied on had that value at some moment within the call |
| ConcurrentSelection.SelectedWasHealthy | src/state/backend.rs:74-76 | a backend returned was healthy at some moment within the call |
| ConcurrentSelection.NoneHealthyMeansAllWereDown | src/state/backend.rs:78 | when none is found, each backend was unhealthy at some moment within the call |
| ConcurrentSelection.QuietCallIsPick | src/state/backend.rs:64-79 | with health unchanged during a call it returns what the sequential selection returns |
| ConcurrentSelection.NoSharedTickets | src/state/backend.rs:70 | no two calls share a ticket, during the first 2^64 draws |
| ConcurrentSelection.SelectionCanEnd | src/state/backend.rs:64-79 | whatever calls are under way, a new one can run to its end, with the next ticket and the sequential result |
| ConcurrentSelection.ConcurrentShares | src/state/backend.rs:64-79 | in every interleaving, with health fixed since, the finished calls that hold n consecutive tickets clear of the wrap-around return each of the n backends exactly as often as its share |
| MetricsAggregation.Metrics.RecordRequest | src/state/metrics.rs:116-130 | the cells take one step of the aggregate |
| MetricsAggregation.Metrics.RecordPoolRejected | src/state/metrics.rs:133-135 | counts one more rejection and touches no other cell |
| MetricsAggregation.Metrics.TakeSnapshot | src/state/metrics.rs:139-156 | a copy of the cells; the average is total over count while the count fits in 32 bits, afterwards the whole duration |
| MetricsAggregation.TotalsAreCounts | src/state/metrics.rs:116-130 | the aggregate has the number of records, the sums of their bytes and durations, the last duration, and per backend requests and errors, errors at most requests |
| MetricsAggregation.LargestIsMaximum | src/state/metrics.rs:121-123 | the largest is the maximum request length |
| MetricsAggregation.BackendsSumToTotal | src/state/metrics.rs:125-126 | per-backend requests sum to the total |
| Pool.OrderIsKept | src/core/pool.rs:286-302 | every step keeps each worker's finished, held and queued connections equal to the accepted ones in order, and the queue bounded |
| Pool.ConservationIsKept | src/core/pool.rs:184-197 | every step keeps each submission either returned or accepted by a worker |
| Pool.SubmissionOrderIsKept | src/core/pool.rs:286-302 | every step keeps what each worker accepted a subsequence of what was submitted |
| Pool.RoutingIsKept | src/core/pool.rs:184-197 | every step keeps: until the flag dispatch j is submission j, afterwards there are none; each worker accepted, in order, exactly the connections of the dispatches j with (j mod 2^64) mod W in its turn that found room; the index, which starts at 0, has counted them |
| Pool.CountsAreKept | src/core/pool.rs:296-299 | every step keeps the id counter, which starts at 1, one ahead of the handlers begun, wrapped at 2^64, and handler j has id (j + 1) mod 2^64; statistics stay in order and the channels bounded |
| Pool.AttributionIsKept | src/core/pool.rs:286-302 | every step keeps, for whatever is asked of a handler's id and worker: at most as many records of such handlers, with those still owed, as such handlers begun; and each handler begun runs or has handled its connection |
| Pool.OwnedIsKept | src/core/pool.rs:256-269 | every step keeps the relation between phase, running threads and the owners of each sender and of the context |
| Pool.JoinedIsKept | src/core/pool.rs:250-275 | every step keeps: what was joined has exited, and an exited thread had an empty, disconnected channel |
| Shutdown.RunKeepsInv | src/core/pool.rs:130-279 | the whole invariant holds at every moment of every run |
| Shutdown.ConnectionsAreConserved | src/core/pool.rs:184-197 | each connection is as often returned, queued, in hand, handled or answered 503 as it was submitted |
| Shutdown.ServedInSubmissionOrder | src/core/pool.rs:293-301 | what a worker accepts and what it finishes stand in submission order, the finished in front; all are finished before it exits |
| Shutdown.LoadAndNumbers | src/core/pool.rs:144-153 | at every moment of every run at most workers * (queue + 1) connections are unfinished, submissions go round the workers, each of which accepted exactly those of its turns that found room, and request ids are 1, 2, 3, ..., below 2^64 |
| Shutdown.RecordsHaveHandlers | src/state/context.rs:273-322 | at every moment of every run each record is that of a handler begun, with its id and worker; up to 2^64 handlers no two records share an id; records are at most as many as handlers, each of which handled its connection or is at it |
| Shutdown.WaitingIsNotDeadlock | src/core/pool.rs:250-275 | until it waits for a thread that an outsider keeps alive, a waiting shutdown always has another thread that can run |
| Shutdown.StuckIsDoneIff | src/core/pool.rs:234-278 | a shutdown in which nothing can run is finished exactly when no outsider holds a log sender or a reference, strong or weak, to the context; otherwise it waits for the metrics thread if the context is referenced, else for the log thread |
| Shutdown.OutsidersBlockShutdown | src/core/pool.rs:256-275 | with a clone of the log sender or any reference to the context, strong or weak, held outside at the start, no moment of any run is the end of the shutdown |
| Shutdown.OutsidersDeadlock | src/core/pool.rs:256-275 | from the start-up of any pool with such a clone or reference a run leads to a state in which no thread can move and the shutdown waits for the metrics or the log thread |
| Shutdown.EveryStepGoesDown | src/balancer.rs:155-174 | after the health monitor is told to stop, every step of every thread decreases a lexicographic rank |
| Shutdown.ShutdownIsFinite | src/balancer.rs:155-174 | no infinite interleaving of steps exists in a shutdown, whichever thread takes them |
| Shutdown.MaximalRunEnds | src/balancer.rs:155-174 | every interleaving that goes on while any thread can move ends: drained when no log sender and no reference to the context, strong or weak, is held outside, else waiting for the thread the outsider keeps alive |
| Shutdown.ThreadPool.Submit | src/core/pool.rs:184-197 | appended to the queue of the worker at the dispatch index mod W, with no other worker changed, or handed back with the error of the raised flag or that worker's full queue |
| Shutdown.ThreadPool.Advance | src/core/pool.rs:250-275 | a join returns and moves the shutdown on by one phase, whichever enabled step is chosen each time, even while the owner is delayed |
| Shutdown.ThreadPool.ShutdownThreads | src/core/pool.rs:234-278 | returns under every scheduler that lets some thread run while one can, with every accepted connection finished and all statistics aggregated |
| Shutdown.ThreadPool.Shutdown | src/balancer.rs:155-174 | the same for the whole shutdown from serving, with any steps of other threads after the flag is raised |
| Shutdown.DoneIsDrained | src/core/pool.rs:250-277 | in a finished shutdown nothing is queued or in a worker, and the aggregate has exactly the statistics enqueued |
| Shutdown.DrainedTotals | src/core/pool.rs:310-332 | the aggregate then counts exactly the statistics enqueued: total, bytes, per backend, errors, largest |
| Serving.WorkerTurn | src/core/pool.rs:293-301 | what one step of any thread can do to a worker: take the front of its queue, handle it with the next id when the flag is down, answer 503 when it is up, go on, finish, or exit with an empty queue |
| Serving.NoRefusalBeforeFlag | src/core/pool.rs:293-297 | in every run, no worker has answered 503 while the flag is down |
| Serving.NoHandlerAfterFlag | src/core/pool.rs:293-301 | from a moment at which the flag is up no handler begins |
| Serving.FrontCanBeHandled | src/core/pool.rs:293-301 | with the flag down, a waiting worker can handle the front of its queue to the end, under the next id, whatever its handler emits and however full the channels are |
| Serving.CanRefuse | src/core/pool.rs:294-297 | with the flag up, a worker can answer the connection in hand with 503 |
| Serving.ReportIsRecordedUnlessFull | src/state/context.rs:273-322 | what a handler reports is enqueued, with the handler's id and worker, unless the channel is full; it is never closed while a handler runs |
| Serving.LogIsQueuedUnlessFull | src/core/pool.rs:310-345 | log records are enqueued as far as there is room, while the log thread runs; every hundredth record of statistics logs a snapshot too |
| Serving.CanDrain | src/core/pool.rs:304-345 | the metrics and the log thread can take the front of their channels whenever there is one |
| Serving.HealthTurn | src/state/health.rs:55-84 | a probe that has begun ends, and the monitor leaves only between probes and when told to |
| Serving.CanProbe | src/state/health.rs:55-84 | until it is told to stop the monitor can probe, with or without a change of health |

## Left out

- Sockets, clocks and timeouts: a stream ends by closing, timing out or failing; the grace period of a shutdown is only waiting and is not modelled.
- Scratch buffers: a read returns the bytes it delivers instead of filling a caller's array.
- A read error that is followed by more bytes: an error ends a stream here.
- A vector of `usize::MAX` bytes: where a body limit matters it is assumed to be below that value (`RealLimit`), because the saturating addition of the chunked reader would hide it.
- Duplicate backend addresses: probe records reach only the first of two, so addresses are assumed distinct.
- Backends.HealthLoop: an empty backend list, with which the original sleeps until it is stopped, is excluded as configuration validation does; the sleep between rounds is not modelled.
- Backends.BackendSet.SelectNext: runs with nothing in between; interleaved flag changes and tickets are the subject of ConcurrentSelection.
- Proxying.RetryCovers: health is fixed and no other selection draws a ticket in between.
- Proxying.Context.Serve: what reading the request gives is an argument (Requests.FromStream says what it is), the writes to the client are reduced to whether the client takes the response, and log records are left out.
- MetricsAggregation.Metrics.RecordRequest: counters are unbounded, where the original wraps at 2^64.
- Shutdown.ThreadPool.Submit: the 503 answer and the rejection counter that the accept loop adds to an error are not modelled.
- Shutdown.OutsidersBlockShutdown: during a run outsiders neither take nor drop clones of the log sender or references to the context; one dropped in time lets the shutdown go on.
- ConcurrentSelection.NoSharedTickets: a draw beyond ticket 2^64 - 1 is not a step of this model.
- Pool.OrderIsKept: panics and poisoned locks, with which a join returns an error, do not occur.
- Log records are counted, not written out; the periodic notice about dropped records and the counter of drops are not modelled.
- Request handlers: a handler is any finite number of log records and at most one record of statistics, so it always returns; one that waits forever, on a client that does not read, is not modelled.
- Reports, float formatting, log lines, environment variables, the binary and the test harness.
- HTTP features the code does not have: HEAD responses, chunked request bodies, several transfer codings, conflicting Content-Length values, trailer fields after the first line.
