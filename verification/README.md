# A model of the iroh OpenAI and SOCKS tunnel

The repository carries HTTP requests of OpenAI clients, and SOCKS5 connections, over an iroh
connection to a server that reaches a provider or a target. This project models what decides
which bytes are written where, at both ends, and proves what holds for all inputs, all ways of
cutting a stream into arrivals, and all interleavings and failures.

| file | what it models |
|---|---|
| Bytes.dfy, Streams.dfy | byte strings; a buffered reader over arbitrary arrivals; a writer whose writes may be cut short |
| HttpHead.dfy, HttpHeaders.dfy, HttpRequest.dfy | line and head readers, the header fold, the request readers of both ends |
| HttpResponse.dfy, Numerals.dfy, HttpDecoding.dfy | the response writers, and a decoder after sections 4, 6 and 7.1 of RFC 9112 that is independent of them and knows the request's method |
| ConnectionProtocol.dfy, OpenAiConnection.dfy | the reconnecting connection manager: every interleaving of any number of callers, and the object with its loop, whose steps are those of one such caller |
| PercentDecoding.dfy, Rfc3986.dfy, ProviderUrl.dfy | request target to provider URL, against a resolver after sections 5.2.2 to 5.2.4 of RFC 3986 |
| OpenAiClientSession.dfy, OpenAiServerSession.dfy | one OpenAI stream at each end, over every sequence of events |
| HealthCheck.dfy | what the client's health check takes for a healthy answer |
| OpenAiEndToEnd.dfy | both ends together: which requests are forwarded, and what the application takes for a response |
| Utf8.dfy, Socks5.dfy, Tunnel.dfy | the SOCKS5 messages of RFC 1928 and the tunnel's own, as readers, writers and codecs |
| SocksHandlers.dfy, SocksTunnel.dfy | the steps of a SOCKS connection at each end, and the two ends with the streams between them as a state machine |
| SocksEndToEnd.dfy | the handlers of both ends together are a run of that machine |
| Permits.dfy | connection and stream permits of the accept loops |
| SecretKeyText.dfy, Disks.dfy, IdentityFile.dfy | the key's text form, a disk whose unsynced changes a power cut may lose, and the identity file on it under errors, crashes and power cuts |

Code that changes state step by step is modelled by methods and classes, each proved against a
function of what was there before; the theorems are about those functions. Protocols between
tasks are state machines whose runs are sequences of steps. A method that writes says what a
failing write may leave behind, always a prefix, and what it leaves when no write fails. What the
network, the provider, a peer or a timeout does is a parameter or a step, so every contract holds
for all of it.

Places where the code does something a reader may not expect, modelled as the code has it:

- The pipelining check looks only at bytes already buffered, so whether a second request is
  noticed depends on how the stream was cut (`ReadOneLocalHttpRequest` says exactly when).
- The chunked flag is assigned by each Transfer-Encoding header, so the last one decides
  (`FoldMeaning`, `LaterCodingWins`).
- An empty chunk would end the body early, and a response that may not have a body (1xx, 204, 304,
  the answer to a HEAD, a 2xx to a CONNECT) is sent with a last chunk all the same; exactly in these
  cases part of the message looks complete (`TruncationShowsIff`, `NoContentEndsEarly`,
  `AnswersToHeadEndEarly`).
- The relative path is resolved like any URL reference, but the check of its segments runs before
  that (src/openai/url.rs:46-57). If it reads as a URL scheme it replaces the base; if it holds a
  `#`, the rest is lost as a fragment: `/x#y` lands at `x` below the base. `/..#y` is accepted and
  lands one level above the base, and exactly targets that are a double dot up to their `#` leave
  it (`LandsUnderBase`, `StaysUnderBase`, `SchemeGoesAstray`, `FragmentGoesAstray`,
  `DoubleDotGoesAstray`).
- Stream tasks outlive their connection's permit, so the documented bound on concurrency
  (README.md:303) holds for connections still being served only (`HandlersAreUnbounded`).
- The identity is documented to survive restarts (README.md:204). The sync before the
  rename keeps the file whole over power cuts, and is needed for that (`NeverTorn`, `SyncDecides`).
  One and the same key survives unless the check for the file is answered by an error, or a power
  cut undoes the rename before the system has written the directory back, since the code never
  syncs the directory (`RunsAgree`, `RunLosesKeyIff`, `CutsKeepKeyIff`, `InstallingDoesNotSettle`).
  A path ending in `.tmp` is its own temporary file (`TearsNeverIffTempDiffers`).

`dafny verify dfyconfig.toml` verifies the whole project.

## Model

| member | source | states |
|---|---|---|
| `Streams.Reader.FillBuf` | src/http.rs:108-116 | Fetching the next arrival leaves the bytes still to be read unchanged; the buffer is empty afterwards exactly when nothing is left. |
| `Streams.Reader.ReadExact` | src/tunnel.rs:83-104 | Takes exactly `n` bytes whatever pieces they arrive in, and fails exactly when fewer are left. |
| `Streams.Reader.BufferEmptyIffBoundary` | src/http.rs:387 | The buffer is empty after `read` bytes exactly when the stream was cut there: what the pipelining check can see is how the stream was segmented, nothing else. |
| `Streams.Writer.WriteAll` | src/http.rs:346-352 | A write that is cut short leaves a prefix of its bytes; one that succeeds leaves all of them. |
| `HttpHead.ReadLimitedLineBytes` | src/http.rs:98-128 | The buffered line reader computes a function of the remaining bytes and of how the stream ends: for every segmentation the same length or the same error, consuming exactly the line. |
| `HttpHead.ReadHttpHead` | src/http.rs:138-167 | The head reader does so too: same head or same error for every segmentation, and exactly the head is consumed. |
| `HttpHead.HeaderBlockMeaning` | src/http.rs:150-166 | Reading header lines succeeds with `n` bytes if and only if the first blank line ends there and the total stays within 64 KiB. |
| `HttpHead.HeadMeaning` | src/http.rs:138-167 | The reader succeeds with `n` bytes if and only if they are a first line of at most 8 KiB followed by lines through the first blank one of at most 64 KiB in all; never more than 72 KiB; how the stream ends plays no part. |
| `HttpHead.HeaderOverflowMeaning` | src/http.rs:150-166 | Reading header lines fails for size if and only if no blank line ends within the limit and more bytes than that follow; if the stream fails instead of ending, a last line cut short counts only if it alone is longer than the limit. |
| `HttpHead.HeadersTooLargeMeaning` | src/http.rs:138-167 | Whichever way the stream ends, the head is too large if and only if its first line fits and the header block overflows; every other failure is a bad request. |
| `HttpHeaders.TrimMeaning` | src/http.rs:250-260 | Trimming removes exactly the blanks and tabs at both ends. |
| `HttpHeaders.ParseHttpHead` | src/http.rs:169-248 | The imperative fold returns exactly what absorbing the headers left to right gives, stopping at the first failure, with the checks on method, target form and version before it. |
| `HttpHeaders.FoldKeepsHeaders` | src/http.rs:210-240 | An accepted fold keeps every header, in order, each under its judged form. |
| `HttpHeaders.FoldMeaning` | src/http.rs:203-247 | The fold accepts if and only if each header is valid on its own and all Content-Length values agree; the length is then the one announced, and the chunked flag is the verdict of the last Transfer-Encoding. |
| `HttpHeaders.FoldIgnoresOrder` | src/http.rs:203-247 | Acceptance and the resulting length are the same for every permutation of the headers. |
| `HttpHeaders.LaterCodingWins` | src/http.rs:231-237 | Because the flag is assigned, a later Transfer-Encoding without `chunked` hides an earlier one with it: the same two headers in the other order give the other flag. |
| `HttpHeaders.JudgeMeaning` | src/http.rs:210-240 | One header is refused exactly if its name or value is not acceptable, its length is no number or over the limit, or its codings are no text; kept, it has the normalised name and the trimmed value. |
| `HttpHeaders.ListDelimiters` | src/http.rs:231-260 | Items are set apart by `,`, and blanks are a space or a tab. |
| `HttpHeaders.NamesChunkedMeaning` | src/http.rs:231-237 | A value names the chunked coding exactly if some item of its comma-separated list, blanks aside and in letters of either case, is `chunked`. |
| `HttpHeaders.ParseMeaning` | src/http.rs:169-248 | A head is accepted if and only if the parser reports it whole, with a valid method, a path that starts with exactly one slash, version 0 or 1 and acceptable headers; the result has the parser's method and path, its headers in order, the one length they say, and the verdict of the last header that names codings. It is too large exactly if the parser found too many headers. |
| `HttpHeaders.TooLargeMeaning` | src/http.rs:218-220 | The body is too large exactly if the first header that is refused is a length over the limit. |
| `HttpRequest.ReadHttpRequest` | src/http.rs:70-96 | The server's reader returns a function of the bytes of the stream alone. |
| `HttpRequest.ReadOneLocalHttpRequest` | src/http.rs:369-395 | The local reader returns the head and its declared body exactly when the stream holds them and, unless the head announces chunks, the stream was cut right behind them; otherwise the named error. |
| `HttpRequest.HeadIgnoresWhatFollows` | src/http.rs:138-167 | A head stays the same head when what follows it is cut away or replaced by the end of the stream. |
| `HttpRequest.TwoEndsAgree` | src/http.rs:369-395 | What the local end takes is exactly the head and its declared body, and the server end, given those bytes alone and however its stream ends, finds the same parsed head and that body, or refuses exactly when the shared parse flags chunks. |
| `HttpRequest.CutRequestIsRefused` | src/openai/client_handler.rs:209-228 | A request that reaches the server cut anywhere is refused, however its stream seems to end: the end of stream a client sends after a failed send never completes half a request. |
| `HttpRequest.ServerIgnoresWhatFollows` | src/http.rs:70-96 | The server's verdict on the whole stream is its verdict on the bytes the local end sent: nothing behind them matters. |
| `HttpRequest.LocalErrors` | src/http.rs:369-395 | The local end refuses a request as malformed, as too large in its head or as too large in its body, and never for its chunks. |
| `HttpRequest.ServerOutcomeMeaning` | src/http.rs:70-96 | The server's reader returns a request if and only if the stream starts with an acceptable head that does not call the body chunked, and holds the body announced; the request is what the parser reports of those bytes and the bytes behind them. |
| `HttpRequest.LocalRequestMeaning` | src/http.rs:369-395 | The local reader returns bytes if and only if they are an acceptable head and the body it announces at the start of the stream and, unless the head calls the body chunked, some arrival ended just where they end. |
| `Numerals.NumeralRoundTrip` | src/http.rs:346-352 | Printing a size in hexadecimal, or a length in decimal, and reading it back gives the number, for numbers of any size. |
| `Numerals.DigitMeaning` | src/http.rs:346-352 | Digits are written `0` to `9` and `a` to `f`, and read in either case. |
| `HttpResponse.StatusLineMeaning` | src/http.rs:297-317 | The status line has the version, the status in three digits and the reason. |
| `HttpResponse.ResponseFilterMeaning` | src/http.rs:354-367 | Every response field is passed on but those of one hop, as section 13.5.1 of RFC 2616 lists them, and the length. |
| `HttpResponse.ForwardedLinesMeaning` | src/http.rs:319-328 | Wherever a field stands, it is passed on in its place under its lower-case name with its value, or left out by its name alone. |
| `HttpResponse.WritePlainResponse` | src/http.rs:291-306 | Leaves a prefix of the plain response, and all of it if every write succeeds. |
| `HttpResponse.WriteResponseChunk` | src/http.rs:346-352 | Leaves a prefix of the size line, the chunk and the line end, and all of it on success. |
| `HttpResponse.WriteChunkedBody` | src/http.rs:332-343 | Leaves a prefix of the frames of all chunks; the terminating zero chunk is attempted only after the provider's body reported its end. |
| `HttpResponse.WriteHttpResponse` | src/http.rs:308-344 | Leaves a prefix of the forwarded head and its frames; on success the whole message of a body that ended. |
| `HttpDecoding.DecodeMessageStable` | src/http.rs:308-352 | A message that an RFC 9112 decoder, knowing the request's method, finds complete stays the same message whatever follows it. |
| `HttpDecoding.NoEarlierEnd` | src/http.rs:308-352 | A message decoded with nothing left over is not complete at any earlier byte. |
| `HttpDecoding.ReadFieldsOf` | src/http.rs:317-331 | Field lines without line ends are read back one by one, and the first blank line ends the head. |
| `HttpDecoding.DecodeFrames` | src/http.rs:332-352 | Frames of any non-empty chunks, line ends inside them included, decode to the chunks put together and end exactly at the zero chunk. |
| `HttpDecoding.ForwardedFraming` | src/http.rs:317-331 | However the provider framed its response, the forwarded head holds the one coding `chunked`: no Content-Length and no other Transfer-Encoding survives the filter. |
| `HttpDecoding.ForwardedRoundTrip` | src/http.rs:308-352 | A whole forwarded response that may have a body, with no empty chunk, decodes to the head lines written and the provider's chunks put together. |
| `HttpDecoding.HeadAloneEnds` | src/http.rs:317-343 | A forwarded response that may not have a body, by its status or the request's method, is complete with its head; its frames follow as something else. |
| `HttpDecoding.BrokenIsPrefix` | src/http.rs:332-343 | What is written of a body that fails is a proper prefix of what would have been written had it ended there. |
| `HttpDecoding.PlainRoundTrip` | src/http.rs:291-306 | Of a plain response exactly the prefixes that hold its end are complete: all of it by its Content-Length if it may have a body, else its head; the rest is left over. |
| `HttpDecoding.EmptyChunkEndsFrames` | src/http.rs:346-352 | An empty chunk is written exactly like the end of the body, whatever follows it. |
| `HttpDecoding.ReceivedMeaning` | src/http.rs:308-352 | For every forwarded response and every prefix of it that arrives: it is complete if and only if it holds the first end, the head of a response without a body or else everything through the first empty chunk or the end of the body; then it is decoded to the chunks up to there, the rest left over. |
| `HttpDecoding.TruncationShowsIff` | src/http.rs:308-352 | Nothing short of the whole message of an ended body is ever taken for complete if and only if the response may have a body and no chunk is empty. |
| `HttpDecoding.TruncationDetected` | src/http.rs:308-352 | Where that is so, exactly the whole message of an ended body is complete, and it decodes to the provider's chunks. |
| `HttpDecoding.NoContentEndsEarly` | src/http.rs:332-343 | A concrete case where it is not: a 204 is forwarded with a last chunk that its recipient finds left over behind a complete head. |
| `HttpDecoding.AnswersToHeadEndEarly` | src/http.rs:332-343 | Another: every answer to a HEAD request, whatever its status. |
| `ConnectionProtocol.StepInterferes` | src/openai/connection.rs:43-81 | Every step of every call changes the shared fields only as the others rely on: ids grow, the current one is replaced only by a newer one. |
| `ConnectionProtocol.OthersInterfere` | src/openai/connection.rs:43-109 | Between two points of a run where only other calls stepped, the shared fields changed only as relied on, the call itself not at all, and nothing shared while it holds the lock. |
| `ConnectionProtocol.StepKeepsInv` | src/openai/connection.rs:43-109 | Every step of every call, dropped ones included, keeps the invariant of the shared state and of all calls. |
| `ConnectionProtocol.RunKeepsInv` | src/openai/connection.rs:43-109 | The invariant holds after every interleaving of any number of calls. |
| `ConnectionProtocol.HistoryCounts` | src/openai/connection.rs:50-81 | The ghost counters are the successful dials and effective invalidations of the run. |
| `ConnectionProtocol.DialsAreConserved` | src/openai/connection.rs:50-81 | Over every run successful dials equal effective invalidations plus one if a connection is current; the next id is one more than the dials; ids are cleared in the order 1, 2, 3 and so on, each at most once. |
| `ConnectionProtocol.LateFailureClearsNothing` | src/openai/connection.rs:73-81 | A failure on a connection that is no longer current is on an older one and leaves the shared state as it is. |
| `ConnectionProtocol.DialsExcludeEachOther` | src/openai/connection.rs:50-71 | At most one call dials at a time. |
| `ConnectionProtocol.FailuresAreCounted` | src/openai/connection.rs:83-109 | The reconnects a call has spent count the failed opens among its steps of the run. |
| `ConnectionProtocol.DialsAreCounted` | src/openai/connection.rs:50-71 | Its dial counter counts the dials it began in the run. |
| `ConnectionProtocol.CallIsBounded` | src/openai/connection.rs:83-109 | Under any interference one call tries strictly increasing ids, at most one more than its reconnects, dials at most as often, and reports an open failure only after exactly that many failed opens, counted in the run; a failed dial ends it without using up a reconnect. |
| `ConnectionProtocol.OwnStepsAreBounded` | src/openai/connection.rs:83-109 | A call's own steps plus those it can still make never exceed five per round: it returns however it is interleaved. |
| `ConnectionProtocol.NoDeadlock` | src/openai/connection.rs:43-81 | A call that has not returned can step, or the call holding the lock can. |
| `OpenAiConnection.OpenAiConnectionManager.Connect` | src/openai/connection.rs:56-70 | The dial itself, the lock held: a success installs the next id, a failure changes nothing, and the others change nothing meanwhile. |
| `OpenAiConnection.OpenAiConnectionManager.Dial` | src/openai/connection.rs:50-71 | What is found once the lock is taken decides: a connection that is there is returned without a dial and nothing changes; only without one a single dial is made, whose connection is installed under the next id. |
| `OpenAiConnection.OpenAiConnectionManager.Connection` | src/openai/connection.rs:43-48 | If the first look, after whatever the others did before it, finds a connection, that one is returned, without a dial and with nothing changed; else `Dial` decides, on what the others did since. |
| `OpenAiConnection.OpenAiConnectionManager.Invalidate` | src/openai/connection.rs:73-81 | Clears the current connection exactly if it is the one named, as the others left it. |
| `OpenAiConnection.OpenAiConnectionManager.OpenBiWithReconnect` | src/openai/connection.rs:83-109 | For every schedule of the other calls and every outcome of dials and opens, the loop's steps are exactly those of one call of the state machine, in turn with the others' and nothing else (`CallRun`); so all that holds over every run holds of it, and it tries increasing ids within its budget. |
| `OpenAiConnection.LiveConnectionServes` | src/openai/connection.rs:43-109 | A connection found at the first look is used: the call tries that id alone and dials nothing, and with the others idle and the stream opened, nothing shared has changed. |
| `OpenAiConnection.QuietIsSchedule` | src/openai/connection.rs:43-109 | Schedules exist: from every history the others can do as little as let go of the lock. |
| `PercentDecoding.PercentDecodePathSegment` | src/openai/url.rs:59-78 | The loop computes the recursive decoding. |
| `PercentDecoding.DecodesIffEscapesComplete` | src/openai/url.rs:59-87 | Decoding succeeds if and only if every percent sign is followed by two hexadecimal digits. |
| `PercentDecoding.DecodeInvertsEncode` | src/openai/url.rs:59-87 | Decoding inverts every percent-encoder, whichever bytes it escapes and in whichever case. |
| `PercentDecoding.DecodedWasEncoded` | src/openai/url.rs:59-87 | Whatever decodes was written by some percent-encoder. |
| `PercentDecoding.DecodeCommutesWithSplit` | src/openai/url.rs:46-57 | Decoding the whole path and then splitting on slashes is splitting and then decoding each segment, when no segment hides an encoded slash. |
| `Rfc3986.RemoveDotSegmentsIdentity` | src/openai/url.rs:34-43 | On a path without dot segments, written plainly or as `%2e`, remove_dot_segments of section 5.2.4 of RFC 3986 is the identity. |
| `Rfc3986.RemoveDotSegmentsResult` | src/openai/url.rs:34-43 | On every absolute path it leaves an absolute path without dot segments. |
| `ProviderUrl.Delimiters` | src/openai/url.rs:17-55 | The bytes the mapping looks for are those of `/`, `\`, `%`, `?`, `#`, `.` and `:`. |
| `ProviderUrl.RejectUnsafeRequestPath` | src/openai/url.rs:46-57 | Accepts exactly the paths whose segments all decode to neither dot form and to no slash or backslash. |
| `ProviderUrl.AcceptedMeaning` | src/openai/url.rs:46-57 | Said of the path as a whole: it is accepted if and only if every escape in it is complete, decoding it and splitting it commute, and the decoded path has no segment `.` or `..` and no backslash. An encoded slash breaks the second, as in `/%2f..`. |
| `Bytes.SplitMeaning` | src/openai/url.rs:47 | Splitting yields parts without separators that put together give the value, |
| `Bytes.JoinSplits` | src/openai/url.rs:47 | and no other parts do. |
| `ProviderUrl.StripBasePath` | src/openai/url.rs:28-33 | What is left starts with no slash, and only slashes and at most one repetition of the base's path, set off by a slash, stood before it. |
| `ProviderUrl.RelativePathMeaning` | src/openai/url.rs:28-33 | Exactly one path fits that description: the relative path that is resolved. |
| `ProviderUrl.ProviderRequestUrlFromBase` | src/openai/url.rs:10-44 | The method returns the mapping function's value: rejected, foreign or a URL with the target's query. |
| `ProviderUrl.LandsUnderBase` | src/openai/url.rs:10-57 | An accepted target is mapped to exactly the slash-terminated base path followed by its relative path, resolution by sections 5.2.2 to 5.2.4 of RFC 3986 changing nothing, if and only if the relative path does not read as a scheme and holds no `#`. |
| `ProviderUrl.StaysUnderBase` | src/openai/url.rs:10-57 | A target that is mapped to a URL of the base's origin stays under the slash-terminated base path if and only if that is the root or the relative path up to its first `#` is no double dot, plain or as `%2e`. |
| `Rfc3986.CutPathResolves` | src/openai/url.rs:34-43 | Of a dot-free path cut anywhere, remove_dot_segments drops at most the last segment, if the cut made it a dot, and the one before it too, if it made it a double dot. |
| `Rfc3986.SchemeMeaning` | src/openai/url.rs:34-43 | A reference reads as a scheme exactly if up to its first colon there is a letter, then letters, digits, `+`, `-` and `.` (section 3.1 of RFC 3986). |
| `ProviderUrl.SchemeGoesAstray` | src/openai/url.rs:34-43 | The accepted target `/x:` leaves every base that is not at `/x:` itself. |
| `ProviderUrl.FragmentGoesAstray` | src/openai/url.rs:34-43 | The accepted target `/x#y` lands at `x` below every such base, the rest lost as a fragment. |
| `ProviderUrl.DoubleDotGoesAstray` | src/openai/url.rs:34-57 | The accepted target `/..#y` lands one level above every base path but the root, the rest lost as a fragment. |
| `ProviderUrl.MappingIsIdempotent` | src/openai/url.rs:10-44 | Mapping the resulting path again, with its query, gives the same URL. |
| `ProviderUrl.RelativeAfterBase` | src/openai/url.rs:17-33 | A path that repeats the base is stripped of it once. |
| `ProviderUrl.RepeatedBaseDiffers` | src/openai/url.rs:17-33 | If the rest starts with the base again, the shorter target loses that repetition too and lands elsewhere. |
| `ProviderUrl.PrefixInsensitive` | src/openai/url.rs:17-43 | `/r` and `/base/r` map to the same URL if and only if `r` does not itself start with the base. |
| `OpenAiServerSession.RequestFilterMeaning` | src/http.rs:262-276 | Every request field is passed on but those of one hop, the length and the host: an Authorization arrives. |
| `OpenAiServerSession.ProviderHeaders` | src/openai/server_handler.rs:206-222 | For every name, the values forwarded are all of its values in order, or none for the names the filter drops. |
| `OpenAiServerSession.BuildProviderRequest` | src/openai/server_handler.rs:206-222 | The provider request keeps the method and the body, has the mapped URL and the filtered headers; it fails exactly when the URL does. |
| `OpenAiServerSession.StreamReplyMeaning` | src/openai/server_handler.rs:68-204 | Which reply each course of events leads to: 503, 408, the status of a refused request, 200 for the health target, 400 for a bad URL, 502 and 504 for a provider that failed or timed out, and else the provider's own response. |
| `OpenAiServerSession.RepliesNameTheirStatus` | src/openai/server_handler.rs:68-204 | Every reply made up has the reason phrase that its status is registered with. |
| `OpenAiServerSession.CopyProviderResponseAndFinish` | src/openai/server_handler.rs:224-240 | A body that fails before its first chunk yields the 502 response and no byte of a forwarded head; otherwise the forwarded message, finished only when the body ended. |
| `OpenAiServerSession.ForwardRequestToProvider` | src/openai/server_handler.rs:176-204 | 400, 502 and 504 for a bad URL, a failed and a timed-out request; otherwise the provider's answer. |
| `OpenAiServerSession.HandleOpenAiStream` | src/openai/server_handler.rs:114-142 | Over every sequence of events the stream holds a prefix of exactly one reply, one plain response or one forwarded message; it is finished exactly when that reply is complete. |
| `OpenAiServerSession.RefuseStream` | src/openai/server_handler.rs:83-97 | A stream that finds no permit holds a prefix of the 503 response, all of it if no write fails, and is finished either way. |
| `OpenAiServerSession.ServeOpenAiStream` | src/openai/server_handler.rs:68-142 | From its arrival on, refused or handled, a stream holds a prefix of exactly one reply; it is finished exactly when that reply is complete or is the refusal. |
| `OpenAiServerSession.CompleteMeansWhole` | src/openai/server_handler.rs:68-142 | For every request method, exactly the prefixes of the stream that hold its reply's end, the 503 of a refusal included, decode as complete, to the body up to there; for a reply that may have a body and has no empty chunk that is the whole reply, the provider's body having ended. |
| `OpenAiClientSession.CopyTunnelResponseWithIdleTimeout` | src/openai/client_handler.rs:241-291 | The copy leaves a prefix of the 504 response if the first read times out, and otherwise of the tunnel's bytes and nothing else. |
| `OpenAiClientSession.AllPiecesAreCopied` | src/openai/client_handler.rs:241-291 | However the tunnel's bytes are cut into reads, all of them are copied in order, up to where the stream ends, fails or idles; only an idle start gives the 504 instead. |
| `OpenAiClientSession.ErrorReplyMeaning` | src/http.rs:44-68 | A malformed request is answered 400, too large a head 431, too large a body 413, a chunked body 501. |
| `OpenAiClientSession.SessionReplyMeaning` | src/openai/client_handler.rs:114-291 | Which reply each course of events leads to: 408, the status of a refused request, 504 for a stream that does not open or a send that times out, nothing for a send that fails, and else what the tunnel sent. |
| `OpenAiClientSession.RepliesNameTheirStatus` | src/openai/client_handler.rs:161-239 | Every reply made up has the reason phrase that its status is registered with. |
| `OpenAiClientSession.SendRequestToTunnel` | src/openai/client_handler.rs:209-228 | The tunnel holds a prefix of the raw request; once sent, all of it and the end of the stream. |
| `OpenAiClientSession.HandleOpenAiClientStream` | src/openai/client_handler.rs:114-186 | Over every sequence of events the local socket holds a prefix of exactly one reply, one response made by the client or the tunnel's bytes, never both; nothing is sent for a request that was refused. |
| `OpenAiClientSession.OwnRepliesDecode` | src/openai/client_handler.rs:161-239 | Every reply the client makes has status 400, 408, 413, 431 or 504 and decodes to its own body, or, answering HEAD, to none with that body left over. |
| `HealthCheck.ReadHealthResponse` | src/openai/client_handler.rs:60-81 | The health verdict depends on the bytes delivered and the event that stopped them, not on how reads cut them. |
| `HealthCheck.BlankLineMeaning` | src/openai/client_handler.rs:69-74 | The search for a blank line finds one exactly where a recipient's reader of fields finds the end of a head. |
| `HealthCheck.HealthMeaning` | src/openai/client_handler.rs:60-81 | Any part of a plain answer is taken for healthy exactly if its status is 200 and it holds the whole head, or the stream ended behind the status. |
| `HealthCheck.DeliveredIsAll` | src/openai/client_handler.rs:60-72 | An answer cut into any reads is delivered as its bytes in order. |
| `OpenAiEndToEnd.OnlyWholeRequestsAreForwarded` | src/openai/server_handler.rs:144-204 | Whatever prefix of the application's request the server is left with, and however its stream seems to end, a forwarded reply answers the whole request as the client parsed it. |
| `OpenAiEndToEnd.CopiedMeaning` | src/openai/client_handler.rs:241-291 | The server having written a prefix of its reply, a refusal included, the tunnel delivered a prefix of that and the copy stopped anywhere, the application's bytes are complete if and only if they hold the end of the client's own 504 or of the server's reply. |
| `OpenAiEndToEnd.IdleCutIsDetected` | src/openai/client_handler.rs:241-262 | For a reply that may have a body and has no empty chunk, a copy that looks complete lost nothing on any hop: written, delivered and copied are the whole reply, and it decodes to the provider's chunks. |
| `OpenAiEndToEnd.WholeReplyArrives` | src/openai/client_handler.rs:241-262 | A reply written whole, delivered in any pieces and then ended, reaches the application whole and decodes to its body. |
| `Utf8.Utf8Meaning` | src/socks5.rs:148-154 | Bytes are taken for text exactly if they write some characters as RFC 3629 says. |
| `Socks5.DomainMeaning` | src/socks5.rs:95-100 | A domain is valid exactly if it is not empty and has no control character and no blank. |
| `Socks5.ReadAddress` | src/socks5.rs:140-160 | Reading an address computes a function of its type and the remaining bytes and consumes exactly the address. |
| `Socks5.AddressRoundTrip` | src/tunnel.rs:48-66 | Reading an address inverts writing it and leaves what follows unread. |
| `Socks5.AddressIsCanonical` | src/tunnel.rs:83-104 | Whatever is read as an address is exactly that address as written, and can be written. |
| `Socks5.NegotiateNoAuth` | src/socks5.rs:102-124 | Accepts exactly the greetings that offer "no authentication"; answers 05 00 or 05 FF and consumes exactly the greeting. |
| `Socks5.GreetingMeaning` | src/socks5.rs:102-124 | A greeting as section 3 of RFC 1928 writes it is accepted exactly if method zero is among those offered. |
| `Socks5.GreetingIsCanonical` | src/socks5.rs:102-124 | What is accepted or found without an acceptable method is a greeting so written; anything else has another version or is cut short. |
| `Socks5.ReadConnectRequest` | src/socks5.rs:126-172 | Computes a function of the remaining bytes, errors by kind included, and consumes exactly the request. |
| `Socks5.ConnectRoundTrip` | src/socks5.rs:126-172 | A request written as section 4 of RFC 1928 says is read back with its target and port, whatever follows. |
| `Socks5.ConnectIsCanonical` | src/socks5.rs:126-172 | What is accepted is exactly one request as written, and its target can be sent through the tunnel. |
| `Socks5.U16Meaning` | src/socks5.rs:161-172 | A port is written high byte first and read back. |
| `Socks5.ConnectWireFormat` | src/socks5.rs:126-172 | Version, command, reserved byte, address type 1, 3 or 4, address, and the port in network order. |
| `Socks5.CutConnectFails` | src/socks5.rs:126-172 | A request cut anywhere is an I/O error, |
| `Socks5.OtherRequestsAreNamed` | src/socks5.rs:126-172 | and one with another version, command, reserved byte or address type is refused by the first of these. |
| `Socks5.ErrorReplyMeaning` | src/socks5.rs:85-93 | Code 7 for a command and 8 for an address type that are not supported, 1 for every other error. |
| `Socks5.ReplyByteRoundTrip` | src/socks5.rs:46-64 | A reply byte is read exactly as the code it is written for. |
| `Socks5.ReplyWireFormat` | src/socks5.rs:174-183 | The ten bytes for each code of section 6 of RFC 1928. |
| `Socks5.WriteReply` | src/socks5.rs:174-183 | Leaves a prefix of the ten-byte reply, and all of it on success. |
| `Tunnel.WriteRequest` | src/tunnel.rs:38-73 | Leaves a prefix of the request's bytes, all of them on success; an invalid or too long domain is found after the preamble and named. |
| `Tunnel.ReadRequest` | src/tunnel.rs:75-110 | Computes a function of the remaining bytes and consumes exactly the request. |
| `Tunnel.RequestRoundTrip` | src/tunnel.rs:38-110 | Reading a request inverts writing it and leaves what follows unread. |
| `Tunnel.RequestIsCanonical` | src/tunnel.rs:75-110 | Whatever is accepted is exactly the encoding of what is returned. |
| `Tunnel.RequestsArePrefixFree` | src/tunnel.rs:38-110 | No request is a proper prefix of another. |
| `Tunnel.RequestWireFormat` | src/tunnel.rs:38-73 | Magic, version, command, address type, port in network order, address. |
| `Tunnel.CutRequestFails` | src/tunnel.rs:75-110 | A request cut anywhere is broken, |
| `Tunnel.OtherRequestsAreNamed` | src/tunnel.rs:75-110 | and one with another magic, version, command or address type is refused by the first of these, as soon as it is there. |
| `Tunnel.SocksRequestCrossesTunnel` | src/client.rs:157-187 | A request accepted from a SOCKS client can always be written to the tunnel and is read there unchanged. |
| `Tunnel.WriteResponse` | src/tunnel.rs:112-122 | Leaves a prefix of the eight-byte response, and all of it on success. |
| `Tunnel.ReadResponse` | src/tunnel.rs:124-132 | Computes a function of the remaining bytes and consumes exactly eight on success. |
| `Tunnel.ResponseMeaning` | src/tunnel.rs:124-132 | A status is read exactly where a response for it was written, up to the two reserved bytes. |
| `Tunnel.ResponseWireFormat` | src/tunnel.rs:112-122 | Magic, version, status, two zero bytes. |
| `Tunnel.OtherResponsesAreNamed` | src/tunnel.rs:124-132 | A whole response with a status above 8 is refused by it, one without its reserved bytes is broken. |
| `Tunnel.ResponseRoundTrip` | src/tunnel.rs:112-132 | Reading a response inverts writing it. |
| `SocksHandlers.SelectAllowedResolvedAddr` | src/server.rs:330-346 | Returns the first allowed address; fails exactly when there is none, with "not allowed" if any address was denied and "unreachable" if there were no addresses. |
| `SocksHandlers.ResolveAllowedTarget` | src/server.rs:221-247 | Returns an address the policy allows and the request or its lookup names, or the refusal code when there is none. |
| `SocksHandlers.ServeTunnelRequest` | src/server.rs:178-265 | Every way the server may leave the stream is a `ServerOutcome`: it dials only an allowed address of the request, and dials whenever there is one; the answer is a prefix of the response for the one code that follows; the relay starts only behind a whole success response and right behind the request. |
| `SocksHandlers.DialledMeaning` | src/server.rs:295-346 | A server that allows no private addresses connects to public ones only, and to one whenever the request names one; a server that allows all connects whenever there is an address. |
| `SocksHandlers.ConnectCodeMeaning` | src/server.rs:249-265 | Which code of section 6 of RFC 1928 tells of each failed connect. |
| `SocksHandlers.RefusalMeaning` | src/server.rs:221-247 | Code 2 for addresses that are not allowed, 4 for a name without addresses, 6 for a lookup that timed out. |
| `SocksHandlers.ReadConnectOrRefuse` | src/client.rs:217-232 | A CONNECT request is read and nothing written; a wrong one is answered, in full if no write fails, with the ten bytes its error calls for. |
| `SocksHandlers.ReadHandshake` | src/client.rs:200-232 | If no write fails the application has exactly `05 FF` for a greeting without an acceptable method, `05 00` for one with it, and behind that the ten bytes that the error of its request calls for; otherwise a part of that. A request that is read is consumed exactly. |
| `SocksHandlers.RequestStatus` | src/client.rs:252-288 | The tunnel holds a prefix of the request and is finished exactly if sending timed out or a failure status was read; the application is told exactly the code each failure, timeout or status calls for. |
| `SocksHandlers.ReplyForMeaning` | src/client.rs:234-288 | That code is 6 for a timeout, the server's status where one could be read, and 1 otherwise. |
| `SocksHandlers.OpenSocksTunnel` | src/client.rs:157-198 | Every way the client may leave both streams is a `ClientOutcome`: once established the application has exactly the method choice and a success reply, the tunnel exactly the request, and both relays start at the first byte behind; otherwise one reply at most was begun, and nothing is sent up for a request that was not read. If no write fails, every reply and every refused handshake is answered in full. |
| `SocksHandlers.Copy` | src/client.rs:290-308 | The copy loop leaves a prefix of its input, and all of it when it ends without an error. |
| `SocksHandlers.CopyThenClose` | src/server.rs:267-287 | The far end is closed only behind every byte of an input that ended cleanly. |
| `SocksTunnel.RequestReadIsAsked` | src/server.rs:205-219 | Where a request can be read from what went up, it is the one the application asked for and ends where the client's request did. |
| `SocksTunnel.StatusReadIsVerdict` | src/client.rs:272-288 | Where a status can be read from what came down, it is the server's verdict. |
| `SocksTunnel.RelayHop` | src/client.rs:290-308 | One hop of a relay: as many bytes written behind one header as were read behind another, so the next ones read may be written. |
| `SocksTunnel.StepKeepsInv` | src/client.rs:157-308 | Every step of client or server, stopping at any await with any prefix written included, keeps the invariant of both streams. |
| `SocksTunnel.RunKeepsInv` | src/server.rs:178-287 | It holds after every interleaving of the two. |
| `SocksTunnel.OnlyTheAskedTargetIsDialled` | src/server.rs:178-203 | In every reachable state the server connects only for the target the application asked for. |
| `SocksTunnel.TargetReceivesPayload` | src/server.rs:267-287 | In every reachable state the target has a prefix of what the application sent after its CONNECT request; all of it once both hops ended cleanly. |
| `SocksTunnel.AppReceivesTarget` | src/client.rs:157-198 | In every reachable state the application's bytes behind its ten-byte reply are a prefix of what the target sent, all of it on clean ends, and a success reply means a success verdict of the server. |
| `SocksTunnel.EverythingCanArrive` | src/client.rs:157-308 | For every CONNECT request and all bytes sent either way, some run delivers all of them and closes both directions cleanly: the safety results are not about an empty set of runs. |
| `SocksEndToEnd.ServerOutcomeReached` | src/server.rs:178-265 | However the server's handler ends, the machine's server can end so from the same state. |
| `SocksEndToEnd.HandlersMakeARun` | src/client.rs:157-198 | Whatever two handlers that keep their contracts return and write, some run of the machine reaches a state with those bytes and phases, both relays at their starts: what holds over every run holds of the handlers. |
| `SocksEndToEnd.BothCanRelay` | src/client.rs:157-308 | For every CONNECT request and address of it that the policy allows, both handlers can keep their contracts and come to relay the whole payload and all the target sends. |
| `SocksEndToEnd.SuccessMeansDialled` | src/server.rs:178-219 | An application told of success asked for a target, and the server is connected to an address its policy allows for that target. |
| `Permits.StepKeepsInv` | src/openai/server_handler.rs:29-112 | Every step of the accept loops and of the stream tasks keeps free and held permits adding up to the limits. |
| `Permits.RunKeepsInv` | src/openai/server_handler.rs:29-112 | In every reachable state connection permits, and the stream permits of each connection, add up to their limit; only streams of allowed peers were handled; every stream that arrived was handled or refused, every one handled is finished or running. |
| `Permits.RefusedIffFull` | src/openai/server_handler.rs:83-97 | A stream is refused exactly when its connection has all its handlers running. |
| `Permits.LiveHandlersWithinProduct` | src/openai/server_handler.rs:68-81 | The handlers of connections still being served never exceed the product of the limits. |
| `Permits.HandlersAreUnbounded` | src/openai/server_handler.rs:99-112 | All handlers can exceed any number under any limits, since a stream's task outlives its connection's permit: for every `n` a run with `n` handlers and all connection permits free. |
| `Permits.AllPermitsReturn` | src/server.rs:100-176 | Once every task has ended, every permit is free again. |
| `Permits.EveryTaskCanEnd` | src/server.rs:100-176 | and from every reachable state all tasks can end. |
| `Permits.OnlyAllowedPeersAreServed` | src/openai/server_handler.rs:43-66 | An accepted connection is served exactly if the list of peers is empty or has its peer; so every stream that was handled came from such a peer. |
| `SecretKeyText.EncodeSecretKey` | src/iroh_endpoint.rs:106-115 | The loop writes the prefix, 64 lower-case digits and a newline. |
| `SecretKeyText.HexCharMeaning` | src/iroh_endpoint.rs:137-151 | Digits are `0` to `9` and `a` to `f`; no others are read. |
| `SecretKeyText.EncodedMeaning` | src/iroh_endpoint.rs:106-115 | 84 bytes: the prefix, for each byte two lower-case digits, high one first, and a newline. |
| `SecretKeyText.DecodeSecretKey` | src/iroh_endpoint.rs:117-135 | The loop computes the recursive decoding, errors by kind included. |
| `SecretKeyText.UnhexMeaning` | src/iroh_endpoint.rs:137-151 | Digits are read as bytes if and only if they are how those bytes are written. |
| `SecretKeyText.DecodeMeaning` | src/iroh_endpoint.rs:117-135 | Contents decode to a key if and only if, blanks around them aside, they are its prefix and digits. |
| `SecretKeyText.DecodeErrors` | src/iroh_endpoint.rs:117-135 | A text that is no key is refused for the first thing that is wrong: its prefix, its length, some digit. |
| `SecretKeyText.TrimMeaning` | src/iroh_endpoint.rs:118 | Trimming cuts exactly the white space off both ends. |
| `SecretKeyText.DecodeInvertsEncode` | src/iroh_endpoint.rs:106-135 | Decoding inverts encoding for all 32-byte keys. |
| `IdentityFile.TempPathMeaning` | src/iroh_endpoint.rs:65 | What stands behind the last dot of the name gives way to `tmp`; without such a dot `.tmp` is added. |
| `IdentityFile.TempPathDiffers` | src/iroh_endpoint.rs:65 | The temporary file is the identity file itself exactly for names of more than four characters that end in `.tmp`. |
| `IdentityFile.LoadOrCreateSecretKey` | src/iroh_endpoint.rs:47-104 | The method, with each file operation working, failing or being the last thing the process does, changes the files and returns as the run function says. |
| `IdentityFile.RunMeaning` | src/iroh_endpoint.rs:47-104 | A run installs its own key, whole and synced, or leaves the path bound as it was; what it returns is the key installed or the key decoded from the file. |
| `IdentityFile.FailedRunCleansUp` | src/iroh_endpoint.rs:91-95 | A run that nothing kills does not crash, and if it fails it leaves no temporary file, unless its removal fails too or it is the rename that failed. |
| `Disks.CutMayRollBack` | src/iroh_endpoint.rs:80-101 | A power cut may bring back any state of the directory since it was last durable and leave nothing in a file that was not synced. |
| `IdentityFile.CutKeepsWhole` | src/iroh_endpoint.rs:80-101 | Whatever a power cut leaves of unsynced bytes, and to whichever state each entry of the directory falls back, a file that was whole and synced in all those states is whole and synced in all that remain. |
| `IdentityFile.NeverTorn` | src/iroh_endpoint.rs:47-104 | Over every sequence of runs, crashes, power cuts and write-backs the file is absent or holds one complete encoded key, and would after a cut at that moment too. |
| `IdentityFile.SyncDecides` | src/iroh_endpoint.rs:80-101 | Writing, syncing or not, and renaming leaves a file that every power cut keeps whole if and only if it was synced before the rename. |
| `IdentityFile.TearsNeverIffTempDiffers` | src/iroh_endpoint.rs:65-104 | Exactly for names not ending in `.tmp` does no run from an absent file leave a torn one, power cuts aside. |
| `IdentityFile.RunsAgree` | src/iroh_endpoint.rs:47-104 | All successful runs return the same key, the one in the file, as long as no power cut strikes before the key returned is settled and no run is told wrongly that there is no file and installs another. |
| `IdentityFile.RunLosesKeyIff` | src/iroh_endpoint.rs:48-104 | A run parts the file from a key already handed out if and only if, told wrongly that there is no file, it installs another key. |
| `IdentityFile.CutsKeepKeyIff` | src/iroh_endpoint.rs:97-101 | No power cut can part the file from a key handed out if and only if every state the directory may fall back to has that key in place. |
| `IdentityFile.WriteBackSettles` | src/iroh_endpoint.rs:97-101 | Once the system has written everything back, no power cut can part the file from the key handed out, and the write-back itself does not. |
| `IdentityFile.InstallingDoesNotSettle` | src/iroh_endpoint.rs:97-101 | A first key just installed is never settled: the directory is not synced, so a power cut may still undo the rename. |
| `IdentityFile.KeysCanDiffer` | src/iroh_endpoint.rs:47-104 | Both ways to lose a key happen: concrete histories from nothing, one with a power cut and one with a wrong answer, return two different keys. |
| `IdentityFile.CleanRun` | src/iroh_endpoint.rs:91-95 | Without a crash or an error a run fails only over a stale temporary file, which it removes. |
| `IdentityFile.StaleTempCostsOneRun` | src/iroh_endpoint.rs:91-95 | After any history of runs, crashes and power cuts, of two runs without a crash or an error the second succeeds. |

## Left out

- The HTTP head grammar of `httparse` and the header, method and version checks of the HTTP library: one arbitrary function from bytes to a parsed head, and predicates, that all theorems quantify over.
- `parse::<usize>` of a Content-Length and its text check: part of that grammar; the 1 MiB limit and the agreement of all lengths are modelled.
- The messages inside bad-request errors: only the kind of error is kept.
- Text beyond ASCII in trimming: the comma-separated codings and the key file are trimmed of ASCII blanks only.
- Host names, ports, default ports, and the percent-encoding the URL library adds to unusual characters: the origin of a URL is one opaque byte string, and paths are kept as written.
- Relative paths that the URL library takes for absolute URLs: reported as foreign, and whether they parse is a parameter.
- ProviderUrl.MappingIsIdempotent: for targets mapped without a fragment and a base path with one leading slash; with a `#` the first mapping already lands elsewhere, as `LandsUnderBase` says.
- ProviderUrl.PrefixInsensitive: for a rest without `#` or `?` that does not start with a slash or a scheme, since those are mapped elsewhere; the query may be anything.
- Method boundaries: the loop of the response writer (`WriteChunkedBody`), and `EmitField`, `StripBasePath`, `ReadBody`, `ReadGreeting`, `ReadTarget`, `ReadConnectOrRefuse`, `RequestStatus`, `Connect`, `TryOnce` and `Round`, are methods of their own here.
- The decoder of responses: folded field lines, one Content-Length field that lists a number twice, and the contents of trailers, none of which the proxy writes.
- Time: a timeout is an event at the await it guards; intervals and the health check's schedule are not modelled.
- The provider's header map: its names are iterated in an arbitrary order, so the order of different names in the provider request is not modelled; the order of one name's values is.
- Streams dropped without being finished: the far end may then see an end or an error, and the model lets it see an end at any later step, so completeness is claimed only for directions their writer finished.
- SocksTunnel.TargetReceivesPayload: both directions of a relay step independently, and one failing stops both; that a failing direction cancels the other at once is not claimed.
- SocksHandlers.ServeTunnelRequest: the IP range predicates are a parameter, and so is what a lookup returns.
- OpenAiConnection.OpenAiConnectionManager.OpenBiWithReconnect: a call that runs to its return; being dropped at an await is a step of the state machine. The connection made at start-up (src/openai/connection.rs:27-41) is a call dropped once it has its connection.
- ConnectionProtocol.DialsExcludeEachOther: the lock is taken as fair to nobody; which waiting caller gets it next is arbitrary.
- The client's own session permits (src/client.rs:120-155, src/openai/client_handler.rs:84-112): one level of the same counting.
- Several processes creating one identity file at a time: the protocol uses one shared temporary name and is not made for it.
- Power loss: a file that was not synced may hold anything afterwards, each entry of the directory may fall back on its own to any state since the last write-back, and a write-back is taken as one step; a cut in the middle of a run is a run that dies and then a cut.
- IdentityFile.TearsNeverIffTempDiffers: about one run that may fail or die at any operation; power cuts are in `NeverTorn` and `SyncDecides`.
- File permissions and the creation of parent directories: the latter is a step that may fail, without contents.
- src/copy.rs, command line parsing, configuration checks, route logging, start-up and shutdown: plumbing around what is modelled.
