# Verification of the like-muduo HTTP server

A Dafny model of the core of a small epoll-based HTTP server, with proofs. It covers the resumable
HTTP/1.x request parser and the message loop that drives it, the byte buffers, the URL and header
codecs, the output side of a connection, the timing wheel, the hand-off of tasks to an event loop,
and the registry of connections. `dafny verify dfyconfig.toml` checks everything.

| module | what it models |
|---|---|
| `Strings` | byte strings: first occurrences, C strings, `to_string`, `stol` |
| `ByteBuffer`, `Ring` | `Buffer` and `CircleBuffer`, classes over arrays |
| `UrlCodec`, `RequestLine`, `HttpMessage` | `Split`, percent-encoding, the request-line pattern, query strings, requests and responses |
| `RequestParser`, `HttpContext` | the parser as functions on values, and the class that is proved to compute them |
| `Fragmentation` | whether it matters how a stream is cut into fragments |
| `Framing` | the message loop on byte streams, and pipelined requests |
| `Statuses` | the status with which each request is routed |
| `WireLaws` | the parser spelled out on the text: what is taken, what is refused, where a body ends |
| `ResponseText`, `OutputPath`, `HttpConnection` | responses, the output queue as a state machine, and the connection with its mutually recursive handlers |
| `DeadlineMap`, `TimeWheel` | a table of deadlines, and the reference-counting wheel that is proved to behave like it |
| `EventLoop`, `Registry`, `LoopThreadPool` | protocols between threads as step machines, and the assignment of loops |

Reading notes:

- A `char` stands for one byte.
- Definitions that both the code and its specification use, such as digits, methods, header separators,
  limits and codes, are settled by laws over literal texts and numbers (`WireLaws` and the tables at the
  end of `Strings`, `UrlCodec`, `RequestLine` and `ResponseText`).
- Where the code mutates an object, the model is a class whose methods are proved against a function
  of the old state (`RecvHttpReq` against `Recv`, `OnMessage` against `Serve`, the wheel against
  `DeadlineMap.Step`, the output queue against `OutputPath.Step`). The laws are lemmas about those functions.
- `Phase.Thrown` is not a value of the source's enum. It marks the point at which `std::stol` throws
  out of the parser, so that every Content-Length value is covered; nothing catches that exception.
- In a wheel or connection, the ghost fields record effects: callbacks that were called, payloads that
  were accepted, requests that were answered.

Findings, each with its exact condition:

- The parser: cutting a request matters only because a line is returned as a C string. A NUL can shorten
  an overlong line to an acceptable one (`FragmentationExact`, `NulCounterexample`).
- The message loop: a stream that is not refused is handled in one way in all cuts if and only if it is
  cut-safe in the same sense (`ServeExact`). A refused request does not stop a connection from reading:
  what arrives behind it is thrown away when it comes with it and routed when it comes after it
  (`RefusedThenRouted`). Any stream dispatches the same requests in all cuts if and only if no piece of it
  behind a refused part reads as a request (`DispatchExact`).
- An incomplete request line stores 0 into the response status (source/http.hpp:531). So a handler starts
  from status 200 if no read ended inside the line of its request, and from 0 if one did
  (`StatusExact`, `PipelineStatuses`, `HandlePipeline`, `StatusLostByCut`).
- A payload that is accepted between the request for release and the release is lost (`LostAfterRequest`).
  Without forced closes, what a release gives up is exactly the payloads accepted since it was last asked
  for, less what has been written since (`ReleaseLoses`).
- URL encoding prints a signed byte. Of the bytes from 128 up, only 255 survives a round trip (`RoundTrip`).
- `CircleBuffer::Write` keeps the queue if and only if it does not enlarge the array while the contents
  wrap around (`Ring.CircleBuffer.Write`, `Ring.Torn`).
- Without worker threads, a `RunAfter` from the connected callback shifts the key of the connection that
  is being accepted, and its entry is never removed (below 2^32 ids; `StoredUnderOwnId`, `ShiftedKey`, `EntryExact`).
- `Connection::Id` returns an `int`, so removal misses ids from 2^31 on, and the removal of an id
  2^32 n + k with n > 0 and k < 2^31 takes out the entry with key k (`RemovalExact`, `RemovalOfNth`).

## Model

| member | source | states |
|---|---|---|
| UrlCodec.Split | source/http.hpp:151-168 | the loop over offsets yields the non-empty pieces between delimiters, in order |
| UrlCodec.PiecesOfJoin | source/http.hpp:151-168 | splitting undoes joining, for any list of non-empty pieces free of the delimiter |
| UrlCodec.UrlEncode | source/http.hpp:212-234 | the encoding loop computes `Encode` |
| UrlCodec.UrlDecode | source/http.hpp:251-274 | the decoding loop, with its skip of two, computes `Decode` |
| UrlCodec.RoundTrip | source/http.hpp:212-274 | decoding undoes encoding if and only if every byte is below 128 or equal to 255 and, when spaces become plus signs that are not decoded, there is no space |
| UrlCodec.EncodeInjective | source/http.hpp:212-234 | encoding is injective on the strings that survive |
| UrlCodec.EncodeCollides | source/http.hpp:229-230 | outside them it is not: two bytes with one code |
| UrlCodec.EncodedShape | source/http.hpp:207-234 | encoded text consists of unreserved characters, plus signs (only if asked for) and %hh triples |
| UrlCodec.PiecesOfLast | source/http.hpp:151-168 | `Split` of text without the delimiter is one piece, or none if it is empty |
| UrlCodec.PiecesOfFirst | source/http.hpp:151-168 | for any delimiter, the piece in front of its first occurrence, unless empty, and then the pieces behind it |
| UrlCodec.EncodeExact | source/http.hpp:207-234 | every byte by name: the unreserved ones stay, a space becomes a plus sign if asked for, the others two lower-case hex digits, and from 128 up "%ff" |
| UrlCodec.HexToITable | source/http.hpp:235-250 | the value of every digit and letter, in either case, and -1 for the rest |
| UrlCodec.TripleDecodes | source/http.hpp:256-261 | every byte below 256 is what its hex digits, in either case, decode to |
| UrlCodec.MixDecodes | source/http.hpp:251-274 | any mix of plain bytes and triples in either case decodes to the bytes it stands for |
| UrlCodec.CutTriple | source/http.hpp:256-261 | a percent sign with fewer than two bytes behind it stands for itself |
| UrlCodec.PlusPlus | source/http.hpp:207-208 | "C%2B%2B" decodes to "C++" |
| HttpMessage.FirstBindingWins | source/http.hpp:368-393 | a run of `SetHeader` or `SetParam` keeps what was bound, binds each other key to its first value, and binds nothing else |
| RequestLine.MatchExact | source/http.hpp:549-564 | the matcher accepts exactly the lines of the regular expression, and no line has two ways to match |
| RequestLine.QueryRoundTrip | source/http.hpp:565-578 | an encoded query parses back, for every list of pairs of surviving strings, to the table in which the first binding of each key wins |
| RequestLine.MethodTable | source/http.hpp:549-549 | exactly the five methods are accepted, in any letter case, and read as upper case |
| RequestLine.VersionTable | source/http.hpp:549-549 | exactly HTTP/1.0 and HTTP/1.1 are, in any letter case |
| RequestLine.PatternExact | source/http.hpp:549-564 | a line is accepted with given groups if and only if it is, literally, method, path without '?', optional query, version and line end |
| RequestLine.LineFills | source/http.hpp:557-564 | a matched line fills method, path, version and parameters and leaves the rest alone |
| RequestLine.QueryAccepted | source/http.hpp:567-574 | a query is accepted if and only if each of its pieces has a '=' |
| RequestLine.QueryExact | source/http.hpp:565-578 | pairs joined by '=' and '&', encoded by whatever client, give the first-wins table of their decoded keys and values |
| Strings.StolExact | source/http.hpp:412-422 | `stol` on any text: leading space, one sign, digits up to the first other byte; without digits, or beyond 64 bits, it throws |
| Strings.LineOfExact | source/server.hpp:314-323 | a line goes through its newline, cut in front of the first NUL, and there is none without a newline |
| Strings.StolDec | source/http.hpp:412-422 | a number that fits a `long` survives `to_string` and `stol` |
| RequestParser.RecvResting | source/http.hpp:510-519 | between calls there is an error code exactly in ERROR, no body before BODY, and in BODY less than Content-Length bytes of it; a call consumes a prefix of the unread bytes |
| RequestParser.OverConsumes | source/http.hpp:628-648 | a call that completes a request takes at least one byte |
| HttpContext.Context.RecvHttpReq | source/http.hpp:510-519 | the switch with its fall-through computes `Recv` on state and buffer, and `_resp_statu` is as `StatusAfter` says |
| HttpContext.Context.RecvHttpLine | source/http.hpp:521-545 | the request line step on the fields computes `RecvLine`, with both length limits |
| HttpContext.Context.ParseHttpLine | source/http.hpp:546-580 | the match and the query loop compute `ParseLine`; failure leaves ERROR and 400 |
| HttpContext.Context.RecvHttpHead | source/http.hpp:581-610 | the header loop computes `RecvHead` and terminates |
| HttpContext.Context.ParseHttpHead | source/http.hpp:611-627 | one header line is added to the table or refused with 400 |
| HttpContext.Context.RecvBody | source/http.hpp:628-648 | body bytes move from the buffer to the request exactly as far as Content-Length asks |
| WireLaws.LineWaits | source/http.hpp:525-533 | without a newline the request line waits up to 8192 bytes and is refused with 414 from 8193 on |
| WireLaws.LineRefused | source/http.hpp:534-555 | a request line of 8193 bytes or more is refused with 414, one that does not match with 400 |
| WireLaws.LineAccepted | source/http.hpp:546-580 | one that matches is taken if and only if every piece of its query has a '=', and else refused with 400 |
| WireLaws.FirstLineRefused | source/http.hpp:521-555 | a stream that begins with a refused line ends in ERROR with that code, for an empty request of version HTTP/1.1 |
| WireLaws.HeadWaits | source/http.hpp:587-594 | the same limits while a header line is incomplete |
| WireLaws.HeadEnds | source/http.hpp:600-609 | an empty line, with or without a carriage return, ends the head |
| WireLaws.HeadRefused | source/http.hpp:595-623 | an overlong header line is refused with 414, and one without ": " with 400 |
| WireLaws.HeadTaken | source/http.hpp:611-627 | any other is split at its first ": ", whichever way it is ended, and kept unless its key is bound |
| WireLaws.BodyExact | source/http.hpp:628-648 | how many bytes go to the body: none without a Content-Length field, else what `stol` reads there as an unsigned 64-bit number |
| WireLaws.NoLengthNoBody | source/http.hpp:412-419 | a request without a Content-Length field is complete with its head |
| WireLaws.LengthIsBody | source/http.hpp:412-422 | with one, the first such field says in decimal where the request ends |
| WireLaws.MeaningExact | source/http.hpp:557-578 | what the handler is given, field by field |
| WireLaws.CloseExact | source/http.hpp:423-430 | a request closes the connection unless its first Connection field is exactly "keep-alive" |
| Fragmentation.Resumes | source/http.hpp:510-519 | a call that does not end in ERROR can be resumed: the next call gives state, request and unread bytes of one call on both parts |
| Fragmentation.FragmentationIndependence | source/http.hpp:510-648 | a stream of cut-safe lines ends with the same state, error code, request and unread bytes (unless ERROR) in any fragments |
| Fragmentation.FragmentationExact | source/http.hpp:510-648 | if a single call fails, every way of cutting fails; if it does not, every way of cutting gives its verdict if and only if it reads no long line shortened by a NUL |
| Fragmentation.NulFreeSafe | source/server.hpp:314-323 | streams with a NUL-free head are cut-safe; the body may hold any bytes |
| Fragmentation.NulCounterexample | source/server.hpp:314-323 | a stream accepted in one piece and refused in two |
| Fragmentation.ErrorFlag | source/http.hpp:792-793 | `_resp_statu >= 400` holds exactly when the parser is in ERROR, in whatever fragments |
| Fragmentation.StatusDependsOnCuts | source/http.hpp:525-533 | while there is no error, `_resp_statu` is 200 if and only if no fragment has ended inside the first line, else 0; no call is made on an empty buffer |
| Fragmentation.StatusLostByCut | source/http.hpp:529-533 | one request line that leaves 200 in one piece and 0 in two |
| Fragmentation.CompletesPast | source/http.hpp:510-648 | the call that completes a request leaves nothing of the bytes that earlier calls had left unread |
| Framing.ServeResumes | source/http.hpp:785-816 | the message loop can be resumed with more bytes as if they had been there from the start |
| Framing.ServeIndependence | source/http.hpp:785-816 | for cut-safe streams without a refused request the router is given the same requests in the same order, and the context and the unread bytes end up the same, in any fragments |
| Framing.ServeExact | source/http.hpp:785-816 | a stream that is not refused as a whole is handled in one way in all cuts if and only if it reads no long line shortened by a NUL |
| Framing.NeverRefusedCutSafe | source/http.hpp:785-816 | a stream of which no prefix is refused reads no such line |
| Framing.RefusalKeepsRequests | source/http.hpp:792-801 | bytes that arrive together with a refused part are never routed |
| Framing.DispatchExact | source/http.hpp:785-816 | for every stream, refused or not: all cuts give the router the requests of a single read if and only if no piece behind a refused part reads as a request |
| Framing.RefusedIfCutSafe | source/http.hpp:792-801 | in a cut-safe stream the refused parts are the prefixes that are refused as a whole |
| Framing.RefusedThenRouted | source/server.hpp:941-953 | behind anything that is refused, any well-formed request is thrown away when it arrives with it and routed when it arrives after it |
| Framing.RefusedLine | source/http.hpp:546-555 | such a stream, cut-safe whatever follows: a line that is no request line |
| Framing.HeadersParse | source/http.hpp:581-627 | printed header fields and an empty line parse back, consuming exactly those bytes |
| Framing.WireParses | source/http.hpp:510-648 | a well-formed request followed by anything is parsed into its meaning and nothing behind it is touched |
| Framing.PipelinedFraming | source/http.hpp:785-816 | well-formed requests sent back to back in any fragments are dispatched exactly, in order and intact, with no byte left unread |
| Framing.DecimalLength | source/http.hpp:412-422 | a decimal body size in the first Content-Length field meets the length condition |
| Framing.ClientRequest | test/secondary/client.cpp:27 | the text of the repository's test client is a well-formed request that keeps the connection open |
| Statuses.ServeStatusIs | source/http.hpp:785-816 | in one read the first request gets the status of the context, the others 200, and a line that has begun leaves 0 |
| Statuses.StatusExact | source/http.hpp:788-811 | on a cut-safe stream without refused requests, in any fragments, request i is routed with status 200 if no read ends inside its request line, and with 0 if one does |
| Statuses.PipelineStatuses | source/http.hpp:788-811 | for well-formed requests, also before all have arrived: 200 if and only if no read ends strictly inside the line of request i |
| ResponseText.PrintHeaders | source/http.hpp:686-689 | the loop over the header map prints every entry once, in some order |
| ResponseText.HeaderRoundTrip | source/http.hpp:686-690 | whatever order the map is walked in, the printed block parses back to the map and is consumed exactly |
| ResponseText.ResponseReadsBack | source/http.hpp:665-692 | behind the status line of any response text the header fields read back and the rest is the body |
| ResponseText.HandlerFieldsWin | source/http.hpp:669-685 | the handler's header fields keep their values; exactly Connection, length and type of a body, and the target of a redirect are added |
| ResponseText.AnnouncedLength | source/http.hpp:677-679 | a body without a length of its own gets a Content-Length that reads back as its size |
| ResponseText.StatusLineReadsBack | source/http.hpp:665-668 | the first line of a response reads, up to the first space, as the version of the request, up to the next as the status, and then as the reason |
| ResponseText.CompleteExact | source/http.hpp:669-676 | status, body and redirect stay the handler's; the Connection field is the handler's, or follows the request |
| ResponseText.BodyFields | source/http.hpp:677-682 | the length and the type a body gets if it has none |
| HttpConnection.Connection.constructor | source/server.hpp:989-998 | a new connection: empty buffers, fresh context, nothing sent or accepted |
| HttpConnection.Connection.SendInLoop | source/server.hpp:976-986 | a payload is dropped after release, else queued, with write interest |
| HttpConnection.Connection.Send | source/server.hpp:1015-1019 | the payload goes through a buffer of its own unchanged |
| HttpConnection.Connection.HandleWriteError | source/server.hpp:888-894 | when `send` fails the unread input is served, a release is asked for, and one byte sent before is queued again |
| HttpConnection.Connection.HandleWrite | source/server.hpp:886-901 | what the socket takes leaves the front of the queue; an empty queue drops write interest and, while shutting down, asks for release |
| HttpConnection.Connection.Release | source/server.hpp:1023-1026 | a release is only queued |
| HttpConnection.Connection.ReleaseInLoop | source/server.hpp:954-956 | the status becomes DISCONNECTED and the output is otherwise unchanged |
| HttpConnection.Connection.WriteResponse | source/http.hpp:665-692 | the response is completed, printed with its headers in some order, and sent |
| HttpConnection.Connection.Refuse | source/http.hpp:792-801 | the failed request, and only it, gets the error page for its status, a fresh context, an emptied input and a shutdown |
| HttpConnection.Connection.Answer | source/http.hpp:806-814 | a complete request is routed with the status of the context and answered, and a closing response shuts down, which serves the rest of the input |
| HttpConnection.Connection.OnMessage | source/http.hpp:785-816 | terminates, and answers exactly the requests of `Serve`, routed with the statuses of `ServeStatus`, with texts that make up what it sends; DISCONNECTING if and only if some answer closes |
| HttpConnection.Connection.ShutdownInLoop | source/server.hpp:941-953 | terminates; serves the unread input first, then releases or asks for writability |
| HttpConnection.Connection.HandleRead | source/server.hpp:850-866 | received bytes are appended and served |
| HttpConnection.Connection.HandleEvent | source/server.hpp:375-396 | one event: received bytes, or the unread ones on a close, are served as `Serve` and `ServeStatus` say, refused or not; room in the socket takes bytes off the queue while there is write interest; a release runs if one was asked for; no output byte is lost and every answer is accepted |
| HttpConnection.Connection.HandleEvents | source/server.hpp:688-697 | a connection's life, reads, writes, closes and tasks in any order until its release runs: it routes exactly the requests of `FeedServe`, the subject of `DispatchExact`, with the statuses of `FeedMarked`; bytes sent and queued stay the accepted ones, which grow by the texts of the answers |
| HttpConnection.Connection.HandlePipeline | source/server.hpp:688-697 | end to end: well-formed requests in any fragments, with any other events in between, are routed one by one and intact, with status 200 if and only if no read ended strictly inside the request line, and answered; the answers are what is sent or queued behind what was there; if the connection lives to the end nothing stays unread, and with keep-alive requests and no close it does and stays open; a routed request that does not ask for that leaves it DISCONNECTING or DISCONNECTED |
| HttpConnection.Connection.HandleClose | source/server.hpp:902-907 | serves the unread input, then releases |
| HttpConnection.KeepAliveStaysOpen | source/http.hpp:423-430 | with handlers that leave the Connection field alone, keep-alive requests never close |
| HttpConnection.ClosesExactly | source/http.hpp:811-813 | with such handlers a connection is closed if and only if one of the routed requests does not ask to keep it open |
| HttpConnection.ConnectionAnswered | source/http.hpp:669-676 | and the answer says so: "keep-alive" or "close" |
| HttpConnection.ErrorPageExact | source/http.hpp:762-783 | an error page carries the error code as its status, its page as the body and text/html |
| HttpConnection.RoutedExact | source/http.hpp:788-811 | a handler is given an empty response with the routed status, and its status, body and fields are answered |
| HttpConnection.AnswerReadsBack | source/http.hpp:665-692 | any answer reads back whole: version, status, reason, fields and body |
| OutputPath.OutputConservation | source/server.hpp:976-986 | in every run before release, bytes sent followed by bytes queued are all payloads in order, and queued bytes have write interest |
| OutputPath.RunConserves | source/server.hpp:886-986 | the same with dropped payloads left out, over every run from every such state |
| OutputPath.ReleasedWhenAllSent | source/server.hpp:894-900 | a release that is not forced is asked for only when every accepted byte has been sent |
| OutputPath.GracefulRelease | source/server.hpp:941-953 | so over every run without forced closes |
| OutputPath.Drains | source/server.hpp:886-901 | while shutting down, queued bytes leave in order under any partial sends, and release is asked for once, by the write that takes the last of them |
| OutputPath.WriteInterest | source/server.hpp:894-900 | the write that empties the queue drops write interest in every status, and asks for release only while shutting down |
| OutputPath.ShutdownAsks | source/server.hpp:941-953 | a shutdown asks for release at once if nothing is queued, and else for writability |
| OutputPath.NobodyAsks | source/server.hpp:886-901 | without a shutdown or a close nothing ever asks for release |
| OutputPath.ReleasedAcceptsNothing | source/server.hpp:976-986 | after the release no payload is accepted |
| OutputPath.SentIsTaken | source/server.hpp:886-893 | what is sent is what the writes took |
| OutputPath.Since | source/server.hpp:886-986 | a stretch of any run before release writes and leaves, in order, what was queued and what it accepted |
| OutputPath.ReleaseLoses | source/server.hpp:941-956 | without forced closes, the queue when a release runs is exactly the payloads accepted since the last request for it, less what has been written since |
| OutputPath.LostAfterRequest | source/server.hpp:947-948 | a run in which such a payload is lost |
| ByteBuffer.Buffer.constructor | source/server.hpp:229-229 | a new buffer is empty |
| ByteBuffer.Buffer.MoveReadOffset | source/server.hpp:236-239 | takes bytes off the front; a negative length puts bytes in front of the contents |
| ByteBuffer.Buffer.Clear | source/server.hpp:247-247 | empties the buffer |
| ByteBuffer.Buffer.EnsureWrite | source/server.hpp:248-260 | compaction and growth keep the contents and make room for the bytes and one more |
| ByteBuffer.Buffer.Write | source/server.hpp:261-266 | copies behind the contents without changing them |
| ByteBuffer.Buffer.WriteAndPush | source/server.hpp:273-277 | appends, and never reaches the abort of `MoveWriteOffset` |
| ByteBuffer.Buffer.WriteAndPushBuffer | source/server.hpp:281-283 | appends the contents of another buffer |
| ByteBuffer.Buffer.ReadAndPop | source/server.hpp:296-300 | returns and removes the same prefix |
| ByteBuffer.Buffer.GetLine | source/server.hpp:314-323 | returns the first line, cut at a NUL |
| ByteBuffer.Buffer.GetLineAndPop | source/server.hpp:324-329 | the line followed by what is left is always what was there |
| Ring.CircleBuffer.Read | class/buffer.hpp:31-60 | removes and returns a prefix of the queue, around the end if need be |
| Ring.CircleBuffer.Write | class/buffer.hpp:62-90 | appends to the queue, through wrap and growth, if and only if it does not grow while wrapped |
| Ring.Torn | class/buffer.hpp:62-90 | a new ring that a few reads and writes bring to lose its contents |
| DeadlineMap.TicksOf | source/server.hpp:524-536 | for the timeout as given, its low 32 bits count; 1 to 60 stand for themselves |
| DeadlineMap.DelayIsLeast | source/server.hpp:651-651 | a refresh buys the least positive number of ticks congruent to the timeout modulo 60 |
| DeadlineMap.WhileAlive | source/server.hpp:637-654 | all through its life a timer's deadline is its last refresh plus its delay, and it is live unless cancelled |
| DeadlineMap.DestroyedExactly | source/server.hpp:525-533 | for every run, a timer goes exactly k ticks after its last refresh, k from 1 to 60 and congruent modulo 60 to the low 32 bits of the timeout as given, and its callback is called once, then, if it was never cancelled, and otherwise never |
| TimeWheel.PushKeeps | source/server.hpp:640-651 | one more pointer, in the slot of the new deadline, keeps every pointer at or before its task's deadline |
| TimeWheel.DueLosesAll | source/server.hpp:614-618 | after a slot is cleared exactly the tasks that are due have no pointer left |
| TimeWheel.TimeWheel.constructor | source/server.hpp:656-661 | an empty wheel is the empty table |
| TimeWheel.TimeWheel.Add | source/server.hpp:645-654 | adding is adding to the table, due after as many ticks, and nothing while the id is still indexed |
| TimeWheel.TimeWheel.Update | source/server.hpp:637-644 | refreshing moves the deadline; the weak pointer it locks is never null |
| TimeWheel.TimeWheel.IndexAgreement | source/server.hpp:610-654 | between operations the index holds exactly the ids of tasks with a pointer in the wheel, and every pointer lies in a slot that is cleared at or before its task's deadline |
| TimeWheel.TimeWheel.NeverExpired | source/server.hpp:637-640 | a task in the index has a pointer in the wheel |
| TimeWheel.TimeWheel.Cancel | source/server.hpp:627-636 | cancelling keeps the timer in the table, without its callback |
| TimeWheel.TimeWheel.Drop | source/server.hpp:525-533 | destroying the last pointer calls a live callback and takes the id out of the index, in the middle of `clear()` |
| TimeWheel.TimeWheel.Increment | source/server.hpp:614-618 | a tick of the wheel is a tick of the table: the timers that are due go and the live ones among them are called |
| TimeWheel.TimeWheel.Tick | source/server.hpp:620-625 | as many ticks as the descriptor reports |
| EventLoop.ExactlyOnceFifo | source/server.hpp:708-725 | in every interleaving, executed tasks, the rest of the batch and the queue are the pushes in push order |
| EventLoop.NoLostWakeup | source/server.hpp:688-725 | a blocked loop with queued tasks has a readable eventfd or a producer on its way to `Awake` |
| EventLoop.HistoriesAre | source/server.hpp:708-725 | the histories are what the steps pushed, in order, and as many calls as they made |
| EventLoop.TurnTakesAll | source/server.hpp:688-697 | a turn of the blocked loop, woken by its eventfd, by another channel or by an error, takes the whole queue |
| EventLoop.BatchIsFinite | source/server.hpp:716-725 | one `RunTasks` calls at most the tasks it swapped out, in order, even if each pushes another |
| EventLoop.OwnRunIsFinite | source/server.hpp:688-725 | pending wakeups and the loop, left to themselves, take at most `Work` steps |
| EventLoop.AtRestAllExecuted | source/server.hpp:688-725 | and when they have no step left, everything pushed has been executed |
| EventLoop.NothingStranded | source/server.hpp:688-725 | both, from every reachable state and under every schedule of those steps; a wakeup is the only event that is waited for |
| Registry.IdsDistinct | source/server.hpp:1097-1123 | in every interleaving all ids are distinct and none serves both a connection and a timer |
| Registry.RemovedAfterStored | source/server.hpp:1023-1026 | no removal runs before its connection is stored |
| Registry.IdsCounted | source/server.hpp:1097-1123 | each accepted connection and each timer takes one id, and nothing else does |
| Registry.WishesConserved | source/server.hpp:1113-1123 | every release asked for and every `RunAfter` of another thread is under way, waits in the base loop, or has been carried out once |
| Registry.StoredUnderOwnId | source/server.hpp:1109-1110 | a connection is stored under its id if and only if no `RunAfter` cut into its acceptance, and with worker threads none does |
| Registry.ShiftedKey | source/server.hpp:1120-1123 | a run in which one does |
| Registry.RemovalExact | source/server.hpp:1113-1119 | a removal takes its entry out if and only if it is stored under its id and the id fits an `int`; it takes out another entry if and only if its id is at least 2^32 and that key is what an `int` makes of it |
| Registry.EntryExact | source/server.hpp:1109-1119 | in every reachable state an entry is gone if and only if a removal with its key as an `int` has run; below 2^32, its own removal, under its own id; entries that a `RunAfter` cut into stay |
| Registry.RemovalOfNth | source/server.hpp:1113-1116 | for every n, a run that accepts n connections and removes the last: its entry goes below 2^31, stays from there to 2^32, and for n = 2^32 + k the entry of connection k goes |
| Registry.NeverReappears | source/server.hpp:1113-1116 | an erased id never comes back |
| LoopThreadPool.Pool.Next | source/server.hpp:806-814 | call j returns loop j modulo the number of loops, or the base loop |
| LoopThreadPool.Pool.Fair | source/server.hpp:806-814 | in every history of calls each loop has been returned its share of times, and the shares of two loops differ by at most one |

## Left out

- HttpConnection.Connection.HandleWriteError: follows the source only while the read index stays in the array; where it would become -1 the result says so.
- HttpConnection.Connection.HandleRead: takes results of `recv` that are not negative, since the source goes on to copy a range of length -1, which is undefined; and makes no claim about noticing that the peer has closed.
- HttpConnection.Connection.HandleEvents: failing `send` and `recv` calls are not among its events.
- HttpConnection.Connection.ReleaseInLoop: the socket, the epoll registration and the callbacks of a release are not modelled; that callbacks run once is not claimed, since the source does not guard them.
- ByteBuffer.Buffer.MoveReadOffset: lengths that would take the read index below 0 are excluded; the source then reads in front of its array.
- Ring.CircleBuffer.Write: a write into an empty ring that would run past the end of its array is excluded; the source then writes outside it.
- TimeWheel.TimeWheel.Add: timeouts whose stored 32 bits are not below 2^31 - 59 are excluded; they give the source a negative slot index.
- Registry.RemovalExact: ids from 2^63 on are excluded.
- Registry.EntryExact: ids from 2^63 on are excluded.
- HttpRequest and HttpResponse are values held in a field; a handler that keeps a reference to the request of a context is not covered. `IsStatic` appending to the URL and the matches of a route belong to the abstract router.
- The router with its handlers and regular expressions, the error page and the reason phrases are functions the connection is given.
- The stack depth that `std::regex` needs for long lines, and locales other than "C".
- Channel interest is one flag for writability; read interest, `EstablishedInLoop`, `Upgrade` and the inactivity timer of a connection are left out.
- `ValidPath`, static files, MIME types, status texts, logging, addresses, `Any`, `Acceptor` and the start-up of loop threads.
- The branch of `Awake` for an interrupted write (source/server.hpp:579-582): the eventfd is non-blocking (line 573), so its write is not interrupted.
- Sockets, epoll, timerfd and eventfd are nondeterministic results: bytes received, bytes taken, ready sets, tick counts, counter values.
- Overflow of buffer sizes, of the eventfd counter and of 64-bit ids.
- `Buffer::ReadAndPop(std::string*)` and the older drafts under class/ other than `CircleBuffer`.
