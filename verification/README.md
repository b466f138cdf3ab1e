# mnet: verified model

mnet is a small threaded HTTP/1.1 server with a minimal client. This project models its worker pool, its
request reader, its codecs, its router, its response writer and client reader and the containment check of
its static file handler, and proves what they promise. Strings are sequences of bytes (`char` below 256 where
it matters), C strings are cut at the first NUL (`Bytes.CStr`), and a connection is a `Feed`: the non-empty
pieces in which bytes become available, ending in close, error or timeout.

The loops of the C code are methods over arrays, cursors and objects. Each is proved equal to a function on
values; the properties are lemmas about those functions.

| files | part |
|---|---|
| `Pool`, `PoolRing`, `PoolRuns` | accept thread, workers, mutex, condition variables, shutdown; the ring buffer refines the queue of the state machine; who is served, refused and stopped over whole runs |
| `Bytes`, `HeadScan`, `ScanAgreement` | `strstr`, `strcasestr` and `strtok_r` scans over the same head, and when they agree |
| `Request`, `Connection`, `RequestText`, `Outcomes`, `BareCr`, `BareLf` | one request and one connection, whatever the segmentation; from a client's text to the handler, with every answer it can get; heads with a bare CR, and heads that end in LFLF |
| `UrlCodec`, `Query`, `Cookies` | percent-decoding, query strings, cookies |
| `Json`, `Utf8`, `Jsonf` | JSON escaping, UTF-8 truncation, the printf-like renderer |
| `Router`, `Routes` | path matching, ownership of captured values, the route table |
| `Response`, `Framing`, `ClientUrl` | what the server writes and the client reads back, and what any reader of its header finds; URLs and the client's request |
| `StaticRoot` | the `inside` test of the static handler |

## What the proofs found

- The drain loop in `mnet_pool_shutdown` never finds a connection: the workers empty the queue before they
  exit (`Pool.DrainFindsNothing`). `docs/features.md` (lines 263-264) says queued connections are closed at
  shutdown; in the code they are served first.
- The wraparound guard of the Content-Length loop is right for every digit string exactly when the limit is
  at most `SIZE_MAX - 6` (`HeadScan.ContentLengthGuardIff`); above that, 2^64 is read as 0.
- The Content-Length search of `read_full_body` and the header list of `parse_headers` agree exactly when no
  occurrence stands directly behind a CR (`ScanAgreement.ScansAgreeIff`): `strtok_r` breaks lines at a bare
  CR, the search does not. `BareCr.ScansDisagree` is an accepted request whose handler is shown
  `Content-Length: 5` and no body.
- `%.Ns` of well-formed UTF-8 is empty whenever byte N is not ASCII, even when N is a character boundary
  (`Utf8.TruncationExact`, `Utf8.LosesWholeCharacter`).
- `%c` of a value outside 0..255 keeps its low byte only when that byte needs no escape, and a negative value
  becomes a `\u` escape that never stands for that byte (`Jsonf.CharacterRoundTripIff`).
- A request without any header line is answered 400, since the request line must end before the separator
  (`RequestText.NoHeadersIsBadRequest`).
- A URL without a path, such as `google.com` in `docs/features.md` (line 299), makes the client send
  `GET  HTTP/1.1`, which mnet's own parser reads as a request for the target `HTTP/1.1`
  (`ClientUrl.EmptyPathAsksForVersion`).
- The client hands out a chunked body with its framing (`Response.ChunkedIsReadRaw`).
- The pipelining shift keeps the bytes behind a request exactly under the condition of
  `Connection.NextBufferIff`; otherwise they are lost, or body bytes stay in front. Under every cut of the whole
  stream the next turn starts with exactly what follows a kept-alive request if and only if what can be buffered
  of its body shows no CRLFCRLF and no read can reach behind it: nothing follows, or it fills the buffer
  (`Connection.NothingLostIff`). If no read goes past the end of the request, the first condition is enough and
  needed (`Connection.ServedAsOneIff`). A buffered body that is itself such a request is served as one
  (`Connection.BodyServedAgain`, and `RequestText.BodyTextServedAgain` for a POST around a GET).
- Where a head ends in LFLF, a CRLFCRLF behind it in the same buffer moves its end, so the headers served can
  depend on the cut (`BareLf.CutDecides`); if none can be buffered they do not
  (`Connection.FirstRequestIndependentOfPieces`). Likewise `sscanf` reads on behind a head of fewer than two
  words, and such a stream is 400 under every cut exactly under the condition of `Connection.ShortLineIff`.
- Registered names and captured values are aligned unless a parameter name holds a `:` or `*` behind a `.`:
  registration ends a name at `.` and scans on, matching does not (`Routes.NamesAlign`).

Where documentation and code disagree the model follows the code: a malformed escape in a path parameter
stays as it is, where `docs/security.md` (lines 81-82) promises an empty value; `+` in a path parameter stays
`+`, where `docs/features.md` (lines 54-55) says space; a query part over its cap drops all pairs but the
request is still served, where `docs/security.md` (lines 42-43) says it is rejected; a Content-Length over
the limit is 413, where `docs/security.md` (lines 49-50) says 400, and a body that stops arriving is also
reported as 413.

## Model

| member | source | states |
|---|---|---|
| `Pool.InvStep` | src/mnet_server.c:207-454 | every critical section, wakeup and stop request, in any order, keeps the whole pool invariant: queue bound, no lost wakeup, shutdown phases, exact counter, one place per connection, order, limit |
| `Pool.NoLostWakeup` | src/mnet_server.c:207-269 | in every reachable state, spurious wakeups included: while a worker sleeps unsignalled the queue is no longer than the number of woken workers; a non-empty queue has a worker that can act; a sleeping accept thread means a full queue |
| `Pool.NoDeadlock` | src/mnet_server.c:207-454 | before `mnet_run` returns some thread can always take a step, and the only state where every step waits for a client is the accept call with an empty queue |
| `Pool.LimitIsKept` | src/mnet_server.c:373-449 | with a limit, `active_connections` stays within it although check and increment are separate critical sections, and `mnet_pool_push` never finds the queue full, never waits and never fails |
| `Pool.ActiveIsExact` | src/mnet_server.c:254-448 | `active_connections` is always the number of connections counted in and not yet counted out |
| `Pool.ConnectionsConserved` | src/mnet_server.c:207-449 | each accepted socket is in exactly one place (accept thread, queue, one worker, closed) and is closed at most once |
| `Pool.ServedInOrder` | src/mnet_server.c:207-252 | what was pushed is what was popped followed by what is queued, and connections leave in accept order |
| `Pool.ShutdownDecreases` | src/mnet_server.c:271-298 | after the broadcast every enabled step except a repeated stop request lowers a natural-number measure |
| `Pool.ShutdownBounded` | src/mnet_server.c:271-298 | so every run from the broadcast on has at most as many steps as the measure at its start |
| `Pool.ShutdownReturns` | src/mnet_server.c:271-298 | and from every state after the broadcast there is a run that returns |
| `Pool.DrainFindsNothing` | src/mnet_server.c:285-291 | when the drain loop starts the queue is empty, so it closes nothing |
| `Pool.CleanReturn` | src/mnet_server.c:416-454 | when `mnet_run` returns the queue is empty, everything pushed was popped, the counter is 0, and every accepted connection was closed exactly once |
| `PoolRuns.PushOutcomes` | src/mnet_server.c:207-231 | in every invariant state a push fails exactly if the queue is full and the server has been told to stop, waits exactly if it is full and it has not, and otherwise queues the connection |
| `PoolRuns.ClosedForAReason` | src/mnet_server.c:425-448 | while the server runs, every closed connection was handed to a worker, or was compared with a value at or above a limit that is set; without a limit all were handed to a worker |
| `PoolRuns.AdmittedIsServed` | src/mnet_server.c:416-449 | from every reachable running state with a fresh connection below the limit, or with no limit, there is a run of the threads alone in which a worker takes it |
| `PoolRuns.ComesBackToAccept` | src/mnet_server.c:416-449 | from every reachable running state between two accepts the threads alone come back to accept with an empty queue |
| `PoolRuns.StaysOpen` | src/mnet_server.c:416-424 | in a run without stop request and without failing accept, interrupted ones included, the accept thread never leaves its loop |
| `PoolRuns.StopReturns` | src/mnet_server.c:416-454 | after a stop request `mnet_run` can return by the threads alone, unless it is still in accept |
| `PoolRuns.StopReturnsBehindAccept` | src/mnet_server.c:416-454 | and from there too, once accept has returned, been interrupted or failed |
| `PoolRuns.AcceptsNoMore` | src/mnet_server.c:416-454 | behind a stop request at most the accept under way still accepts a connection, behind a failed accept none |
| `PoolRing.WindowPush` | src/mnet_server.c:226-227 | writing at `(head + count) % capacity` appends to the live window and overwrites nothing live |
| `PoolRing.WindowPop` | src/mnet_server.c:246-248 | advancing `head` modulo the capacity removes exactly the oldest element |
| `PoolRing.SlotIndexInjective` | src/mnet_server.c:226-247 | distinct positions of the window are distinct slots |
| `PoolRing.Ring.TryPush` | src/mnet_server.c:207-231 | the critical section on the ring is the push section of the state machine: queue, flag and outcome |
| `PoolRing.Ring.TryPop` | src/mnet_server.c:233-252 | the same for pop |
| `PoolRing.Ring.DrainAll` | src/mnet_server.c:285-291 | closes what is left, oldest first, and leaves the queue empty |
| `Bytes.StrTok` | src/mnet_parse.c:60-101 | successive `strtok_r` calls yield exactly the maximal delimiter-free runs |
| `Bytes.TokensOfJoin` | src/mnet_parse.c:60-101 | tokenizing inverts joining of non-empty pieces |
| `Bytes.HexDigits` | src/mnet_response.c:11-17 | a character has the hex value v exactly if it is the digit v in lower or upper case |
| `UrlCodec.DecodeEx` | src/mnet_response.c:19-57 | with source and destination the same buffer or not: yields the decoded text and its terminator, or -1 exactly on a bad or truncated escape, a NUL or lack of room, and never writes past the capacity |
| `UrlCodec.DecodesExactlyTheEncodings` | src/mnet_response.c:19-57 | a text decodes to s if and only if it is a sequence of plain bytes, `+` and `%HH` pieces that stand for s |
| `UrlCodec.DecodeInvertsEncode` | src/mnet_response.c:19-57 | decoding inverts percent-encoding of every NUL-free byte string |
| `UrlCodec.DecodeCopy` | src/mnet_response.c:65-80 | the in-place call used for query parts gives the decoding, or the empty string where there is none |
| `Query.ParseQueryString` | src/mnet_parse.c:24-108 | the loop over tokens and two capped arrays stays in bounds and yields the specified pairs: one for each of the first 16 tokens, or none at all when one of them is over a cap |
| `Query.TokensAtMostSeparators` | src/mnet_parse.c:34-62 | there are never more tokens than slots counted, so the test `idx < count` drops no pair below the cap of 16 |
| `Query.QueryRoundTrip` | src/mnet_parse.c:24-108 | any percent-encoded spelling of up to 16 pairs within the caps is parsed back into those pairs, in order |
| `Query.QueryExactly` | src/mnet_parse.c:24-108 | for every query string of parts with or without `=`: the first 16 count, one over its cap empties the result, and each half is read as what its pieces mean, or as nothing if it is malformed |
| `Query.PercentEncodingRoundTrip` | src/mnet_parse.c:24-108 | serializing pairs with percent-encoding, `=` and `&` and parsing is the identity |
| `Cookies.ParseCookiesLoop` | src/mnet_parse.c:349-412 | the loop yields the specified pairs and never needs more slots than it allocated |
| `Cookies.CookiesExactly` | src/mnet_parse.c:381-406 | cookies with any blanks in front of name and value, with or without `=`, are read back in order |
| `Cookies.CookieRoundTrip` | src/mnet_parse.c:349-412 | cookies written `name=value` and joined by `; ` are read back in order |
| `Router.MatchRefinesSegments` | src/mnet_router.c:15-112 | for every well-formed pattern and every path the character scan succeeds exactly when the segment-by-segment matcher does, with the same values |
| `Router.EveryPathHasSegments` | src/mnet_router.c:25 | every path that starts with `/` is a path of segments, so the refinement covers all of them |
| `Router.TrailingSlashOptional` | src/mnet_router.c:88-95 | a pattern that ends in a parameter matches a path with and without one trailing slash, with the same values |
| `Router.TrailingSlashRejected` | src/mnet_router.c:96-107 | a pattern that ends in a non-empty literal never matches a path with a trailing slash |
| `Router.OneValuePerCapture` | src/mnet_router.c:27-109 | a match yields one value for each parameter and wildcard of the pattern |
| `Router.ValueAtCapture` | src/mnet_router.c:27-109 | in every match value k is the decoded path segment, or for the wildcard the raw rest, that stands where capture k stands in the pattern |
| `Router.PathRoundTrip` | src/mnet_router.c:15-112 | filling a pattern with values, percent-encoded for parameters and as they are for the wildcard, and matching gives those values back; only the value that ends the path must not be empty |
| `Router.PathDecodeInvertsEncode` | src/mnet_router.c:64-84 | the path decoder inverts percent-encoding, for every byte string |
| `Router.PathDecodeKeepsPlain` | src/mnet_router.c:64-84 | text without `%` is kept, `+` included |
| `Router.PathDecodeExactly` | src/mnet_router.c:64-84 | escapes are decoded, and every other character, `+` and malformed escapes included, is kept |
| `Router.SegmentIsCapped` | src/mnet_router.c:66-83 | a decoded segment is cut at 4095 bytes, and only there |
| `Router.StarEndsPattern` | src/mnet_router.c:28-45 | a pattern that goes on behind a `*` matches nothing |
| `Routes.RouteMatch` | src/mnet_router.c:15-112 | the two-cursor loop over allocated values: success iff the scan matches (unless malloc fails); on success the values that have a slot are stored and live, on failure nothing allocated is left |
| `Routes.TakeParam` | src/mnet_router.c:46-95 | one parameter: captures a decoded segment, if a slot is left, and moves both cursors behind it, each over one optional slash |
| `Routes.TakeWildcard` | src/mnet_router.c:28-45 | the wildcard: captures the raw rest of the path, if a slot is left |
| `Routes.DecodeLoop` | src/mnet_router.c:63-84 | the decoding loop into its 4096-byte buffer, bounds included |
| `Routes.MatchParamsFree` | src/mnet_router.c:114-118 | frees each value once and gives the heap back as it was |
| `Routes.FitsWithinSlots` | src/mnet_router.c:27-95 | a pattern with no more captures than slots meets what the matcher asks of its caller, whatever the path |
| `Routes.App.FindRoute` | src/mnet_dispatch.c:20-54 | the first matching route of the method, for HEAD the first GET match if no HEAD route matches; exactly the values it stored are live, those of failed attempts have been freed |
| `Routes.ChosenRoute` | src/mnet_dispatch.c:30-53 | no route is chosen exactly if none of the method, for HEAD none of GET either, matches; otherwise the first of its method that does, and one of GET for HEAD only if no HEAD route matches |
| `Routes.App.HandleRoute` | src/mnet_server.c:122-140 | from finding a route over the handler to releasing the values: the handler sees exactly the values of the match, and the heap is as it was |
| `Routes.App.AddRoute` | src/mnet_app.c:12-102 | appends the route with its registered names and keeps the table when it grows |
| `Routes.App.ParamNames` | src/mnet_app.c:44-99 | the scan for names, with `_k` for the unnamed parameter k |
| `Routes.NamesAlign` | src/mnet_app.c:44-99 | the registered names are those of the captures, in order, if no parameter name holds a `:` or `*` behind a `.`, and (names with `*` apart) only then |
| `Routes.NamesAlignWithValues` | src/mnet_app.c:44-99 | index by index: in every match value k belongs to registered name k and is the text at capture k |
| `Routes.SlotsOfPattern` | src/mnet_router.c:27-95 | a well-formed pattern needs one slot for each capture |
| `Routes.ParamIsTextInPath` | src/mnet_request.c:30-40 | in every match, looking up the first parameter of a name gives the text that stands in the path at its capture |
| `Routes.ParamByName` | src/mnet_request.c:30-40 | a parameter is found under its name, an unnamed one under `_` and its number, and gives its decoded segment |
| `Routes.WildcardByStar` | src/mnet_request.c:30-40 | the wildcard is found under `*` and gives the raw rest of the path |
| `Routes.LookupMissing` | src/mnet_request.c:35-39 | nothing is found exactly if no value has that name |
| `Routes.ParamsReachHandler` | src/mnet_request.c:30-40 | looking up the first parameter of a name gives the value the path was written with: registration, matching, decoding and lookup together |
| `Json.EscapeInto` | src/mnet_response.c:110-164 | the loop writes the capped escape, terminated, inside the buffer |
| `Json.EscapeRoundTrip` | src/mnet_response.c:110-164 | a lexer for JSON strings (section 7 of RFC 8259) run on the quoted escape and any rest returns exactly the string and the rest |
| `Json.RoomForAll` | src/mnet_response.c:349-418 | when the whole escape fits nothing is dropped |
| `Json.CappedIsEscapeOfSubsequence` | src/mnet_response.c:119-161 | with any smaller room the output is the complete escape of a subsequence |
| `Json.CappedStillLexes` | src/mnet_response.c:119-161 | so it never ends inside an escape: it lexes to that subsequence |
| `Json.DroppedForLackOfRoom` | src/mnet_response.c:119-161 | a character is dropped only if its escape does not fit into what is left of the room in the end |
| `Json.FittingPrefixIsKept` | src/mnet_response.c:119-161 | a beginning whose escape fits is kept as a whole |
| `Utf8.TruncateLoop` | src/mnet_response.c:328-348 | the back-up loop and the lead-byte test compute the specified length |
| `Utf8.TruncationExact` | src/mnet_response.c:328-348 | for well-formed UTF-8 (section 4 of RFC 3629) the kept prefix is well-formed, and its length is the whole, N, or 0 by an exact rule |
| `Utf8.KeepsLongestPrefixIff` | src/mnet_response.c:328-348 | it is the longest well-formed prefix within N bytes if and only if the text fits, byte N is ASCII, or not even the first character fits |
| `Utf8.LosesWholeCharacter` | src/mnet_response.c:336-346 | an input where a character that fits is dropped |
| `Jsonf.RenderLoop` | src/mnet_response.c:232-490 | the loop with its doubling buffer stays in bounds, terminates, consumes one argument per conversion and yields the rendering |
| `Jsonf.EnsureRoom` | src/mnet_response.c:377-392 | doubling makes room for the text and the terminator and keeps the contents |
| `Jsonf.RenderIsConcatenation` | src/mnet_response.c:232-490 | a format of literals, `%%`, `%s`, `%.Ns` and `%c` renders to the concatenation of its literals and escaped arguments |
| `Jsonf.BodyHasPieces` | src/mnet_response.c:232-490 | conversely every format that renders to a body is such a list of pieces, and the body is their concatenation |
| `Jsonf.StringIsReadBack` | src/mnet_response.c:313-439 | wherever it stands in a format, `%s` or `%.Ns` between quotes is read by a JSON lexer as the text, or as a beginning of at most N bytes with the exact length for well-formed UTF-8; a NULL argument is `(null)` |
| `Jsonf.ByteIsReadBack` | src/mnet_response.c:441-490 | wherever it stands in a format, `%c` of a byte between quotes is read as that byte |
| `Jsonf.BadPercentFails` | src/mnet_response.c:289-311 | a `%` at the end and `%*` make the rendering fail, whatever came before |
| `Jsonf.CharacterRoundTripIff` | src/mnet_response.c:441-490 | `%c` between quotes lexes back to the low byte of its argument if and only if the argument is not negative and is below 256 or has a low byte that needs no escape |
| `HeadScan.CountHeader` | src/mnet_parse.c:238-253 | the skip-ahead search counts exactly the line-initial occurrences before the separator and keeps the last |
| `HeadScan.HasHeader` | src/mnet_parse.c:257-268 | the Transfer-Encoding search succeeds if and only if there is one |
| `HeadScan.NoOverlap` | src/mnet_parse.c:252-266 | an occurrence of either needle overlaps no other, so skipping its length loses none |
| `HeadScan.AccumulateLoop` | src/mnet_parse.c:270-286 | the digit loop in `size_t` arithmetic that wraps, with its sticky flag |
| `HeadScan.AccumulateExact` | src/mnet_parse.c:281-291 | for every digit string and limit up to `SIZE_MAX - 6` the flag is set iff the true value exceeds the limit, and otherwise the result is that value |
| `HeadScan.ContentLengthGuardIff` | src/mnet_parse.c:281-291 | that guard is right for all digit strings if and only if the limit is at most `SIZE_MAX - 6` |
| `HeadScan.WrapsAbove` | src/mnet_parse.c:281-291 | above that limit 2^64 is read as 0 with the flag clear |
| `HeadScan.ParseLengthLoop` | src/mnet_parse.c:270-292 | blanks, digits, end of line: the length or one of the two errors |
| `HeadScan.ParseHeadersLoop` | src/mnet_parse.c:112-182 | the `strtok_r` loop with its caps stores exactly the specified headers, in arrays of 100 slots |
| `ScanAgreement.ScansAgreeIff` | src/mnet_parse.c:132-268 | `parse_headers` stores as many headers of a name as the search counts if and only if no occurrence stands directly behind a CR, then with the same values in order; it never stores fewer |
| `ScanAgreement.PairedHasNone` | src/mnet_parse.c:136-248 | which holds when every CR is followed by LF |
| `ScanAgreement.StoredIsAll` | src/mnet_parse.c:137-167 | `parse_headers` stores all header lines, and fails exactly if a line is too long or still comes when 100 headers are stored |
| `BareCr.HiddenHeaderIsStored` | src/mnet_parse.c:132-268 | a header joined to another by a bare CR is stored by `parse_headers` and not seen by `read_full_body`: any such request is accepted, without a body |
| `BareCr.ScansDisagree` | src/mnet_parse.c:132-268 | an accepted request with an empty body and a stored Content-Length of 5 |
| `BareLf.CutDecides` | src/mnet_parse.c:192-194 | the same bytes, a head ending in LFLF and a CRLFCRLF behind it, served in two pieces with one header and in one piece with two |
| `ScanAgreement.LengthAgrees` | src/mnet_parse.c:238-292 | the length used for the body is the decimal value of the one stored Content-Length header |
| `ScanAgreement.LengthOfLine` | src/mnet_parse.c:273-291 | the digit scan, which goes on in the buffer, decides exactly what the value of its line says: a plain numeral within the limit, one over it, or neither |
| `Request.ReadMoreTakes` | src/mnet_parse.c:312-340 | the body loop delivers exactly the next bytes of the stream however it is cut, and fails iff there are too few |
| `Request.HeadEndAppend` | src/mnet_parse.c:486-493 | the separator found does not depend on what follows the head |
| `Request.PrefixIncomplete` | src/mnet_server.c:55-59 | no proper prefix of a head looks complete |
| `Request.ParseHeadAppend` | src/mnet_parse.c:186-292 | everything parsed from the head is the same whatever bytes follow it |
| `Request.ParseTakesBody` | src/mnet_parse.c:219-547 | part of the body in the buffer, the rest on the socket: the request is the head's with exactly the announced bytes, and exactly those are consumed |
| `Request.AcceptedPlan` | src/mnet_parse.c:445-547 | every accepted request has the body length and the headers its head announces |
| `Request.AcceptedLength` | src/mnet_parse.c:238-302 | every accepted request whose head has no occurrence behind a CR stores at most one Content-Length; it is a plain number and it is the body's length, and without one the body is empty |
| `Connection.ReadHeadLoop` | src/mnet_server.c:39-60 | the receive loop on the 8192-byte buffer computes the specified buffer and rest of the stream |
| `Connection.ReadHeadFinds` | src/mnet_server.c:39-60 | under every segmentation the loop ends with the whole head in the buffer, and loses none of the bytes behind it |
| `Connection.ReadBodyLoop` | src/mnet_parse.c:312-346 | the receive loop into a fresh block of the announced length |
| `Connection.PlanBodyLoop` | src/mnet_parse.c:238-302 | the three scans together decide on the body as specified |
| `Connection.ScanHeaders` | src/mnet_parse.c:506-530 | the last Cookie header counts, and any `Connection: keep-alive` does |
| `Connection.ParseRequestCall` | src/mnet_parse.c:445-547 | the whole parser, error cases included, and what it leaves on the socket |
| `Connection.Shift` | src/mnet_server.c:144-166 | the in-place move of pipelined bytes to the front |
| `Connection.HandleClient` | src/mnet_server.c:13-168 | the connection loop produces the specified sequence of served and refused requests |
| `Connection.ServeUnfolds` | src/mnet_server.c:18-167 | one turn of it, which always leaves strictly fewer bytes in buffer and stream |
| `Connection.FirstRequestIndependentOfPieces` | src/mnet_server.c:39-118 | for every stream that starts with a head of two words or more (ending in CRLFCRLF, or in LFLF with no CRLFCRLF bufferable behind it) and every split into reads, the first outcome is the one its bytes make: the request with exactly the announced bytes, or the error (bad head, short body, head too long), which is then the last outcome |
| `Connection.ShortLineIff` | src/mnet_parse.c:192-203 | a stream whose head has fewer than two words is answered 400 under every cut if and only if no line break precedes the separator or no cut buffers the missing words |
| `Connection.CutHeadIsNotServed` | src/mnet_server.c:39-72 | a stream that ends inside a head gets nothing served, and an answer only if the buffer is full |
| `Connection.NextBufferIff` | src/mnet_server.c:144-166 | the shift leaves exactly the bytes behind the request if and only if a further CRLFCRLF is buffered and there is no body, or none is and nothing follows |
| `Connection.NothingLostIff` | src/mnet_server.c:144-166 | over every cut of the whole stream, the turn after a kept-alive request starts with exactly what follows it if and only if no bufferable part of its body shows CRLFCRLF and either nothing follows or the request fills the buffer |
| `Connection.SealedServed` | src/mnet_server.c:18-167 | under that condition a stream of such requests, cut in any way, serves exactly these, in order, and goes on with what follows |
| `Connection.ServedAsOneIff` | src/mnet_server.c:144-166 | if no read goes past the end of a kept-alive request, it is served once and the connection goes on with what follows, in whatever pieces, if and only if what can be buffered of its body shows no CRLFCRLF |
| `Connection.KeptAliveServed` | src/mnet_server.c:18-167 | a connection of such requests, each in any pieces of its own (no read goes past the end of one), serves exactly these, in order |
| `Connection.BodyServedAgain` | src/mnet_server.c:144-166 | a buffered body that is itself a body-less keep-alive request is served a second time, as that request |
| `Connection.PipelineInBuffer` | src/mnet_server.c:32-167 | k complete body-less keep-alive requests in the buffer are served in order, each as if alone, and the connection goes on with what follows |
| `Connection.PipelineServed` | src/mnet_server.c:32-167 | the same when they arrive in one read |
| `RequestText.HeadTextParses` | src/mnet_parse.c:112-206 | a request line and header lines written out are a well-formed head, and `parse_headers` returns exactly those headers |
| `RequestText.HeaderReadsBack` | src/mnet_parse.c:145-159 | a header line with any blanks in front of its value is read as that name and value |
| `RequestText.HeadersStored` | src/mnet_parse.c:137-167 | the headers of a request text are stored exactly if there are at most 100 and each line is shorter than 4096 |
| `RequestText.PlanFollowsHeaders` | src/mnet_parse.c:238-302 | for every request text the searches of `read_full_body` decide what the values of its Content-Length and Transfer-Encoding headers say |
| `RequestText.PlanReadsBack` | src/mnet_parse.c:238-302 | a Content-Length header with the body's length makes the server expect exactly the body |
| `RequestText.RequestRoundTrip` | src/mnet_parse.c:445-547 | parsing the text of a request gives back its method, target, headers and body |
| `RequestText.RequestDelivered` | src/mnet_server.c:13-77 | end to end: that request reaches the handler through any segmentation of the stream |
| `RequestText.TextIsKeptAlive` | src/mnet_server.c:144-166 | a text that announces its body and asks to keep the connection open is a kept-alive request |
| `RequestText.TextIsPipelined` | src/mnet_server.c:144-166 | texts of body-less keep-alive requests meet the pipelining theorem's conditions |
| `RequestText.BodyTextServedAgain` | src/mnet_server.c:144-166 | a POST text around a GET text, arriving in one piece: both are served |
| `RequestText.NoHeadersIsBadRequest` | src/mnet_parse.c:197-199 | a request without header lines is refused |
| `Outcomes.TextGets` | src/mnet_parse.c:219-547 | for every request text and every cut, the exact condition on the header values, the bytes behind and the caps for each outcome: duplicate length, transfer coding, malformed length, too large, too many headers, served |
| `Outcomes.OtherWordIsRefused` | src/mnet_parse.c:11-21 | every first word but the seven methods is refused as an unsupported method, whatever the rest of the head |
| `Outcomes.AcceptedWithinLimit` | src/mnet_parse.c:279-302 | no accepted request has a body over the limit, whatever its head |
| `Outcomes.AcceptedWithoutCoding` | src/mnet_parse.c:257-268 | no accepted request shows the handler a Transfer-Encoding, unless it stood directly behind a CR |
| `Outcomes.KeepAliveSeen` | src/mnet_parse.c:525-529 | the connection stays open exactly if some header, wherever it stands and in any case, is `Connection: keep-alive` |
| `Outcomes.CookiesSeen` | src/mnet_parse.c:506-524 | the handler sees the cookies of the last Cookie header as the client wrote them |
| `Outcomes.TargetSeen` | src/mnet_parse.c:533-544 | the handler sees the method, the path in front of the first `?`, the query pairs behind it as the client wrote them, the headers and the body |
| `ClientUrl.ParseUrlLoop` | src/mnet_client.c:77-159 | the pointer scan takes a URL apart as specified, truncations and port rules included |
| `ClientUrl.UrlRoundTrip` | src/mnet_client.c:77-159 | a URL written from scheme, host, port and path is parsed back into them, with port 80 when there is none |
| `ClientUrl.UrlExactly` | src/mnet_client.c:77-159 | for every URL with a host: host and path cut at their buffers, a numeral from 1 to 65535 as the port, and 80 without one or for any other numeral |
| `ClientUrl.NoNumeralPort` | src/mnet_client.c:145-156 | a port with anything in it but leading blanks, one sign and digits counts for nothing |
| `ClientUrl.NoHost` | src/mnet_client.c:100-109 | without a host there is no URL |
| `ClientUrl.PathArrivesIff` | src/mnet_client.c:295-316 | the server reads the path the client meant if and only if it is a non-empty word of at most 2047 bytes |
| `ClientUrl.EmptyPathAsksForVersion` | src/mnet_client.c:295-316 | with an empty path it reads `HTTP/1.1` |
| `ClientUrl.ClientRequestFits` | src/mnet_client.c:297-310 | the request always fits the client's buffer of 4096 characters |
| `ClientUrl.CallIsServed` | src/mnet_client.c:295-316 | the client's request, cut in any way, is served once as the GET it means, and the connection then ends |
| `Response.SendResponse` | src/mnet_dispatch.c:56-139 | the sends together put the specified bytes on the wire, and nothing for an invalid type or a header that does not fit; a NULL body is announced with whatever length was set, and not sent |
| `Response.BlankLineEndsHeader` | src/mnet_dispatch.c:79-108 | for a valid Content-Type the first blank line is the one that ends the header block, whatever the body |
| `Response.StatusBack` | src/mnet_client.c:214-220 | the status code read is the one written, negative ones included |
| `Response.NoStatus` | src/mnet_client.c:214-220 | what does not start like a status line has status 0 |
| `Response.ReadAllLoop` | src/mnet_client.c:183-204 | the receive loop with its doubling buffer |
| `Response.FindBody` | src/mnet_client.c:222-234 | the search for the blank line |
| `Response.BodyStartIsFirst` | src/mnet_client.c:222-234 | the body starts behind whichever blank line, CRLFCRLF or LFLF, comes first, and without one there is none |
| `Response.ReadResponseCall` | src/mnet_client.c:170-250 | the client reader as a whole, failure on an empty or broken-off stream included |
| `Response.BrokenStreamFails` | src/mnet_client.c:183-212 | a stream that breaks off before enough is read, or an empty one, gives no response |
| `Response.ResponseRoundTrip` | src/mnet_client.c:170-250 | reading what `send_response` wrote, cut in any way, returns the status and the body, up to the client's cap of 16 MiB (for HEAD an empty one) |
| `Response.ChunksDecode` | src/mnet_dispatch.c:123-135 | the chunked framing is a valid chunked coding (section 7.1 of RFC 9112): decoding it gives the body |
| `Response.ChunkedIsReadRaw` | src/mnet_client.c:222-249 | the client returns a chunked body with its framing, up to its cap |
| `Framing.HeadersOnWire` | src/mnet_dispatch.c:86-108 | a reader of header lines finds exactly three: Content-Length with the length, or for a chunked reply and no other Transfer-Encoding; the type as given; and the connection option |
| `Framing.FramedBodyIsRead` | src/mnet_dispatch.c:86-138 | a reader that follows that framing gets exactly the body, and for a length stops where it ends |
| `Framing.HeadIsGetWithoutBody` | src/mnet_dispatch.c:110-138 | to HEAD the same header block is sent as to GET, and nothing behind it |
| `Framing.NothingOnWireIff` | src/mnet_dispatch.c:79-108 | nothing is sent exactly if the type holds a control character or the header does not fit |
| `Framing.StatusLineOnWire` | src/mnet_dispatch.c:59-99 | the wire starts with the version, the code and the phrase that belongs to it |
| `StaticRoot.InsideIsBeneath` | src/mnet_handlers.c:167-174 | on canonical paths the character test succeeds if and only if the root's segments are a prefix of the path's |

## Left out

- Routes.RouteMatch: asks that a failing match has captured no more values than there are slots, because the
  code then releases as many slots as it has counted. Every route with up to 16 captures meets this.
- Routes.App.FindRoute: what dispatch does with a matched route of more than 16 captures, whose last values
  are counted but not stored, is not modelled.
- Routes.NamesAlign: the only-if half leaves out names with `*`, where equal lists can come about by accident.
- Routes.App.AddRoute: does not model allocation failure and the release of the names.
- Query.ParseQueryString: does not model allocation failure and the release of partly built arrays.
- Cookies.ParseCookiesLoop: does not model allocation failure and the release of partly built arrays.
- HeadScan.ParseHeadersLoop: does not model allocation failure and the release of stored strings; `free_extras`
  is not part of this model either.
- Router.PathDecodeInvertsEncode: a decoded NUL is a byte like any other here; a C reader of the value stops
  at it.
- Jsonf.RenderLoop: numeric and floating-point conversions end the model with the outcome `Other`; a precision
  above `INT_MAX` overflows in C and is an unbounded number here; failing allocations are not modelled.
- Connection.FirstRequestIndependentOfPieces: where a CRLFCRLF can be buffered behind a head that ends in LFLF
  the outcome can depend on the cut (`BareLf.CutDecides`), and no rule for the single cuts is given; for heads of
  fewer than two words see `Connection.ShortLineIff`.
- Connection.NothingLostIff: heads that end in CRLFCRLF, as `Connection.KeptAlive` asks; for LFLF only the first
  outcome is covered.
- Connection.KeptAliveServed: a read that goes past the end of a request is covered by
  `Connection.NothingLostIff`, and for whole body-less requests by `Connection.PipelineServed`.
- Response.ReadAllLoop: a receive interrupted by a signal (`EINTR`) is repeated and leaves no trace; failing
  allocations are not modelled.
- Response.ReadResponseCall: that `mnet_call` drops the body of a status from 400 on is not modelled.
- Response.StatusBack: `atoi` of numbers outside `int` is not modelled.
- Conversions of lengths to `int` (the decoder's result, `out_count`) are unbounded here.
- Sockets, DNS, `poll`, partial sends and the Win32 variants; sends append all their bytes.
- Clocks: for the server a deadline that passes, an error and a close are the same end of the stream.
- The single-threaded accept loop (`workers <= 1`) and a start where no worker thread can be created.
- A `cond_signal` that wakes several sleepers is covered as one signal and spurious wakeups.
- The status code and text each refusal is answered with (src/mnet_server.c:62-118); refusals are named by their cause.
- User handlers and middleware; the welcome page, MIME types, logging, configuration setters, error texts.
- `realpath`, symbolic links and file reading; canonical paths are inputs of `StaticRoot`.
