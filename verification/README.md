# BHTTP/1, modelled and proved

BHTTP/1 is a small binary request/response protocol: a 12-byte frame header, four frame types, a
static header table, and one persistent connection on which requests are answered in order. This
project models the Go implementation from the byte stream up (framing, message codec, path rules and
file lookup, server loop, client), the two tools that sit on a connection (the passive tap and the
chaos proxy), the server's connection lifecycle, and the request parser of the independent Python
server.

`dafny verify dfyconfig.toml` checks everything.

## How it is built

Code that works step by step is a method over a connection (`Source`, `Sink`), a cursor, a buffer or
an object's fields. A `Source` hands over its bytes in pieces of arbitrary size; a `Sink` may accept
part of a write or fail. Each method is proved against a function of the whole byte stream, and the
theorems are about those functions. So every statement below holds for every chunking.

- `Bytes`, `Transport`: bytes and big-endian numbers; the two ends of a connection.
- `Frames`, `FrameIO`: `Chop`, the pure split of a stream into whole frames and a tail, and the
  reader and writer measured against it.
- `Headers`, `Messages`, `MessageIO`: header blocks as raw headers and as the list a receiver keeps;
  payloads as functions; the same codec as cursor loops and growing buffers.
- `Utf8`, `Paths`, `Resolver`: which request paths are looked at, and which places can be opened.
- `Lengths`, `Exchanges`, `Server`: the content-length rule; what a server owes each frame; its loop.
- `Replies`, `Client`: what a client makes of a stream; the client object.
- `EndToEnd`, `Runs`: client and server over the bytes between them.
- `PythonServer`, `OneVerdict`, `Verdicts`: the second parser, the proof that both parsers reach one
  verdict, and what that means for the server's answers.
- `Taps`, `Hexdump`: the re-framer, the text it prints, and the script that reads it back.
- `Chaos`, `Proxied`: the proxy's pump, and what a client behind it makes of a stream.
- `ZeroFill`, `CutAnswers`: payloads whose last bytes stand as zeros, and which answers a client behind
  the pump accepts although they were cut off.
- `Lifecycle`: Serve, handlers and Close as interleaved steps around one mutex.

## Main results

1. **Whole runs.** For any requests that can be built, numbered within the id space, and any file
   tree whose files hold the bytes they announce, successive `Get` calls fed with the bytes the
   server writes return, in order, exactly the status and body the tree assigns to each path. The
   client ends unbroken and reads not one byte beyond the answers (`Runs.FetchAll`). The server,
   sent the frames that client sends, writes those bytes (`Runs.ServerWritesThat`,
   `Server.Handle`).
2. **Truncation is never taken for completion.** Cut an accepted reply at any byte and the client
   reports that the connection ended, with at most a prefix of the body written. A file shorter than
   announced is never ended with END_STREAM and arrives as error 3.
3. **The server's output is disciplined** for every input: one exchange per accepted frame, in order,
   never interleaved, then at most one ERROR, and none about an ERROR.
4. **Two parsers, one verdict**: for every REQUEST on a valid stream and every file system, the Go
   server answers 400 exactly when the Python parser raises Malformed
   (`Verdicts.TwoServersOneVerdict`).
5. **The tap agrees with the blocking reader** for every cutting of the stream and loses nothing. What
   it prints reads back to exactly the frames it showed if and only if it showed no unframed bytes
   after a frame (`Hexdump.TapReadsBack`). Otherwise the reading script takes those bytes for the end
   of the frame before them (`Hexdump.LeftoversAreMisread`); `Hexdump.LogIsRead` says what it makes of
   any log.
6. **The chaos pump.** A reader behind it sees the same frames and the same end exactly when the
   server's stream ends between frames in an orderly way, or has an oversized header, or uses stream
   zero earlier (`Chaos.PumpIsInvisible`, both ways). So whole runs through the proxy give the same
   statuses and bodies (`Runs.FetchThroughPump`). The proxy promises that a correct client notices
   nothing. That is false of an answer cut off on the server's side: a partial header is dropped, and
   a partial payload is sent at full length, filled up with zeros. The exact condition, for whatever the
   server sends because of a frame, every cut and every noise (`CutAnswers.CutAnswerBehindPump`): the
   client accepts the cut answer if and only if it was complete and the missing bytes all belong to its
   last field. That field is the last DATA payload, or the eight bytes of the server's name where there
   is no body (a status, an empty file). The client is then given zeros for the bytes that never came.
   `CutAnswers.CutDownloadLooksWhole` and `CutAnswers.CutStatusLooksWhole` are failing inputs of both
   kinds. Without the proxy no cut answer is accepted.
7. **Lifecycle safety** over all interleavings of any number of Serve calls, handlers and Close
   calls, although `untrack` is not one atomic step. And Close returns: the calls already made can take
   only so many steps, and while a Close is waiting some such step can be taken. Before closed is set,
   that leaves out what a listener brings to Serve, which has no end; once it is set, it is included, and
   when no step is left every call has returned and every connection is closed
   (`Lifecycle.CloseReturns`, `Lifecycle.StuckIsOver`).
8. **A file that comes up short** ends a run as it should: the answers before it are as assigned, the
   Get that meets it reports the server's error 3 with at most a prefix of the file written, the
   client is broken and sends nothing back (`Runs.FetchUpToShort`, `Runs.ServeUpToShort`).

## Model

| member | source | states |
|---|---|---|
| Transport.Source.ReadFull | internal/frame/reader.go:19-24 | Whatever the pieces, exactly n bytes arrive, or all there were; a plain end, an end midway and a failure are told apart. |
| Transport.Sink.WriteAll | internal/frame/writer.go:16-30 | Under any pattern of short writes all of b goes out; on failure a prefix of it did. |
| Frames.ImageIsFrame | internal/frame/frame.go:67-82 | The wire image of a frame is one whole frame that parses back to it. |
| Frames.ChopFlatten | internal/frame/reader.go:16-59 | A stream splits into whole frames and a tail in only one way. |
| Frames.ChopAppend | internal/wire/tap.go:95-116 | Splitting in two instalments, carrying the tail over, is splitting at once. |
| Frames.ReadAllIsJudge | internal/frame/reader.go:16-68 | Iterated reading is the split stream judged frame by frame, with the tail deciding the outcome. |
| Frames.WrittenIsRead | internal/frame/reader.go:16-68 | Frames written, with any unknown frames between them, are exactly the frames read, and then a clean end. |
| Frames.CutIsNoticed | internal/frame/reader.go:61-68 | A stream cut at any byte yields the frames before the cut, then a clean end at a boundary and Truncated anywhere else. |
| FrameIO.Encode | internal/frame/frame.go:67-82 | Succeeds exactly on frames a conforming peer accepts, and fills the buffer with their wire image. |
| FrameIO.Write | internal/frame/writer.go:8-30 | Sends the whole image; on failure a prefix of it; nothing at all for a frame it refuses. |
| FrameIO.Read | internal/frame/reader.go:16-59 | For every chunking, returns the next frame of a known type or the right error, and leaves exactly the bytes behind it. |
| Headers.TableIsBijective | internal/protocol/headers.go:18-37 | Identifiers and table names determine each other. |
| Headers.OnePassIsTwo | internal/protocol/headers.go:112-175 | Rejecting at the first bad header is the same as taking all raw headers and then applying the name rules. |
| Headers.BlockCanonical | internal/protocol/headers.go:112-175 | An accepted block is its count and its raw headers, byte for byte, and the list is what the rules keep of them. |
| Headers.ModeInclusion | internal/protocol/headers.go:102-175 | What strict names accept, structural names accept with the same list and the same bytes used. |
| Headers.ModeDifference | internal/protocol/headers.go:145-155 | A block accepted structurally is accepted strictly iff its custom names are well formed and not in the table. |
| Headers.ForwardCompatible | internal/protocol/headers.go:109-175 | Inserting unassigned ids anywhere, or for a client custom headers with table names, changes nothing in the decoded list. |
| Headers.PrintedBlockParses | internal/protocol/headers.go:74-97 | Every list that prints reads back as itself in both modes, whatever follows it. |
| Headers.ParsedBlockReprints | internal/protocol/headers.go:74-175 | What a strict parse kept can be printed, no longer than it was, and to the same bytes unless ids of 9 or above were dropped. |
| Messages.RequestRoundTrip | internal/protocol/messages.go:13-72 | Whatever Encode builds decodes to the same request. |
| Messages.RequestCanonical | internal/protocol/messages.go:13-72 | A decoded payload of legal size re-encodes, decodes to the same request, and to the same bytes if no id was 9 or above. |
| Messages.ResponseRoundTrip | internal/protocol/messages.go:81-114 | Every response that encodes decodes to itself. |
| Messages.ErrorRoundTrip | internal/protocol/messages.go:131-160 | Every connection error that encodes decodes to itself. |
| Messages.ErrorCanonical | internal/protocol/messages.go:131-160 | Every accepted error payload re-encodes to the same bytes. |
| MessageIO.Cursor.Take | internal/protocol/protocol.go:44-51 | Yields the next n bytes or refuses without moving; never reads past the end. |
| MessageIO.EarlyCountCheck | internal/protocol/headers.go:117-121 | The early count check rejects only blocks the loop would reject. |
| MessageIO.ReadHeaders | internal/protocol/headers.go:112-175 | The cursor loop accepts exactly the blocks the description accepts, with the same list and the same rest. |
| MessageIO.AppendHeaders | internal/protocol/headers.go:74-97 | Succeeds exactly on printable lists and appends their block to dst. |
| MessageIO.IsCustomName | internal/protocol/headers.go:59-72 | True exactly of 1 to 255 bytes from the allowed alphabet. |
| MessageIO.DecodeRequest | internal/protocol/messages.go:38-72 | Accepts exactly the well-formed request payloads. |
| MessageIO.DecodeResponse | internal/protocol/messages.go:96-114 | Accepts exactly the well-formed response payloads. |
| MessageIO.DecodeConnError | internal/protocol/messages.go:142-160 | Accepts exactly the well-formed error payloads, keeping unknown codes. |
| MessageIO.EncodeRequest | internal/protocol/messages.go:13-36 | Succeeds exactly on buildable requests and gives their payload. |
| MessageIO.EncodeResponse | internal/protocol/messages.go:81-94 | Succeeds exactly on buildable responses and gives their payload. |
| Paths.ReservedIsDevice | internal/server/resolver.go:82-96 | The length, prefix and digit tests recognise exactly the reserved device names, whatever the case and the extension. |
| Paths.CheckPath | internal/server/resolver.go:51-78 | Accepts exactly the paths that start with a slash, are UTF-8, have no double slash, no special byte and no bad segment. |
| Paths.SplitThenDecode | internal/server/resolver.go:61-76 | Splitting bytes at an ASCII separator and decoding commute. |
| Resolver.AcceptedIsHarmless | internal/server/resolver.go:61-76 | No segment of an accepted path is `.`, `..`, or contains a slash. |
| Resolver.JoinAddsSegments | internal/server/resolver.go:106-109 | Trimming and joining an accepted path adds exactly its non-empty segments to the root. |
| Resolver.RelLeadsOut | internal/server/resolver.go:150-153 | The relative path begins with `..` exactly when the root is no segment prefix of the target. |
| Resolver.Within | internal/server/resolver.go:145-155 | For every link-resolving function, passes exactly the places at or below the root. |
| Resolver.Open | internal/server/resolver.go:101-141 | Gives the lookup the mapping describes; every place handed to os.Open, the index included, has the root as a prefix; a bad path opens nothing. |
| Lengths.DecimalDenotes | internal/server/request.go:91 | The decimal form of a size is digits that denote it. |
| Lengths.NineteenDigitsIsTight | internal/client/client.go:202-214 | Every non-negative int64 has 1 to 19 digits, and the largest needs 19. |
| Lengths.CheckLength | internal/client/client.go:196-219 | Succeeds iff every content-length is 1 to 19 digits whose value is the number of bytes that arrived. |
| Lengths.OnlyTheTableHeaderCounts | internal/client/client.go:196-219 | Only headers sent under table id 2 take part; no custom header can influence the check. |
| Exchanges.FullBody | internal/server/request.go:98-115 | A full file goes out in ceil(size/16384) frames, all but the last full, none empty, END_STREAM on the last only, together the file. |
| Exchanges.ShortBody | internal/server/request.go:98-104 | A file that comes up short is sent in whole chunks only, and its stream is never ended. |
| Exchanges.FileShape | internal/server/request.go:88-116 | A file's exchange is whole iff the file holds its size; otherwise it is cut with the stream left open. |
| Exchanges.ServerIsDisciplined | internal/server/server.go:157-245 | For every input: one whole exchange per accepted frame, in order, on its stream, then at most one ERROR, last; a cut body ends the run with its ERROR. |
| Exchanges.ErrorIsNeverAnswered | internal/server/server.go:187-209 | If an ERROR, oversized or not, ends the input and no body before it came up short, no ERROR goes out. |
| Exchanges.AnswerReports | internal/server/request.go:27-58 | The status of an answer: 400 for wrong flags, a malformed payload or a bad path, 404 for a miss, 500 for a failure, 200 for a file. |
| Server.SendBody | internal/server/request.go:98-115 | The loop writes exactly the body's frames, and reports a short file as such. |
| Server.SendFile | internal/server/request.go:88-116 | Writes the whole exchange of a file, or a prefix if the writer fails, whatever pieces the file is read in. |
| Server.ServeRequest | internal/server/request.go:27-58 | Writes the answer the path's lookup calls for: 400, 404, 500 or the file. |
| Server.OnReadError | internal/server/server.go:194-218 | Stream zero and oversized frames are reported, except an oversized ERROR; all other ends are silent. |
| Server.Handle | internal/server/server.go:157-192 | Writes exactly the output owed to the input stream, for every chunking; a failing writer leaves a prefix of it. |
| Replies.CutFramesFail | internal/client/client.go:100-134 | Of an accepted reply, any strict prefix of its frames fails, with only a prefix of the body written. |
| Replies.TruncatedReplyFails | internal/client/client.go:100-134 | Cut the bytes of any accepted reply anywhere: the client reports that the connection ended. |
| Replies.AlarmMeansNoError | internal/client/client.go:137-192 | A client that sends an ERROR has received none, oversized ones included. |
| EndToEnd.FileIsRead | internal/client/client.go:100-134 | A whole file is read as its size and its bytes, from all the frames sent for it. |
| EndToEnd.ShortFileIsReported | internal/server/server.go:220-230 | A short file carries no END_STREAM and is reported as the server's error 3. |
| EndToEnd.CutExchangeFails | internal/client/client.go:100-134 | A 200 exchange cut at any byte fails at the client, with at most a prefix of the file written. |
| EndToEnd.AnswerToRequest | internal/server/request.go:27-116 | The answer to any buildable request reads as the status and body the tree assigns to its path. |
| EndToEnd.RequestsAreAnswered | internal/server/server.go:166-192 | Requests are answered one after another, whatever follows them on the wire. |
| EndToEnd.WholeRun | internal/client/client.go:67-134 | The server's output for any list of requests, read reply by reply, is what the tree assigns, with nothing left over. |
| EndToEnd.AnswersComeAsAsked | internal/server/server.go:166-192 | Output for the requests so far is a prefix of the output for all, and already holds every reply to them. |
| Runs.AnswersAreOnCourse | internal/client/client.go:100-134 | Wherever the answers to a list of requests are what is read first, each Get finds the reply the tree assigns, and then the rest is left. |
| Runs.FetchAll | internal/client/client.go:67-98 | Successive Gets return exactly the assigned statuses and bodies; the client is not broken, sent the matching requests, and left the bytes behind the answers unread. |
| Runs.ServerWritesThat | internal/server/server.go:157-192 | A server sent those requests writes exactly the bytes the client was fed. |
| Runs.FetchThroughPump | internal/chaos/chaos_test.go:95-118 | The same Gets through the proxy, for every noise: the same results, and nothing but noise left to read. |
| Runs.ServeUpToShort | internal/server/server.go:220-230 | When one request of many meets a short file, the server's output is the answers before it, the cut exchange and one ERROR. |
| Runs.FetchUpToShort | internal/client/client.go:67-98 | Fed with that, the Gets before it succeed as assigned; the one that meets it reports error 3, writes at most a prefix of the file, and leaves the client broken. |
| Client.HistoryOfRequest | internal/client/client.go:75-90 | A new request keeps the ids positive and strictly increasing and leaves no unexplained gap. |
| Client.HistoryOfShown | internal/client/client.go:137-192 | After any reply at most one ERROR has been sent, last, and then the client is broken. |
| Client.Client.SendError | internal/client/client.go:229-236 | Sends the one ERROR frame the fault calls for. |
| Client.Client.ReadFrame | internal/client/client.go:171-192 | The next frame, or the error it maps to together with the ERROR owed for it. |
| Client.Client.Expect | internal/client/client.go:137-151 | Accepts only the awaited type on the awaited stream; an ERROR is never answered. |
| Client.Client.ReadBodyFrames | internal/client/client.go:113-127 | The loop's result, body, ERROR and bytes left are those of the reply ahead in the stream. |
| Client.Client.ReadResponse | internal/client/client.go:100-134 | The same for a whole response, for every chunking; a failing body writer holds a prefix of the body. |
| Client.Client.Get | internal/client/client.go:67-98 | Keeps ids increasing and never wrapping, with gaps only where Encode failed; broken never clears and nothing is sent after; otherwise the reply ahead decides. |
| PythonServer.ParseHeadersPy | tests/interop/python_server/bhttp_server.py:111-142 | The loop over absolute positions parses exactly the described header list. |
| PythonServer.ValidPath | tests/interop/python_server/bhttp_server.py:85-108 | Accepts exactly the paths its rules, stated on decoded text, allow. |
| PythonServer.ParseRequestPy | tests/interop/python_server/bhttp_server.py:145-165 | Accepts exactly the described requests. |
| OneVerdict.SameHeaders | tests/interop/python_server/bhttp_server.py:111-142 | Both parsers accept the same header blocks, end at the same byte and read the same headers. |
| OneVerdict.SamePaths | tests/interop/python_server/bhttp_server.py:85-108 | Path rules on text and path rules on bytes accept the same paths. |
| OneVerdict.TwoParsersOneVerdict | tests/interop/python_server/bhttp_server.py:145-165 | For every flags byte and payload, Go's checks on flags, payload and path fail iff Python raises Malformed; otherwise both read the same request. |
| Verdicts.TwoServersOneVerdict | internal/server/request.go:30-42 | For every REQUEST on a valid stream and every file system, the server answers 400 iff the Python parser raises Malformed. |
| Taps.Framer.Feed | internal/wire/tap.go:95-116 | Frames shown, raw bytes shown and bytes kept depend on all the bytes fed, never on how they were cut. |
| Taps.Framer.Flush | internal/wire/tap.go:118-123 | Reports leftovers exactly when the blocking reader ends in Truncated, and exactly the bytes of the cut frame. |
| Taps.TappedConn.Read | internal/wire/tap.go:56-62 | The reader gets the connection's bytes unchanged, the tap sees exactly those, and the other direction is untouched. |
| Taps.TappedConn.Write | internal/wire/tap.go:64-70 | The same for writing, short writes included. |
| Taps.NothingIsLost | internal/wire/tap.go:95-123 | Frames shown, raw bytes shown and bytes kept are, in order, exactly the bytes fed. |
| Taps.ShownIsRead | internal/wire/tap.go:95-123 | The reader, resuming after stream zero, yields exactly the acceptable frames among those shown, and ends as the tail says. |
| Taps.TapAgreesWithReader | internal/wire/tap.go:95-116 | The tap gives up iff the reader meets an oversized header. |
| Hexdump.WriteRows | internal/wire/tap.go:183-210 | The nested loops print 16 bytes a row, with a gap after 8, a padded last row and a text column. |
| Hexdump.RowReads | examples/hexdump/annotate.py:152-154 | Every row reads back to its bytes, whatever bars its text column holds. |
| Hexdump.RowsRead | examples/hexdump/annotate.py:139-155 | All rows of a payload together read back to the payload. |
| Hexdump.LogIsRead | examples/hexdump/annotate.py:139-155 | Exactly what the reading script makes of any log: each frame with its direction, its number and its bytes, followed by the unframed bytes shown behind it, up to the preview. |
| Hexdump.TapReadsBack | internal/wire/tap.go:125-152 | What a tap has printed reads back to exactly the frames it showed iff no unframed bytes were shown after a frame. |
| Hexdump.LeftoversAreMisread | examples/hexdump/annotate.py:152-154 | A frame followed by leftovers reads back as one longer frame. |
| Hexdump.CaptureReadsBack | examples/hexdump/annotate.py:139-155 | A log of whole frames, either way, reads back to exactly those frames, with directions and numbers. |
| Chaos.Pump.WriteChunked | internal/chaos/chaos.go:188-204 | All of b goes out in order, in non-empty pieces none longer than the chunk size, or in one piece without one; each piece is counted; on failure a prefix went out. |
| Chaos.Pump.Inject | internal/chaos/chaos.go:167-180 | Sends one whole frame of an unknown type and counts it. |
| Chaos.Pump.CopyRaw | internal/chaos/chaos.go:148-159 | Passes all remaining bytes on unchanged. |
| Chaos.Pump.Run | internal/chaos/chaos.go:111-146 | Relays exactly the server's whole frames in order; with noise on, one unknown frame stands right before each and one right after each that ends a stream, and nothing else; then what is made of the tail. |
| Chaos.PlacedMeans | internal/chaos/chaos.go:131-143 | Pieces so placed relay exactly the frames and hold exactly the number of unknown frames counted. |
| Chaos.NoiseIsSkipped | internal/chaos/chaos.go:164-180 | Unknown frames between the real ones change nothing a reader sees. |
| Chaos.PumpIsInvisible | internal/chaos/chaos.go:111-146 | A reader behind the pump sees the same frames and the same end iff the stream ends between frames in order, is oversized, or uses stream zero before. |
| Chaos.CutFrameLooksWhole | internal/chaos/chaos.go:124-128 | A frame cut off reads as truncated, and behind the pump as a whole frame and a clean end. |
| Proxied.CutIsRead | internal/chaos/chaos.go:111-146 | What is read behind the pump of any frames cut off at any byte: the frames before the cut, and the cut one filled up with zeros if its header came through. |
| Proxied.SameReply | internal/client/client.go:100-134 | A client checks lengths and not contents: an accepted reply stays accepted whatever the bytes of its DATA frames are turned into. |
| Proxied.CutReplyBehindPump | internal/client/client.go:100-134 | Any accepted reply with a body, cut off on the server's side of the pump, is accepted iff the cut falls in or right before the last payload; zeros stand for what is missing. |
| Proxied.WholeRunThroughPump | internal/chaos/chaos_test.go:95-118 | Whatever noise is injected, the replies read behind the pump are those the tree assigns, in order, with nothing left over. |
| ZeroFill.CutHeaders | internal/protocol/headers.go:112-175 | A list of table headers that lost its last bytes to zeros parses to its end iff they all belong to the last value, which is then filled up. |
| ZeroFill.CutResponse | internal/protocol/messages.go:96-114 | The same for a whole response payload, cut anywhere, in the status and the count as well. |
| CutAnswers.CutIsRefusedAlone | internal/client/client.go:100-134 | Without the pump, no strict byte prefix of an accepted reply, or of frames that never end a stream, is accepted. |
| CutAnswers.CutAnswerBehindPump | internal/chaos/chaos.go:124-128 | Whatever is owed to a frame, cut at any byte on the server's side, with every noise: accepted iff the answer was complete and the missing bytes all belong to its last field, DATA payload or server name; zeros stand for them. |
| CutAnswers.CutDownloadBehindPump | internal/chaos/chaos.go:124-128 | The same for every download of every file, empty ones included, with the result and the body the client is given; without the pump none of them is accepted. |
| CutAnswers.CutDownloadLooksWhole | internal/chaos/chaos.go:124-128 | A one-byte file whose byte never came is accepted as whole, with a zero for it. |
| CutAnswers.CutStatusLooksWhole | internal/chaos/chaos.go:124-128 | A status reply without its last byte is accepted, with a zero at the end of the server's name. |
| Lifecycle.StepKeeps | internal/server/server.go:76-147 | Every step of every party keeps mutual exclusion, the meaning of the three counts, custody of connections and what each Close has achieved. |
| Lifecycle.CountsAreOrdered | internal/server/server.go:129-147 | Unless a connection is just being added under the mutex, the number of tracked connections is at most current, and current at most the wait group's count. |
| Lifecycle.NothingTrackedOnceClosed | internal/server/server.go:107-139 | Once closed is set it stays, nothing is tracked, and the counts only fall. |
| Lifecycle.ClosedBeforeUntracked | internal/server/server.go:141-159 | A connection leaves the map only by its own handler, which has closed it before. |
| Lifecycle.CloseIsFinal | internal/server/server.go:107-121 | When any Close returns, the map and both counts are empty, no handler is left, and every connection is closed or about to be refused, in that state and in every later one. |
| Lifecycle.NoDeadlock | internal/server/server.go:107-147 | While a Close has not returned, some call already made can take a step. |
| Lifecycle.MovesLower | internal/server/server.go:76-147 | Every step of a call already made leaves strictly less work; the steps that wait for a listener too, once closed is set. |
| Lifecycle.StuckIsOver | internal/server/server.go:76-159 | In a closed state no such step is left iff every Serve, Close and handler has returned, every connection is closed and all counts are empty. |
| Lifecycle.CloseReturns | internal/server/server.go:107-121 | However those steps are scheduled there are only so many of them; when none is left every Close has returned, and if closed was set everything is over. |

## Left out

- Sockets, deadlines, idle timeouts, half-close and the timed drain; a connection is the bytes that arrive, how they stop, and a writer.
- Readers that return no bytes and no error; `Source.Read` makes progress until the stream stops.
- The file system itself: link resolution, Stat, Open and error classes are arbitrary functions, and a file tree does not change during a run.
- `filepath` beyond one separator: Windows volumes and separators.
- Unicode case mapping in device names: an ASCII fold, since no letter outside ASCII maps to one of those names.
- The MIME table (any text of at most 255 bytes), logging, and the texts of errors that do not go on the wire.
- `Server.Fail`: does not model what happens to the connection after the ERROR, because that is the drain.
- `Client.Client.SendError`: does not model the drain after the ERROR; the client is broken from then on and reads nothing more.
- `Client.Client.Get`: counts body bytes without the int64 limit, because no body reaches it.
- `Client.Client.ReadBodyFrame`: the body writer keeps the io.Writer contract, so a write takes everything or fails; it is modelled by the same retrying write as a connection.
- `Chaos.Pump.WriteChunked`: a connection's Write takes everything or fails, as net.Conn promises; the source relies on it and so does the model.
- `Chaos.Pump.Inject`: the choices of the random generator are free, over all reserved bytes and all stream ids rather than the few it draws.
- The pauses, the goroutines and the untouched request direction of the chaos proxy.
- The captions the tap prints behind a frame's number; they are free text.
- `Hexdump.TapReadsBack`: the lines of a log are a function of it; only the row printer inside them is modelled as the loops it is.
- The script's regular expressions, which are modelled as recursive readers of the same lines.
- Listeners in the lifecycle: Accept may succeed or fail at any time, and the pause behind a failed Accept is left out.
- `Lifecycle.CloseReturns`: leaves out new calls and, before closed is set, what a listener brings to Serve (`Accept`, `AcceptFails`, `ListenerGone`), because that can go on for ever; a handler's work between accepting and closing its connection is one step.
- The server's shared fields are a state machine on values rather than a class, because several goroutines change them in turn.
- Loop bodies are methods of their own where a proof needed it (`Turn`, `Step`, `ReadHeader`, `ReadBodyFrame`, `SendBody`, `WriteCells`).
- `Runs.FetchAll`: keeps all bodies in one writer, because the bodies are compared in order.
- The Python client, which is not equal to the Go client: it counts a custom header named content-length and has no limit of 19 digits.
- Argument handling and exit codes of the commands.
