# Verified model of the gRPC downgrade transports

The repository carries gRPC over transports that cannot carry HTTP/2 trailers. It has two
re-framings of the same length-prefixed byte stream (gRPC-Web and gRPC over WebSocket) and a
few small concurrent building blocks. This project models both re-framings, from the handler's
writes on the server to the bytes, headers and trailers a client sees, and proves what they
promise for every input, every chunking and every interleaving.

| files | what they model |
|---|---|
| `Framing.dfy`, `HeaderBlock.dfy` | frames with a 5-byte header; `Name: value` blocks, written and parsed |
| `TrailerCollection.dfy` | the range loop over a header map that is changed on the way |
| `GrpcWebWriter.dfy`, `GrpcWebReader.dfy` | `responseWriter` and `responseReader` as classes, and their specifications |
| `GrpcWebScan.dfy`, `GrpcWebRuns.dfy`, `GrpcWebLiveness.dfy`, `GrpcWebVerdict.dfy`, `GrpcWebTheorems.dfy`, `GrpcWebRoundTrip.dfy` | the incremental scanner against one-shot parsing, invariants over whole runs, when runs end and in which error, and the theorems |
| `WebSocketWrite.dfy`, `WebSocketReader.dfy`, `WebSocketBarrier.dfy` | the frame cutter, the server's request body, and its two goroutines |
| `WebSocketWriter.dfy`, `WebSocketProxy.dfy`, `WebSocketReceive.dfy`, `WebSocketRoundTrip.dfy` | the server's response writer, the client's receive loop, and both together |
| `ErrorArbitration.dfy` | the two goroutines of the client proxy and the error they report |
| `Utf8.dfy`, `PercentEncoding.dfy` | the `grpc-message` encoder |
| `Signal.dfy`, `PipeListener.dfy` | the lock-free signal and the in-memory listener |

Objects whose methods update fields are classes. Each method is proved equal to a
specification function on values, and the theorems are about those functions. Concurrent code
is a transition system with one step per atomic action, and the theorems range over every
sequence of enabled steps.

## How the outside world enters

- An underlying reader is a fixed byte string that ends cleanly or with an error. A `Choice`
  per call says how many bytes it returns and whether it reports the end as soon as nothing is
  left, with the last bytes or after them. What holds of every run holds for all choices and all
  buffer sizes. That a run gets to its end is stated for every `Fair` run: the caller offers
  non-empty buffers, and the underlying reader returns a byte while it has one and its end once it
  has none. Readers that report EOF with their last bytes and readers that report it afterwards
  are both fair.
- Ranging over a map is a sequence `visits` of produced keys. `Legal` admits exactly what the Go
  specification allows: each entry present from the start and not removed is produced once, and
  an entry created on the way is produced once or not at all.
- `http.Header.Write` and `textproto.Reader.ReadMIMEHeader` are modelled by a concrete codec
  (section 3.2 of RFC 7230): names that are not tokens are dropped, line breaks in values become
  blanks, values are trimmed, continuation lines are joined, a value with a control character or a
  bad name is rejected, a name with blanks is kept as it is, and input that ends before the blank
  line is a third outcome. The writer
  takes the names in a given `order`; the source sorts them, and the theorems hold for any order.
- Lengths are unbounded; the conversion to `uint32` is the explicit `%` in `Framing.PutU32`, and
  the round trips ask for header blocks shorter than 2^32 bytes. Nil and empty maps are one
  value. Nil and empty slices are kept apart where the code tests for it: the announced trailers
  are an `Option`.
- The WebSocket connection is a sequence of answers, or a number of messages it takes before it
  fails.

## Where the code and its documentation differ

- **A clean EOF does not always mean nothing followed.** When the header parser runs out of input
  on a trailer frame, the stashed bytes stay and the error is rewritten to nil
  (`internal/grpcweb/response_reader.go:84-88`), so the next call starts over.
  `ExtraBytesExactly` shows that a trailer frame protects against any extra bytes if and only if
  the parser does not run out on its payload. `ExtraBytesAccepted` gives the bytes that slip
  through, and `TerminatedNeverHitsEof` shows that an empty or newline-terminated payload is
  enough.
- **A reader can hang.** For the same reason a caller that keeps reading need not get to an end.
  `EndsExactly` gives the condition for every stream: all fair runs end if and only if the first
  attempt on the trailer bytes, whether the frame is complete or cut short, does not leave the
  parser out of input. The failing inputs are ordinary ones. `UnterminatedRunsOut` and
  `UnterminatedHangs` cover every readable trailer block sent without its last line break,
  `CutOutputHangs` every response of the repository's own writer that loses its last two bytes,
  and `ShortestHang` the eight bytes `80 00 00 00 03 'a' ':' 'b'`.
- **"Headers already written" is not what `announcedTrailers` tells.** The comment at
  `internal/grpcweb/response_writer.go:30-32` says it is non-nil then; `ShallowClone(nil)` is nil.
  `CleanEofExactly` says exactly which responses a client can read to the end. The WebSocket
  writer sends its header a second time, as trailers: `UnannouncedRepeatsHeader` says which names
  and values, `OnlyTrailersExactly` exactly when nothing but trailers is sent, and
  `ContentTypeSentTwice` what the client of an ordinary unannounced response gets.
- **Prefixes can survive in a trailers-only response.** A key with the prefix twice, moved while
  the map is ranged over, may or may not be visited again. `PrefixesGoneExactly` gives the exact
  condition.
- **A status received in trailers does not stop the transport error.** `writeErrorIfNecessary`
  looks for `Grpc-Status` only, so `FirstErrorWins` states that `Trailer:Grpc-Status` is
  overwritten, and `StatusOverwritten` gives a run in which it is.

## Model

| member | source | states |
|---|---|---|
| `Framing.PutU32` | internal/grpcproto/message_header.go:59-64 | four bytes that read back as the length modulo 2^32 |
| `Framing.PutU32Unique` | internal/grpcproto/message_header.go:51-64 | every four bytes are the encoding of the length they denote, so headers and lengths correspond one to one |
| `Framing.BigEndian` | internal/grpcproto/message_header.go:55-62 | lengths are read and written most significant byte first |
| `Framing.ParseMessageHeader` | internal/grpcproto/message_header.go:51-56 | succeeds exactly on the headers that some flags and 32-bit length produce, and returns those flags and that length |
| `Framing.MakeMessageHeader` | internal/grpcproto/message_header.go:59-64 | fills a new buffer which ParseMessageHeader reads back as the given flags and length |
| `Framing.ValidFrames` | internal/grpcproto/utils.go:42-58 | ValidateGRPCFrame accepts a message if and only if it is the encoding of one frame |
| `Framing.FlagBits` | internal/grpcproto/utils.go:25-38 | metadata is the highest and compression the lowest of the eight flag bits, and a frame is data exactly if it is not metadata |
| `Framing.IsEndOfStream` | internal/grpcproto/utils.go:61-63 | the end-of-stream marker is exactly the metadata frame with an empty payload |
| `Framing.SplitSound` | internal/grpcwebsocket/write.go:32-70 | the reference parser loses nothing: frames found, encoded again, and the rest make up the input, and no whole frame is left |
| `Framing.SplitOfEncodeAll` | internal/grpcwebsocket/write.go:32-70 | the reference parser inverts encoding: any frames followed by less than a frame are found exactly |
| `HeaderBlock.BlockRoundTrip` | internal/grpcweb/response_writer.go:130-133 | a header written in any order of its names is read back as its cleaned self if and only if no value has a control character; otherwise the block is rejected |
| `HeaderBlock.BlockRoundTripExactly` | internal/grpcweb/response_writer.go:130-133 | a header comes back exactly as it was if and only if its names are valid and its values are non-empty lists without control characters, line breaks or blanks at their ends |
| `HeaderBlock.CleanExactly` | internal/grpcweb/response_writer.go:131 | a value is written as it is if and only if it has no line break and no blank at either end |
| `HeaderBlock.CleanIsTheMiddle` | internal/grpcweb/response_writer.go:131 | in general, with line breaks made blanks, what is written is the part between the blanks at both ends |
| `HeaderBlock.CanonicalExactly` | internal/grpcweb/response_writer.go:121 | the canonical form of a name is the one that differs from it in case only, upper case at the start and after dashes and lower case elsewhere |
| `HeaderBlock.LineRead` | client/ws_proxy.go:157-166 | a line of any sender is read as its name and value, whatever the blanks around the value, none included, and whether it ends in CRLF or LF |
| `HeaderBlock.FoldedRead` | client/ws_proxy.go:157-166 | a continuation line extends the value before it, after one blank |
| `HeaderBlock.TerminatedNeverHitsEof` | internal/grpcweb/response_reader.go:161-168 | the parser does not run out of input on an empty or newline-terminated block, continuation lines included |
| `HeaderBlock.UnterminatedRunsOut` | internal/grpcweb/response_reader.go:161-168 | what is written for any readable header, less its last line break, runs the parser out of input |
| `HeaderBlock.ParsedCanonical` | internal/grpcweb/response_reader.go:163-168 | all names in a parsed header are canonical |
| `TrailerCollection.CollectTrailers` | internal/grpcweb/response_writer.go:102-124 | the loops of Finalize and Close compute the specified header and trailers for every legal visiting order |
| `TrailerCollection.VisitConserves` | internal/grpcweb/response_writer.go:117-124 | one iteration keeps, for every name, the multiset of values collected or still under prefixed keys |
| `TrailerCollection.SeparateConfluence` | internal/grpcweb/response_writer.go:109-124 | for every visiting order the header keeps exactly its plain entries, and every name holds its announced values plus those of all prefixed keys sent to it |
| `TrailerCollection.AliasedConfluence` | server/websocket_writer.go:94-120 | the same when the map written is the map ranged over: no prefixed key is left and every name holds all values that belong to it, whichever created entries are visited |
| `TrailerCollection.AliasedNames` | server/websocket_writer.go:94-120 | for every header and visiting order, doubly prefixed keys included: plain names stay, and every other name left is one that a prefixed key is moved to |
| `TrailerCollection.MovesExactly` | server/websocket_writer.go:111-120 | for every visiting order, separate map or not, the values behind the prefix of a canonical name end up in order after those under the plain name |
| `TrailerCollection.AnnouncedExactly` | internal/grpcweb/response_writer.go:109-124 | for a handler that leaves plain entries and metadata behind prefixes, under each name exactly the plain values if it was announced, then the metadata; the header keeps exactly the plain entries |
| `TrailerCollection.TrailersOnlyExactly` | internal/grpcweb/response_writer.go:105-124 | the same without an announcement, where the header becomes the plain entries and the metadata |
| `TrailerCollection.EntryArrivesUnannounced` | internal/grpcweb/response_writer.go:117-124 | an entry behind the prefix alone in a header is collected under its own name, and alone, for any canonical name and value |
| `TrailerCollection.EntryArrivesAnnounced` | server/websocket_writer.go:113-119 | the same with a Trailer header that names nothing |
| `TrailerCollection.DoubledSlipsThrough` | server/websocket_writer.go:111-120 | any doubly prefixed key has a legal visiting order that leaves a prefixed key behind |
| `TrailerCollection.PrefixesGoneExactly` | internal/grpcweb/response_writer.go:102-124 | every visiting order of a trailers-only response removes all prefixes if and only if no key has the prefix twice |
| `TrailerCollection.CollectedCanonical` | internal/grpcweb/response_writer.go:109-124 | announced and prefixed trailers end up under canonical names, whatever the handler used |
| `GrpcWebReader.ResponseReader.constructor` | internal/grpcweb/response_reader.go:69-75 | a new reader is in the start state |
| `GrpcWebReader.ResponseReader.SkipMessage` | internal/grpcweb/response_reader.go:215-224 | skipping message bytes in one go equals feeding them one at a time |
| `GrpcWebReader.ResponseReader.TakeHeader` | internal/grpcweb/response_reader.go:234-248 | taking header bytes in one go equals feeding them one at a time |
| `GrpcWebReader.ResponseReader.ConsumeBuffer` | internal/grpcweb/response_reader.go:212-252 | the loop over whole messages and headers refines the byte-at-a-time scanner |
| `GrpcWebReader.ResponseReader.PopulateTrailers` | internal/grpcweb/response_reader.go:199-208 | for any iteration order, each name keeps its old values followed by the parsed ones |
| `GrpcWebReader.ResponseReader.TakeBlock` | internal/grpcweb/response_reader.go:161-196 | which error a trailer block gives, and that trailers are set exactly when the block is complete and parses to its end |
| `GrpcWebReader.ResponseReader.ReadFullTrailers` | internal/grpcweb/response_reader.go:143-197 | the outcome of an attempt at the trailer frame over stashed and unread bytes, short and compressed frames included |
| `GrpcWebReader.ResponseReader.DoReadBuffer` | internal/grpcweb/response_reader.go:107-140 | computes the specified step and repeats itself at most once |
| `GrpcWebReader.ResponseReader.ReadBuffer` | internal/grpcweb/response_reader.go:77-105 | Read with result rewriting and sticky error is the specified step on the whole state |
| `GrpcWebReader.ConsumeMessage` | internal/grpcweb/response_reader.go:215-224 | bytes of the current message can be consumed in one go, at any split |
| `GrpcWebReader.ConsumeHeader` | internal/grpcweb/response_reader.go:234-248 | header bytes can be consumed in one go, at any split, completing the header or not |
| `GrpcWebScan.ConsumeAppend` | internal/grpcweb/response_reader.go:212-252 | consuming a and then b is consuming a + b whenever a is fully accepted; otherwise b makes no difference |
| `GrpcWebScan.ConsumeStop` | internal/grpcweb/response_reader.go:226-232 | a scan stops early only at a frame boundary in front of a byte with its top bit set |
| `GrpcWebScan.ConsumeFrames` | internal/grpcweb/response_reader.go:212-252 | any data frames are accepted whole and leave the scanner at a boundary |
| `GrpcWebScan.ScanIsOneShot` | internal/grpcweb/response_reader.go:212-252 | what the scanner accepts of a stream is the data-frame prefix found by one-shot parsing |
| `GrpcWebScan.AcceptedFrames` | internal/grpcweb/response_reader.go:212-252 | bytes accepted up to a boundary are a sequence of whole data frames |
| `GrpcWebScan.IncrementalScan` | internal/grpcweb/response_reader.go:212-252 | over every split into buffers, successive calls accept exactly the data-frame prefix of the whole stream |
| `GrpcWebRuns.ReadKeepsInv` | internal/grpcweb/response_reader.go:77-197 | every Read keeps the four-phase invariant (scanning, stashed, trailers read, ended) tying state and delivered bytes to the stream |
| `GrpcWebRuns.RunKeepsInv` | internal/grpcweb/response_reader.go:96-140 | so does every sequence of Reads |
| `GrpcWebRuns.CleanEofSound` | internal/grpcweb/response_reader.go:77-197 | a run that ends in io.EOF has read the empty stream, or data frames and exactly one good trailer frame and nothing more, and set exactly those trailers; a run that ends in any error has delivered every byte in front of the trailers, and no run delivers anything else |
| `GrpcWebRuns.AcceptedShape` | internal/grpcweb/response_reader.go:143-197 | an accepted stream is data frames and one uncompressed trailer frame |
| `GrpcWebRuns.ShapeAccepted` | internal/grpcweb/response_reader.go:212-252 | conversely data frames and a trailer frame are split at that frame, whatever follows |
| `GrpcWebRuns.StickyError` | internal/grpcweb/response_reader.go:96-105 | a reported error repeats forever with no bytes and no effect |
| `GrpcWebLiveness.AttemptEofExactly` | internal/grpcweb/response_reader.go:143-197 | an attempt at the trailer frame reports EOF if and only if the frame is uncompressed and the header parser runs out on its payload, or on the part of it before a clean end |
| `GrpcWebLiveness.FairStep` | internal/grpcweb/response_reader.go:96-140 | otherwise every fair Read ends the run or takes at least one byte from the underlying reader |
| `GrpcWebLiveness.EndsExactly` | internal/grpcweb/response_reader.go:77-252 | for every stream, all fair runs of more calls than bytes end if and only if the first attempt on the trailer bytes does not run out of input |
| `GrpcWebLiveness.RetriesForever` | internal/grpcweb/response_reader.go:84-88 | with trailer bytes stashed that run the parser out, whole frame or cut short, every later Read returns nothing and no error |
| `GrpcWebLiveness.HangsForever` | internal/grpcweb/response_reader.go:84-88 | from the start: a reader that takes such a stream in one go delivers its data and then neither ends nor fails, for every continuation |
| `GrpcWebLiveness.UnterminatedHangs` | internal/grpcweb/response_reader.go:84-88 | any data frames followed by any readable trailer block without its last line break hang the reader, whether the frame is complete or cut short |
| `GrpcWebLiveness.ShortestHang` | internal/grpcweb/response_reader.go:84-88 | eight bytes that hang the reader, with the payload a:b and any announced length from three on |
| `GrpcWebTheorems.AcceptedRun` | internal/grpcweb/response_reader.go:77-252 | on such a stream no run reports an error but the final EOF, and every fair run of more calls than bytes reaches it with all data and trailers |
| `GrpcWebTheorems.FairRunDecides` | internal/grpcweb/response_reader.go:77-252 | on every stream whose trailer bytes do not run the parser out, every fair run of more calls than bytes ends, has delivered everything in front of the trailers, and ends in a clean EOF if and only if the stream is empty, or data frames and one good trailer frame, and the reader did not break |
| `GrpcWebVerdict.ReadFits` | internal/grpcweb/response_reader.go:107-140 | a call returns no more bytes than its buffer holds |
| `GrpcWebVerdict.VerdictStep` | internal/grpcweb/response_reader.go:77-197 | however the tail is divided into stashed and unread bytes, every call agrees with one attempt at the whole tail |
| `GrpcWebVerdict.ErrorsExactly` | internal/grpcweb/response_reader.go:77-197 | which error a run over an intact connection ends in: unexpected EOF, no decompressor, bad trailers, incomplete read, short trailers and extra data each if and only if the stream has the one shape it stands for |
| `GrpcWebTheorems.TrailersChangeOnce` | internal/grpcweb/response_reader.go:96-140 | in any run at most one call changes the trailers, and no byte is delivered from that call on |
| `GrpcWebTheorems.ReadPopulatesOnce` | internal/grpcweb/response_reader.go:107-140 | a call changes the trailers only before they were read, and leaves the reader past its trailers or in error |
| `GrpcWebTheorems.SilenceAfterTrailers` | internal/grpcweb/response_reader.go:77-140 | from then on no run delivers a byte or touches the trailers |
| `GrpcWebTheorems.TruncatedNeverClean` | internal/grpcweb/response_reader.go:77-94 | a stream that ends before its trailer frame is complete never gives a clean EOF, with no condition on its content |
| `GrpcWebTheorems.ExtraBytesAccepted` | internal/grpcweb/response_reader.go:84-88 | a run that ends cleanly although four bytes follow the trailer frame, for every frame on which the parser runs out |
| `GrpcWebTheorems.ExtraBytesExactly` | internal/grpcweb/response_reader.go:77-197 | extra bytes after a trailer frame are always noticed if and only if the parser does not run out on its payload |
| `GrpcWebWriter.ResponseWriter.constructor` | internal/grpcweb/response_writer.go:40-45 | a new writer is in the start state |
| `GrpcWebWriter.ResponseWriter.PrepareHeadersIfNecessary` | internal/grpcweb/response_writer.go:66-87 | performs the specified header edits |
| `GrpcWebWriter.ResponseWriter.WriteStatus` | internal/grpcweb/response_writer.go:90-93 | is the WriteHeader operation |
| `GrpcWebWriter.ResponseWriter.WriteData` | internal/grpcweb/response_writer.go:96-99 | is the Write operation |
| `GrpcWebWriter.ResponseWriter.FlushData` | internal/grpcweb/response_writer.go:54-63 | is the Flush operation, which never prepares headers |
| `GrpcWebWriter.ResponseWriter.Finalize` | internal/grpcweb/response_writer.go:102-145 | sends exactly one trailer frame with the collected trailers, or none without announcement |
| `GrpcWebWriter.PreparedHeader` | internal/grpcweb/response_writer.go:66-87 | headers go out once, without Trailer and Content-Length and otherwise as the handler left them; the client undoes the content type exactly when it was a gRPC one |
| `GrpcWebWriter.ContentTypeRoundTrip` | client/proxy.go:52-62 | the client restores the content type the writer downgraded if and only if it was application/grpc with a non-empty subtype or none |
| `GrpcWebWriter.DowngradeExactly` | internal/grpcweb/response_writer.go:76-84 | the content type on the wire is application/grpc-web, with the subtype of a gRPC type that has one |
| `GrpcWebWriter.AnnouncedWhenSent` | internal/grpcweb/response_writer.go:54-99 | trailers count as announced if and only if the header held a Trailer entry at some Write or WriteHeader of the run; flushing does not count |
| `GrpcWebWriter.FlushIsSilent` | internal/grpcweb/response_writer.go:54-63 | Flush changes no header and writes nothing |
| `GrpcWebWriter.HeaderIsEmptyWrite` | internal/grpcweb/response_writer.go:90-99 | WriteHeader does to headers what writing nothing does |
| `GrpcWebWriter.FinalizedHeader` | internal/grpcweb/response_writer.go:102-128 | the header of a finalised response: exactly its plain entries if trailers were announced; otherwise no prefixes, the right names, and under each all values that belong to it, and no further bytes |
| `GrpcWebWriter.FinalizedExactly` | internal/grpcweb/response_writer.go:102-128 | the same value by value, in order, for plain entries and metadata behind prefixes |
| `GrpcWebWriter.OneTrailerOnly` | internal/grpcweb/response_writer.go:102-128 | a handler that only sets one trailer, such as a status, has exactly that entry in its header and no body, for any visiting order |
| `GrpcWebWriter.BodyIsWritten` | internal/grpcweb/response_writer.go:96-99 | over any run of operations the body is the data written, in order |
| `GrpcWebRoundTrip.RoundTrip` | internal/grpcweb/response_writer.go:96-145 | data frames in any split of writes, announced trailers, any iteration order, read under any chunking, buffer sizes and EOF style: exactly the body, exactly the collected trailers, then a clean EOF, reached by every fair run |
| `GrpcWebRoundTrip.StatusReachesClient` | internal/grpcweb/response_reader.go:77-252 | the ordinary response: announce the status, write any messages, set a status; every fair run reads exactly the messages and exactly that status, then a clean EOF |
| `GrpcWebRoundTrip.EntryReachesClient` | internal/grpcweb/response_reader.go:77-252 | the same for any trailer put behind the prefix: the client has it under its own name |
| `GrpcWebRoundTrip.MetadataReachesClient` | internal/grpcweb/response_writer.go:102-145 | metadata round trip: under every valid name a client that reads to the end has the announced plain values and then the metadata, each as it was |
| `GrpcWebRoundTrip.TrailersIndependentOfOrder` | internal/grpcweb/response_writer.go:109-124 | two finalisations of one handler run agree on names and on the multiset of values of each |
| `GrpcWebRoundTrip.CleanEofExactly` | internal/grpcweb/response_writer.go:66-145 | a finalised response can be read to a clean EOF if and only if its trailers were announced and are readable, or, unannounced, nothing was written |
| `GrpcWebRoundTrip.CutOutputHangs` | internal/grpcweb/response_writer.go:130-142 | the output of any good response with trailers, less its last two bytes, hangs the client after its data |
| `WebSocketWrite.ByteSource.CopyN` | internal/ioutils/io.go:21-28 | io.CopyN: the bytes moved, and an error exactly when there were too few |
| `WebSocketWrite.ByteSource.CopyNFull` | internal/ioutils/io.go:21-28 | tells a clean end, a truncated read and a broken source apart, each exactly |
| `WebSocketWrite.Write` | internal/grpcwebsocket/write.go:32-70 | sends the leading whole frames of the one-shot parse, as many as the connection takes, with the right result |
| `WebSocketWrite.SentFramesAreValid` | internal/grpcwebsocket/write.go:32-70 | every message sent passes ValidateGRPCFrame and their concatenation is a prefix of the input, on failing runs too |
| `WebSocketWrite.NilMeansWholeFrames` | internal/grpcwebsocket/write.go:32-70 | with a working connection and source, nil if and only if the input is a whole number of frames, all of them sent |
| `WebSocketWrite.CutExactly` | internal/grpcwebsocket/write.go:32-70 | what is sent and which error is returned, for any whole frames, any rest, a broken source and a failing connection |
| `WebSocketWrite.NilExactly` | internal/grpcwebsocket/write.go:32-70 | nil if and only if the source did not break, the input is whole frames, and the connection took them all |
| `WebSocketReader.WsReader.constructor` | server/websocket_reader.go:60-71 | a new reader has no message and no error |
| `WebSocketReader.WsReader.ReadBuffer` | server/websocket_reader.go:102-109 | is the specified step, with a sticky error |
| `WebSocketReader.WsReader.DoRead` | server/websocket_reader.go:111-155 | hands out the current message, or fetches and checks the next one |
| `WebSocketReader.DeliversDataFrames` | server/websocket_reader.go:102-155 | for any messages and buffer sizes only bytes of the leading data frames are delivered, all of them before any error, and the error is that of the first other message |
| `WebSocketReader.ReadFits` | server/websocket_reader.go:111-155 | a call returns no more bytes than its buffer holds |
| `WebSocketReader.VerdictExactly` | server/websocket_reader.go:117-145 | each failure belongs to exactly one kind of message, and none to a data frame |
| `WebSocketReader.CleanEndExactly` | server/websocket_reader.go:102-155 | a run that has ended has ended in io.EOF if and only if its messages were data frames and then the binary end-of-stream marker |
| `WebSocketReader.StickyFailure` | server/websocket_reader.go:102-109 | an error repeats with no bytes |
| `WebSocketReader.KeepsGoing` | server/websocket_reader.go:102-155 | with non-empty buffers every call delivers a byte or ends the stream |
| `WebSocketReader.WriteToServer` | client/ws_proxy.go:183-195 | sends the frames of the body and then the marker, the marker only after all frames; nil exactly if everything was taken |
| `WebSocketReader.RequestRoundTrip` | client/ws_proxy.go:183-195 | a body of whole frames arrives as exactly its leading data frames; a body of data frames arrives whole and ends in a sticky EOF |
| `WebSocketReader.OnlyDataDelivered` | server/websocket_reader.go:111-155 | whatever the body, no byte outside its leading whole data frames is delivered |
| `WebSocketBarrier.ExclusiveStep` | server/websocket_reader.go:75-155 | every step keeps tokens plus readers in flight at most one, exactly one until something fails or stops, and no token while a reader is undrained |
| `WebSocketBarrier.InOrderStep` | server/websocket_reader.go:75-155 | every step keeps messages in order and conserves the bytes of accepted ones |
| `WebSocketBarrier.BarrierSafety` | server/websocket_reader.go:60-155 | over every interleaving of readerLoop, Read and Close: the token is neither doubled nor lost, returning it never blocks, conn.Reader is never called while a reader is undrained, buf is never reset with unread bytes, and what is delivered agrees with the messages |
| `WebSocketBarrier.ReadProgresses` | server/websocket_reader.go:75-155 | a Read in progress always has an enabled step, its own or one of readerLoop, that brings it closer to returning, unless the connection has nothing more to say; no step sets it back |
| `WebSocketBarrier.StepRefines` | server/websocket_reader.go:75-155 | a step that completes a Read does what the sequential Read does, and any other step nothing |
| `WebSocketBarrier.BarrierRefinesReader` | server/websocket_reader.go:60-155 | refinement: over every interleaving in which no Read gives up waiting, the completed calls return the bytes and the error of the sequential reader |
| `WebSocketBarrier.CloseUnblocks` | server/websocket_reader.go:158-166 | after Close a Read in progress always has a step that brings it closer to returning, no other step sets it back, and readerLoop can stop unless it is inside conn.Reader |
| `WebSocketWriter.WsResponseWriter.constructor` | server/websocket_writer.go:40-47 | a new writer has an empty header and nothing written |
| `WebSocketWriter.WsResponseWriter.WriteStatus` | server/websocket_writer.go:60-87 | sends one metadata frame with the header, once |
| `WebSocketWriter.WsResponseWriter.WriteData` | server/websocket_writer.go:49-54 | sends the header first if necessary, then the data |
| `WebSocketWriter.WsResponseWriter.Close` | server/websocket_writer.go:94-140 | sends one metadata frame with the collected trailers |
| `WebSocketWriter.SentHeaderClean` | server/websocket_writer.go:69-75 | over any run, the header on the wire has neither Trailer nor Content-Length |
| `WebSocketWriter.PipeContents` | server/websocket_writer.go:49-87 | over any run the pipe holds one header frame and then exactly the data, or nothing at all |
| `WebSocketWriter.ClosedExactly` | server/websocket_writer.go:94-120 | what Close leaves in the header, value by value |
| `WebSocketProxy.SetHeaderFields` | client/ws_proxy.go:156-181 | adds every parsed value under its, perhaps prefixed, name, or fails and changes nothing |
| `WebSocketProxy.AddParsed` | client/ws_proxy.go:169-178 | the outer loop, for any iteration order |
| `WebSocketProxy.AddEach` | client/ws_proxy.go:175-177 | the inner loop appends all values of one name in order |
| `WebSocketProxy.PrefixedNameKept` | client/ws_proxy.go:171-174 | Header.Add does not change a name behind the trailer prefix |
| `WebSocketProxy.SetHeaderExactly` | client/ws_proxy.go:156-181 | setHeader succeeds if and only if the block has an end of header, adds each value behind those of its, perhaps prefixed, name, and changes nothing else |
| `WebSocketReceive.WebSocketConn.ReadHeader` | client/ws_proxy.go:67-84 | the header outcome for the first message, every failure included |
| `WebSocketReceive.WebSocketConn.ReadFromServer` | client/ws_proxy.go:87-153 | the loop with its dataExpected flag computes header, body and error of the specification |
| `WebSocketReceive.HeaderExactly` | client/ws_proxy.go:67-84 | readHeader succeeds exactly on one metadata frame with a parseable block, and sets what it holds; otherwise it changes nothing |
| `WebSocketReceive.BodyReaches` | client/ws_proxy.go:108-140 | any data frames are appended to the body, in order, before the next message is looked at |
| `WebSocketReceive.TrailersReceived` | client/ws_proxy.go:108-152 | an uncompressed metadata frame before a clean end gives nil and the trailers, or an error and no change if its block does not parse |
| `WebSocketReceive.BodyComplete` | client/ws_proxy.go:106-152 | data frames, one uncompressed metadata frame and a clean end give nil, exactly the data and the trailers |
| `WebSocketReceive.BodySound` | client/ws_proxy.go:106-152 | nil means the messages had that form |
| `WebSocketReceive.BodyIsData` | client/ws_proxy.go:106-152 | in every run, failing ones included, the body written is the concatenation of all leading data frames |
| `WebSocketReceive.BodyOutcome` | client/ws_proxy.go:106-152 | how the messages after them decide: the header changes only by complete trailers, and each kind of message has its outcome |
| `WebSocketReceive.AcceptedLanguage` | client/ws_proxy.go:87-153 | readFromServer returns nil on exactly one language of message sequences |
| `WebSocketRoundTrip.ResponseRoundTrip` | server/websocket_writer.go:49-140 | through writer, cutter and readFromServer: nil, exactly the data, exactly the header sent plus every trailer under the Trailer: prefix, and no Trailer or Content-Length entry |
| `WebSocketRoundTrip.AnnouncedReceivedExactly` | client/ws_proxy.go:87-153 | with announced trailers the client returns nil if and only if no trailer value has a control character, and otherwise reports a malformed block |
| `WebSocketRoundTrip.TrailersOnlyRoundTrip` | server/websocket_writer.go:94-140 | a run that sends nothing before Close arrives as a single header block, without prefixes unless one was doubled |
| `WebSocketRoundTrip.StatusReachesClient` | client/ws_proxy.go:87-181 | the same over WebSocket: nil, exactly the messages, and exactly one header entry, the status behind the Trailer: prefix |
| `WebSocketRoundTrip.EntryReachesClient` | client/ws_proxy.go:87-181 | the same for any trailer put behind the prefix |
| `WebSocketRoundTrip.StatusOnlyReachesClient` | server/websocket_writer.go:94-140 | a handler that only sets a status: its client has exactly that status, as a header, and no body |
| `WebSocketRoundTrip.MetadataReachesClient` | server/websocket_writer.go:94-140 | metadata round trip over WebSocket: for every valid name, behind the prefix, the announced plain values and then the metadata, each as it was |
| `WebSocketRoundTrip.UnannouncedRepeatsHeader` | server/websocket_writer.go:97-120 | without announced trailers the trailer frame repeats the handler's header: exactly its names, prefixed ones under plain names, and per name the multiset of all its values |
| `WebSocketRoundTrip.OnlyTrailersExactly` | server/websocket_writer.go:94-120 | the trailer frame carries only announced names and targets of prefixed keys if and only if some were announced, or every plain name left is such a target |
| `WebSocketRoundTrip.ContentTypeSentTwice` | server/websocket_writer.go:60-140 | an ordinary unannounced response, for any messages and any printable content type: the client gets the content type as a header and once more as a trailer |
| `ErrorArbitration.FirstErrorWins` | client/ws_proxy.go:197-215 | over every interleaving the recorded error is that of the first swap, and the last step sets Unavailable and the encoded text exactly when an error was recorded and no plain Grpc-Status is there, touching nothing else |
| `ErrorArbitration.FailureIsRecorded` | client/ws_proxy.go:197-201 | over every interleaving, when both goroutines are done an error is recorded if and only if one of them failed, and it is one of theirs |
| `ErrorArbitration.StatusOverwritten` | client/ws_proxy.go:205-215 | a run in which any status received in trailers is replaced by Unavailable because writing failed later |
| `Utf8.DecodedIsEncoding` | internal/grpcproto/message.go:44-45 | what the decoder accepts is the RFC 3629 encoding of the scalar value it returns |
| `Utf8.EncodingIsWellFormed` | internal/grpcproto/message.go:44-45 | every encoding is accepted and gives its scalar value back |
| `Utf8.DecodeExactly` | internal/grpcproto/message.go:44-45 | the decoder returns the scalar value encoded at the head, and the error rune of size one exactly where none is |
| `Utf8.RfcExamples` | internal/grpcproto/message.go:44-45 | encodings of one, two, three and four bytes from section 7 of RFC 3629 |
| `PercentEncoding.EncodeGrpcMessage` | internal/grpcproto/message.go:27-39 | the scan with its early return computes the specified encoding |
| `PercentEncoding.EncodeGrpcMessageUnchecked` | internal/grpcproto/message.go:41-65 | the rune loop computes the specified encoding and terminates |
| `PercentEncoding.FastPath` | internal/grpcproto/message.go:31-38 | text the scan returns unchanged is unchanged by the rune loop |
| `PercentEncoding.RoundTrip` | internal/grpcproto/message.go:27-65 | for every byte string, percent-decoding gives the text with each byte that starts no UTF-8 sequence replaced by EF BF BD |
| `PercentEncoding.RoundTripExactly` | internal/grpcproto/message.go:27-65 | decoding gives the text back if and only if it is valid UTF-8 |
| `PercentEncoding.EncodeExactly` | internal/grpcproto/message.go:27-65 | the output is the one text in the Percent-Encoded grammar, with upper-case digits and no needless escapes, that decodes to the repaired message |
| `PercentEncoding.EncodeInjective` | internal/grpcproto/message.go:27-65 | the encoder is injective on valid UTF-8 |
| `PercentEncoding.OutputShape` | internal/grpcproto/message.go:41-65 | the output is printable ASCII, at most nine times as long as the input |
| `PercentEncoding.BoundIsTight` | internal/grpcproto/message.go:41-65 | the factor nine is reached |
| `Signal.Step` | internal/concurrency/signal.go:86-102 | every atomic step keeps the invariant on channels, closers and history |
| `Signal.SignalSafety` | internal/concurrency/signal.go:86-102 | over any threads and interleaving every installed channel is exactly one of current, owned by one closer, or closed; none is closed twice; successful Reset and Signal calls alternate |
| `Signal.SnapshotIsHonoured` | internal/concurrency/signal.go:104-109 | a snapshot is later still current, closed, or about to be closed by some thread, across resets |
| `Signal.ClosedStaysClosed` | internal/concurrency/signal.go:104-109 | a channel seen closed stays closed in every continuation |
| `Signal.ResultsTellState` | internal/concurrency/signal.go:64-102 | in every reachable state Reset succeeds exactly when the signal is triggered, Signal exactly when it is not, and a failing call changes nothing |
| `PipeListener.Step` | internal/pipeconn/pipe_listener.go:65-103 | every step keeps pipes, pairings, the closing winner and late calls consistent |
| `PipeListener.ListenerConservation` | internal/pipeconn/pipe_listener.go:65-103 | over every interleaving dials and accepts that succeed pair up one to one on the same pipe, exactly one Close wins once the signal is triggered and only it returns nil, and a call started after a completed Close can only return ErrClosed |
| `PipeListener.NothingStaysBlocked` | internal/pipeconn/pipe_listener.go:65-103 | once a Close has returned nil, and always outside a select, every unfinished call has an enabled step that brings it closer to returning, and no other call sets it back |
| `PipeListener.ErrorsMeanClosed` | internal/pipeconn/pipe_listener.go:65-103 | ErrClosed and ErrAlreadyClosed are returned only once some Close has won |
| `PipeListener.OpenListenerMeets` | internal/pipeconn/pipe_listener.go:65-92 | until then a new Accept and a new DialContext can meet, from every reachable state, and return the two ends of one new pipe |

## Left out

- Errors of the underlying `http.ResponseWriter` and pipe, HTTP status codes, and the moment at which net/http takes its copy of the headers.
- Trailer decompression: the only caller passes no decompressor, so a compressed trailer frame is an error.
- GrpcWebReader.ResponseReader.ReadFullTrailers: when the underlying reader breaks inside the trailer frame, the model reports that error even where the parser would first report a malformed line; how many bytes a failing attempt takes from the underlying reader is not captured. Both errors are final.
- Error texts and wrapping, except for the transport error that goes into `Grpc-Message`.
- Aliasing between slices (`append` on a shared backing array, `currMsg` as a window into `buf`): sequences are values; the barrier theorem covers the case where the window would be overwritten.
- Versions of `net/textproto`: the codec follows current ones. Older ones do not check values, accept any bytes in a name, and skip a field with an empty name instead of rejecting it.
- The sorted order in which `http.Header.Write` emits names: the theorems hold for any order.
- WebSocketReader.WsReader.ReadBuffer: is the sequential reader, closed only when no message is left; closing at any other time is in WebSocketBarrier.
- `SignalWhen`, `Wait` and the timed waits: they end in the same Reset and Signal steps as any other thread's call.
- Data flowing through an accepted pipe, contexts and addresses of the listener.
- The WebSocket library, its closing handshake and the 64 MB read limit; `net/http`, `http2` and `grpc` internals.
- Dispatch in `server/server.go`, dialing and transports in `client/proxy.go`, options, TLS, `client/non_buffering_writer.go`, `internal/httputils/error_message.go`, logging: plumbing that would only add easy members.
