# axil: the wire-facing core, modelled and proved

axil is a single-threaded, non-blocking HTTP and WebSocket server. Its hard code carries protocol state across
short reads, short writes, `EAGAIN`, `EINTR` and reused descriptor numbers. This project models that code in Dafny
and proves that the buffered, resumable code does what a one-shot specification says, on every schedule.

The operating system is an adversary. `Sockets` gives every connection a finite plan of decisions, one a call: how
many octets a `recv` or `send` moves, or that it blocks, is interrupted or fails. A plan that is used up blocks for
ever. A theorem that holds for every plan holds on every schedule. `WriteQueue.Allocator` is the same for `realloc`.

## How it is organised

| files | what they are about |
|---|---|
| `Bytes`, `HostOrder`, `Text`, `Sockets` | octets, byte order on hosts of both kinds, masking, characters, the socket plans |
| `FrameFormat` | the WebSocket wire format on whole octet strings (RFC 6455, sections 5.1 to 5.3 and 5.5), server and client side |
| `WireEnd` | how a client reads a wire that ends in Close octets, behind a whole frame or a cut one |
| `WsFlags`, `WsReader`, `WsWriter`, `WsRuns`, `WsDuplex` | the resumable frame reader, the frame writer, whole runs of each, and of both over one socket |
| `WriteQueue`, `Response` | the per-descriptor write queue, and a response through it |
| `HeadFormat`, `RequestReader`, `BodyGrowth` | assembling a request head in a stash, gathering a declared body in the shared buffer |
| `HeaderBlock`, `RequestLine`, `Dispatch`, `BodyLength`, `PostRequest` | splitting header lines and the request line in place, the checks before a handler, the declared length; a whole request from the socket to the handler's body |
| `DescriptorTable`, `EventLoop`, `SlotQueue` | slots, proxy pairs and tunnels over whole runs; the same steps in place on arrays; a slot's queue against the buffered one |
| `Patterns`, `Routing` | the two-pointer route matcher against segment lists; choosing the best route |
| `UrlCodec`, `SafePath` | the bounded percent codec; the iterated-decoding path check and the URI that follows it |
| `CivilDate`, `HttpDate` | civil-date arithmetic against counting; printing and reading an HTTP date |

Where the C updates something in place, the model is a class or a method on an array with its loop, proved against a
function of whole values; the properties of that function are lemmas. Ghost state records what the code does not keep:
the octets offered to a queue and taken from it, where a frame starts in the stream, which generations were closed.

## What turned out not to hold everywhere

Each of these is proved with its exact condition or a concrete input; the code is modelled as it is.

- `ws_htonll` and `ws_ntohll` exchange the two words of a 64-bit length on a big-endian host, although the comment at
  src/ws.c:126-130 says no conditional compilation is needed. The length is right there exactly when both words agree
  (`HostOrder.DecodeLength64Big`, `HostOrder.EncodeLength64Big`). Every stream theorem that involves a peer's reading
  is stated for both kinds of host, with `HostOrder.RightOn` as its exact condition (`FrameFormat.ParseAllIff`,
  `FrameFormat.ClientReadsIff`).
- `ws_write` promises that frames cannot interleave (src/ws.c:218-227). When a write fails in the middle of a frame,
  `axil_close` sends a Close straight to the socket, behind the cut frame; when the cut is within the last four octets
  of the payload, the Close octets complete it and the client gets a frame that was never sent
  (`WsRuns.CutFrameRun`). `WireEnd.InOrderIff` is the exact condition: the client has a prefix of the frames and at
  most one Close behind them, unless the octets that complete a cut frame differ from its own.
- `buffer_post_body` may fill the shared buffer to the last octet, since its guard is `>` where the head loop has `>=`.
  The NUL after the body can then fall one octet outside, contrary to the comment at src/libaxil.c:2914-2916
  (`BodyGrowth.NoRoomForTerminatorIff`, in closed form `BodyGrowth.FillsIff`; `BodyGrowth.NoRoomExample`).
- A head is dispatched however it is cut exactly when it ends at least one read before the limit
  (`HeadFormat.DispatchedForEveryCutIff`); closer to the limit, an unlucky cut of a legal head is refused.
- Relaying a 101 whose relay closes the client leaves two dead slots flagged and paired, and the next connection on
  such a number inherits the other as its peer (`DescriptorTable.BreakRun`, `DescriptorTable.BreakIsInherited`). The
  pair invariant holds at every point of a run exactly when no event does this (`DescriptorTable.RunKeepsIff`); what
  is said of live pairs holds in every run.
- `EINTR` on a paired descriptor tears the pair down (`DescriptorTable.InterruptTearsPair`,
  `DescriptorTable.PairReadIff`).
- include/ttypt/axil.h:247-250 says the disconnect hook fires whenever a descriptor is torn down. It is called for a
  generation exactly when that leaves the table from a slot outside any pair (`DescriptorTable.HookIffRun`);
  `DescriptorTable.SilentRun` is a proxied connection that vanishes unreported.
- A target such as `/..%3Fx` is accepted by the path check and yields the URI `/..` (`SafePath.UriDotDotIff` is exact).
- A final `*` followed by a doubled slash is a literal star (`Patterns.StarTailIff`, `Patterns.DoubledSlashStar`).
- `tm_to_time_t_utc` counts in unsigned arithmetic, and `http_date_parse` does not check the day: day 0 of March of a
  year divisible by 400 is off by 2^32 days (`CivilDate.DaysOfCountsIff`, `CivilDate.DayZeroOfAnEra`).
- `headers_get` reads back the headers of a request exactly when every colon is followed by one octet and then the
  value, and every line and the blank one end in CRLF (`HeaderBlock.ReadsBackIff`). `head_complete` accepts more: bare
  line feeds (`HeaderBlock.BareLineFeeds` says what the scan makes of them from where it starts), and an empty value
  right behind the colon, whose line end is lost (`HeaderBlock.EmptyValueExample`).
- Where that scan starts is also right only behind CRLF: `cmd_new` stops at a carriage return or NUL, not at a line
  feed (`RequestLine.PositionIff`). With `RequestLine.RequestReadsBackIff` the exact condition for a whole head is
  that the request line, every header line and the blank one end in CRLF and every gap is one octet. `GET / HTTP/1.1`
  and two line feeds is a complete head, passes every check, and has its header lines looked for two octets behind its
  NUL, in stale octets or outside the buffer: the comment at src/libaxil.c:1042-1046 describes that very walk as
  something the blank-line test rules out (`RequestLine.BareHead`, `Dispatch.BareHeadAdmitted`); a request line that ends in a line feed with a CRLF header
  behind it loses the header (`RequestLine.BareLine`, `Dispatch.BareLineAdmitted`).
- `cmd_new` stores the position of the header lines behind the words, outside `argv` exactly for a line that begins
  with a letter or digit and has seven whitespace octets or more (`RequestLine.SplitLine`, `RequestLine.InsideIff`,
  `RequestLine.SevenSpaces`).
- In a line with a single whitespace octet nothing ends the target, which runs on through the head to the next NUL.
  Such a request is refused unless a question mark hides that (`Dispatch.SingleSpaceNeedsQuery`); `GET /?` is then
  taken or refused depending on how much the last read has brought (`Dispatch.SingleSpaceDepends`).
- A Content-Length of 32 digits or more is cut to 31 before it is read; `BodyLength.DigitsReadIff` says exactly when
  that does no harm, and `BodyLength.CutLength` is a length of 5 that is read as 0.
- `axil_respond` copies as many octets out of its 4096-octet buffer as the head's text has: what goes out is the text
  exactly when it is shorter, and a longer one than the buffer is read past it (`Response.Respond`, `Response.KeptIff`).
- `axil_url_encode` writes its NUL even into a buffer of size 0 (`UrlCodec.UrlEncode`).
- The int that `ws_read` returns cannot tell an empty message from the end of the connection
  (`WsRuns.EmptyMessageLooksLikeTheEnd`).

## Model

| member | source | states |
|---|---|---|
| Bytes.MaskIsInvolution | src/ws.c:493-494 | masking with a key and unmasking with it gives back any payload |
| Bytes.XorBit | src/ws.c:493-494 | bit by bit the masked octet is one where octet and key differ |
| HostOrder.HtonlReverses | src/ws.c:126-136 | on a little-endian host `htonl` turns the word read low octet first into the word read high octet first, and back |
| HostOrder.DecodeLength64Little | src/ws.c:138-143 | on a little-endian host the eight length octets are read most significant first, whatever they are |
| HostOrder.DecodeLength64Big | src/ws.c:138-143 | on a big-endian host they are read so exactly when the first four equal the last four |
| HostOrder.DecodeLength64Iff | src/ws.c:138-143 | on either host a length of at least 2^16 is read right exactly when the host is little-endian or its words are equal |
| HostOrder.DecodeLength16Any | src/ws.c:434-435 | the two-octet length is read in network order on every host |
| HostOrder.EncodeLength16Any | src/ws.c:206-208 | the two-octet length is sent in network order on every host |
| HostOrder.EncodeLength64Little | src/ws.c:131-136 | every 64-bit length leaves a little-endian host in network order |
| HostOrder.EncodeLength64Big | src/ws.c:131-136 | it leaves a big-endian host in network order exactly when its two words are equal |
| HostOrder.EncodeLength64Iff | src/ws.c:131-136 | and is sent right under the same condition |
| HostOrder.EncodeLength64BigCounterexample | src/ws.c:126-136 | no nonzero length below 2^32 leaves a big-endian host right in the 64-bit form |
| FrameFormat.ParseIsStable | src/ws.c:335-515 | a frame that parses keeps its meaning when more octets follow |
| FrameFormat.ParseResumes | src/ws.c:335-515 | parsing a stream in two parts, the second after the unfinished rest of the first, finds the same frames and the same rest |
| FrameFormat.SegmentationIndependence | src/ws.c:335-515 | of two cuts of one stream the shorter has shown a prefix of the frames of the longer |
| FrameFormat.MaskedRoundTrip | test-split.py:106-125 | every masked frame but a Close, up to 64 MiB (125 octets for a control frame), in whichever length form a client picks by size, parses to its payload and its own size, whatever follows, exactly when the host reads that length right |
| FrameFormat.HeaderDecides | src/ws.c:370-419 | on the two header octets alone: a second octet below 128, or a control opcode with a short length of 126 or 127, is refused; a masked opcode 8 with at most 125 octets is a Close; anything else goes on |
| FrameFormat.ClientClose | src/ws.c:401-419 | every Close a client sends, with or without FIN, with any key and body, has such a header |
| FrameFormat.TailFound | src/ws.c:335-515 | behind a client's messages is found whatever follows them |
| FrameFormat.EndParses | src/ws.c:370-419 | of a header that is refused or closes, one octet is nothing yet and two are its end |
| FrameFormat.HelloParses | src/ws.c:335-515 | the masked example of section 5.7 of RFC 6455 is read as "Hello" |
| FrameFormat.TooLongIs | src/ws.c:448-457 | an announced length over 64 MiB in the eight-octet form is refused behind its ten octets, on a host that reads it right |
| FrameFormat.PartNeedsMore | src/ws.c:335-515 | of a proper prefix of a well-formed client frame whose length the host reads right nothing is parsed |
| FrameFormat.ParseAllPrefix | src/ws.c:335-515 | any prefix of a well-formed client's stream parses to a prefix of its messages, on every host that reads their lengths right |
| FrameFormat.ParseAllIff | src/ws.c:335-515 | the whole stream parses to exactly its messages if and only if the host reads every length right |
| FrameFormat.ServerHeaderReads | src/ws.c:189-216 | a client reads from the header of any frame an unmasked frame, of exactly the payload's length if and only if the host sends that right |
| FrameFormat.HeaderExamples | src/ws.c:189-216 | the headers of 256 octets and of 64 KiB are those of section 5.7 of RFC 6455 |
| FrameFormat.ShortestForm | src/ws.c:200-216 | no other header a client would read as the same length is shorter |
| FrameFormat.ClientReadsOne | test-split.py:170-182 | a client reads a sent frame back and goes on behind it, and does not when its length is sent wrong |
| FrameFormat.ClientReadsPart | test-split.py:170-182 | a proper prefix of a frame whose length is sent right reads as no frame |
| FrameFormat.ClientReadsPrefix | test-split.py:170-182 | any prefix of the wire reads as a prefix of the frames sent, when their lengths are sent right |
| FrameFormat.ClientReadsIff | test-split.py:170-182 | the whole wire reads as exactly the frames sent if and only if every length is sent right |
| WireEnd.CutHeader | src/ws.c:218-227 | a frame cut inside its header, with any part of a Close behind it, reads as nothing |
| WireEnd.CutPayload | src/ws.c:218-227 | a frame cut inside its payload is completed by the Close octets if enough of them went out, and otherwise reads as nothing |
| WireEnd.WireReads | src/libaxil.c:444-495 | the exact reading of any part of a frame stream with any part of a Close behind it |
| WireEnd.InOrderIff | src/ws.c:218-227 | the client has a prefix of the frames and at most one Close behind them exactly when no cut frame is completed with other octets than its own |
| WireEnd.CloseSeenIff | src/ws.c:239-263 | a Close is read as one exactly when it went out whole and at a frame boundary |
| WireEnd.CutFrameExample | src/ws.c:218-227 | half of a four-octet frame and a Close read as a frame with the Close for its payload |
| WsFlags.Flags.constructor | src/ws.c:183-185 | an upgraded connection has sent no Close and writes whole binary frames |
| WsFlags.Flags.MarkFormatted | src/ws.c:539-542 | a formatted write makes the frame whole and binary, and keeps the record of a sent Close |
| WsFlags.Flags.CloseOnce | src/ws.c:239-263 | one attempt at a Close frame with that status straight to the socket, and none if one has been made before |
| WsRuns.CloseFrameReads | src/ws.c:239-263 | a client reads the Close frame as a final frame of opcode 8 whose two octets are the status in network order (sections 5.5.1 and 7.4.1 of RFC 6455) |
| WsReader.Connection.constructor | src/ws.c:183-186 | a new connection holds no part of a frame |
| WsReader.Connection.Fill | src/ws.c:297-333 | the octets counted in the buffer are exactly those read since, never more than needed; it stops short only on a block, the end of the stream or an error, never on a signal |
| WsReader.Connection.Reset | src/ws.c:149-154 | nothing is held, the counters and buffers are 0, and the next octet read starts a frame |
| WsReader.Connection.CloseStatus | src/ws.c:239-272 | at most one Close frame goes out, and the frame in progress is dropped either way |
| WsReader.Connection.RestingIsIncomplete | src/ws.c:108-124 | between calls the octets held are never a complete frame, in every reachable state of the counters |
| WsReader.Connection.CompleteIsMessage | src/ws.c:475-496 | when the payload is complete the octets held are one whole frame, and unmasking what lies in the buffer gives its message |
| WsReader.Connection.TooLongIsParsed | src/ws.c:448-457 | a length over 64 MiB is refused exactly where one-shot parsing refuses it |
| WsReader.Connection.Unmask | src/ws.c:493-496 | the payload is unmasked in place, each octet once, and terminated |
| WsReader.Connection.ReadHeader | src/ws.c:357-368 | the two header octets, resumed where the last call stopped, or the reason they are not there |
| WsReader.Connection.TestHeader | src/ws.c:370-419 | on the two octets: unmasked and oversized control frames get a 1002 Close and a protocol error, a masked Close gets a 1000 Close; anything else goes on with the state untouched |
| WsReader.Connection.ReadLength | src/ws.c:421-461 | the declared length by the three forms, at most 64 MiB |
| WsReader.Connection.ReadKey | src/ws.c:463-473 | the four key octets, resumed |
| WsReader.Connection.ReadPayload | src/ws.c:475-491 | a payload buffer one larger than the declared length, filled and resumed |
| WsReader.Connection.CopyOut | src/ws.c:510-511 | the caller's buffer starts with the payload and a NUL and is otherwise unchanged |
| WsReader.Connection.Deliver | src/ws.c:493-514 | the caller gets exactly the unmasked message, or EMSGSIZE and an untouched buffer when payload and NUL do not fit; never beyond its bound |
| WsReader.Connection.Read | src/ws.c:335-515 | a call returns EAGAIN with the octets of an unfinished frame kept, or drops it with the connection, or reports exactly what one-shot parsing finds between the frame's start and the read position; in terms of the octets, it is a protocol error with a Close of 1002 exactly for a refused header, the end with a Close of 1000 exactly for a masked Close, and oversized exactly for an announced length over 64 MiB; no other Close goes out |
| WriteQueue.Allocator.Grant | src/libaxil.c:735-740 | realloc follows its plan, but never grants more than half of SIZE_MAX |
| WriteQueue.Descriptor.constructor | src/libaxil.c:857-880 | a new descriptor is live with an empty queue and the initial buffer |
| WriteQueue.Descriptor.Close | src/libaxil.c:444-530 | closing frees the queue and attempts a 1008 Close exactly on a WebSocket that has sent none; a descriptor that is closed already is left alone |
| WriteQueue.Descriptor.Compact | src/libaxil.c:709-717 | the queue moves to the front of its buffer unchanged |
| WriteQueue.Descriptor.Grow | src/libaxil.c:719-744 | the doubling loop ends: with the queue unchanged and room for more than the need, at most twice it, or after one refusal with the old size |
| WriteQueue.Descriptor.MakeRoom | src/libaxil.c:699-747 | room for the octets at the end with the queue unchanged; on failure the queue is as it was, because the total overflows or the allocator refused |
| WriteQueue.Descriptor.Flush | src/libaxil.c:656-688 | one attempt: what is sent plus what is queued stays what was offered; the descriptor closes on a hard error or when the queue empties with the closing mark set, and keeps everything on EAGAIN and EINTR |
| WriteQueue.Descriptor.Enqueue | src/libaxil.c:759-763 | the queue becomes the old queue followed by the new octets |
| WriteQueue.Descriptor.LowWrite | src/libaxil.c:749-808 | on every schedule a live descriptor's sent octets and queue are all octets ever offered, in order; the return value is the number of octets this call moved itself when the queue was empty and the descriptor is still live, and -1 in every other case; only a failed write or a refused growth loses any |
| WsWriter.BuildHeader | src/ws.c:189-216 | the header in the buffer is the specified one for that payload length |
| WsWriter.SendPieces | src/ws.c:218-229 | the two writes offer header and payload in order; a kernel that takes the header and then fails leaves exactly the header, and the Close of the teardown behind it |
| WsWriter.Write | src/ws.c:189-234 | a live descriptor has been offered exactly header and payload behind what was offered before, and the size of the frame is returned; -1 exactly when the descriptor is gone; what a dying one leaves behind the queue's octets is part of a Close, only on a WebSocket that had sent none |
| WsRuns.OneMore | src/ws.c:335-515 | one more call's octets add at most the one frame they complete |
| WsRuns.ReadRun | src/ws.c:297-333 | any number of calls on any schedule of short reads, blocks and signals: the outcomes other than EAGAIN are exactly the frames of the octets read, then a hang-up if there was one; no octet is lost, reread or unmasked twice; fewer outcomes than calls only if the socket blocked |
| WsRuns.SchedulesAgree | src/ws.c:335-515 | two differently scheduled runs over one stream report prefixes of the same outcomes |
| WsRuns.ServerRun | src/ws.c:335-515 | end to end from a masking client: on every schedule the calls report the client's payloads in order and each once, EMSGSIZE for those that do not fit, and all of them when the stream has been read, on every host that reads their lengths right |
| WsRuns.EndReported | src/ws.c:370-419 | of any part of a stream of messages and then a header that is refused or closes, the frames are the payloads, and then that end as soon as the header is there |
| WsRuns.EndRun | src/ws.c:335-515 | a client that closes or breaks the protocol: on every schedule its payloads are reported in order and then, as soon as the two header octets have been read and not before, the end of the connection with a Close of 1000 for a masked Close, and a protocol error with a Close of 1002 otherwise |
| WsRuns.CloseEnds | src/ws.c:401-419 | a stream of messages and then a masked Close, with any body and anything behind it, is one of these |
| WsRuns.EmptyMessageLooksLikeTheEnd | src/ws.c:335-515 | the returned int equals that of a hang-up exactly for a Close and for an empty message that fits |
| WsRuns.Do | src/ws.c:517-544 | a formatted write offers one binary frame of the clamped text; the mark of a sent Close survives |
| WsRuns.WriteRun | src/ws.c:189-234 | any sequence of writes and flushes on any schedule: the wire is part of the frames back to back and then, on a dead WebSocket that had sent none, part of a Close; queue and wire together hold all frames while the connection lives |
| WsRuns.ClientRun | src/ws.c:189-234 | end to end on the wire: what a client reads is exactly determined, is a prefix of the frames and at most one Close exactly when no frame is spoiled, is a prefix of the frames when no Close octets went out, and is all of them once the queue of a live connection is empty |
| WsRuns.CutFrameRun | src/libaxil.c:749-808 | on the schedule that takes a header, fails and then takes four octets, ws_write leaves a wire that reads as a frame nobody sent |
| WsDuplex.DuplexRun | src/ws.c:335-515 | reads, writes and flushes of one connection in any order, up to the first Close: the outcomes are the client's frames, the run ends with a Close of 1000 or 1002 exactly when the last outcome is a Close or a protocol error and dies exactly with the write side; the wire is part of the server's frames and then part of that Close, read in order exactly when no frame is spoiled, the Close as one exactly when it went out whole and at a frame boundary, and every frame once the queue of a live connection is empty |
| WireEnd.SeenAll | src/ws.c:218-227 | when all frames have gone out a client reads exactly these, and then the Close if it went out whole |
| Response.Combine | src/libaxil.c:315-318 | the one buffer is the head's octets then the body |
| Response.FormatHead | src/libaxil.c:310-314 | snprintf leaves the text cut to 4095 octets and a NUL, and reports the uncut length |
| Response.KeptIff | src/libaxil.c:310-314 | as many octets as the text has are the text itself exactly when it is shorter than the buffer |
| Response.Respond | src/libaxil.c:287-334 | the copy stays inside the buffer exactly for a head of at most 4096 octets; the kept head, and the body behind it unless it is a HEAD request, are then offered once and in order; afterwards the descriptor is marked for closing with a nonempty queue, or closed with everything sent |
| Response.ResponseRun | src/libaxil.c:656-688 | on every schedule without a hard error the client has a prefix of head and body while the connection is open, and exactly head and body when it is closed |
| HeadFormat.ShortestHead | src/libaxil.c:939-956 | three octets with a blank line are no head, and four are |
| HeadFormat.BeforeTheEnd | src/libaxil.c:939-956 | once a head is complete every longer prefix is, and no shorter one |
| HeadFormat.AssembleResumes | src/libaxil.c:961-985 | stopping between two reads and resuming from the stash changes nothing |
| HeadFormat.WaitingHoldsAll | src/libaxil.c:987-1090 | a waiting connection holds every octet received, no complete head, and no more than the bound |
| HeadFormat.DispatchedIsAll | src/libaxil.c:1084-1087 | a dispatched head is every octet received so far |
| HeadFormat.SmallHeadDispatched | src/libaxil.c:987-1090 | a head that ends a read before the bound is dispatched for every segmentation, as a prefix of the stream with less than one read behind it |
| HeadFormat.LargeHeadRefused | src/libaxil.c:1049-1057 | a stream with no head within 64 KiB is refused in every segmentation that delivers more |
| HeadFormat.DispatchedForEveryCutIff | src/libaxil.c:1049-1057 | every cut dispatches the head exactly when its end plus one read is at most 64 KiB and one |
| RequestReader.HeadComplete | src/libaxil.c:939-956 | the length exactly when a blank line is in the octets and there are at least four |
| RequestReader.Stash.Keep | src/libaxil.c:961-985 | the stash holds exactly the octets, its capacity at least doubles when it grows, up to 64 KiB and never beyond |
| RequestReader.Stash.Restore | src/libaxil.c:987-1013 | the shared buffer starts with exactly what was stashed, whatever it held before |
| RequestReader.Stash.Append | src/libaxil.c:1059-1076 | the read follows what is there, and a NUL follows it inside the buffer |
| RequestReader.Stash.Stop | src/libaxil.c:1028-1047 | a block stashes the partial head, the end of the stream drops it and never dispatches, an error fails |
| RequestReader.Stash.Read | src/libaxil.c:987-1090 | a pass does to the stashed head what one-shot assembly of its reads does; it waits only when the socket had no more |
| RequestReader.Input.CutBack | src/libaxil.c:522-529 | closing a descriptor cuts a buffer of more than four times the first size back to that, keeping its first octets, and leaves any other alone |
| RequestReader.HeadRun | src/libaxil.c:987-1090 | any number of passes, with other connections filling, growing and shrinking the shared buffer in between, come to one-shot assembly of all reads |
| RequestReader.SmallHeadRun | src/libaxil.c:987-1090 | a connection whose head ends a read before the bound is dispatched as soon as the head has arrived, with exactly the octets received and a NUL behind them, and is never refused as too long |
| RequestReader.LargeHeadRun | src/libaxil.c:1049-1057 | a connection with no head within 64 KiB is refused exactly when it has sent more than that, and never dispatched |
| RequestReader.GrowAndShift | src/libaxil.c:2888-2901 | wherever realloc moves the buffer, every argument pointer designates the same offset of it; `argv[argc]`, read at src/libaxil.c:2855 before, is inside the array |
| RequestReader.Gather | src/libaxil.c:2870-2905 | the buffer is what it held followed by exactly the octets read; it stops short only at the end of the stream, an error, a signal or a twenty-first stall, and success has met at most twenty; `argv[argc]` is inside the array, as above |
| RequestReader.BufferPostBody | src/libaxil.c:2836-2922 | success puts exactly the octets that the environment's last Content-Length declares after the head at the body's offset, with a NUL at their end unless the buffer ends there; without a declaration, or over the limit, nothing is read; with eight words the position of the headers is read outside the array, exactly when a body within the limit is declared |
| RequestReader.TerminatorInside | src/libaxil.c:2914-2919 | unless size and end satisfy the filling condition, the terminator falls inside the buffer for every delivery |
| BodyGrowth.ReachedFills | src/libaxil.c:2888-2891 | every size the loop can reach is one the condition names |
| BodyGrowth.FillsReached | src/libaxil.c:2888-2891 | every size the condition names is reached, filled to the last octet, by some delivery |
| BodyGrowth.NoRoomForTerminatorIff | src/libaxil.c:2888-2919 | some delivery leaves no room for the terminator exactly when the condition holds before the loop |
| BodyGrowth.FillsIff | src/libaxil.c:2888-2891 | the condition in closed form: the end is the present size, or even and within the band of sizes after some number of growths |
| BodyGrowth.RoomForTerminator | src/libaxil.c:2888-2919 | a body that ends below the present size, or at an odd index other than it, always has room |
| BodyGrowth.NoRoomExample | src/libaxil.c:2888-2919 | two reads fill a 16384-octet buffer exactly |
| HeaderBlock.BuildEnvName | src/libaxil.c:1833-1847 | the environment name, octet by octet: "HTTP_", and of the first 122 octets each small letter as its capital, each dash as an underscore and anything else as itself |
| HeaderBlock.EnvNameIs | src/libaxil.c:1833-1847 | the same of every name that is entered |
| HeaderBlock.LineStrings | src/libaxil.c:1849-1881 | with the NULs written, the two C strings of a line are its name and its value, whatever was cut at BUFSIZ |
| HeaderBlock.HeadersGet | src/libaxil.c:1849-1881 | the in-place loop enters what the scan of the original buffer finds, stale octets behind a jumped NUL included, says when it leaves the buffer, leaves NULs at its end, and leaves what is behind that alone |
| HeaderBlock.ScanOfPrinted | src/libaxil.c:1849-1881 | of headers printed with one octet behind the colon and CRLF ends the scan enters exactly the list in order, and the next position is the first of the body |
| HeaderBlock.ReadPrinted | src/libaxil.c:1849-1881 | the same on the buffer, which is unchanged from the body on |
| HeaderBlock.TakesReturns | src/libaxil.c:1849-1881 | a scan that ends behind a blank line has passed a carriage return for every line it entered and one for its end |
| HeaderBlock.EmptyIsLost | src/libaxil.c:1849-1881 | a first line with nothing behind its colon is never read back |
| HeaderBlock.LongLine | src/libaxil.c:1864-1868 | a line of 8192 octets or more is cut at its octet 8191: its value ends there, or its name when the colon comes behind it |
| HeaderBlock.ReadsBackIff | src/libaxil.c:1849-1881 | of headers printed with any gap behind the colon and either line end, the scan enters exactly the list and lands on the body if and only if every gap is one octet and every end is CRLF |
| HeaderBlock.EmptyValueExample | src/libaxil.c:1849-1881 | a head with an empty value right behind the colon is complete, but a line feed is entered for the value and the position is behind the body |
| RequestLine.Words | src/libaxil.c:626-632 | the loop ends every word but the last with a NUL and keeps where each begins, up to eight |
| RequestLine.Classes | src/libaxil.c:617-632 | whitespace and alphanumerics, character by character |
| RequestLine.SplitLine | src/libaxil.c:611-645 | the number of words is one more than the whitespace octets, eight at most, and none for a line that begins with no letter or digit, which stays as it is; the words' positions are kept; the position two behind the line's end is stored behind them, inside the array exactly for fewer than eight; nothing else changes |
| RequestLine.InsideIff | src/libaxil.c:626-642 | that position fits exactly for a line with at most six whitespace octets, or one that is not split |
| RequestLine.SevenSpaces | src/libaxil.c:626-642 | `P / 1 2 3 4 5 6` has eight words |
| RequestLine.PositionIff | src/libaxil.c:634-642 | of a request line with either end, the position found is that of the first header line exactly when it ends in CRLF |
| RequestLine.BareLineLoses | src/libaxil.c:634-642 | behind a request line that ends in a line feed no header lines, printed in whatever way, are read back exactly |
| RequestLine.RequestReadsBackIff | src/libaxil.c:1849-1881 | of a whole head with either line end anywhere and any gaps, the headers are entered exactly and the body is found if and only if every end is CRLF and every gap one octet |
| RequestLine.BareHead | src/libaxil.c:1042-1046 | `GET / HTTP/1.1` and two line feeds are a complete head whose header lines are looked for two octets behind its NUL, outside a buffer that ends there |
| RequestLine.BareLine | src/libaxil.c:634-642 | `GET / H`, a line feed and a CRLF header are a complete head whose header is lost |
| Dispatch.IsPreface | src/libaxil.c:1134-1140 | the preface is recognised exactly when the line's words are its |
| Dispatch.TrimName | src/libaxil.c:1142-1150 | the command is the letters and digits the line begins with, whatever follows them in the first word |
| Dispatch.CommandNames | src/libaxil.c:3396-3400 | the five commands by name, and the three of them that have a body |
| Dispatch.TargetString | src/libaxil.c:2980-2984 | the second C string is the line's second word, and runs on to the next NUL when no whitespace ends it |
| Dispatch.TakeLine | src/libaxil.c:1127-1180 | the header lines come next exactly for a registered command with two to seven words whose target passes all checks, with the URI of that target; eight words leave the array; the connection is closed exactly for a preface or a registered command that fails; what is behind the line's end stays as it was |
| Dispatch.SingleSpaceNeedsQuery | src/libaxil.c:2980-2997 | a line with a single whitespace octet is admitted only if its target has a question mark |
| Dispatch.SingleSpaceDepends | src/libaxil.c:2985-2990 | `GET /?` is admitted with its head alone and refused with 8192 more octets behind it |
| Dispatch.BareHeadAdmitted | src/libaxil.c:2980-3008 | that head with two line feeds passes every check before the header lines |
| Dispatch.BareLineAdmitted | src/libaxil.c:2980-3008 | so does that line |
| BodyLength.LookupIs | src/libaxil.c:1961-1971 | the last header line with a name decides its entry |
| BodyLength.NameIs | src/libaxil.c:1833-1847 | exactly the names that spell `Content-Length`, in any mix of cases and with a dash or an underscore, have that entry |
| BodyLength.StrtoulOfDecimal | src/libaxil.c:2839-2844 | every 64-bit length printed in decimal fits the buffer and is read as itself |
| BodyLength.DeclaredIs | src/libaxil.c:2839-2844 | a request whose last line that spells the name has a number in decimal declares that number |
| BodyLength.NoneDeclared | src/libaxil.c:2839-2842 | and none without such a line |
| BodyLength.EmptyDeclaresNone | src/libaxil.c:2839-2842 | nor with an empty value in the last one |
| BodyLength.StrtoulSkips | src/libaxil.c:2844-2844 | whitespace, a plus sign and what follows the digits do not matter |
| BodyLength.StrtoulWraps | src/libaxil.c:2844-2844 | -1 is the largest number there is, and no digits are 0 |
| BodyLength.DigitsReadIff | src/libaxil.c:2839-2844 | a declared length of digits is read as its value, clamped, exactly when it has fewer than 32 of them, is zero, or reaches the largest number within the first 31 |
| BodyLength.CutLength | src/libaxil.c:2839-2844 | 31 zeros and a five declare 0 |
| PostRequest.HeadIsWhole | src/libaxil.c:939-956 | any request line, even an empty one, regular header lines and a blank line are a head, and no shorter prefix is |
| PostRequest.TakeHead | src/libaxil.c:1181-1194 | the verdict on a dispatched head's line is the specified one on the octets that have arrived; only when it is admitted are its headers entered, and then exactly, with the head's end as body offset |
| PostRequest.TakeRequest | src/libaxil.c:1240-1310 | from the socket to the handler, for every request line, segmentation and schedule: the head is dispatched as soon as it has arrived, with the specified verdict; headers are entered exactly when the line is admitted; a body is gathered exactly for the methods that have one and a declared length within the limit, and then the octets at the handler's body pointer are the declared octets behind the head in the stream, with a NUL at their end unless the buffer ends there; that length is what the last line spelling `Content-Length` has, and none when no line does |
| HeaderBlock.BareLineFeeds | src/libaxil.c:1849-1881 | of a text without a carriage return nothing is entered and the position is its end, unless its first colon is its last octet: then the scan jumps over the NUL into what the buffer held before |
| DescriptorTable.ClosedSlotIsClean | src/libaxil.c:1337-1383 | a closed slot has generation 0, no peer, no place in the active set, and is nobody's peer |
| DescriptorTable.WatchedIff | src/libaxil.c:849-855 | a live descriptor is in the active set, and under the whole invariant nothing else is |
| DescriptorTable.TunnelCloseKeeps | src/libaxil.c:1385-1400 | tearing down either end of a live pair empties both slots and keeps the invariant |
| DescriptorTable.CloseKeeps | src/libaxil.c:444-530 | so does closing any descriptor, which is dead afterwards |
| DescriptorTable.AcceptKeeps | src/libaxil.c:819-872 | accepting a connection on a free number keeps it, the new descriptor watched |
| DescriptorTable.StartProxyKeeps | src/libaxil.c:3076-3104 | making a pending pair keeps it, also when the request could not be sent |
| DescriptorTable.EnterTunnelKeeps | src/libaxil.c:3269-3293 | entering tunnel mode from a pair keeps it |
| DescriptorTable.EnterTunnelDead | src/libaxil.c:3269-3293 | entering tunnel mode with two dead slots leaves live pairs right and breaks the rest of the invariant |
| DescriptorTable.RelayKeeps | src/libaxil.c:1504-1534 | relaying keeps it: both ends die together, or the octets join the peer's stream |
| DescriptorTable.OutputKeeps | src/libaxil.c:749-808 | writing to a plain connection disturbs no pair |
| DescriptorTable.FlushKeeps | src/libaxil.c:656-688 | flushing any queue, and a close it causes, keeps it |
| DescriptorTable.RelayAnswerIff | src/libaxil.c:1453-1493 | relaying the upstream's answer keeps the pair invariant exactly when it is not a 101 whose relay closes the client; live pairs stay right and no hook is called in any case, and both ends are dead exactly when the relay closes or the answer is no 101 |
| DescriptorTable.SwitchingText | src/libaxil.c:1476-1486 | an answer switches exactly when it begins with the text "HTTP/1.1 101" |
| DescriptorTable.StepKeepsIff | src/libaxil.c:1423-1540 | every event keeps what is said of live pairs, watched descriptors and generations, and the whole invariant exactly when it does not break a pair |
| DescriptorTable.RunKeepsIff | src/libaxil.c:1423-1540 | over every run: live descriptors are watched, live pairs are symmetric, without fixed points, at the same stage and lossless, generations and hooks distinct; and the whole invariant, with clean dead slots and no others watched, holds at every point of the run if and only if no event breaks a pair |
| DescriptorTable.StepMonotone | src/libaxil.c:849-858 | only an accepted connection gets a generation, one larger than any before; every other event hands out none |
| DescriptorTable.GoneForGood | src/libaxil.c:3330-3333 | a generation that has left the table appears in no slot of any later run |
| DescriptorTable.WouldBlockKeepsPair | src/libaxil.c:1412-1421 | EAGAIN changes nothing at all |
| DescriptorTable.InterruptTearsPair | src/libaxil.c:1412-1421 | a signal, the end of the stream or an error on one end empties both, and calls no hook |
| DescriptorTable.PairReadIff | src/libaxil.c:1443-1534 | both ends of a pair live or die together at a read, and die exactly when it is at its end, fails or is interrupted, when relaying closes the peer, or when the answer is no 101; no hook is called |
| DescriptorTable.HookIff | src/libaxil.c:444-484 | when a generation leaves the table at an event, the hook is called for it exactly if its slot was in no pair and did not enter one |
| DescriptorTable.HookIffRun | src/libaxil.c:444-484 | over every run the hook has been called for a generation exactly when it has left the table from a slot outside any pair |
| DescriptorTable.SilentRun | src/libaxil.c:1385-1400 | a run in which a proxied connection disappears and no hook is called |
| DescriptorTable.BreakRun | src/libaxil.c:1476-1486 | the run of a proxied connection whose 101 cannot be relayed is possible and leaves two dead slots flagged, paired and watched |
| DescriptorTable.BreakIsInherited | src/libaxil.c:845-872 | the next connection on that number has the other number for its peer |
| DescriptorTable.HookFiresOnce | src/libaxil.c:444-484 | closing a plain connection logs its generation, which was not logged before and is logged exactly once over every later run |
| DescriptorTable.ClosingStep | src/libaxil.c:444-530 | closing a live descriptor leaves it dead and unwatched, together with its peer and without a hook, or alone and with its hook |
| DescriptorTable.ResponseSteps | src/libaxil.c:656-688 | a response that blocks is queued, kept through its marking and a partial flush, and closed with its hook by the flush that empties the queue |
| DescriptorTable.CloseTwice | src/libaxil.c:449-459 | closing again changes nothing |
| DescriptorTable.ReusedSlotIsFresh | src/libaxil.c:845-872 | a number that is handed out again inherits no peer, stage, queue or generation |
| DescriptorTable.TunnelFidelity | src/libaxil.c:1504-1534 | after every run, in each direction of a live pair, sent plus queued is what was queued when the pair was made followed by all that was read from the other end, in order |
| SlotQueue.WriteIsStep | src/libaxil.c:749-808 | axil_low_write on the real buffer is the table's write for every answer of the kernel: the same queue, the same octets sent, the same closings, plus a closing when the buffer cannot grow |
| SlotQueue.FlushIsStep | src/libaxil.c:656-688 | axil_write_remaining is the table's flush, and closes exactly when the table does |
| EventLoop.Server.constructor | src/libaxil.c:3373-3381 | the initial table, which satisfies the invariant |
| EventLoop.Server.RawDescrReset | src/libaxil.c:1337-1383 | the arrays change as the table function says |
| EventLoop.Server.TunnelCloseRaw | src/libaxil.c:1385-1400 | both table entries and both descriptors, in the code's order, come to the table function |
| EventLoop.Server.AxilClose | src/libaxil.c:444-530 | the same for closing |
| EventLoop.Server.DescrNew | src/libaxil.c:819-906 | the same for accepting |
| EventLoop.Server.RequestProxy | src/libaxil.c:3083-3104 | the same for a proxy request |
| EventLoop.Server.WsTunnel | src/libaxil.c:3269-3293 | the same for entering tunnel mode |
| EventLoop.Server.ReadWaiting | src/libaxil.c:1453-1493 | the waiting branch, with its checks of the peer |
| EventLoop.Server.ReadTunnel | src/libaxil.c:1504-1534 | the tunnel branch |
| EventLoop.Server.ProcRead | src/libaxil.c:1443-1534 | the order of the branches |
| EventLoop.Server.HandleAll | src/libaxil.c:1423-1540 | any run of events in place ends where the table run ends; live pairs are right there, and the whole invariant holds if no event has broken a pair |
| Patterns.SegmentStep | src/libaxil.c:2717-2768 | one segment on each side does to the rest of the match what matching segment lists does |
| Patterns.BuildEnvKey | src/libaxil.c:2743-2752 | the name of a parameter, in capitals and cut to 255 characters |
| Patterns.ParamKey | src/libaxil.c:2743-2752 | the parameter `:id` is PATTERN_PARAM_ID |
| Patterns.WalkSegment | src/libaxil.c:2717-2768 | the pointer walk over one segment agrees: equal length and text, or a parameter that fits |
| Patterns.Walk | src/libaxil.c:2680-2768 | once round the loop either decides as segment matching does or leaves an equivalent rest |
| Patterns.PatternMatch | src/libaxil.c:2675-2769 | the walk ends, and its result, captures and counts are those of segment matching, for all texts |
| Patterns.StarTailIff | src/libaxil.c:2703-2711 | a last segment `*` is the catch-all exactly when no doubled slash follows it |
| Patterns.MatchMeans | src/libaxil.c:2675-2769 | segment matching succeeds exactly when the counts agree (at least, for a catch-all), each fixed segment is equal or a parameter whose value fits, and there are at most 16 parameters; captures and counts are those of the fixed segments |
| Patterns.PlainPatternMatch | src/libaxil.c:2669-2676 | for a pattern without doubled slashes the match succeeds exactly when both start alike and the segment lists meet |
| Patterns.DoubledSlashStar | src/libaxil.c:2703-2711 | `*//` has the segments of `*` and does not match what it matches |
| Patterns.ParamRoute | src/libaxil.c:2675-2769 | the pattern `/g/:k` takes `/g/x` for any segments, with x for its parameter |
| Patterns.QueryIgnored | src/libaxil.c:2675-2769 | a query is no part of the path |
| Routing.BetterIsStrictWeakOrder | src/libaxil.c:2651-2667 | the ranking is a strict weak order on successful matches, and ties are exactly equal counts |
| Routing.MatchPattern | src/libaxil.c:2775-2816 | the choice is the first matching route that none beats, nothing is chosen only if nothing matches, and the committed parameters are the winner's |
| Routing.ChoiceIsMostSpecific | src/libaxil.c:2651-2667 | whenever a route matches, the chosen one has no more catch-alls, then no fewer literal characters, then no more parameters than it, and comes first in the walk among equals |
| Routing.RankIndependentOfOrder | src/libaxil.c:2775-2816 | in whatever order the table is walked, the same requests match and the winner's rank is the same |
| Routing.ChoiceIsUnique | src/libaxil.c:2775-2816 | for one order the choice is determined |
| Routing.ParamRouteChosen | src/libaxil.c:2775-2816 | the route `/g/:k` is chosen for `/g/x` under any method, and a route without a parameter or star is never tried, not even the path itself |
| Routing.QualifiedFirst | src/libaxil.c:2795-2806 | when both paths would match, the one with the method decides |
| UrlCodec.DecodeUndoesEncode | src/axil-encode.c:22-72 | decoding the encoding of any NUL-free text gives it back |
| UrlCodec.HexValueIs | src/axil-encode.c:11-20 | the sixteen digits in both cases have their values, and every other character has none |
| UrlCodec.UnreservedIs | src/axil-encode.c:29-29 | exactly letters, digits, `-`, `.`, `_` and `~` are not escaped |
| UrlCodec.EncodeTexts | src/axil-encode.c:22-39 | a space is `%20` and a slash `%2F` |
| UrlCodec.DecodeTexts | src/axil-encode.c:41-72 | a plus sign is a space, `%2f` a slash, and `%g0` itself |
| UrlCodec.UrlEncode | src/axil-encode.c:22-39 | within any buffer with room, the encoding of as long a prefix as its guard lets in, and a NUL; with none, the NUL falls outside |
| UrlCodec.DecodeInto | src/axil-encode.c:53-69 | the loop writes as much of the decoded text as there is room for and touches nothing beyond |
| UrlCodec.UrlDecode | src/axil-encode.c:41-72 | exactly the decoded text cut to the buffer, and a NUL; nothing for a buffer of size 0 |
| UrlCodec.RoundTrip | src/axil-encode.c:22-72 | through any two nonempty buffers a prefix of the text comes back, and all of it when both are large enough |
| SafePath.ForbiddenSurvives | src/libaxil.c:1897-1926 | a backslash or control character is still there after a decoding that succeeds |
| SafePath.DotDotSurvives | src/libaxil.c:1897-1926 | so is a `..` segment |
| SafePath.SpelledDotsAreUnsafe | src/libaxil.c:1893-1936 | a target with a `..` segment is refused, each dot written as itself, as `%2e` or as `%2E` |
| SafePath.SpelledForbiddenIsUnsafe | src/libaxil.c:1919-1920 | so is one with a backslash, a control character or DEL, as itself or escaped in either case |
| SafePath.PlainSafeIff | src/libaxil.c:1883-1942 | a path without escapes is accepted exactly when it begins with a slash, is shorter than 8192 octets and has no `..` segment and none of those characters |
| SafePath.AcceptsIff | src/libaxil.c:1893-1941 | acceptance means exactly that every iterate of decoding exists and is free of `..` segments, backslashes and control characters, and the last starts with a slash |
| SafePath.LaterForms | src/libaxil.c:1938-1940 | after as many decodings as there are characters nothing changes |
| SafePath.DecodePass | src/libaxil.c:1893-1926 | a pass writes exactly the decoded text inside the buffer or refuses, and a changing pass shortens it |
| SafePath.SegmentLoop | src/libaxil.c:1928-1936 | the loop finds a `..` segment exactly when there is one |
| SafePath.RequestPathIsSafe | src/libaxil.c:1883-1942 | the check ends, and accepts exactly the targets that are safe in that sense and fit |
| SafePath.UriDotDotIff | src/libaxil.c:2984-3006 | of an accepted target the URI has a `..` segment exactly when the once-decoded path has such dots right before a question mark |
| SafePath.UriWithoutQuestionMark | src/libaxil.c:2995-3006 | without a question mark in the decoded path the URI has none |
| SafePath.PlainUri | src/libaxil.c:2995-3006 | of a target without escapes and plus signs the URI is what stands before the question mark |
| SafePath.EscapedQuestionMark | src/libaxil.c:2995-3006 | `/..%3Fx` is accepted and its URI is `/..` |
| SafePath.RequestUri | src/libaxil.c:2984-3006 | a request gets a URI exactly when its path is safe, it is short enough and decodes without a NUL, and the URI is then that one, never cut |
| CivilDate.YearStartClosed | src/libaxil.c:2262-2280 | days counted year by year equal the closed leap-year formula, before and after 1970 |
| CivilDate.EraSplit | src/libaxil.c:2271-2275 | the truncating division splits any year, negative ones included, into era and year of era |
| CivilDate.MonthFormula | src/libaxil.c:2274-2274 | the month formula counts the days before each month |
| CivilDate.DaysOfCountsIff | src/libaxil.c:2262-2280 | for every year and month the unsigned arithmetic counts the days exactly when the day number does not reach back over the beginning of the era |
| CivilDate.DayZeroOfAnEra | src/libaxil.c:2273-2276 | day 0 of March 2000 is off by 2^32 days |
| CivilDate.TmToTimeCounts | src/libaxil.c:2262-2280 | the seconds are those counted recursively, for every month, every day from 1 and every year |
| CivilDate.TimeOrder | src/libaxil.c:2262-2280 | later valid dates have larger times, equal ones equal times, and conversely |
| CivilDate.GmtimeInverts | src/libaxil.c:2262-2280 | the conversion and the day-by-day calendar undo each other both ways |
| HttpDate.MonthNumber | src/libaxil.c:2249-2260 | the index of the first month whose name the text starts with in any case, and -1 exactly when there is none |
| HttpDate.AnyCase | src/libaxil.c:2235-2260 | a text of three characters is read as a month exactly when it is that month's name in some mix of cases |
| HttpDate.MonthNames | src/libaxil.c:2249-2260 | the twelve names |
| HttpDate.DayNames | src/libaxil.c:2197-2216 | the seven days, which are printed from Sunday on |
| HttpDate.UnknownMonth | src/libaxil.c:2282-2307 | any other name makes the date bad |
| HttpDate.PrintedDateReadsBack | src/libaxil.c:2282-2307 | every time printed as an IMF-fixdate (section 7.1.1.1 of RFC 7231) reads back as itself |
| HttpDate.StandardDate | src/libaxil.c:2282-2307 | 784111777 is printed as the example of section 7.1.1.1 of RFC 7231, and that is read as its fields |
| HttpDate.EpochDay | src/libaxil.c:2197-2216 | time 0 is a Thursday |

## Left out

- TLS, SNI, ALPN, real sockets, `select`, `fcntl` and the Windows variants: foreign calls; only the read and write oracle is kept.
- The handshake of src/ws.c:156-187: SHA-1 and a single unchecked write of a fixed response; only the state it leaves is modelled.
- corm maps, xylem hooks and modules: hooks are taken not to change core state; a module that calls `axil_set_flags`, `axil_fd_watch` or closes descriptors from a hook is not covered.
- Static files, autoindex, MIME types, ETags, the CLI, daemonising, `axil_exec`, ptys, the status table, JSON and slug helpers: operating-system plumbing and easy members.
- Message fragmentation and ping or pong replies: the code hands on each frame by itself, and so does the model.
- Allocation failure outside the write queue: `malloc` in `ws_read` and `descr_new` and `realloc` for heads and bodies are taken to succeed.
- What a connection does after its first Close: the runs of both directions end there.
- The text of response headers: `Response.Respond` takes the finished head.
- What goes out when a head's text is longer than the buffer it was formatted into: the read past the buffer is reported, not followed.
- The environment of a connection: `corm_put` is taken to replace an entry and a new connection to have no `HTTP_CONTENT_LENGTH`; `strtoul` is the C library's on a host with 64-bit longs.
- Commands registered besides the five of the library, `axil_command`, `axil_vim` and `axil_flush` hooks, and what an authenticated connection may do with an unknown command: `Dispatch` calls it ignored.
- What happens after a write outside `argv`: `Dispatch.TakeLine` reports it and stops there.
- A WebSocket frame handed to `cmd_new` as a command line: only request heads are followed.
- Counters are unbounded: the overflow of a generation, of an int in `sscanf` or in seconds of a day, and of `size_t` outside the write queue is not modelled.
- `isalnum` and `toupper` are those of the C locale.
- DescriptorTable.Write: the queue is a value here and its growth always succeeds; `SlotQueue.WriteIsStep` names the difference to the buffer.
- The number of a new upstream socket is taken not to be in use: the kernel has just opened it.
- Descriptor 0 and the listening sockets: their zero-filled or hand-set table entries are not connections, and no event names them.
