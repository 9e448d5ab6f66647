# Hemi wire engines

Hemi is the HTTP stack of Gorox: HTTP/1.1 and HTTP/2 on the server side, HTTP and FastCGI towards backends.
This project models the parts of it that cut a byte stream into messages, together with the small state
machines beside them, and proves what they promise about every input, every run and every way the network
cuts the stream into reads.

A connection is a fixed wire and a socket that delivers any positive number of its bytes per read
(`Sockets.dfy`). The receivers are classes with the buffers and cursors of the original; their methods are
proved against functions on the whole wire, and the theorems are about these functions. So a contract such as
that of `Conn.RecvInFrame` or `Reader.ReadAll` says at once that the in-place code computes what the function
says, and that the cut into reads does not matter. The functions themselves are held against what is sent: from
the literal bytes that the standards ask for, without these functions, it is proved what is received for them, and
that nothing else is received (`SentLines.dfy`, `ChunkSound.dfy`, `SentRequests.dfy`, `FcgiSound.dfy`,
`Http2Kinds.dfy`).

| file | what it covers |
|---|---|
| `Bytes.dfy`, `Sockets.dfy`, `Numbers.dfy` | bytes and buffer moves, the byte supply, numbers as text |
| `Http2Frames.dfy`, `Http2Receiver.dfy`, `Http2Theorems.dfy`, `Http2Sessions.dfy`, `Http2Kinds.dfy` | frame headers, the receiver that coalesces CONTINUATION frames in place, what it means for field blocks, whole sessions, and each kind of frame byte for byte |
| `HpackTable.dfy`, `HpackVarint.dfy` | the dynamic table as a ring over a packed array, and variable-length integers |
| `FieldLines.dfy`, `SentLines.dfy`, `BrokenLines.dfy`, `Http1Windows.dfy` | header and trailer sections: parsing, what a peer may send for them, why they are refused, and the growing and sliding windows that receive them |
| `HeaderOutput.dfy`, `HeaderDeletion.dfy`, `HeaderClosing.dfy` | the buffer that header fields are printed to, when deleting from it does what it should, and what the peer finds in it |
| `Chunked.dfy`, `ChunkTheorems.dfy`, `ChunkSound.dfy`, `Locality.dfy` | the chunked coding: the resumable receiver, the writer, and the two together |
| `Pipelining.dfy`, `PipelineTheorems.dfy`, `SentRequests.dfy` | the hand-over of over-read bytes from one request to the next, over whole connections, and requests as they are sent |
| `FcgiRecords.dfy`, `FcgiSound.dfy` | the FastCGI record demultiplexer, and responses as they are sent |
| `StreamSeats.dfy`, `FileCache.dfy`, `Regions.dfy`, `HttpDate.dfy`, `HttpDateTexts.dfy` | stream seats and admission, the shared file cache, the region allocator, dates |

`dafny verify dfyconfig.toml` checks everything.

## Where the code does less than it should

Each of these is modelled as the code does it, with a concrete case and the exact condition.

- A field block of legal size can be refused, because its second slide is (web_general_http2.go:329). A
  comment there says that this only happens when a header is looked for; it happens for payloads too
  (`LegalBlockRefused`, a session from its preface on; `CoalesceComplete`, `NoRoomLeft`, `RoomNeeded`).
- The HPACK content array only starts again at 0 when the table is empty, and a table of 124 entries refuses
  the next one (web_element_http2.go:353, 379-386; `AddMeetsRfc`, `FifthAddOverruns`, `FullTableRefuses`).
- A number of five continuation octets can wrap to a small one (web_element_http2.go:161; `FifthOctetWraps`).
  What is accepted is decoded as what it stands for exactly below 2^32 (`ExactBelowTwo32`).
- Deleting a header lowers the later edges but does not move them down (web_general_http1.go:738-742, 757-759).
  Deleting by number sends what it should, but leaves the index right only near the end (`DeleteAt`,
  `CutIndex`). Deleting by name goes on with these edges: it can slice out of order, take part of a value for a
  field (`ValueTaken`), leave a stray line feed (`LineFeedLeft`), or leave an edge behind the buffer, so that the
  reserve is lost and nothing can be added or sent (`ReserveLost`). Where only fields look like fields, that is,
  with no colon in a value, no line feed in a name, and behind the edge no colon and room for the size of the
  first match (`Plain`, `Clean`; a buffer that still holds an earlier response need not be clean), there are exact
  conditions on the fields: the result is right exactly if the fields from the first match on are matches of one
  size with at most one other field behind them, whose name is shorter than that size (`DeletesOthers`; for one
  match `OneMatch`); when slicing fails (`SlicingFails`); when the reserve is lost (`ReserveKept`). Elsewhere
  a result can be right by coincidence (`RightByCoincidence`), but such a run is deleted properly (`RunDeleted`),
  and for one match the condition of a right index stays exact (`OneMatchIndex`).
- A sized request content that is passed on while it is read is not marked as received
  (web_general_http.go:1886-1919, web_server_http1.go:602), so it is received once more: small contents take
  bytes of the next request, large ones slice a text that is not there (`ExchangeStreamed`, `DropAgain`).
- A FastCGI record that is too large for the stock buffer loses the bytes already received when it stands at
  the start of it (web_backend_fcgi.go:1158-1164; `RecvRecord`, `LargeRecordIntact`); with an unused larger buffer it is
  refused (`RecvStdout`, `NothingThere`).
- Two threads that open the same file at once leave one of the files open for ever (hemi_fixtures.go:523-525;
  `TwoOpensLeakOne`, `LostStaysOpen`), and so does shutting down (hemi_fixtures.go:453-455). Who puts an entry
  into the map after that brings the process down (`LateInsertCrashes`, `CrashesWhenLate`).
- The date parser accepts a day 0 and any day name (`OnlyDatesAreRead`, `DayZeroIsRead`), and divides by zero
  when it gets to a month of three NUL bytes, exactly then (`Parse`, `FindMonth`).
- A padded DATA frame without content is refused (web_element_http2.go:555-558), though section 6.1 of RFC 9113
  allows it (`DataReceived`).
- Trailers do not close a stream, so a second trailer section is accepted (web_server_http2.go:236-248;
  `SecondTrailersAccepted`): exactly when the stream was opened without END_STREAM and has not ended
  (`TrailersAccepted`, `EndedTwice`).

## Model

| member | source | states |
|---|---|---|
| Http2Frames.HeaderRoundTrip | hemi/web_element_http2.go:499-536 | every frame header the encoder writes decodes to the same length, kind, stream and flags that mean something for the kind, unless its stream id is even and not zero, and then it is refused |
| Http2Frames.ReservedBitIgnored | hemi/web_element_http2.go:504-528 | the reserved bit before the stream id never changes what a header means (section 4.1 of RFC 9113) |
| Http2Receiver.InFrame.CheckAsFields | hemi/web_element_http2.go:563-594 | padding and priority fields are taken off a FIELDS payload, or the frame is refused, as its bytes on the wire demand |
| Http2Receiver.Conn.FillInBuffer | hemi/web_general_http2.go:265-276 | reading more never changes a byte that was received, whatever the size of the reads |
| Http2Receiver.Conn.GrowInFrame | hemi/web_general_http2.go:244-264 | a section of the next frame is in the buffer afterwards, with or without a slide, and what is behind it is untouched |
| Http2Receiver.Conn.SlideOverHoles | hemi/web_general_http2.go:327-343 | the two overlapping copies of the slide keep the payload collected so far and every byte not yet consumed; only the nine-byte holes disappear |
| Http2Receiver.Conn.GrowContinuationFrame | hemi/web_general_http2.go:318-351 | a second slide is refused with a frame size error; else the next section is there and cursors stay in order within the 9+16384 bytes |
| Http2Receiver.Conn.AppendContinuation | hemi/web_general_http2.go:300-310 | the payload of a continuation is appended to the effective payload in place, over padding and holes, and nothing behind it is lost |
| Http2Receiver.Conn.CoalesceContinuations | hemi/web_general_http2.go:277-317 | the in-place coalescing, for every way the wire is cut into reads, yields exactly what the value-level definition of a field block yields, errors included |
| Http2Receiver.Conn.RecvInFrame | hemi/web_general_http2.go:196-243 | a receive depends only on the bytes of the wire, not on the reads: same frame, same error, same bytes left |
| Http2Receiver.Conn.ReceiveFrames | hemi/web_general_http2.go:133-148 | a whole session delivers the frames the wire stands for, in order, up to the first error or GOAWAY, whenever the acknowledgement of the settings is noted; it matters only whether that is before the tenth frame |
| Http2Receiver.Conn.ReceiveFramesAsServer | hemi/web_general_http2.go:118-149 | a server takes a session only behind the 24-byte connection preface |
| Http2Theorems.CoalesceSound | hemi/web_general_http2.go:277-317 | whatever is handed over as a field block was on the wire as legal CONTINUATION frames of that stream, at most four, the last one and only it with END_HEADERS |
| Http2Theorems.CoalesceComplete | hemi/web_general_http2.go:277-351 | legal continuations within the size limit are coalesced if and only if they need no second slide; if they do, the error is a frame size error |
| Http2Theorems.FitsWithoutSliding | hemi/web_general_http2.go:318-351 | a block that fits behind what was received needs no slide |
| Http2Theorems.NoRoomLeft | hemi/web_general_http2.go:329-331 | with the payload at the front, refusal is exactly running past the end of the buffer, holes counted |
| Http2Theorems.RoomNeeded | hemi/web_general_http2.go:318-351 | else, when a section of continuation k is the first that does not fit, refusal is exactly that what was collected by then and all that is to come, headers counted, exceed the buffer |
| Http2Theorems.FieldBlockReceived | hemi/web_general_http2.go:196-351 | section 6.10 of RFC 9113: a FIELDS frame with its continuations arrives as the unpadded fragment followed by every continuation payload in order, and what follows is left, exactly when one slide is enough |
| Http2Theorems.FieldBlockSound | hemi/web_general_http2.go:196-351 | every multi-frame block that is delivered was laid on the wire like that |
| Http2Theorems.FragmentFound | hemi/web_element_http2.go:563-594 | unpadding undoes padding for any non-empty fragment, padding length and priority fields (section 6.2 of RFC 9113) |
| Http2Theorems.LegalBlockRefused | hemi/web_general_http2.go:329-331 | a client session of legal frames, from the preface on, whose field block of 16384 bytes is refused after the frames before it were received, where the header of the last continuation can be placed and its payload cannot |
| Http2Sessions.GroupReceived | hemi/web_general_http2.go:196-243 | any legal frame, with the continuations of its field block if it has any, is handed over as what it is, or refused, exactly if it needs a second slide |
| Http2Sessions.SessionPartition | hemi/web_general_http2.go:133-148 | over any session the frames handed over and what is left partition the wire: each stands for a stretch that is a legal frame with its continuations; a session that ends in good order ends with GOAWAY |
| Http2Sessions.SessionReceived | hemi/web_general_http2.go:133-148 | any sequence of legal frames that need no second slide is handed over as exactly these frames, and what follows is received from there |
| Http2Sessions.SessionRefused | hemi/web_general_http2.go:329-331 | the first one that needs a second slide ends the session, behind all those before it |
| Http2Sessions.ServerSessionReceived | hemi/web_general_http2.go:118-149 | the same for what a client sends behind its preface |
| Http2Kinds.SettingsReceived | hemi/web_element_http2.go:613-624 | section 6.5 of RFC 9113: a payload of up to eight pairs of a 2-byte identifier and a 4-byte value, built from these, on stream 0, is handed over, and so is an acknowledgement without any; every other payload, stream and flag is refused, each with its error |
| Http2Kinds.PingReceived | hemi/web_element_http2.go:628-636 | section 6.7: any eight bytes on stream 0, and nothing else |
| Http2Kinds.ResetReceived | hemi/web_element_http2.go:604-612 | section 6.4: any four bytes on a stream, and nothing else |
| Http2Kinds.WindowUpdateReceived | hemi/web_element_http2.go:646-651 | section 6.9: any four bytes on any stream or none, and nothing else |
| Http2Kinds.PriorityReceived | hemi/web_element_http2.go:595-603 | section 6.3: any five bytes on a stream, and nothing else |
| Http2Kinds.GoawayReceived | hemi/web_element_http2.go:637-645 | section 6.8: two 4-byte words and any text on stream 0, and nothing else |
| Http2Kinds.OtherKinds | hemi/web_element_http2.go:625-654 | a PUSH_PROMISE and a lone CONTINUATION are refused, and a frame of unknown kind is handed over as it is |
| Http2Kinds.DataReceived | hemi/web_element_http2.go:538-562 | section 6.1: the content is handed over without its padding, for any content, padding and stream, unless it is empty although there is padding |
| Http2Kinds.BadPaddingRefused | hemi/web_element_http2.go:538-562 | a padded DATA frame without Pad Length, or with padding that leaves no room, is refused, each with its error |
| Http2Kinds.HeadersReceived | hemi/web_element_http2.go:563-594 | section 6.2: the fragment is handed over without padding and priority fields, with the flag bits 0x01, 0x04, 0x08 and 0x20 written out |
| Http2Kinds.ShortHeadersRefused | hemi/web_element_http2.go:563-577 | a FIELDS frame too short for what its flags announce and one byte more is refused for its size |
| Http2Kinds.BadHeaderRefused | hemi/web_element_http2.go:499-520 | from the nine bytes: an even stream id that is not zero is a protocol error, more than 16384 bytes are a frame size error |
| Http2Kinds.TenthFrameRefused | hemi/web_general_http2.go:230-233 | what would be received as the tenth frame is refused while our settings are not acknowledged |
| Http2Kinds.PrefaceText | hemi/web_backend_http2.go:176-179 | the 24 bytes of section 3.4 |
| Http2Kinds.FifthContinuationRefused | hemi/web_general_http2.go:277-317 | a field block is refused behind four continuations that do not complete it |
| Http2Kinds.OtherFrameRefused | hemi/web_general_http2.go:289-296 | amid a field block any frame that is empty, makes the block too long, is of another kind or of another stream is refused, each with its error |
| HpackTable.KeepsAllItCan | hemi/web_element_http2.go:412-438 | eviction keeps the longest run of newest entries that fits: never more, never fewer (section 4.3 and section 4.4 of RFC 7541) |
| HpackTable.ResizeKeepsMost | hemi/web_element_http2.go:412-425 | section 4.3 of RFC 7541: after a resize exactly those of the newest are there that weigh, name and value and 32 each, no more than the new maximum |
| HpackTable.Table.Get | hemi/web_element_http2.go:398-411 | index i is the i-th newest field, wherever the ring and the content array put it |
| HpackTable.Table.EvictOne | hemi/web_element_http2.go:426-438 | only the oldest entry goes, and the free size grows by exactly its name, value and 32 |
| HpackTable.Table.Resize | hemi/web_element_http2.go:412-425 | evicts as many of the oldest as the new maximum demands and no more; the accounting stays exact, so there is always an entry to evict |
| HpackTable.Table.Append | hemi/web_element_http2.go:376-396 | the new entry is written behind the live content without touching it, or from the start when nothing is live |
| HpackTable.Table.Add | hemi/web_element_http2.go:352-397 | the ring and the packed content do exactly what the list-level add does, slicing out of range and refusal included |
| HpackTable.AddMeetsRfc | hemi/web_element_http2.go:352-397 | add does what section 4.4 of RFC 7541 asks if and only if there are fewer than 124 entries and the content fits behind the newest one that stays |
| HpackTable.InsertKeepsMost | hemi/web_element_http2.go:352-397 | what section 4.4 asks for is that the new field is in front, behind it as many of the newest as weigh no more than the maximum together with it; a field that weighs more leaves nothing |
| HpackTable.TableRefinesList | hemi/web_element_http2.go:332-438 | after any run of adds with room and resizes the table is the FIFO list of section 2.3.2 of RFC 7541 |
| HpackTable.FifthAddOverruns | hemi/web_element_http2.go:379-386 | a run of equal fields, three live at a time, after which the content array is full although the list would go on |
| HpackTable.FullTableRefuses | hemi/web_element_http2.go:353-355 | with 124 shortest entries add refuses although evicting the oldest would make room |
| HpackVarint.Encode | hemi/web_element_http2.go:191-222 | writes the encoding of section 5.1 of RFC 7541 and fails exactly when the buffer is too short for it |
| HpackVarint.VarintRoundTrip | hemi/web_element_http2.go:136-222 | every uint32 and every prefix width decode back to themselves, exactly when they are within the limit, whatever flags and bytes stand around |
| HpackVarint.RfcExamples | hemi/web_element_http2.go:191-222 | the three encodings of section C.1 of RFC 7541, octet by octet |
| HpackVarint.DecodesModulo | hemi/web_element_http2.go:136-171 | any accepted input is congruent modulo 2^32 to the number it stands for |
| HpackVarint.NumberAccepted | hemi/web_element_http2.go:136-171 | any number that stops below 2^32, in however many octets, is accepted exactly if it is within the limit, and then decoded as itself |
| HpackVarint.FourOctetsAreExact | hemi/web_element_http2.go:136-171 | with up to four continuation octets the limit and the number are exact |
| HpackVarint.ExactBelowTwo32 | hemi/web_element_http2.go:136-171 | what is accepted is decoded as what it stands for if and only if that is below 2^32; else, and only then, it is beyond the limit |
| HpackVarint.FifthOctetWraps | hemi/web_element_http2.go:136-171 | five octets that stand for 127+2^32 and decode to 127, below any limit |
| FieldLines.SectionParsed | hemi/web_general_http1.go:186-313 | a printed list of legal fields parses to the same ordered list, names hashed, wherever it stands in the input, if it fits |
| FieldLines.LineParsed | hemi/web_general_http1.go:200-300 | a printed field is parsed as its own name and value, nothing trimmed and nothing added |
| SentLines.SentLineParsed | hemi/web_general_http1.go:200-300 | whatever section 5 of RFC 9112 allows for a field line, a token in any case, any run of spaces and tabs on both sides of the value, CRLF or a line feed alone, is received as this value and as this name with 32 added to its bytes 65 to 90, and the hash is the sum of these bytes modulo 2^16 |
| SentLines.SentSectionParsed | hemi/web_general_http1.go:186-313 | and any section of them line by line, wherever it stands, if it fits |
| SentLines.CaseIgnored | hemi/web_general_http1.go:220-222 | two spellings of a name that differ only in case are received as the same line, hash included, and no letter in it is upper case |
| SentLines.LineSound | hemi/web_general_http1.go:200-300 | whatever is received as a field line was sent as one in that sense, byte for byte, and means what is received |
| SentLines.SectionSound | hemi/web_general_http1.go:186-313 | and so for whole sections |
| SentLines.TokenTable | hemi/web_element_http.go:359-376 | the table marks exactly the token characters of section 5.6.2 of RFC 9110, and the upper-case letters among them |
| BrokenLines.PartIsCutOff | hemi/web_general_http1.go:186-313 | every proper part of a section that fits is refused as cut off, for no other reason |
| BrokenLines.TooMuchIsTooLarge | hemi/web_general_http1.go:186-313 | a section that was sent well but has more bytes or lines than fit is refused as too large |
| BrokenLines.WhyBroken | hemi/web_general_http1.go:186-313 | what is malformed or too large stays so whatever follows, what is cut off becomes malformed with a NUL byte behind it, and too large is only what reaches a limit |
| Http1Windows.Window.GrowHead | hemi/web_general_http1.go:150-185 | growing from 1.5K to 4K to 16K keeps every byte; it fails exactly when 16K are full or the wire ends |
| Http1Windows.Window.GrowChunked | hemi/web_general_http1.go:639-666 | sliding the body window keeps the element at hand and all that follows; it fails exactly when an element fills the window or the wire ends |
| Http1Windows.Window.RecvHeaderLines | hemi/web_general_http1.go:186-313 | for every cut into reads and every growth, the positions handed out denote exactly the lines of the section on the wire, names in lower case, or the section's own error is reported |
| Http1Windows.Window.RecvTrailerLines | hemi/web_general_http1.go:518-638 | the same for trailers, moved to the array: refused exactly when malformed, cut off, too many, or too large for window or array |
| HeaderOutput.Output.GrowFields | hemi/web_general_http.go:2032-2054 | succeeds exactly when the fields and a 256-byte reserve fit in 16K; no 16-bit sum wraps unnoticed |
| HeaderOutput.Output.Add | hemi/web_general_http1.go:685-701 | appends exactly one field to what will be sent, whatever the index is, or changes nothing, with the exact condition; a right index stays right |
| HeaderOutput.Output.ReplaceAndFinalize | hemi/web_general_http.go:1773-1791 | a field is taken out by number and one is added, and the response ends: what is sent is the other fields, the new one and the closing ones, although the index may be wrong |
| HeaderOutput.Output.Get | hemi/web_general_http1.go:702-716 | finds the value of the first field of that name, and only of that name |
| HeaderOutput.Output.DeleteAt | hemi/web_general_http1.go:750-763 | what will be sent is the list without that field; the index stands for it if and only if the field is the last one, or the one before it and of the same size |
| HeaderOutput.Output.Delete | hemi/web_general_http1.go:730-749 | the loop on the arrays does in every case what the loop on values does whose outcomes follow, failing slices included |
| HeaderDeletion.DeletesOthers | hemi/web_general_http1.go:730-749 | where values have no colon and names no line feed, and there is no colon behind the edge and room for the size of the first match, deleting by name leaves all and only the other fields if and only if no field has the name, or those from the first match on are matches of one size and at most one other field behind them, with a shorter name; the index is right exactly if that one has the same size, too |
| HeaderDeletion.RunDeleted | hemi/web_general_http1.go:730-749 | such a run is deleted properly whatever the values are and whatever is behind the edge |
| HeaderDeletion.OneMatch | hemi/web_general_http1.go:730-749 | under the same condition on values, names and what is behind the edge, with one match either what will be sent is the list without it, or slicing fails, and exactly when |
| HeaderDeletion.OneMatchIndex | hemi/web_general_http1.go:730-749 | with one match, any values and anything behind the edge, everything is right exactly if it was the last field, or the one before it and of the same size |
| HeaderDeletion.SlicingFails | hemi/web_general_http1.go:733-734 | under the same condition, for any number of matches: slicing fails exactly unless each cut of the size of the first match ends at the name before the colon of the next field, down to the last field, or to the one before it with the colon of the last one in reach |
| HeaderDeletion.ReserveKept | hemi/web_general_http1.go:738-741 | under the same condition, the reserve is lost exactly if each of these cuts is taken, down to the last field, and together they are more than there is; then the edge is behind the buffer |
| HeaderDeletion.TwoSizes | hemi/web_general_http1.go:735-741 | a second match of another size in the last place: what is sent then, and where the edge is |
| HeaderDeletion.ReserveLost | hemi/web_general_http1.go:740 | two legal fields after whose deletion the edge is 65535 |
| HeaderDeletion.LineFeedLeft | hemi/web_general_http1.go:735-741 | two legal fields whose deletion leaves a lone line feed |
| HeaderDeletion.ValueTaken | hemi/web_general_http1.go:733-741 | three legal fields of which one is deleted and another one loses part of its value and its line end |
| HeaderDeletion.RightByCoincidence | hemi/web_general_http1.go:733-741 | three fields of different sizes that are deleted properly, because a value looks like a field |
| HeaderOutput.CutIndex | hemi/web_general_http1.go:738-742 | lowering the later edges without moving them down is right exactly in those cases |
| HeaderOutput.Output.Finalize | hemi/web_server_http1.go:1229-1269 | date, expires, last-modified, framing, type and connection are appended within the reserve, at most 209 bytes, whatever was added before |
| HeaderOutput.HeadReceived | hemi/web_general_http1.go:685-775 | whatever fields were accepted and however the response ends, the head parses back to the same ordered list of lines, behind any status line of up to 30 bytes |
| HeaderClosing.FramingFound | hemi/web_server_http1.go:1243-1262 | among the closing headers the peer finds the size of the content, in digits that mean it, exactly if that is known, "chunked" exactly if it is not and the peer knows chunks, and neither without content or where framing is forbidden |
| HeaderClosing.ConnectionFound | hemi/web_server_http1.go:1263-1268 | it finds "close" exactly if the connection does not persist, or there is a content, framing is not forbidden, and it finds nothing that tells its end; else "keep-alive" |
| HeaderClosing.DatesFound | hemi/web_server_http1.go:1229-1241 | it finds each of the three dates under its own name, exactly if it was to be sent |
| Chunked.Reader.Read | hemi/web_general_http1.go:362-516 | one call, in any state, delivers a piece of exactly what is still due, or finds the end, or fails only if the body is bad: the rest of the body is unchanged by how it was cut |
| Chunked.Reader.ReadAll | hemi/web_general_http1.go:362-516 | success, content, trailers and the over-read bytes depend on the wire alone, for every fragmentation |
| Chunked.Reader.RecvDigits | hemi/web_general_http1.go:388-409 | at most fifteen digits, so the 64-bit size never overflows; none at all is zero |
| Chunked.Reader.TakeRestOfChunk | hemi/web_general_http1.go:484-512 | chunk data is cut off at its end whatever part of the line end has arrived, and the state remembers what is missing |
| ChunkTheorems.WellFormedReceived | hemi/web_general_http1.go:362-516 | section 7.1 of RFC 9112: every well-formed body within the limits, extensions and trailers included, is received as its chunk data and trailers, and what follows is left |
| ChunkSound.DecodeSound | hemi/web_general_http1.go:362-516 | whatever is received as a body was sent as one: size lines of up to 15 digits with or without an extension, as much data as each says, a line end, a chunk of size 0 and trailer lines; its content is this data, its trailers are what the lines mean, and the rest is what stands behind |
| ChunkTheorems.BodyIsPrefix | hemi/web_general_http1.go:459-468 | on every wire, what is left behind a body is a proper suffix of it, and no more content is delivered than allowed or received |
| ChunkTheorems.Writer.WriteTextPiece | hemi/web_general_http1.go:979-994 | one chunk for one text piece |
| ChunkTheorems.Writer.WriteFilePiece | hemi/web_general_http1.go:995-1038 | a file goes out whole, in chunks of 1 to 16K bytes, or breaks the stream exactly when it is shorter than announced |
| ChunkTheorems.Writer.FinalizeVague | hemi/web_general_http1.go:938-950 | the last chunk and the trailer fields end the body, with or without trailers |
| ChunkTheorems.WrittenBodyReceived | hemi/web_general_http1.go:362-1038 | what the writer sends is read back as the same bytes and trailers, taking nothing of what follows, if and only if no piece is empty, none reaches 2^60 bytes and the total is allowed |
| ChunkTheorems.EmptyPieceEndsBody | hemi/web_general_http1.go:979-994 | an empty text piece reads as the end of the body; its callers skip empty pieces (web_general_http.go:1981) |
| Locality.SectionLocal | hemi/web_general_http1.go:186-313 | a header section is recognised by its own bytes, whatever follows |
| Locality.DecodeLocal | hemi/web_general_http1.go:362-516 | a chunked body is recognised by its own bytes, whatever follows |
| Pipelining.Connection.RecvHead | hemi/web_server_http1.go:633-653 | the request line, with the bytes that are lowered in it, the header lines behind it and the bytes behind them do not depend on the reads; they are what the wire says |
| Pipelining.Connection.TidyInput | hemi/web_server_http1.go:1021-1057 | what was received with the head is divided between this request and the next without loss |
| Pipelining.Connection.ReadSized | hemi/web_general_http1.go:322-361 | pieces of a sized content join up to exactly what is due; asked again after the end it fails unless the content came with the head |
| Pipelining.Connection.RecvContent | hemi/web_general_http.go:1044-1094 | in each of its three ways exactly the content is received and exactly the rest is handed over |
| Pipelining.Connection.OnEnd | hemi/web_general_http.go:321-337 | the bytes for the next request stand at the start of its input, from the old input or from the body window |
| Pipelining.Connection.Exchange | hemi/web_server_http1.go:593-605 | one request takes its own bytes from the connection and no others, whatever its kind of content |
| Pipelining.Connection.Serve | hemi/web_server_http1.go:353-359 | a connection serves exactly the requests that are on the wire, in order |
| Pipelining.Connection.ExchangeStreamed | hemi/web_general_http.go:1886-1919 | after a sized content was passed on while read, the next request is intact if and only if the content came with the head |
| Pipelining.Connection.DropAgain | hemi/web_general_http.go:1031-1043 | the second receive behind such a content takes its size from the next requests, or fails |
| PipelineTheorems.RequestLocal | hemi/web_server_http1.go:633-653 | a request is recognised by its own bytes |
| PipelineTheorems.RequestsPartition | hemi/web_server_http1.go:1021-1057 | the requests served and the bytes left partition the wire, and each request alone on its stretch is the same request |
| PipelineTheorems.PipelineReceived | hemi/web_server_http1.go:353-359 | requests sent one behind the other, of any kinds, are received as exactly these |
| SentRequests.RequestReceived | hemi/web_server_http1.go:593-653 | a request built from its line, its field lines and a content that is absent, of known size or in chunks is received as exactly its line, its field lines by their meaning and its content, if the parser takes the line and its head tells that kind of content; what follows is left |
| SentRequests.RequestsReceived | hemi/web_server_http1.go:353-359 | requests sent one behind the other, of any kinds, are served as exactly these, contents included, and then what follows them |
| SentRequests.RequestSound | hemi/web_server_http1.go:593-653 | whatever is served as a request was sent as one, with that line, these field lines and this content |
| FcgiRecords.Response.RecvBody | hemi/web_backend_fcgi.go:1090-1135 | what a record is read from, in every case: its own bytes if it fits or something could slide, else those of the new buffer |
| FcgiRecords.Response.Enlarge | hemi/web_backend_fcgi.go:1158-1164 | moving to the larger buffer keeps what was received exactly when there is something to slide out |
| FcgiRecords.Response.RecvRecord | hemi/web_backend_fcgi.go:1090-1135 | a record that fits the buffer is received as it is on the wire, for every cut into reads and every slide; of a larger one, kind and payload are those of the buffer that was exchanged |
| FcgiRecords.Response.RecvStdout | hemi/web_backend_fcgi.go:1048-1089 | the next non-empty stdout data, stderr and padding dropped; the end only behind an end of request; a record that is lost fails |
| FcgiRecords.Response.GrowHead | hemi/web_backend_fcgi.go:604-646 | data moved to the head input, and data left, are together what was due, across growth and partial copies |
| FcgiRecords.Response.ReadContent | hemi/web_backend_fcgi.go:978-994 | each piece of content is the next part of what is due, and the end comes exactly when nothing is |
| FcgiRecords.Response.Receive | hemi/web_backend_fcgi.go:589-994 | head bytes and content together are exactly the stdout data of the response, if its records fit |
| FcgiRecords.ResponseReceived | hemi/web_backend_fcgi.go:1048-1135 | section 3.3 of the FastCGI Specification: any sequence of stdout and stderr records with padding is received as the stdout payloads in order |
| FcgiSound.RawResponseReceived | hemi/web_backend_fcgi.go:1048-1135 | the same from record headers written out byte for byte, with the kinds 6, 7 and 3, any version, request id, padding and reserved byte, and standard error before and behind the end of standard output |
| FcgiSound.ResponseSound | hemi/web_backend_fcgi.go:1048-1135 | whatever is received as a response was sent like that, and its content is the payloads of its records of kind 6, in order |
| FcgiRecords.SmallRecordsReceived | hemi/web_backend_fcgi.go:1048-1164 | if each of them fits the stock buffer, the wire is one whose head and content are received as exactly that |
| FcgiRecords.LargeRecordIntact | hemi/web_backend_fcgi.go:1158-1164 | a record too large for the stock buffer is handed out with the kind and payload it has on the wire, whatever the pool hands out, if and only if there was something to slide out |
| FcgiRecords.NothingThere | hemi/web_backend_fcgi.go:1121-1123 | with an unused pool buffer such a record is handed out with kind 0 |
| StreamSeats.Connection.AppendStream | hemi/web_general_http2.go:160-168 | a new stream gets a free seat of its own; free and taken seats stay a partition of 0..126 |
| StreamSeats.Connection.SearchStream | hemi/web_general_http2.go:169-184 | the sentinel search finds exactly the active stream of that id, or none |
| StreamSeats.Connection.EndStream | hemi/web_server_http2.go:157-179 | exactly that stream is retired, and its seat is free again |
| StreamSeats.Connection.ProcessFields | hemi/web_server_http2.go:206-252 | which frames admit a stream, which are trailers and which are refused, whatever the seats |
| StreamSeats.SeatTaken | hemi/web_general_http2.go:160-168 | taking the seat on top of the stack keeps the partition and adds one active stream |
| StreamSeats.SeatLeft | hemi/web_general_http2.go:185-194 | giving a seat back keeps the partition and removes one active stream |
| StreamSeats.TableValid | hemi/web_general_http2.go:151-194 | in every valid state ids are distinct, not zero and no greater than the last, and the count is that of the active streams |
| StreamSeats.NeverReused | hemi/web_server_http2.go:206-226 | section 5.1.1 of RFC 9113: over any run, an id once passed is never active again |
| StreamSeats.TrailersAccepted | hemi/web_server_http2.go:235-249 | over any run behind its admission, and whatever frames came before, a FIELDS frame of a stream is accepted if and only if it carries END_STREAM, the first one did not, and the stream has not ended |
| StreamSeats.NewStreamAnswered | hemi/web_server_http2.go:211-234 | for an id beyond the last one, the answer is good exactly if the stream is there afterwards, in the state its END_STREAM asks for, and exactly if there are fewer than 127 and the block decodes |
| StreamSeats.CompressionErrorMeans | hemi/web_server_http2.go:222-226 | the answer is a compression error exactly if the block does not decode and the same frame with one that does would be answered well |
| StreamSeats.RefusedChangesNothing | hemi/web_server_http2.go:206-252 | any other answer leaves the streams as they are |
| StreamSeats.ActiveWhenAnswered | hemi/web_server_http2.go:206-252 | over any run, a stream is active at some time exactly if one of its frames is answered well, and as long as the connection lasts exactly if its first one is |
| StreamSeats.EndedTwice | hemi/web_server_http2.go:235-249 | a frame behind one that carried END_STREAM is accepted exactly when that was not the one that opened the stream, and the stream is still there |
| FileCache.StepKeepsValid | hemi/hemi_fixtures.go:436-560 | every atomic step of every thread keeps the count one less than holders plus map |
| FileCache.NeverClosedInUse | hemi/hemi_fixtures.go:550-560 | in every reachable state of any interleaving a file that somebody has, or can get, is open, and none is closed twice |
| FileCache.OpenUntilGivenBack | hemi/hemi_fixtures.go:463-490 | over any interleaving, from the steps alone: a file that an opening or a lookup handed out is neither closed nor about to be, until it is released |
| FileCache.HoldersAre | hemi/hemi_fixtures.go:463-560 | over any run the holders of a file are the openings and lookups that handed it out, less its releases |
| FileCache.ClosedWhenGivenBack | hemi/hemi_fixtures.go:436-560 | over any run a file is closed, or about to be, exactly if its expiry took place and it was released as often as it was handed out; never twice |
| FileCache.LookupReturnsOpenFile | hemi/hemi_fixtures.go:463-476 | a lookup never returns a file that is closed or about to be |
| FileCache.ClosedExactlyWhenExpired | hemi/hemi_fixtures.go:436-455 | a file is closed, or about to be, if and only if it has expired and nobody has it |
| FileCache.LostStaysOpen | hemi/hemi_fixtures.go:523-525 | an entry pushed out of the map by another one, or by shutting down, is never closed, however the run goes on |
| FileCache.LostExactlyWhen | hemi/hemi_fixtures.go:523-525 | an entry gets lost exactly when it is in the map and another one of its path is put there, or the cache is shut down |
| FileCache.CrashesWhenLate | hemi/hemi_fixtures.go:453-455 | the process comes down exactly when an entry is put into the map behind a shutdown |
| FileCache.LateInsertCrashes | hemi/hemi_fixtures.go:523-525 | a run that does: a file is being opened while the cache is shut down |
| FileCache.TwoOpensLeakOne | hemi/hemi_fixtures.go:479-531 | a run of two threads after which a file stays open for ever |
| FileCache.Cache.ReleaseEntry | hemi/hemi_fixtures.go:553-560 | a release closes the file exactly when it was the last one of an expired entry |
| FileCache.Cache.ExpireEntries | hemi/hemi_fixtures.go:436-455 | exactly the expired entries leave the map, each gives back the map's reference once, and no other file changes |
| Regions.Region.Make | hemi/mix.go:259-283 | every buffer is apart from all others and from every footer, what others hold is unchanged, and it comes from the last block exactly if it fits there, else from one new block, or from an array of its own |
| Regions.Region.Write | hemi/mix.go:259-283 | whoever got a buffer may fill it: no footer and no other buffer changes |
| Regions.Region.Free | hemi/mix.go:284-294 | the pool gets back exactly the blocks that were taken, each once |
| Regions.Region.Init | hemi/mix.go:254-258 | the first block is empty again |
| HttpDate.DaysToYearIs | hemi/hemi_fixtures.go:322-332 | the closed form counts the same days as going year by year |
| HttpDate.Parse | hemi/hemi_fixtures.go:201-336 | on every text: accepts exactly the readable dates and returns the seconds that counting days gives; divides by zero exactly when it gets to a month of three NUL bytes |
| HttpDate.TextRead | hemi/hemi_fixtures.go:201-336 | all three formats of an instant are read as that instant (section 5.6.7 of RFC 9110) |
| HttpDate.OnlyDatesAreRead | hemi/hemi_fixtures.go:201-336 | whatever is accepted is the text of an instant in one of the three formats |
| HttpDate.FormatsAgree | hemi/hemi_fixtures.go:201-336 | the three texts of a moment in 1970..2069 mean the same |
| HttpDate.SecondsInOrder | hemi/hemi_fixtures.go:320-336 | seconds keep the order of dates, so no two dates share a number |
| HttpDate.FindMonth | hemi/hemi_fixtures.go:345-368 | the perfect hash finds a month exactly when the letters are its name, and fails only for three NUL bytes |
| HttpDate.DayZeroIsRead | hemi/hemi_fixtures.go:312-319 | a day 0 is accepted |
| HttpDate.Write | hemi/hemi_fixtures.go:161-199 | writes the first format |
| HttpDate.WrittenIsRead | hemi/hemi_fixtures.go:161-336 | the parser inverts the writer |
| HttpDate.ClockFixture.WriteDate | hemi/hemi_fixtures.go:113-147 | the clock packed in an int64, negative or not, writes the same bytes as the direct writer |
| HttpDateTexts.DayWritten | hemi/hemi_fixtures.go:161-170 | the letters in front of a written date are those of its day of the week, counted from the date |
| HttpDateTexts.DayLetters | hemi/hemi_fixtures.go:341 | which letters stand for which number of a day |
| HttpDateTexts.MonthLetters | hemi/hemi_fixtures.go:342 | and for which month |
| HttpDateTexts.ExampleDay | hemi/hemi_fixtures.go:161-199 | the date in section 5.6.7 of RFC 9110 is a Sunday |
| HttpDateTexts.FixedIsExample | hemi/hemi_fixtures.go:161-199 | its text is that of RFC 9110, letter by letter |
| HttpDateTexts.Rfc850IsExample | hemi/hemi_fixtures.go:201-336 | and in the second format |
| HttpDateTexts.AsctimeIsExample | hemi/hemi_fixtures.go:201-336 | and in the third |
| HttpDateTexts.ExampleSecond | hemi/hemi_fixtures.go:320-336 | and stands for second 784111777 |
| HttpDateTexts.LeapDaySecond | hemi/hemi_fixtures.go:320-336 | the noon of February 29, 2000 is second 951825600 |
| HttpDateTexts.LastSecond | hemi/hemi_fixtures.go:320-336 | January 19, 2038, 03:14:08 is second 2^31 |
| Numbers.TextToI64 | hemi/hemi_utilities.go:50-91 | succeeds exactly on non-empty digit texts of up to 19 or 16 digits whose value is below 2^63: the sign test is exact |
| Numbers.SignTells | hemi/hemi_utilities.go:65-67 | within these lengths a wrapped value is negative exactly when it is too large, and right if it is not |
| Numbers.PutI64 | hemi/hemi_utilities.go:93-139 | writes the shortest text into the buffer and nothing else |
| Numbers.Int64RoundTrip | hemi/hemi_utilities.go:50-139 | every non-negative int64 is read back from its text |
| Numbers.RaisedText | hemi/hemi_utilities.go:147-159 | a text and the same with any of its letters raised stand for the same number |
| Numbers.DigitsInOrder | hemi/hemi_utilities.go:147-159 | the digits are 0 to 9 and a to f, in either case, in this order |
| Numbers.OnlyTheseDigits | hemi/hemi_utilities.go:147-159 | and no others |
| Numbers.WrittenInLowerCase | hemi/hemi_utilities.go:93-139 | numbers are written in lower-case digits |

## Left out

- Http2Receiver.Conn.RecvInFrame: models the input buffer as owned by the receiver; its replacement when streams refer to it is not there, because no stream does yet.
- HeaderDeletion.DeletesOthers: is an equivalence only for values without a colon and names without a line feed, with no colon behind the edge and room there for the size of the first match, and so are OneMatch, SlicingFails and ReserveKept; else what looks like a field, stale copies and 16-bit sums can cancel out (RightByCoincidence).
- Pipelining.Connection.RecvHead: takes what is thought of each byte of the request line, and what is put in its place, as arbitrary, and the checks on the header lines as an arbitrary function of the head; request targets, host names and the tables of known headers are not modelled, nor that 405, 413 and the like close the connection.
- Pipelining.Connection.ExchangeStreamed: does not model a vague content that is passed on while it is read, whose second receive looks at stale positions of a fresh window; only sized ones.
- FileCache.Cache.ExpireEntries: does not model directories and small files, which are not counted, nor when an entry expires; which entries do is a parameter.
- HttpDate.Write: takes the civil date and the weekday as given; time.Unix, which computes them, is not part of this model.
- HpackVarint.VarintRoundTrip: does not cover Huffman strings; encoding and decoding them are stubs in the original.
- Chunked.Reader.Read: models the pooled window as a fresh one; timeouts and deadlines are read failures.
- FcgiRecords.Response.Receive: does not parse the head; where the parser stops is arbitrary.
- StreamSeats.Connection.ProcessFields: whether a field block decodes is a parameter; requests are not executed.
- Regions.Region.Free: forgets all blocks, where the original keeps its emptied slots if there were at most four; Init starts over in both.
- The array of a message (_growArray) is one byte string with a limit; its growth through pooled and made buffers only copies.
- Backend requests, whose control line shares the first edge interval, and the indexes of singleton headers, which deletions do not keep.
- Splitting and parsing of field values, cookies, forms, ranges and conditions: too many checks are still to be written there.
- HTTP/2 outgoing frames and windows, HTTP/3, QUIC, SCGI, WebSocket, TLS, configuration, processes and logging.
- Connection pools and content chains, whose claims are those of any queue.
