# HTTP/2 server core: DATA frames, TLS hello extensions, OWIN response adapter, secure-socket queue

This is a Dafny model of four sequential pieces of an HTTP/2 server for .NET and of the TLS
library it is built on, with proofs of what each piece promises.

- **DATA frames** (`data_frame.dfy`, module `DataFrames`). The outgoing constructor lays out a
  DATA frame with optional Pad High / Pad Low padding, as in section 6.1 of
  draft-ietf-httpbis-http2-12. The flag properties, `HasPadding`, and the `PadHigh`, `PadLow`
  and `Data` getters read it back. `DataFrame` is a class: its buffer is an `array`, and its
  flag set, stream id and payload length are fields. The getters are functions of the buffer
  contents and the flags.
- **TLS hello extensions** (`extensions_parser.dfy`, module `ExtensionsParsing`). This is the
  cursor-driven parser of the `extensions<0..2^16-1>` block of section 7.4.1.4 of RFC 5246.
  It keeps the entries whose type is known and hands their bodies to that extension's parser.
- **OWIN response adapter** (`owin_handler.dfy`, module `OwinMessageHandling`). It covers:
  - the request pseudo-header check that resets the stream with PROTOCOL_ERROR;
  - the fault, before any frame is written, when two request header names are equal ignoring
    case;
  - the `:status` HEADERS frame;
  - the response body read in bounded chunks and sent as DATA frames;
  - the END_STREAM rules.

  The stream records the RST_STREAM, HEADERS and DATA frames written to it.
- **Secure-socket bookkeeping** (`socket_controller.dfy`, module `SocketControl`):
  - the queue of outgoing transfers: protocol data first, application data held back until
    negotiation completes, one socket send in flight, partial sends completed;
  - the drain of the queue when the connection closes;
  - the decrypted-bytes buffer that serves a pending receive;
  - the byte helpers.

  `SocketController` is a class whose fields mirror the source's. Each method is proved to
  leave the state that a transition function of the old state gives. The lemmas about the queue
  discipline are stated on those functions.

`common.dfy` (module `Common`) holds bytes, `Option`, and `Result`. A .NET exception is a
`Throws` value. It also holds Int32 wrap-around and the argument checks of the `ArraySegment`
constructor and of `Buffer.BlockCopy`.

Unseen collaborators are parameters or abstract values:
- the frame preamble size and the maximum frame content size are constants of unknown value;
- the per-extension parsers are function values that return what they built and how far they
  moved the cursor;
- the record layer's encryption is an arbitrary function;
- the application's run and the socket's `Connected` state are inputs.

## Model

| member | source | states |
|---|---|---|
| DataFrames.DataFrame.Outgoing | src/Libraries/Microsoft.Http2.Protocol/Framing/DataFrame.cs:30-61 | fresh buffer of preamble + payload length bytes; payload length is 2 + data + PadHigh*256+PadLow when that sum is nonzero, the data length otherwise; payload is pad fields, data, then zero bytes, or the data alone; flags are the two pad flags exactly when padded plus END_STREAM exactly when asked; stream id kept |
| DataFrames.DataFrame.Incoming | src/Libraries/Microsoft.Http2.Protocol/Framing/DataFrame.cs:24-27 | an incoming frame shares the buffer and takes the preamble's flags, stream id and payload length |
| DataFrames.DataFrame.SetFlag | src/Libraries/Microsoft.Http2.Protocol/Framing/DataFrame.cs:63-121 | a flag setter ORs the flag in when given true and changes nothing when given false, so no flag is ever cleared |
| DataFrames.DataFrame.SetPadHigh | src/Libraries/Microsoft.Http2.Protocol/Framing/DataFrame.cs:134 | writes exactly the byte after the preamble, or throws IndexOutOfRange with the buffer unchanged |
| DataFrames.DataFrame.SetPadLow | src/Libraries/Microsoft.Http2.Protocol/Framing/DataFrame.cs:143 | writes exactly the second byte after the preamble, or throws IndexOutOfRange with the buffer unchanged |
| DataFrames.DataFrame.BlockCopy | src/Libraries/Microsoft.Http2.Protocol/Framing/DataFrame.cs:49 | the data lands verbatim at the offset and every other byte of the buffer is unchanged |
| DataFrames.HasPaddingIn | src/Libraries/Microsoft.Http2.Protocol/Framing/DataFrame.cs:123-126 | HasPadding holds iff both pad flags are set; one of them alone is not padding |
| DataFrames.PadHighIn | src/Libraries/Microsoft.Http2.Protocol/Framing/DataFrame.cs:128-135 | PadHigh is 0 without padding; with padding it is the byte right after the preamble, and IndexOutOfRange when the buffer ends before it |
| DataFrames.PadLowIn | src/Libraries/Microsoft.Http2.Protocol/Framing/DataFrame.cs:137-144 | PadLow is 0 without padding; with padding it is the second byte after the preamble, and IndexOutOfRange when the buffer ends before it |
| DataFrames.DataIn | src/Libraries/Microsoft.Http2.Protocol/Framing/DataFrame.cs:161-175 | as written: without padding, everything after the preamble; with padding, bytes from just after the pad fields, as many as the buffer minus the preamble minus (PadHigh*256 - PadLow); see PaddedDataAsWritten and PadLowOneThrows |
| DataFrames.IntendedDataIn | src/Libraries/Microsoft.Http2.Protocol/Framing/DataFrame.cs:161-175 | corrected: without padding, everything after the preamble; with padding, a prefix of the bytes after the pad fields, and IndexOutOfRange when the pad fields are missing; exact length in IntendedDataLength |
| DataFrames.DataFrame.Data | src/Libraries/Microsoft.Http2.Protocol/Framing/DataFrame.cs:161-175 | the getter on the frame's own buffer and flags, with the corrected padding: the payload after the preamble when unpadded, a prefix of what follows the pad fields when padded |
| DataFrames.ConstructedFlagsReadBack | src/Libraries/Microsoft.Http2.Protocol/Framing/DataFrame.cs:39-59 | after construction HasPadding holds iff the pad length is nonzero, IsEndStream iff requested, and EndSegment and Compressed are unset |
| DataFrames.PadFieldsRoundTrip | src/Libraries/Microsoft.Http2.Protocol/Framing/DataFrame.cs:128-144 | PadHigh and PadLow read back the constructor's arguments on every constructed frame (0 on an unpadded one) |
| DataFrames.OnePadFlagReadsUnpadded | src/Libraries/Microsoft.Http2.Protocol/Framing/DataFrame.cs:123-126 | a frame with only one pad flag has no padding: both pad getters return 0 and Data is everything after the preamble |
| DataFrames.UnpaddedRoundTrip | src/Libraries/Microsoft.Http2.Protocol/Framing/DataFrame.cs:172-173 | Data of an unpadded constructed frame is exactly the input bytes |
| DataFrames.PaddedDataAsWritten | src/Libraries/Microsoft.Http2.Protocol/Framing/DataFrame.cs:165-171 | as written, Data of every padded constructed frame is the input plus 2 + 2*PadLow zero bytes, or an exception; it is never the input |
| DataFrames.PadLowOneThrows | src/Libraries/Microsoft.Http2.Protocol/Framing/DataFrame.cs:167-170 | as written, an empty frame with Pad High 0 and Pad Low 1 makes Data throw ArgumentException; the frame ends one byte after the pad fields, so the segment starts at its last byte |
| DataFrames.IntendedRoundTrip | src/Libraries/Microsoft.Http2.Protocol/Framing/DataFrame.cs:32-39 | with padding computed as High*256+Low and the pad fields skipped, Data returns exactly the constructor's input for every pad length |
| DataFrames.IntendedPaddedRoundTrip | src/Libraries/Microsoft.Http2.Protocol/Framing/DataFrame.cs:42-49 | a padded constructed frame reads back its data through the corrected getter |
| DataFrames.IntendedDataLength | src/Libraries/Microsoft.Http2.Protocol/Framing/DataFrame.cs:161-175 | on any incoming padded buffer, the corrected Data is the payload minus the pad fields and the padding; a pad length larger than the payload is refused |
| ExtensionsParsing.Int16FromBytes | MentalisSecurityLibrary/Security/Ssl/Shared/Extensions/ExtensionsParser.cs:35 | the block and entry lengths are the signed 16-bit big-endian reading of two bytes |
| ExtensionsParsing.UInt16FromBytes | MentalisSecurityLibrary/Security/Ssl/Shared/Extensions/ExtensionsParser.cs:41 | the unsigned reading agrees with the signed one modulo 65536 |
| ExtensionsParsing.FirstKnownIndex | MentalisSecurityLibrary/Security/Ssl/Shared/Extensions/ExtensionsParser.cs:53-56 | the foreach stops at the first known extension of the entry's type, or at none |
| ExtensionsParsing.AddExtensionToResult | MentalisSecurityLibrary/Security/Ssl/Shared/Extensions/ExtensionsParser.cs:50-63 | returns not-found (result and cursor unchanged) iff no known extension has the type; otherwise the first match's Parse result is appended and the cursor moves by what it consumed |
| ExtensionsParsing.ParseFrom | MentalisSecurityLibrary/Security/Ssl/Shared/Extensions/ExtensionsParser.cs:38-45 | the while loop as written; a successful run ends at or past the block end (ParseFromBounds and ParseFromContents say the rest) |
| ExtensionsParsing.ParseResult | MentalisSecurityLibrary/Security/Ssl/Shared/Extensions/ExtensionsParser.cs:32-48 | Parse as written: IndexOutOfRange when the block length field lies outside the buffer; otherwise the cursor ends at or past the block end |
| ExtensionsParsing.ParseFromContents | MentalisSecurityLibrary/Security/Ssl/Shared/Extensions/ExtensionsParser.cs:38-45 | as written, every extension the loop appends was built by the first known extension of its entry's type, parsing the body of an entry whose header lies between the starting cursor and the block end |
| ExtensionsParsing.NoKnownEntryAddsNothing | MentalisSecurityLibrary/Security/Ssl/Shared/Extensions/ExtensionsParser.cs:38-45 | as written, a block with no header of a known type yields exactly the extensions found before |
| ExtensionsParsing.Parse | MentalisSecurityLibrary/Security/Ssl/Shared/Extensions/ExtensionsParser.cs:32-48 | the imperative loop returns what the corrected parse returns, unknown entries skipped by their own length |
| ExtensionsParsing.EmptyBlock | MentalisSecurityLibrary/Security/Ssl/Shared/Extensions/ExtensionsParser.cs:35-38 | a block length of 0 (or one read as negative) gives no extensions and moves the cursor by exactly 2 |
| ExtensionsParsing.ParseFromBounds | MentalisSecurityLibrary/Security/Ssl/Shared/Extensions/ExtensionsParser.cs:38-45 | the loop as written ends at or past the block end, never moves the cursor back, and keeps found extensions in wire order |
| ExtensionsParsing.ParseEndsPastBlock | MentalisSecurityLibrary/Security/Ssl/Shared/Extensions/ExtensionsParser.cs:36-38 | a successful parse leaves the cursor at or past the block end |
| ExtensionsParsing.UnknownEntryEndsParse | MentalisSecurityLibrary/Security/Ssl/Shared/Extensions/ExtensionsParser.cs:43-44 | as written, an unknown entry ends the parse with the extensions found so far and a cursor at least 4 bytes past the block end |
| ExtensionsParsing.TruncatedEntryThrows | MentalisSecurityLibrary/Security/Ssl/Shared/Extensions/ExtensionsParser.cs:40-41 | an entry header running past the buffer throws IndexOutOfRange |
| ExtensionsParsing.IntendedParseFromBounds | MentalisSecurityLibrary/Security/Ssl/Shared/Extensions/ExtensionsParser.cs:38-45 | with the corrected skip the loop still ends past the block end, never moves back, and keeps wire order |
| ExtensionsParsing.IntendedParseFromContents | MentalisSecurityLibrary/Security/Ssl/Shared/Extensions/ExtensionsParser.cs:38-45 | with the corrected skip too, every extension appended was built by a known extension's Parse from an entry inside the block |
| ExtensionsParsing.IntendedNoKnownEntryAddsNothing | MentalisSecurityLibrary/Security/Ssl/Shared/Extensions/ExtensionsParser.cs:38-45 | with the corrected skip, a block with no header of a known type yields exactly the extensions found before |
| ExtensionsParsing.IntendedSkipsUnknownEntry | MentalisSecurityLibrary/Security/Ssl/Shared/Extensions/ExtensionsParser.cs:43-44 | with the corrected skip an unknown entry is passed over by its own length and parsing continues after it |
| ExtensionsParsing.UnknownEntryHidesKnownOne | MentalisSecurityLibrary/Security/Ssl/Shared/Extensions/ExtensionsParser.cs:44 | on one concrete block, as written the known entry after an unknown one is lost; corrected, it is found |
| OwinMessageHandling.Http2Stream.WriteRst | src/Microsoft.Http2.Owin.Server/Adapters/Http2OwinMessageHandler.cs:121 | appends exactly one RST_STREAM frame with the code to the stream |
| OwinMessageHandling.Http2Stream.WriteHeadersFrame | src/Microsoft.Http2.Owin.Server/Adapters/Http2OwinMessageHandler.cs:239 | appends exactly one HEADERS frame with the headers and the two flags |
| OwinMessageHandling.Http2Stream.WriteDataFrame | src/Microsoft.Http2.Owin.Server/Adapters/Http2OwinMessageHandler.cs:259 | appends exactly one DATA frame with the chunk and the end-stream flag |
| OwinMessageHandling.GetValue | src/Microsoft.Http2.Owin.Server/Adapters/Http2OwinMessageHandler.cs:116-119 | null iff no header has the name; otherwise a value of a header with that name |
| OwinMessageHandling.RequestScheme | src/Microsoft.Http2.Owin.Server/Adapters/Http2OwinMessageHandler.cs:69 | the scheme is "http" iff the :scheme header is exactly "http", and "https" otherwise (absent included) |
| OwinMessageHandling.NatToStringRoundTrip | src/Microsoft.Http2.Owin.Server/Adapters/Http2OwinMessageHandler.cs:231 | the decimal form is non-empty digits with no leading zero and reads back as the number |
| OwinMessageHandling.IntToStringRoundTrip | src/Microsoft.Http2.Owin.Server/Adapters/Http2OwinMessageHandler.cs:231 | the :status value reads back as the status code, negative ones included |
| OwinMessageHandling.StatusFrameContents | src/Microsoft.Http2.Owin.Server/Adapters/Http2OwinMessageHandler.cs:227-240 | the status frame is one HEADERS frame: :status first with the code, then the additional headers in order; END_HEADERS always; END_STREAM iff final |
| OwinMessageHandling.WriteStatus | src/Microsoft.Http2.Owin.Server/Adapters/Http2OwinMessageHandler.cs:227-240 | appends exactly that status frame to the stream |
| OwinMessageHandling.DataChunksSplit | src/Microsoft.Http2.Owin.Server/Adapters/Http2OwinMessageHandler.cs:248-263 | SendDataTo writes at least one DATA frame; each is at most MaxFrameContentSize bytes and carries the given flag; only an empty buffer gives an empty frame; the frames concatenate to the buffer |
| OwinMessageHandling.DataChunksMore | src/Microsoft.Http2.Owin.Server/Adapters/Http2OwinMessageHandler.cs:252-262 | a turn of the do-while with more than MaxFrameContentSize bytes left sends a full frame and continues from the offset after it |
| OwinMessageHandling.DataChunksLast | src/Microsoft.Http2.Owin.Server/Adapters/Http2OwinMessageHandler.cs:252-262 | the last turn of the do-while sends everything left as one frame |
| OwinMessageHandling.SendDataTo | src/Microsoft.Http2.Owin.Server/Adapters/Http2OwinMessageHandler.cs:248-263 | the do-while loop appends exactly those chunk frames to the stream |
| OwinMessageHandling.BodyFrames | src/Microsoft.Http2.Owin.Server/Adapters/Http2OwinMessageHandler.cs:196-214 | the frames of the body loop and whether it stalls; it stalls only when the body is shorter than its Content-Length (ShortBodyStalls gives the converse) |
| OwinMessageHandling.ConsistentBodyFrames | src/Microsoft.Http2.Owin.Server/Adapters/Http2OwinMessageHandler.cs:198-214 | with a correct Content-Length the body is sent whole, in frames of at most the maximum size, and only the last frame ends the stream |
| OwinMessageHandling.ShortBodyStalls | src/Microsoft.Http2.Owin.Server/Adapters/Http2OwinMessageHandler.cs:202-207 | a body shorter than its Content-Length reaches a read of 0 bytes |
| OwinMessageHandling.OvershotLengthNeverEnds | src/Microsoft.Http2.Owin.Server/Adapters/Http2OwinMessageHandler.cs:202-213 | a Content-Length shorter than the body that no whole number of reads reaches is never matched: no frame ends the stream |
| OwinMessageHandling.BodyFramesHaveNoReset | src/Microsoft.Http2.Owin.Server/Adapters/Http2OwinMessageHandler.cs:202-213 | the body loop writes only DATA frames |
| OwinMessageHandling.EndResponse | src/Microsoft.Http2.Owin.Server/Adapters/Http2OwinMessageHandler.cs:171-218 | appends the status frame, final iff there is no data content, then the body frames, and reports a stalled read |
| OwinMessageHandling.SendBody | src/Microsoft.Http2.Owin.Server/Adapters/Http2OwinMessageHandler.cs:198-214 | the body loop appends exactly the body frames to the stream and reports a read of 0 bytes |
| OwinMessageHandling.EndResponseOnError | src/Microsoft.Http2.Owin.Server/Adapters/Http2OwinMessageHandler.cs:160-163 | appends one :status 500 HEADERS frame that is not final |
| OwinMessageHandling.RequestCheck | src/Microsoft.Http2.Owin.Server/Adapters/Http2OwinMessageHandler.cs:116-137 | a request missing :method, :path, :scheme or :host gets exactly one RST_STREAM(PROTOCOL_ERROR), and only such a request; the application runs iff the request is complete and its header names are distinct ignoring case; then the first frame is HEADERS and there is no reset; a complete request with a repeated name gets no frame at all |
| OwinMessageHandling.ResponseStartsWithStatus | src/Microsoft.Http2.Owin.Server/Adapters/Http2OwinMessageHandler.cs:171-214 | a completed response starts with its :status HEADERS frame and contains no reset |
| OwinMessageHandling.SplitCookieGetsNoResponse | src/Microsoft.Http2.Owin.Server/Adapters/Http2OwinMessageHandler.cs:52 | a complete request carrying two `cookie` header fields faults building the environment (line 127, outside the try) and is never answered, whatever the application would do |
| OwinMessageHandling.AppFailureSends500 | src/Microsoft.Http2.Owin.Server/Adapters/Http2OwinMessageHandler.cs:133-136 | when the application throws (it runs only for a complete request with distinct header names), the only frame is HEADERS [(":status", "500")] with END_HEADERS and without END_STREAM |
| OwinMessageHandling.StatusFinalIffNoBody | src/Microsoft.Http2.Owin.Server/Adapters/Http2OwinMessageHandler.cs:190-192 | for a request the application answers, the response HEADERS frame ends the stream iff the body is null or at position 0, and is then the only frame |
| OwinMessageHandling.ProcessRequest | src/Microsoft.Http2.Owin.Server/Adapters/Http2OwinMessageHandler.cs:86-142 | appends the request's frames (reset, nothing for a repeated header name, or the response) and reports whether the application was run, and whether a completed response stalled on a body shorter than its Content-Length |
| OwinMessageHandling.ProcessIncomingData | src/Microsoft.Http2.Owin.Server/Adapters/Http2OwinMessageHandler.cs:150-153 | an incoming DATA frame writes nothing |
| SocketControl.IsNegotiationCompleted | MentalisSecurityLibrary/Security/Ssl/Shared/SocketController.cs:479-483 | never completed without a record layer; with one, completed exactly when it is not negotiating |
| SocketControl.HoldsBackUntilNegotiated | MentalisSecurityLibrary/Security/Ssl/Shared/SocketController.cs:342 | ResumeSending's hold-back test is true iff the head is application data and IsNegotiationCompleted is false |
| SocketControl.Enqueue | MentalisSecurityLibrary/Security/Ssl/Shared/SocketController.cs:201-213 | protocol data goes to the front, application data to the back; the queue gains exactly the item |
| SocketControl.EnqueueKeepsProtocolFirst | MentalisSecurityLibrary/Security/Ssl/Shared/SocketController.cs:201-213 | enqueueing keeps every protocol item ahead of every application item |
| SocketControl.ResumeSendingRule | MentalisSecurityLibrary/Security/Ssl/Shared/SocketController.cs:332-362 | no-op iff sending, queue empty or head held back; otherwise takes exactly the head off the queue as the active send (protocol data unchanged, application data encrypted, same AsyncResult), sets IsSending and issues exactly one socket send of the active item |
| SocketControl.OneSendInFlight | MentalisSecurityLibrary/Security/Ssl/Shared/SocketController.cs:333-336 | while a send is in flight, no further socket send is issued |
| SocketControl.ResumeSendingKeepsValid | MentalisSecurityLibrary/Security/Ssl/Shared/SocketController.cs:346-348 | a send in flight always has an active item, and the queue stays protocol-first |
| SocketControl.BeginSendOutcome | MentalisSecurityLibrary/Security/Ssl/Shared/SocketController.cs:199-217 | the internal BeginSend throws iff application data is sent before negotiation completes; otherwise the item is queued and at most the head is taken, keeping the invariant |
| SocketControl.PublicBeginSendGuards | MentalisSecurityLibrary/Security/Ssl/Shared/SocketController.cs:189-198 | a disposed controller throws ObjectDisposed and a shutting-down one SocketException, each with the state unchanged; success returns the new AsyncResult |
| SocketControl.ProtocolItemsJumpTheQueue | MentalisSecurityLibrary/Security/Ssl/Shared/SocketController.cs:201-213 | two protocol items queued behind a send in flight stand in reverse order at the queue's front |
| SocketControl.PartialSendReissues | MentalisSecurityLibrary/Security/Ssl/Shared/SocketController.cs:162-167 | an incomplete send stays in flight and the remaining bytes are re-sent from Offset+Transferred, with nothing notified |
| SocketControl.CompletedSendNotifies | MentalisSecurityLibrary/Security/Ssl/Shared/SocketController.cs:168-181 | a completed send with an AsyncResult is moved to the sent list and notified without error |
| SocketControl.PublicBeginSendKeepsResults | MentalisSecurityLibrary/Security/Ssl/Shared/SocketController.cs:189-198 | the public BeginSend queues application data only with a new AsyncResult, so every queued application item keeps carrying one |
| SocketControl.ApplicationQueueClosesAsWritten | MentalisSecurityLibrary/Security/Ssl/Shared/SocketController.cs:389-393 | with protocol items first, a queue that is empty or starts with application data holds only items with an AsyncResult, so the close as written raises nothing and equals the corrected close |
| SocketControl.OnSentShutdownAsWritten | MentalisSecurityLibrary/Security/Ssl/Shared/SocketController.cs:174-177 | the close OnSent runs while shutting down is the close as written: it raises nothing and leaves the state OnSentSpec gives |
| SocketControl.OnSentKeepsValid | MentalisSecurityLibrary/Security/Ssl/Shared/SocketController.cs:157-188 | OnSent keeps the controller's invariant |
| SocketControl.DrainNotifiesEach | MentalisSecurityLibrary/Security/Ssl/Shared/SocketController.cs:389-393 | the drain notifies every queued item that has an AsyncResult |
| SocketControl.CloseDrainsQueue | MentalisSecurityLibrary/Security/Ssl/Shared/SocketController.cs:368-405 | after close: disposed, queue empty, every queued item appended to the sent list, every queued AsyncResult failed with the error; a second close changes nothing |
| SocketControl.CloseKeepsRecords | MentalisSecurityLibrary/Security/Ssl/Shared/SocketController.cs:368-405 | closing never removes a sent record or an earlier notification |
| SocketControl.CloseKeepsValid | MentalisSecurityLibrary/Security/Ssl/Shared/SocketController.cs:368-405 | closing keeps the controller's invariant |
| SocketControl.FirstNullIndex | MentalisSecurityLibrary/Security/Ssl/Shared/SocketController.cs:389-392 | the first queued item without an AsyncResult, or none |
| SocketControl.CloseAsWritten | MentalisSecurityLibrary/Security/Ssl/Shared/SocketController.cs:368-405 | the close as written raises nothing iff the controller is disposed or every queued item has an AsyncResult, and then equals the corrected close; otherwise it raises NullReferenceException with the controller disposed and the queue left as it was |
| SocketControl.CloseAsWrittenFaults | MentalisSecurityLibrary/Security/Ssl/Shared/SocketController.cs:389-393 | as written, a queued item without an AsyncResult makes close raise NullReferenceException and leave the queue as it was, having notified at most the items ahead of it; the corrected close empties the queue |
| SocketControl.QueuedProtocolItemHidesSend | MentalisSecurityLibrary/Security/Ssl/Shared/SocketController.cs:392 | concrete case: a queued renegotiation request before application send 7; as written, send 7 is never completed; corrected, it is failed |
| SocketControl.DecryptedBytesServeReceive | MentalisSecurityLibrary/Security/Ssl/Shared/SocketController.cs:253-273 | a waiting receive gets min(buffered, requested) bytes from the front, in order, and the buffer keeps exactly the rest |
| SocketControl.DecryptedBytesBuffered | MentalisSecurityLibrary/Security/Ssl/Shared/SocketController.cs:254-257 | without a waiting receive the decrypted bytes are only appended to the buffer |
| SocketControl.BeginReceiveRule | MentalisSecurityLibrary/Security/Ssl/Shared/SocketController.cs:282-296 | a second receive throws SocketException with nothing changed, and only then; a new receive is served at once from buffered bytes |
| SocketControl.SplitBytes | MentalisSecurityLibrary/Security/Ssl/Shared/SocketController.cs:321-331 | the result is the first min(length, max) bytes and the buffer keeps the rest, together the original; a negative max throws Overflow |
| SocketControl.AppendBytes | MentalisSecurityLibrary/Security/Ssl/Shared/SocketController.cs:315-320 | the two segments concatenated, exactly when both lie in their buffers and the Int32 sum of the sizes does not wrap; a sum that is negative after wrapping throws Overflow; otherwise a negative first offset or size throws ArgumentOutOfRange; a negative second size with a non-negative sum makes the new array too short for the first copy, which throws Argument |
| SocketControl.AppendBytesShortDestination | MentalisSecurityLibrary/Security/Ssl/Shared/SocketController.cs:316-317 | AppendBytes of [1, 2] at 0 for 2 and an empty buffer for -1 allocates 1 byte and the first copy throws Argument |
| SocketControl.FindIndex | MentalisSecurityLibrary/Security/Ssl/Shared/SocketController.cs:218-225 | the first index whose AsyncResult matches, or -1 iff none does |
| SocketControl.SocketController.constructor | MentalisSecurityLibrary/Security/Ssl/Shared/SocketController.cs:74-83 | nothing queued, sent, active or buffered, not disposed, no record layer |
| SocketControl.SocketController.ResumeSending | MentalisSecurityLibrary/Security/Ssl/Shared/SocketController.cs:332-362 | leaves the state ResumeSendingSpec gives |
| SocketControl.SocketController.BeginSendItem | MentalisSecurityLibrary/Security/Ssl/Shared/SocketController.cs:199-217 | leaves the state BeginSendSpec gives, or throws with the state unchanged |
| SocketControl.SocketController.BeginSend | MentalisSecurityLibrary/Security/Ssl/Shared/SocketController.cs:189-198 | returns and leaves what PublicBeginSendSpec gives |
| SocketControl.SocketController.OnSent | MentalisSecurityLibrary/Security/Ssl/Shared/SocketController.cs:157-188 | leaves the state OnSentSpec gives |
| SocketControl.SocketController.CloseConnection | MentalisSecurityLibrary/Security/Ssl/Shared/SocketController.cs:368-405 | leaves the state of the corrected close |
| SocketControl.SocketController.FailActiveSend | MentalisSecurityLibrary/Security/Ssl/Shared/SocketController.cs:375-385 | marks the controller disposed and fails an active send that has an AsyncResult, recording it as sent |
| SocketControl.SocketController.DrainQueue | MentalisSecurityLibrary/Security/Ssl/Shared/SocketController.cs:389-394 | the drain loop followed by the Clear: the queue ends empty, its items added to the sent list and notified |
| SocketControl.SocketController.FailReceive | MentalisSecurityLibrary/Security/Ssl/Shared/SocketController.cs:395-397 | fails a pending receive that has an AsyncResult with the closing error |
| SocketControl.SocketController.DrainToSendList | MentalisSecurityLibrary/Security/Ssl/Shared/SocketController.cs:389-393 | the loop appends the queue to the sent list, notifies each item that has an AsyncResult, and leaves the last item active |
| SocketControl.SocketController.Dispose | MentalisSecurityLibrary/Security/Ssl/Shared/SocketController.cs:363-367 | leaves the state of the corrected close with no error (SslError to the queued items); as written, Dispose runs the same close and so faults at line 392 when a protocol item is queued (see the last row of Findings) |
| SocketControl.SocketController.QueueRenegotiate | MentalisSecurityLibrary/Security/Ssl/Shared/SocketController.cs:453-460 | queues the renegotiation request as protocol data with no AsyncResult; throws NullReference without a record layer |
| SocketControl.SocketController.ProcessDecryptedBytes | MentalisSecurityLibrary/Security/Ssl/Shared/SocketController.cs:253-273 | returns and leaves what ProcessDecryptedSpec gives |
| SocketControl.SocketController.BeginReceive | MentalisSecurityLibrary/Security/Ssl/Shared/SocketController.cs:282-296 | returns and leaves what BeginReceiveSpec gives |

## Left out

- Socket I/O and asynchrony are not modelled:
  - `lock(this)`, the async callbacks as callbacks, and the `WaitOne(200)` polling loops of
    EndSend, EndReceive and EndShutdown;
  - OnReceive, BeginShutdown, OnShutdownSent and the shutdown callback notified at the end of
    CloseConnection;
  - the OnConnectionClose event, and the record layer's Dispose.

  The model keeps only the state each handler leaves behind.
- Record-layer and compatibility-layer work (EncryptBytes, ProcessBytes, ProcessHello,
  GetControlBytes) is foreign cryptography. Encryption is an arbitrary function, and the bytes
  GetControlBytes returns are a parameter of QueueRenegotiate.
- The constructor's first BeginReceive and its client hello are left out. IsShuttingDown is set
  only by OnReceive, so a shutting-down controller is any state with that flag set.
- SocketControl.SocketController.ResumeSending: a throw from EncryptBytes or from the socket
  send (lines 359-361 turn it into CloseConnection) is not modelled; both are taken to succeed.
- AsyncResult and XBuffer are not part of this model. An AsyncResult is known by a number, and
  it counts as completed once it has been notified. XBuffer.Read is taken to check its range as
  MemoryStream.Read does.
- A transfer's buffer is held as a sequence of bytes, not as the caller's array. Writes into a
  receive buffer are therefore visible in the transfer item, not through the caller's alias.
- OwinMessageHandling.EndResponse:
  - building the OWIN environment (PopulateEnvironment), the application delegate, the Task it
    runs in, and `ReadAsync` are plumbing; of PopulateEnvironment only its fault on a repeated
    header name is modelled;
  - the application's outcome and the parsed Content-Length are inputs;
  - a missing or malformed Content-Length header (an exception from `int.Parse`) is not
    modelled;
  - the body is a MemoryStream, read in chunks of at most MaxFrameContentSize;
  - conversion of the OWIN response headers into a header list is not modelled; they arrive
    as a list.
- Where the body is shorter than its Content-Length, `Debug.Assert(tmpRead > 0)` fails. The
  model stops there and reports the stall. Without the assertion, the source would send empty
  DATA frames forever.
- OwinMessageHandling.ProcessRequest: the ArgumentException that a repeated header name raises
  is modelled as "no frame, application not run"; the faulted Task itself and whoever observes it
  are not modelled.
- OwinMessageHandling.SameNameIgnoringCase: StringComparer.OrdinalIgnoreCase is modelled for
  ASCII letters only; other characters are compared exactly, so names differing only in the case
  of a non-ASCII letter are taken to be distinct.
- OwinMessageHandling.IntToString: Int32.ToString() uses the current culture's negative sign;
  the model writes "-". Status codes are not negative in practice, where the two agree.
- OwinMessageHandling.GetValue: HeadersList is not part of this model. The name match is exact,
  and the first header with the name wins.
- Http2Stream is not part of this model beyond recording the frames written to it.
- ExtensionsParsing.Parse: when an exception is thrown, the partly advanced `ref` cursor is not
  returned.
- The per-extension Parse methods are not part of this model. They are taken never to move the
  cursor backwards (they return a count of bytes consumed).
- The block length is read as a signed 16-bit number, as `Int16FromBytes` returns it. A block
  of 0x8000 bytes or more therefore reads as negative, and nothing in it is parsed. This follows
  the code; section 7.4.1.4 of RFC 5246 declares the length unsigned. The corrected skip keeps this
  reading.
- The base Frame class, `Constants` and the `FrameFlags` bit values are not part of this model:
  - the preamble size and the maximum frame content size are constants of unknown value;
  - flags are a set;
  - the preamble bytes are never read;
  - `Data` returns the segment's contents, not an ArraySegment aliasing the buffer.
- Integers are unbounded except in AppendBytes, where the source's Int32 sum is wrapped. The
  other sums (cursors, offsets and lengths) stay below the length of an array, so they cannot
  wrap.
- The commented-out debugging helpers at the end of SocketController.cs are dead code. The
  integration tests, the hosting program and the OpenSSL protocol constants are outside the
  modelled core.

## Findings

| source | as written | input that shows it | evidently intended | confidence | as-written member | corrected member |
|---|---|---|---|---|---|---|
| src/Libraries/Microsoft.Http2.Protocol/Framing/DataFrame.cs:167-170 | Data computes the padding as `PadHigh * 256 - PadLow` and takes `Buffer.Length - FramePreambleSize - padLength` bytes after the two pad fields | an empty frame built with Pad High 0 and Pad Low 1: the segment asks for 4 bytes starting at the buffer's last byte, and ArraySegment throws; with Pad High 1 and Pad Low 0, Data returns the input plus 2 extra zero bytes | padding `PadHigh * 256 + PadLow`, segment length `Buffer.Length - FramePreambleSize - 2 - padLength`, so that Data returns the constructor's input | not executed | DataFrames.PaddedDataAsWritten | DataFrames.IntendedRoundTrip |
| MentalisSecurityLibrary/Security/Ssl/Shared/Extensions/ExtensionsParser.cs:44 | an entry of unknown type moves the cursor by the whole block length `extsLen` | block `00 08 FF 01 00 00 00 10 00 00` with type 16 known: the cursor jumps to 14, past the block end at 10, and the known entry is never parsed | move by the entry's own length `extLen`, as section 7.4.1.4 of RFC 5246 lays entries out | not executed | ExtensionsParsing.UnknownEntryHidesKnownOne | ExtensionsParsing.IntendedSkipsUnknownEntry |
| MentalisSecurityLibrary/Security/Ssl/Shared/SocketController.cs:392 | the drain loop calls `AsyncResult.Notify` on every queued item, but protocol items are queued with a null AsyncResult (lines 101, 137 and 457) | closing with a renegotiation request queued ahead of an application send: NullReferenceException at the request; the queue is not cleared and the application send is never completed | skip the Notify for an item without an AsyncResult, as lines 381-384 do for the active send (Dispose, lines 363-367, runs the same close) | not executed | SocketControl.QueuedProtocolItemHidesSend | SocketControl.CloseDrainsQueue |
