/** The HTTP/2 server adapter that hands requests to an OWIN application and
    turns its response into frames on the request's stream: the check of
    the request pseudo-headers (section 8.1.2.1 of draft-ietf-httpbis-http2-06),
    the `:status` HEADERS frame, the response body cut into DATA frames, and
    the END_STREAM rules.

    The stream is a sink that records the RST_STREAM, HEADERS and DATA
    frames written to it. Building the OWIN environment, running the
    application (asynchronously, in the source) and parsing the
    Content-Length header are not part of this model: the application's
    outcome and the parsed content length are inputs. */
module OwinMessageHandling {
  import opened Common

  type Positive = n: int | n > 0 witness 1

  /** Constants.MaxFrameContentSize. Its value is not part of this model;
      every property below holds for any positive size. */
  const MaxFrameContentSize: Positive

  /** A header name and value, as KeyValuePair<string, string>. */
  type Header = (string, string)

  datatype ResetStatusCode = ProtocolError

  /** A frame written to a stream. */
  datatype Event =
    | Rst(code: ResetStatusCode)
    | HeadersFrame(headers: seq<Header>, endStream: bool, endHeaders: bool)
    | DataFrame(data: seq<byte>, endStream: bool)

  /** The stream a request arrived on: its request headers, and the frames
      written to it so far. */
  class Http2Stream {
    const Headers: seq<Header>
    var Emitted: seq<Event>

    constructor (headers: seq<Header>)
      ensures Headers == headers && Emitted == []
    {
      Headers := headers;
      Emitted := [];
    }

    method WriteRst(code: ResetStatusCode)
      modifies this`Emitted
      ensures Emitted == old(Emitted) + [Rst(code)]
    {
      Emitted := Emitted + [Rst(code)];
    }

    method WriteHeadersFrame(headers: seq<Header>, final: bool, endHeaders: bool)
      modifies this`Emitted
      ensures Emitted == old(Emitted) + [HeadersFrame(headers, final, endHeaders)]
    {
      Emitted := Emitted + [HeadersFrame(headers, final, endHeaders)];
    }

    method WriteDataFrame(data: seq<byte>, isEndStream: bool)
      modifies this`Emitted
      ensures Emitted == old(Emitted) + [DataFrame(data, isEndStream)]
    {
      Emitted := Emitted + [DataFrame(data, isEndStream)];
    }
  }

  /** HeadersList.GetValue: the value of the first header with that name,
      or null (None). */
  function GetValue(headers: seq<Header>, name: string): (v: Option<string>)
    ensures v.None? <==> forall i :: 0 <= i < |headers| ==> headers[i].0 != name
    ensures v.Some? ==> exists i :: 0 <= i < |headers| && headers[i] == (name, v.value)
  {
    if |headers| == 0 then None
    else if headers[0].0 == name then Some(headers[0].1)
    else GetValue(headers[1..], name)
  }

  /** The request carries all four of :method, :path, :scheme and :host. */
  predicate HasRequestPseudoHeaders(headers: seq<Header>) {
    && GetValue(headers, ":method").Some?
    && GetValue(headers, ":path").Some?
    && GetValue(headers, ":scheme").Some?
    && GetValue(headers, ":host").Some?
  }

  /** The request scheme handed to the application: "http" when the
      :scheme header is exactly "http", "https" for any other value and
      when it is absent. */
  function RequestScheme(headers: seq<Header>): (scheme: string)
    ensures scheme == "http" || scheme == "https"
    ensures scheme == "http" <==> GetValue(headers, ":scheme") == Some("http")
  {
    if GetValue(headers, ":scheme") == Some("http") then "http" else "https"
  }

  // ---- Int32.ToString, for the :status value ----

  function DigitChar(d: nat): char
    requires d < 10
  {
    ('0' as int + d) as char
  }

  predicate IsDigit(c: char) {
    '0' <= c <= '9'
  }

  /** The decimal digits of `n`, without leading zeros. */
  function NatToString(n: nat): string
    decreases n
  {
    if n < 10 then [DigitChar(n)] else NatToString(n / 10) + [DigitChar(n % 10)]
  }

  /** Int32.ToString(): the decimal digits, after the current culture's
      negative sign for a negative number; the model takes that sign to be
      "-", as it is in the invariant culture. */
  function IntToString(n: int): string {
    if n < 0 then "-" + NatToString(-n) else NatToString(n)
  }

  /** The number a string of decimal digits spells. */
  function ParseNat(s: string): nat
    decreases |s|
  {
    if s == [] then 0
    else ParseNat(s[..|s| - 1]) * 10 + (if IsDigit(s[|s| - 1]) then s[|s| - 1] as int - '0' as int else 0)
  }

  /** The number an optionally signed string of decimal digits spells. */
  function ParseInt(s: string): int {
    if |s| > 0 && s[0] == '-' then -(ParseNat(s[1..]) as int) else ParseNat(s)
  }

  /** NatToString is a non-empty string of decimal digits with no leading
      zero, and reading it back gives the number. */
  lemma {:induction false} NatToStringRoundTrip(n: nat)
    ensures var s := NatToString(n);
      && |s| >= 1
      && (forall i :: 0 <= i < |s| ==> IsDigit(s[i]))
      && (n > 0 ==> s[0] != '0')
      && ParseNat(s) == n
    decreases n
  {
    if n >= 10 {
      NatToStringRoundTrip(n / 10);
      var s := NatToString(n);
      assert s[..|s| - 1] == NatToString(n / 10);
    }
  }

  /** The :status value reads back as the status code. */
  lemma IntToStringRoundTrip(n: int)
    ensures ParseInt(IntToString(n)) == n
  {
    if n < 0 {
      NatToStringRoundTrip(-n);
      assert IntToString(n)[1..] == NatToString(-n);
    } else {
      NatToStringRoundTrip(n);
    }
  }

  // ---- WriteStatus ----

  /** The header list WriteStatus sends: :status first, then the additional
      headers, if any, in their order. */
  function StatusHeaders(statusCode: int, additional: Option<seq<Header>>): seq<Header> {
    [(":status", IntToString(statusCode))] + (if additional.Some? then additional.value else [])
  }

  /** The HEADERS frame WriteStatus writes. */
  function StatusFrame(statusCode: int, final: bool, additional: Option<seq<Header>>): Event {
    HeadersFrame(StatusHeaders(statusCode, additional), final, true)
  }

  /** What the :status frame carries: the code, readable back from its
      value, the additional headers after it, end-headers always, and
      end-stream exactly when it is final. */
  lemma StatusFrameContents(statusCode: int, final: bool, additional: Option<seq<Header>>)
    ensures var f := StatusFrame(statusCode, final, additional);
      && f.HeadersFrame? && f.endHeaders && f.endStream == final
      && |f.headers| >= 1 && f.headers[0].0 == ":status"
      && ParseInt(f.headers[0].1) == statusCode
      && f.headers[1..] == (if additional.Some? then additional.value else [])
  {
    IntToStringRoundTrip(statusCode);
  }

  method WriteStatus(stream: Http2Stream, statusCode: int, final: bool, additional: Option<seq<Header>>)
    modifies stream`Emitted
    ensures stream.Emitted == old(stream.Emitted) + [StatusFrame(statusCode, final, additional)]
  {
    var headers := [(":status", IntToString(statusCode))];
    if additional.Some? {
      headers := headers + additional.value;
    }
    assert headers == StatusHeaders(statusCode, additional);
    stream.WriteHeadersFrame(headers, final, true);
  }

  // ---- SendDataTo ----

  /** The DATA frames SendDataTo writes for one buffer: consecutive chunks
      of MaxFrameContentSize bytes, the last one shorter or as long, all
      carrying the same end-stream flag. An empty buffer still gives one
      (empty) frame. */
  function DataChunks(data: seq<byte>, isLastChunk: bool): seq<Event>
    decreases |data|
  {
    if |data| <= MaxFrameContentSize then [DataFrame(data, isLastChunk)]
    else [DataFrame(data[..MaxFrameContentSize], isLastChunk)] + DataChunks(data[MaxFrameContentSize..], isLastChunk)
  }

  /** The payloads of a sequence of frames, concatenated. */
  function Payloads(events: seq<Event>): seq<byte> {
    if events == [] then []
    else (if events[0].DataFrame? then events[0].data else []) + Payloads(events[1..])
  }

  lemma {:induction false} PayloadsAppend(a: seq<Event>, b: seq<Event>)
    ensures Payloads(a + b) == Payloads(a) + Payloads(b)
  {
    if a == [] {
      assert a + b == b;
    } else {
      assert (a + b)[0] == a[0];
      assert (a + b)[1..] == a[1..] + b;
      PayloadsAppend(a[1..], b);
      var head := if a[0].DataFrame? then a[0].data else [];
      assert Payloads(a + b) == head + (Payloads(a[1..]) + Payloads(b));
      assert Payloads(a) == head + Payloads(a[1..]);
    }
  }

  /** SendDataTo writes at least one DATA frame; every frame is at most
      MaxFrameContentSize bytes long and carries the given end-stream flag;
      only an empty buffer gives an empty frame; and the frames put
      together are the buffer. */
  lemma {:induction false} DataChunksSplit(data: seq<byte>, isLastChunk: bool)
    ensures var frames := DataChunks(data, isLastChunk);
      && |frames| >= 1
      && (forall i :: 0 <= i < |frames| ==>
            && frames[i].DataFrame?
            && |frames[i].data| <= MaxFrameContentSize
            && frames[i].endStream == isLastChunk
            && (frames[i].data == [] ==> data == []))
      && Payloads(frames) == data
    decreases |data|
  {
    if |data| > MaxFrameContentSize {
      var rest := DataChunks(data[MaxFrameContentSize..], isLastChunk);
      DataChunksSplit(data[MaxFrameContentSize..], isLastChunk);
      var head := [DataFrame(data[..MaxFrameContentSize], isLastChunk)];
      PayloadsAppend(head, rest);
      assert Payloads(head) == data[..MaxFrameContentSize];
      assert data[..MaxFrameContentSize] + data[MaxFrameContentSize..] == data;
    }
  }

  /** The last turn of SendDataTo's loop: what is left from offset `i`
      fits in one frame. */
  lemma DataChunksLast(data: seq<byte>, i: nat, isLastChunk: bool)
    requires i <= |data| && |data| - i <= MaxFrameContentSize
    ensures DataChunks(data[i..], isLastChunk) == [DataFrame(data[i..|data|], isLastChunk)]
  {
    assert data[i..|data|] == data[i..];
  }

  /** A turn of SendDataTo's loop with more to come: the frames from offset
      `i` are a full frame, then the frames from the offset after it. */
  lemma DataChunksMore(data: seq<byte>, i: nat, isLastChunk: bool)
    requires i + MaxFrameContentSize < |data|
    ensures DataChunks(data[i..], isLastChunk)
            == [DataFrame(data[i..i + MaxFrameContentSize], isLastChunk)]
               + DataChunks(data[i + MaxFrameContentSize..], isLastChunk)
  {
    assert data[i..][MaxFrameContentSize..] == data[i + MaxFrameContentSize..];
    assert data[i..][..MaxFrameContentSize] == data[i..i + MaxFrameContentSize];
  }

  /** SendDataTo's loop after a turn with more to come: the frames sent so
      far, then the full frame, then the frames from the offset after it,
      are the whole buffer's frames. */
  lemma SentThenMore(data: seq<byte>, i: nat, isLastChunk: bool, sent: seq<Event>)
    requires i + MaxFrameContentSize < |data|
    requires sent + DataChunks(data[i..], isLastChunk) == DataChunks(data, isLastChunk)
    ensures (sent + [DataFrame(data[i..i + MaxFrameContentSize], isLastChunk)])
            + DataChunks(data[i + MaxFrameContentSize..], isLastChunk) == DataChunks(data, isLastChunk)
  {
    DataChunksMore(data, i, isLastChunk);
    var head := [DataFrame(data[i..i + MaxFrameContentSize], isLastChunk)];
    var tail := DataChunks(data[i + MaxFrameContentSize..], isLastChunk);
    assert sent + (head + tail) == (sent + head) + tail;
  }

  /** SendDataTo's loop after its last turn: the frames sent so far and the
      last frame are the whole buffer's frames. */
  lemma SentThenLast(data: seq<byte>, i: nat, isLastChunk: bool, sent: seq<Event>)
    requires i <= |data| && |data| - i <= MaxFrameContentSize
    requires sent + DataChunks(data[i..], isLastChunk) == DataChunks(data, isLastChunk)
    ensures sent + [DataFrame(data[i..|data|], isLastChunk)] == DataChunks(data, isLastChunk)
  {
    DataChunksLast(data, i, isLastChunk);
  }

  method SendDataTo(stream: Http2Stream, binaryData: seq<byte>, isLastChunk: bool)
    modifies stream`Emitted
    ensures stream.Emitted == old(stream.Emitted) + DataChunks(binaryData, isLastChunk)
  {
    ghost var sent: seq<Event> := [];
    var i := 0;
    var more := true;
    assert binaryData[0..] == binaryData;
    // the do { ... } while (len > i) loop of the source
    while more
      invariant 0 <= i <= |binaryData|
      invariant stream.Emitted == old(stream.Emitted) + sent
      invariant more ==> sent + DataChunks(binaryData[i..], isLastChunk) == DataChunks(binaryData, isLastChunk)
      invariant !more ==> sent == DataChunks(binaryData, isLastChunk)
      decreases |binaryData| - i, more
    {
      var chunkSize := Min(|binaryData| - i, MaxFrameContentSize);
      var chunk := binaryData[i..i + chunkSize];
      ghost var start, earlier := i, sent;
      stream.WriteDataFrame(chunk, isLastChunk);
      sent := sent + [DataFrame(chunk, isLastChunk)];
      i := i + chunkSize;
      more := |binaryData| > i;
      if more {
        assert chunk == binaryData[start..start + MaxFrameContentSize];
        SentThenMore(binaryData, start, isLastChunk, earlier);
      } else {
        assert chunk == binaryData[start..|binaryData|];
        SentThenLast(binaryData, start, isLastChunk, earlier);
      }
    }
  }

  // ---- EndResponse ----

  /** The response body: a MemoryStream's contents and its position after
      the application wrote to it. */
  datatype ResponseBody = ResponseBody(content: seq<byte>, position: nat)

  /** What the OWIN response holds after the application ran. The content
      length is the parsed Content-Length header. */
  datatype OwinResponse = OwinResponse(statusCode: int, headers: Option<seq<Header>>,
                                       body: Option<ResponseBody>, contentLength: int)

  /** The response HEADERS frame is final exactly when there is no body to
      send: none, or one the application did not write to. */
  predicate HasDataContent(response: OwinResponse) {
    response.body.Some? && response.body.value.position != 0
  }

  /** The DATA frames of the body loop from `read` bytes on, and whether the
      loop stalls: the body is read from its start in reads of at most
      MaxFrameContentSize bytes; each read is sent with end-stream exactly
      when the running total equals the content length; the loop stops once
      the total reaches it. A read of 0 bytes, which happens when the body
      is shorter than the content length, fails Debug.Assert(tmpRead > 0)
      (without the assertion the loop would send empty frames forever). */
  function BodyFrames(content: seq<byte>, contentLen: int, read: nat): (r: (seq<Event>, bool))
    requires read <= |content|
    ensures r.1 ==> |content| < contentLen
    decreases |content| - read
  {
    if read >= contentLen then ([], false)
    else
      var n := Min(MaxFrameContentSize, |content| - read);
      if n == 0 then ([], true)
      else
        var rest := BodyFrames(content, contentLen, read + n);
        (DataChunks(content[read..read + n], read + n == contentLen) + rest.0, rest.1)
  }

  /** A body whose Content-Length is its true length is sent whole, in
      frames of at most MaxFrameContentSize bytes, and only the last frame
      ends the stream. */
  lemma {:induction false} ConsistentBodyFrames(content: seq<byte>, read: nat)
    requires read < |content|
    ensures var (frames, stalled) := BodyFrames(content, |content|, read);
      && !stalled && |frames| >= 1
      && Payloads(frames) == content[read..]
      && WellFormedBody(frames)
    decreases |content| - read
  {
    var n := Min(MaxFrameContentSize, |content| - read);
    var last := read + n == |content|;
    var chunk := DataChunks(content[read..read + n], last);
    DataChunksSplit(content[read..read + n], last);
    assert |chunk| == 1 by {
      assert |content[read..read + n]| <= MaxFrameContentSize;
    }
    if last {
      assert BodyFrames(content, |content|, read + n) == ([], false);
      assert content[read..read + n] == content[read..];
      assert BodyFrames(content, |content|, read).0 == chunk;
    } else {
      ConsistentBodyFrames(content, read + n);
      var rest := BodyFrames(content, |content|, read + n).0;
      PayloadsAppend(chunk, rest);
      assert content[read..read + n] + content[read + n..] == content[read..];
      WellFormedBodyCons(chunk, rest);
    }
  }

  /** The frames of a correct-length body: DATA frames of at most
      MaxFrameContentSize bytes, only the last one ending the stream. */
  ghost predicate WellFormedBody(frames: seq<Event>) {
    forall i :: 0 <= i < |frames| ==>
      frames[i].DataFrame? && |frames[i].data| <= MaxFrameContentSize &&
      (frames[i].endStream <==> i == |frames| - 1)
  }

  /** A non-final frame of bounded size in front of a well-formed non-empty
      body keeps it well formed. */
  lemma WellFormedBodyCons(chunk: seq<Event>, rest: seq<Event>)
    requires |chunk| == 1 && chunk[0].DataFrame? && |chunk[0].data| <= MaxFrameContentSize && !chunk[0].endStream
    requires |rest| >= 1 && WellFormedBody(rest)
    ensures WellFormedBody(chunk + rest)
  {
    var frames := chunk + rest;
    forall i | 0 <= i < |frames|
      ensures frames[i].DataFrame? && |frames[i].data| <= MaxFrameContentSize &&
              (frames[i].endStream <==> i == |frames| - 1)
    {
      if i > 0 {
        assert frames[i] == rest[i - 1];
      }
    }
  }

  /** A body shorter than its Content-Length makes the loop stall. */
  lemma {:induction false} ShortBodyStalls(content: seq<byte>, contentLen: int, read: nat)
    requires read <= |content| < contentLen
    ensures BodyFrames(content, contentLen, read).1
    decreases |content| - read
  {
    var n := Min(MaxFrameContentSize, |content| - read);
    if n != 0 {
      ShortBodyStalls(content, contentLen, read + n);
    }
  }

  lemma {:induction false} MulAtLeast(m: Positive, d: int)
    requires d >= 1
    ensures m * d >= m
    decreases d
  {
    if d > 1 {
      MulAtLeast(m, d - 1);
      assert m * d == m * (d - 1) + m;
    }
  }

  /** Stepping a count back by one read of `m` bytes keeps its remainder. */
  lemma ModStep(x: int, m: Positive)
    ensures (x - m) % m == x % m
  {
    var q, r := (x - m) / m, (x - m) % m;
    var q2, r2 := x / m, x % m;
    assert m * (q + 1) + r == m * q2 + r2 by {
      assert m * (q + 1) == m * q + m;
    }
    if q + 1 > q2 {
      MulAtLeast(m, q + 1 - q2);
    } else if q + 1 < q2 {
      MulAtLeast(m, q2 - q - 1);
    }
  }

  /** A Content-Length shorter than the body that the reads step over (it
      is not a whole number of reads past `read`) is never matched by the
      running total: no frame ends the stream. */
  lemma {:induction false} OvershotLengthNeverEnds(content: seq<byte>, contentLen: int, read: nat)
    requires read <= contentLen < |content|
    requires (contentLen - read) % MaxFrameContentSize != 0
    ensures !BodyFrames(content, contentLen, read).1
    ensures var frames := BodyFrames(content, contentLen, read).0;
      forall i :: 0 <= i < |frames| ==> frames[i].DataFrame? && !frames[i].endStream
    decreases |content| - read
  {
    if read < contentLen {
      var n := Min(MaxFrameContentSize, |content| - read);
      var next := read + n;
      assert next != contentLen by {
        if n == MaxFrameContentSize {
          ModStep(contentLen - read, MaxFrameContentSize);
        }
      }
      if next < contentLen {
        ModStep(contentLen - read, MaxFrameContentSize);
        OvershotLengthNeverEnds(content, contentLen, next);
      }
      var chunk := DataChunks(content[read..next], false);
      DataChunksSplit(content[read..next], false);
      var rest := BodyFrames(content, contentLen, next).0;
      var frames: seq<Event> := chunk + rest;
      assert BodyFrames(content, contentLen, read).0 == frames;
      forall i | 0 <= i < |frames|
        ensures frames[i].DataFrame? && !frames[i].endStream
      {
        if i >= |chunk| {
          assert frames[i] == rest[i - |chunk|];
        }
      }
    }
  }

  /** The frames EndResponse writes after the application completed: the
      :status HEADERS frame, final when there is no data content, then the
      body frames; and whether the body loop stalled. */
  function ResponseFrames(response: OwinResponse): (seq<Event>, bool) {
    var status := StatusFrame(response.statusCode, !HasDataContent(response), response.headers);
    if HasDataContent(response) then
      var body := BodyFrames(response.body.value.content, response.contentLength, 0);
      ([status] + body.0, body.1)
    else
      ([status], false)
  }

  /** EndResponse for a completed application. Returns true when the body
      loop stalled on a read of 0 bytes. */
  method EndResponse(stream: Http2Stream, response: OwinResponse) returns (stalled: bool)
    modifies stream`Emitted
    ensures stream.Emitted == old(stream.Emitted) + ResponseFrames(response).0
    ensures stalled == ResponseFrames(response).1
  {
    var hasDataContent := response.body.Some? && response.body.value.position != 0;
    WriteStatus(stream, response.statusCode, !hasDataContent, response.headers);
    stalled := false;
    if hasDataContent {
      stalled := SendBody(stream, response.body.value.content, response.contentLength);
    }
  }

  /** The body loop of EndResponse, after Seek(0): the stream position is
      the running total `read`. */
  method SendBody(stream: Http2Stream, content: seq<byte>, contentLen: int) returns (stalled: bool)
    modifies stream`Emitted
    ensures stream.Emitted == old(stream.Emitted) + BodyFrames(content, contentLen, 0).0
    ensures stalled == BodyFrames(content, contentLen, 0).1
  {
    ghost var sent: seq<Event> := [];
    stalled := false;
    var read := 0;
    while read < contentLen
      invariant read <= |content|
      invariant stream.Emitted == old(stream.Emitted) + sent
      invariant sent + BodyFrames(content, contentLen, read).0 == BodyFrames(content, contentLen, 0).0
      invariant BodyFrames(content, contentLen, read).1 == BodyFrames(content, contentLen, 0).1
      decreases |content| - read
    {
      var tmpRead := Min(MaxFrameContentSize, |content| - read);
      if tmpRead == 0 {
        stalled := true;
        return;
      }
      var readBytes := content[read..read + tmpRead];
      ghost var earlier := sent;
      ghost var rest := BodyFrames(content, contentLen, read + tmpRead);
      assert BodyFrames(content, contentLen, read)
             == (DataChunks(readBytes, read + tmpRead == contentLen) + rest.0, rest.1);
      read := read + tmpRead;
      SendDataTo(stream, readBytes, read == contentLen);
      sent := sent + DataChunks(readBytes, read == contentLen);
      assert earlier + (DataChunks(readBytes, read == contentLen) + rest.0) == sent + rest.0;
    }
  }

  /** EndResponse for an application that threw: a :status 500 HEADERS
      frame that does not end the stream. */
  method EndResponseOnError(stream: Http2Stream)
    modifies stream`Emitted
    ensures stream.Emitted == old(stream.Emitted) + [StatusFrame(500, false, None)]
  {
    WriteStatus(stream, 500, false, None);
  }

  // ---- ProcessRequest ----

  /** How the application ran: it threw, or it completed with a response. */
  datatype AppOutcome = Threw | Completed(response: OwinResponse)

  /** A character as StringComparer.OrdinalIgnoreCase compares it, for
      ASCII: a lower-case letter is taken as its upper-case one. */
  function UpperAscii(c: char): (u: char)
    ensures 'a' <= c <= 'z' ==> u as int == c as int - 32
    ensures !('a' <= c <= 'z') ==> u == c
  {
    if 'a' <= c <= 'z' then (c as int - 32) as char else c
  }

  /** Two header names equal under StringComparer.OrdinalIgnoreCase. */
  predicate SameNameIgnoringCase(a: string, b: string) {
    |a| == |b| && forall k :: 0 <= k < |a| ==> UpperAscii(a[k]) == UpperAscii(b[k])
  }

  /** Two of the headers share a name, ignoring case: the ToDictionary of
      PopulateEnvironment then throws ArgumentException. */
  predicate RepeatedHeaderName(headers: seq<Header>) {
    exists i, j :: 0 <= i < j < |headers| && SameNameIgnoringCase(headers[i].0, headers[j].0)
  }

  /** The frames ProcessRequest leads to, and whether the application was
      invoked. The environment is built inside the started task but
      outside its try block, so a repeated header name faults the task
      before the application runs and before anything is written. */
  function RequestFrames(headers: seq<Header>, app: AppOutcome): (seq<Event>, bool) {
    if !HasRequestPseudoHeaders(headers) then ([Rst(ProtocolError)], false)
    else if RepeatedHeaderName(headers) then ([], false)
    else match app
      case Threw => ([StatusFrame(500, false, None)], true)
      case Completed(response) => (ResponseFrames(response).0, true)
  }

  /** A request missing any of :method, :path, :scheme, :host gets exactly
      one RST_STREAM(PROTOCOL_ERROR) and the application is not invoked.
      A complete request whose header names are distinct ignoring case
      invokes the application, never gets a reset, and its first frame is
      the :status HEADERS frame; one with a repeated name gets no frame at
      all. */
  lemma RequestCheck(headers: seq<Header>, app: AppOutcome)
    ensures var (frames, invoked) := RequestFrames(headers, app);
      && (!HasRequestPseudoHeaders(headers) <==> frames == [Rst(ProtocolError)])
      && (invoked <==> HasRequestPseudoHeaders(headers) && !RepeatedHeaderName(headers))
      && (HasRequestPseudoHeaders(headers) && RepeatedHeaderName(headers) ==> frames == [])
      && (invoked ==>
            |frames| >= 1 && frames[0].HeadersFrame? && (forall i :: 0 <= i < |frames| ==> !frames[i].Rst?))
  {
    if HasRequestPseudoHeaders(headers) && !RepeatedHeaderName(headers) && app.Completed? {
      ResponseStartsWithStatus(app.response);
    }
  }

  /** A completed response starts with its :status HEADERS frame and holds
      no reset. */
  lemma ResponseStartsWithStatus(response: OwinResponse)
    ensures var frames := ResponseFrames(response).0;
      && |frames| >= 1 && frames[0].HeadersFrame?
      && forall i :: 0 <= i < |frames| ==> !frames[i].Rst?
  {
    if HasDataContent(response) {
      BodyFramesHaveNoReset(response.body.value.content, response.contentLength, 0);
    }
  }

  lemma {:induction false} BodyFramesHaveNoReset(content: seq<byte>, contentLen: int, read: nat)
    requires read <= |content|
    ensures forall i :: 0 <= i < |BodyFrames(content, contentLen, read).0| ==>
              BodyFrames(content, contentLen, read).0[i].DataFrame?
    decreases |content| - read
  {
    var n := Min(MaxFrameContentSize, |content| - read);
    if read < contentLen && n != 0 {
      BodyFramesHaveNoReset(content, contentLen, read + n);
      DataChunksSplit(content[read..read + n], read + n == contentLen);
    }
  }

  /** When the application throws, the only frame is a :status 500 HEADERS
      frame that does not end the stream. */
  lemma AppFailureSends500(headers: seq<Header>)
    requires HasRequestPseudoHeaders(headers) && !RepeatedHeaderName(headers)
    ensures RequestFrames(headers, Threw).0 == [HeadersFrame([(":status", "500")], false, true)]
  {
    Status500();
  }

  /** The status header of a 500 response. */
  lemma Status500()
    ensures StatusHeaders(500, None) == [(":status", "500")]
  {
    assert DigitChar(5) == '5' && DigitChar(0) == '0';
    assert NatToString(5) == "5";
    assert NatToString(50) == NatToString(5) + [DigitChar(0)] == "50";
    assert NatToString(500) == NatToString(50) + [DigitChar(0)] == "500";
    assert IntToString(500) == "500";
    assert StatusHeaders(500, None) == [(":status", "500")];
  }

  /** The response HEADERS frame ends the stream exactly when there is no
      body to send. */
  lemma StatusFinalIffNoBody(headers: seq<Header>, response: OwinResponse)
    requires HasRequestPseudoHeaders(headers) && !RepeatedHeaderName(headers)
    ensures var frames := RequestFrames(headers, Completed(response)).0;
      && frames[0].HeadersFrame?
      && (frames[0].endStream <==> response.body.None? || response.body.value.position == 0)
      && (frames[0].endStream ==> |frames| == 1)
  {
  }

  /** A request that splits its cookie into two `cookie` header fields, as
      section 8.1.2.5 of RFC 7540 allows, is never answered. */
  lemma SplitCookieGetsNoResponse(app: AppOutcome)
    ensures var headers := [(":method", "GET"), (":path", "/"), (":scheme", "https"), (":host", "h"),
                            ("cookie", "a=1"), ("cookie", "b=2")];
      RequestFrames(headers, app) == ([], false)
  {
    var headers := [(":method", "GET"), (":path", "/"), (":scheme", "https"), (":host", "h"),
                    ("cookie", "a=1"), ("cookie", "b=2")];
    assert SameNameIgnoringCase(headers[4].0, headers[5].0);
    assert RepeatedHeaderName(headers);
    assert GetValue(headers, ":method") == Some("GET");
    assert GetValue(headers, ":path") == Some("/");
    assert GetValue(headers, ":scheme") == Some("https");
    assert GetValue(headers, ":host") == Some("h");
  }

  /** ProcessRequest, with the application's run given as its outcome.
      Returns whether the application was invoked, and whether the body
      loop stalled. */
  method ProcessRequest(stream: Http2Stream, app: AppOutcome) returns (invoked: bool, stalled: bool)
    modifies stream`Emitted
    ensures stream.Emitted == old(stream.Emitted) + RequestFrames(stream.Headers, app).0
    ensures invoked == RequestFrames(stream.Headers, app).1
    ensures stalled <==> invoked && app.Completed? && ResponseFrames(app.response).1
  {
    stalled := false;
    if GetValue(stream.Headers, ":method").None?
       || GetValue(stream.Headers, ":path").None?
       || GetValue(stream.Headers, ":scheme").None?
       || GetValue(stream.Headers, ":host").None?
    {
      stream.WriteRst(ProtocolError);
      return false, false;
    }
    if RepeatedHeaderName(stream.Headers) {
      return false, false;
    }
    invoked := true;
    match app
    case Threw =>
      EndResponseOnError(stream);
    case Completed(response) =>
      stalled := EndResponse(stream, response);
  }

  /** ProcessIncomingData: request bodies are not handled; nothing is
      written. */
  method ProcessIncomingData(stream: Http2Stream, data: seq<byte>)
    ensures stream.Emitted == old(stream.Emitted)
  {
  }
}
