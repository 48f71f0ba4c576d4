/**
  Whole conversations: a writer fills a connection, and a reader on the other end takes
  it apart again, for every way the connection may fragment the bytes. Also the safety of
  arbitrary call sequences on one reader.
 */
module HttpExchange {
  import opened Text
  import opened Numerals
  import opened HttpFields
  import opened HttpFraming
  import opened HttpWire
  import opened HttpPrint
  import opened HttpReader
  import opened HttpWriter
  import opened HttpRoundTrip

  // ---------------------------------------------------------------- pipelined requests

  predicate Sendable(q: Request, limits: Limits) {
    WellFormedRequest(q) && PlanRequest(q).Ok? && RequestFits(q, PlanRequest(q).value, limits)
  }

  predicate AllSendable(qs: seq<Request>, limits: Limits) {
    forall i :: 0 <= i < |qs| ==> Sendable(qs[i], limits)
  }

  function AllRequestBytes(qs: seq<Request>, limits: Limits): string
    requires AllSendable(qs, limits)
  {
    if qs == [] then "" else RequestBytes(qs[0], PlanRequest(qs[0]).value) + AllRequestBytes(qs[1..], limits)
  }

  lemma {:induction false} AllRequestBytesSnoc(qs: seq<Request>, q: Request, limits: Limits)
    requires AllSendable(qs, limits) && Sendable(q, limits)
    ensures AllSendable(qs + [q], limits)
    ensures AllRequestBytes(qs + [q], limits) == AllRequestBytes(qs, limits) + RequestBytes(q, PlanRequest(q).value)
  {
    hide RequestBytes, PlanRequest, RequestFits, WellFormedRequest;
    if qs == [] {
      assert qs + [q] == [q] && [q][1..] == [];
    } else {
      assert (qs + [q])[0] == qs[0] && (qs + [q])[1..] == qs[1..] + [q];
      AllRequestBytesSnoc(qs[1..], q, limits);
    }
  }

  method SendRequests(qs: seq<Request>, limits: Limits) returns (wire: string)
    requires AllSendable(qs, limits)
    ensures wire == AllRequestBytes(qs, limits)
  {
    hide RequestBytes, PlanRequest, RequestFits;
    var sink := new ByteSink(None);
    var writer := new Http1Writer(sink);
    for i := 0 to |qs|
      invariant !writer.chunkedBodyActive && writer.sink == sink && fresh(sink)
      invariant sink.out == AllRequestBytes(qs[..i], limits)
    {
      assert qs[..i + 1] == qs[..i] + [qs[i]];
      AllRequestBytesSnoc(qs[..i], qs[i], limits);
      var _ := writer.WriteRequest(qs[i]);
    }
    assert qs[..|qs|] == qs;
    wire := sink.out;
  }

  /**
    Any list of accepted requests that fit the limits arrives complete and in order,
    however the connection cuts up and interrupts the byte stream.
   */
  method ExchangeRequests(qs: seq<Request>, schedule: seq<Turn>, limits: Limits) returns (got: seq<Request>)
    requires limits.Positive() && AllSendable(qs, limits)
    ensures |got| == |qs|
    ensures forall i :: 0 <= i < |qs| ==> got[i] == DeliveredRequest(qs[i], PlanRequest(qs[i]).value)
  {
    hide RequestBytes, PlanRequest, RequestFits, ParseRequest, DeliveredRequest, WellFormedRequest;
    var wire := SendRequests(qs, limits);
    var source := new ByteSource(wire, schedule, Eof);
    var reader := new Http1Reader(source, limits);
    got := [];
    ghost var left := qs;
    assert qs[0..] == qs;
    while true
      invariant reader.Valid() && reader.source == source && fresh(source) && fresh(reader) && fresh(reader.buffer)
      invariant reader.limits == limits && source.fate == Eof
      invariant reader.state == Ready && |got| <= |qs| && left == qs[|got|..]
      invariant reader.Pending() == AllRequestBytes(left, limits)
      invariant forall i :: 0 <= i < |got| ==> got[i] == DeliveredRequest(qs[i], PlanRequest(qs[i]).value)
      decreases |left|
    {
      NextRequest(left, limits);
      var r := reader.ReadRequest();
      if r.Err? || r.value.None? {
        return;
      }
      assert left[0] == qs[|got|] && left[1..] == qs[|got| + 1..];
      got := got + [r.value.value];
      left := left[1..];
    }
  }

  /** The next request at the head of a pipeline, or the clean end of the connection. */
  lemma NextRequest(qs: seq<Request>, limits: Limits)
    requires AllSendable(qs, limits)
    ensures qs == [] ==> ParseRequest(AllRequestBytes(qs, limits), limits, Eof) == Done(None, 0)
    ensures qs != [] ==>
              var plan := PlanRequest(qs[0]).value;
              var n := |RequestBytes(qs[0], plan)|;
              && ParseRequest(AllRequestBytes(qs, limits), limits, Eof) == Done(Some(DeliveredRequest(qs[0], plan)), n)
              && n <= |AllRequestBytes(qs, limits)|
              && AllRequestBytes(qs, limits)[n..] == AllRequestBytes(qs[1..], limits)
  {
    hide RequestBytes, PlanRequest, RequestFits, DeliveredRequest, WellFormedRequest, ParseRequestHead;
    if qs != [] {
      RequestRoundTrip(qs[0], AllRequestBytes(qs[1..], limits), limits, Eof);
    }
  }

  // --------------------------------------------------------------- pipelined responses

  /** A response together with the method of the request it answers. */
  datatype Answer = Answer(response: Response, verb: string)

  predicate Answerable(a: Answer, limits: Limits) {
    && WellFormedResponse(a.response) && PlanResponse(a.response, a.verb).Ok?
    && ResponseFits(a.response, PlanResponse(a.response, a.verb).value, limits)
    && !LengthOnForbiddenStatus(a.response, a.verb)
  }

  predicate AllAnswerable(answers: seq<Answer>, limits: Limits) {
    forall i :: 0 <= i < |answers| ==> Answerable(answers[i], limits)
  }

  function AnswerBytes(a: Answer): string
    requires PlanResponse(a.response, a.verb).Ok?
  {
    ResponseBytes(a.response, PlanResponse(a.response, a.verb).value)
  }

  function DeliveredAnswer(a: Answer): Response
    requires PlanResponse(a.response, a.verb).Ok?
  {
    DeliveredResponse(a.response, PlanResponse(a.response, a.verb).value)
  }

  function AllAnswerBytes(answers: seq<Answer>, limits: Limits): string
    requires AllAnswerable(answers, limits)
  {
    if answers == [] then "" else AnswerBytes(answers[0]) + AllAnswerBytes(answers[1..], limits)
  }

  lemma {:induction false} AllAnswerBytesSnoc(answers: seq<Answer>, a: Answer, limits: Limits)
    requires AllAnswerable(answers, limits) && Answerable(a, limits)
    ensures AllAnswerable(answers + [a], limits)
    ensures AllAnswerBytes(answers + [a], limits) == AllAnswerBytes(answers, limits) + AnswerBytes(a)
  {
    hide AnswerBytes, PlanResponse, ResponseFits, WellFormedResponse, LengthOnForbiddenStatus;
    if answers == [] {
      assert answers + [a] == [a] && [a][1..] == [];
    } else {
      assert (answers + [a])[0] == answers[0] && (answers + [a])[1..] == answers[1..] + [a];
      AllAnswerBytesSnoc(answers[1..], a, limits);
    }
  }

  method SendAnswers(answers: seq<Answer>, limits: Limits) returns (wire: string)
    requires AllAnswerable(answers, limits)
    ensures wire == AllAnswerBytes(answers, limits)
  {
    hide ResponseBytes, PlanResponse, ResponseFits;
    var sink := new ByteSink(None);
    var writer := new Http1Writer(sink);
    for i := 0 to |answers|
      invariant !writer.chunkedBodyActive && writer.sink == sink && fresh(sink)
      invariant sink.out == AllAnswerBytes(answers[..i], limits)
    {
      assert answers[..i + 1] == answers[..i] + [answers[i]];
      AllAnswerBytesSnoc(answers[..i], answers[i], limits);
      var _ := writer.WriteResponse(answers[i].response, answers[i].verb);
    }
    assert answers[..|answers|] == answers;
    wire := sink.out;
  }

  lemma NextAnswer(answers: seq<Answer>, limits: Limits)
    requires AllAnswerable(answers, limits) && answers != []
    ensures var n := |AnswerBytes(answers[0])|;
            && ParseResponse(AllAnswerBytes(answers, limits), answers[0].verb, limits, Eof)
               == Done(Some(DeliveredAnswer(answers[0])), n)
            && n <= |AllAnswerBytes(answers, limits)|
            && AllAnswerBytes(answers, limits)[n..] == AllAnswerBytes(answers[1..], limits)
  {
    hide ResponseBytes, PlanResponse, ResponseFits, DeliveredResponse, WellFormedResponse, ParseResponse;
    ResponseRoundTrip(answers[0].response, answers[0].verb, AllAnswerBytes(answers[1..], limits), limits, Eof);
  }

  /**
    Any list of accepted answers that fit the limits arrives complete and in order when the
    reader is told the method each one answers; the connection is then exactly used up.
   */
  method ExchangeAnswers(answers: seq<Answer>, schedule: seq<Turn>, limits: Limits) returns (got: seq<Response>, rest: nat)
    requires limits.Positive() && AllAnswerable(answers, limits)
    ensures |got| == |answers| && rest == 0
    ensures forall i :: 0 <= i < |answers| ==> got[i] == DeliveredAnswer(answers[i])
  {
    hide AnswerBytes, PlanResponse, ResponseFits, ParseResponse, DeliveredAnswer, WellFormedResponse;
    var wire := SendAnswers(answers, limits);
    var source := new ByteSource(wire, schedule, Eof);
    var reader := new Http1Reader(source, limits);
    got := [];
    assert answers[0..] == answers;
    for i := 0 to |answers|
      invariant reader.Valid() && reader.source == source && fresh(source) && fresh(reader) && fresh(reader.buffer)
      invariant reader.limits == limits && source.fate == Eof
      invariant reader.state == Ready && |got| == i
      invariant reader.Pending() == AllAnswerBytes(answers[i..], limits)
      invariant forall j :: 0 <= j < i ==> got[j] == DeliveredAnswer(answers[j])
    {
      NextAnswer(answers[i..], limits);
      assert answers[i..][0] == answers[i] && answers[i..][1..] == answers[i + 1..];
      var r := reader.ReadResponse(answers[i].verb);
      got := got + [r.value.value];
    }
    rest := |source.rest| + (reader.filled - reader.position);
    assert |reader.Pending()| == rest;
  }

  // --------------------------------------------------------------- chunk-by-chunk bodies

  predicate Streamable(head: RequestHead, chunks: seq<string>, trailers: seq<Header>, limits: Limits) {
    && ValidFields(head.fields) && PlanChunkedRequest(head).Ok? && ValidFields(trailers) && ValidTrailers(trailers)
    && |RequestLine(head)| <= limits.maxStartLine && FieldsFit(PlanChunkedRequest(head).value, limits, 0, 0)
    && (forall c :: c in chunks ==> |c| <= USIZE_MAX)
    && var fields := PlanChunkedRequest(head).value;
       ChunksFit(chunks, trailers, limits, 0, |FieldLines(fields)| + 2, |fields|)
  }

  method SendStream(head: RequestHead, chunks: seq<string>, trailers: seq<Header>) returns (wire: string)
    requires PlanChunkedRequest(head).Ok? && ValidTrailers(trailers)
    ensures wire == HeadBytes(RequestLine(head), PlanChunkedRequest(head).value) + ChunkedBytes(chunks, trailers)
  {
    hide PlanChunkedRequest, HeadBytes, RequestLine, ChunkedBytes, ValidTrailers;
    var sink := new ByteSink(None);
    var writer := new Http1Writer(sink);
    var begun := writer.BeginChunkedRequest(head);
    SendChunks(writer, begun.value, chunks, trailers);
    wire := sink.out;
  }

  method SendStreamedAnswer(head: ResponseHead, verb: string, chunks: seq<string>, trailers: seq<Header>) returns (wire: string)
    requires PlanChunkedResponse(head, verb).Ok? && ValidTrailers(trailers)
    ensures wire == HeadBytes(StatusLine(head), PlanChunkedResponse(head, verb).value) + ChunkedBytes(chunks, trailers)
  {
    hide PlanChunkedResponse, HeadBytes, StatusLine, ChunkedBytes, ValidTrailers;
    var sink := new ByteSink(None);
    var writer := new Http1Writer(sink);
    var begun := writer.BeginChunkedResponse(head, verb);
    SendChunks(writer, begun.value, chunks, trailers);
    wire := sink.out;
  }

  /** Writes the chunks one by one and finishes the body. */
  method SendChunks(writer: Http1Writer, body: ChunkedBodyWriter, chunks: seq<string>, trailers: seq<Header>)
    requires body.owner == writer && body.Active() && writer.sink.limit == None && ValidTrailers(trailers)
    modifies writer, writer.sink, body
    ensures writer.sink.out == old(writer.sink.out) + ChunkedBytes(chunks, trailers)
  {
    hide ChunkBytes, FieldLines, ValidTrailers;
    var sink := writer.sink;
    ghost var start := sink.out;
    assert chunks[0..] == chunks;
    for i := 0 to |chunks|
      invariant body.owner == writer && body.Active()
      invariant sink.out + ChunkedBytes(chunks[i..], trailers) == start + ChunkedBytes(chunks, trailers)
    {
      ghost var here := sink.out;
      var _ := body.WriteChunk(chunks[i]);
      assert chunks[i..][0] == chunks[i] && chunks[i..][1..] == chunks[i + 1..];
      assert here + (ChunkBytes(chunks[i]) + ChunkedBytes(chunks[i + 1..], trailers))
          == sink.out + ChunkedBytes(chunks[i + 1..], trailers);
    }
    assert chunks[|chunks|..] == [];
    var _ := body.Finish(trailers);
  }

  lemma StreamedBody(chunks: seq<string>, trailers: seq<Header>, fields: seq<Header>, limits: Limits)
    requires FieldsFit(fields, limits, 0, 0) && ValidFields(trailers) && ValidTrailers(trailers)
    requires forall c :: c in chunks ==> |c| <= USIZE_MAX
    requires ChunksFit(chunks, trailers, limits, 0, |FieldLines(fields)| + 2, |fields|)
    ensures var body := ParseBody(ChunkedBytes(chunks, trailers), BodyInfo(Chunked, 0), limits, |FieldLines(fields)| + 2, |fields|, Eof);
            body.Done? && body.value == Body(Concat(chunks), Delivered(trailers))
  {
    hide ChunkedBytes, ParseChunks, FieldsFit, ChunksFit, FieldLines;
    FittingCount(fields, limits);
    ParsePrintedChunks(chunks, trailers, "", limits, 0, |FieldLines(fields)| + 2, |fields|, Eof);
    assert ChunkedBytes(chunks, trailers) + "" == ChunkedBytes(chunks, trailers);
  }

  lemma HeadNotEmpty(start: string, fields: seq<Header>)
    ensures HeadBytes(start, fields) != ""
  {
  }

  lemma PlannedRequest(head: RequestHead, chunks: seq<string>, trailers: seq<Header>, limits: Limits)
    requires Streamable(head, chunks, trailers, limits)
    ensures PlanChunkedRequest(head).Ok? && ValidTrailers(trailers)
  {
  }

  lemma StreamedRequest(head: RequestHead, chunks: seq<string>, trailers: seq<Header>, limits: Limits)
    requires Streamable(head, chunks, trailers, limits)
    ensures var wire := HeadBytes(RequestLine(head), PlanChunkedRequest(head).value) + ChunkedBytes(chunks, trailers);
            var parsed := ParseRequestHead(wire, limits, Eof);
            && wire != "" && parsed.Done? && parsed.value.info == BodyInfo(Chunked, 0)
            && parsed.value.head == head.(fields := Delivered(PlanChunkedRequest(head).value))
            && var body := ParseBody(wire[parsed.used..], parsed.value.info, limits, parsed.value.bytes, parsed.value.count, Eof);
               body.Done? && body.value == Body(Concat(chunks), Delivered(trailers))
  {
    hide PlanChunkedRequest, HeadBytes, RequestLine, Reason, ChunkedBytes, ParseChunks, FieldsFit, ChunksFit, ParseRequestHead, ParseBody, FieldLines, Concat, Delivered;
    var fields := PlanChunkedRequest(head).value;
    var start, rest := HeadBytes(RequestLine(head), fields), ChunkedBytes(chunks, trailers);
    StreamedRequestHead(head, ChunkedBytes(chunks, trailers), limits, Eof);
    StreamedBody(chunks, trailers, fields, limits);
    assert (start + rest)[|start|..] == rest;
    HeadNotEmpty(RequestLine(head), fields);
  }

  /**
    Any sequence of written chunks followed by trailers is read back whole, for any
    fragmentation of the connection and any sequence of positive read capacities.
   */
  method ExchangeStream(head: RequestHead, chunks: seq<string>, trailers: seq<Header>, schedule: seq<Turn>,
                        capacities: seq<usize>, limits: Limits)
    returns (seen: RequestHead, body: string, seenTrailers: seq<Header>)
    requires limits.Positive() && Streamable(head, chunks, trailers, limits)
    requires capacities != [] && forall i :: 0 <= i < |capacities| ==> capacities[i] > 0
    ensures seen == head.(fields := Delivered(PlanChunkedRequest(head).value))
    ensures body == Concat(chunks) && seenTrailers == Delivered(trailers)
  {
    hide ParseRequestHead, ParseBody, HeadBytes, RequestLine, PlanChunkedRequest, Reason, ChunkedBytes, Streamable, Http1Reader.Pending, Http1Reader.Remaining, Http1Reader.BufferValid;
    StreamedRequest(head, chunks, trailers, limits);
    PlannedRequest(head, chunks, trailers, limits);
    var wire := SendStream(head, chunks, trailers);
    var source := new ByteSource(wire, schedule, Eof);
    var reader := new Http1Reader(source, limits);
    var started := reader.ReadRequestHead();
    seen := started.value.value;
    body, seenTrailers := ReadInPieces(reader, capacities);
  }

  predicate StreamableAnswer(head: ResponseHead, verb: string, chunks: seq<string>, trailers: seq<Header>, limits: Limits) {
    && ValidFields(head.fields) && PlanChunkedResponse(head, verb).Ok? && ValidFields(trailers) && ValidTrailers(trailers)
    && |StatusLine(head)| <= limits.maxStartLine && FieldsFit(PlanChunkedResponse(head, verb).value, limits, 0, 0)
    && (forall c :: c in chunks ==> |c| <= USIZE_MAX)
    && var fields := PlanChunkedResponse(head, verb).value;
       ChunksFit(chunks, trailers, limits, 0, |FieldLines(fields)| + 2, |fields|)
  }

  lemma PlannedResponse(head: ResponseHead, verb: string, chunks: seq<string>, trailers: seq<Header>, limits: Limits)
    requires StreamableAnswer(head, verb, chunks, trailers, limits)
    ensures PlanChunkedResponse(head, verb).Ok? && ValidTrailers(trailers)
  {
  }

  lemma StreamedResponse(head: ResponseHead, verb: string, chunks: seq<string>, trailers: seq<Header>, limits: Limits)
    requires StreamableAnswer(head, verb, chunks, trailers, limits)
    ensures var wire := HeadBytes(StatusLine(head), PlanChunkedResponse(head, verb).value) + ChunkedBytes(chunks, trailers);
            var parsed := ParseResponseHead(wire, verb, limits, Eof);
            && wire != "" && parsed.Done? && parsed.value.info == BodyInfo(Chunked, 0)
            && parsed.value.head == head.(reason := Reason(head), fields := Delivered(PlanChunkedResponse(head, verb).value))
            && var body := ParseBody(wire[parsed.used..], parsed.value.info, limits, parsed.value.bytes, parsed.value.count, Eof);
               body.Done? && body.value == Body(Concat(chunks), Delivered(trailers))
  {
    hide PlanChunkedResponse, HeadBytes, StatusLine, Reason, ChunkedBytes, ParseChunks, FieldsFit, ChunksFit, ParseResponseHead, ParseBody, FieldLines, Concat, Delivered;
    var fields := PlanChunkedResponse(head, verb).value;
    var start, rest := HeadBytes(StatusLine(head), fields), ChunkedBytes(chunks, trailers);
    StreamedResponseHead(head, verb, ChunkedBytes(chunks, trailers), limits, Eof);
    StreamedBody(chunks, trailers, fields, limits);
    assert (start + rest)[|start|..] == rest;
    HeadNotEmpty(StatusLine(head), fields);
  }

  /** The same for a streamed response and a reader given the same request method. */
  method ExchangeStreamedAnswer(head: ResponseHead, verb: string, chunks: seq<string>, trailers: seq<Header>,
                                schedule: seq<Turn>, capacities: seq<usize>, limits: Limits)
    returns (seen: ResponseHead, body: string, seenTrailers: seq<Header>)
    requires limits.Positive() && StreamableAnswer(head, verb, chunks, trailers, limits)
    requires capacities != [] && forall i :: 0 <= i < |capacities| ==> capacities[i] > 0
    ensures seen == head.(reason := Reason(head), fields := Delivered(PlanChunkedResponse(head, verb).value))
    ensures body == Concat(chunks) && seenTrailers == Delivered(trailers)
  {
    hide ParseResponseHead, ParseBody, HeadBytes, StatusLine, PlanChunkedResponse, Reason, ChunkedBytes, StreamableAnswer, Http1Reader.Pending, Http1Reader.Remaining, Http1Reader.BufferValid;
    StreamedResponse(head, verb, chunks, trailers, limits);
    PlannedResponse(head, verb, chunks, trailers, limits);
    var wire := SendStreamedAnswer(head, verb, chunks, trailers);
    var source := new ByteSource(wire, schedule, Eof);
    var reader := new Http1Reader(source, limits);
    var started := reader.ReadResponseHead(verb);
    seen := started.value.value;
    body, seenTrailers := ReadInPieces(reader, capacities);
  }

  /** Reads an open body with the given capacities, used over and over, and finishes it. */
  method ReadInPieces(reader: Http1Reader, capacities: seq<usize>) returns (body: string, trailers: seq<Header>)
    requires reader.Valid() && IsOpen(reader.state) && reader.Remaining().Done?
    requires capacities != [] && forall i :: 0 <= i < |capacities| ==> capacities[i] > 0
    modifies reader, reader.buffer, reader.source
    ensures reader.Valid() && reader.state == Ready
    ensures old(reader.Remaining()).value == Body(body, trailers)
    ensures old(reader.Remaining()).used <= |old(reader.Pending())|
    ensures reader.Pending() == old(reader.Pending())[old(reader.Remaining()).used..]
  {
    hide Http1Reader.Pending;
    ghost var input, whole := reader.Pending(), reader.Remaining();
    ghost var k: nat := 0;
    body := "";
    var i := 0;
    AddDataNothing(whole);
    assert input[0..] == input;
    while reader.state != BodyComplete
      invariant reader.Valid() && i < |capacities|
      invariant reader.Advanced(whole, input, body, k)
      decreases |reader.Pending()|, reader.state != BodyComplete
    {
      hide Http1Reader.Remaining;
      ghost var here, left := reader.Pending(), reader.Remaining();
      var piece := new char[capacities[i]];
      var read := reader.ReadBody(piece, capacities[i]);
      k := Chain(whole, input, body, k, left, piece[..read.value], |here| - |reader.Pending()|, reader.Remaining());
      body := body + piece[..read.value];
      i := if i + 1 == |capacities| then 0 else i + 1;
    }
    assert body + "" == body;
    var finished := reader.FinishBody();
    trailers := finished.value;
  }

  // -------------------------------------------------------- arbitrary calls on one reader

  datatype Call =
    | OpenRequest
    | OpenResponse(verb: string)
    | Piece(capacity: usize)
    | Finish
    | Discard
    | WholeRequest
    | WholeResponse(verb: string)

  /** Succeeded, refused because of the call order, or failed because of the peer or the connection. */
  datatype Verdict = Success | Misuse | Failure

  function Judge<T>(r: Outcome<T>): Verdict {
    if r.Ok? then Success else if r.kind == InvalidState then Misuse else Failure
  }

  method Perform(reader: Http1Reader, call: Call) returns (v: Verdict)
    requires reader.Valid()
    modifies reader, reader.buffer, reader.source
    ensures reader.Valid()
    ensures v == Failure ==> Stuck(reader.state, reader.limits)
    ensures old(Stuck(reader.state, reader.limits)) ==> v != Success && Stuck(reader.state, reader.limits)
  {
    match call
    case OpenRequest =>
      var r := reader.ReadRequestHead();
      v := Judge(r);
    case OpenResponse(verb) =>
      var r := reader.ReadResponseHead(verb);
      v := Judge(r);
    case Piece(capacity) =>
      var piece := new char[capacity];
      var r := reader.ReadBody(piece, capacity);
      v := Judge(r);
    case Finish =>
      var r := reader.FinishBody();
      v := Judge(r);
    case Discard =>
      var r := reader.DiscardBody();
      v := Judge(r);
    case WholeRequest =>
      var r := reader.ReadRequest();
      v := Judge(r);
    case WholeResponse(verb) =>
      var r := reader.ReadResponse(verb);
      v := Judge(r);
  }

  /** A reader that can make no further progress: dead, or configured with a zero limit. */
  predicate Stuck(state: ReadState, limits: Limits) {
    IsDead(state) || (state == Ready && !limits.Positive())
  }

  /**
    Safety of every run: whatever calls are made against whatever peer, the counters stay
    within the limits (part of `Valid`), and once a call has failed no later call succeeds.
   */
  method Replay(reader: Http1Reader, calls: seq<Call>) returns (verdicts: seq<Verdict>)
    requires reader.Valid()
    modifies reader, reader.buffer, reader.source
    ensures reader.Valid()
    ensures |verdicts| == |calls|
    ensures forall i, j :: 0 <= i < j < |calls| && verdicts[i] == Failure ==> verdicts[j] != Success
  {
    verdicts := [];
    for n := 0 to |calls|
      invariant reader.Valid() && |verdicts| == n
      invariant forall i :: 0 <= i < n && verdicts[i] == Failure ==> Stuck(reader.state, reader.limits)
      invariant forall i, j :: 0 <= i < j < n && verdicts[i] == Failure ==> verdicts[j] != Success
    {
      var v := Perform(reader, calls[n]);
      verdicts := verdicts + [v];
    }
  }
}
