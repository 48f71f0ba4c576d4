/**
  Reading what was written: for every message the writer accepts, the reader finds
  exactly that message in exactly the written bytes, unless its limits forbid it.
 */
module HttpRoundTrip {
  import opened Text
  import opened Numerals
  import opened HttpFields
  import opened HttpFraming
  import opened HttpWire
  import opened HttpPrint

  /** A refusal because of a configured limit. */
  predicate OverLimit<T>(p: Parse<T>) {
    p.Fail? && (p.kind == HeaderLimitExceeded || p.kind == BodyLimitExceeded)
  }

  predicate IsLine(s: string) {
    forall i :: 0 <= i < |s| ==> IsLineByte(s[i])
  }

  lemma {:induction false} LineSpanOfLine(line: string, rest: string)
    requires IsLine(line)
    ensures LineSpan(line + (CRLF + rest)) == |line|
  {
    var s := line + (CRLF + rest);
    if line == "" {
      assert s[0] == '\r';
    } else {
      assert s[1..] == line[1..] + (CRLF + rest);
      LineSpanOfLine(line[1..], rest);
    }
  }

  /** A printed line is read back, or refused when it is longer than the limit. */
  lemma ParsePrintedLine(line: string, rest: string, limit: nat, fate: Fate)
    requires IsLine(line)
    ensures ParseLine(line + CRLF + rest, limit, fate)
         == if |line| <= limit then Done(line, |line| + 2) else Fail(HeaderLimitExceeded)
    ensures (line + CRLF + rest)[|line| + 2..] == rest
  {
    var s := line + CRLF + rest;
    assert s == line + (CRLF + rest);
    LineSpanOfLine(line, rest);
    assert s[|line|] == '\r' && s[|line| + 1] == '\n' && s[..|line|] == line;
  }

  // ------------------------------------------------------------------- header fields

  lemma ValidValueIsLine(s: string)
    requires ValidValue(s)
    ensures IsLine(s)
  {
  }

  lemma ValidNameIsLine(s: string)
    requires ValidName(s)
    ensures IsLine(s) && ':' !in s && ' ' !in s && !IsOws(s[0])
  {
  }

  lemma ParsePrintedField(h: Header)
    requires ValidHeader(h)
    ensures ParseField(FieldLine(h)) == Some(Header(h.name, Trim(h.value)))
    ensures IsLine(FieldLine(h)) && FieldLine(h) != "" && !IsOws(FieldLine(h)[0])
  {
    hide ValidName, ValidValue, Trim, IsLineByte;
    var line := FieldLine(h);
    ValidNameIsLine(h.name);
    ValidValueIsLine(h.value);
    SeparatorIsLine();
    assert line[..|h.name|] == h.name;
    IndexOfIs(line, ':', |h.name|);
    assert line[|h.name| + 1..] == [' '] + h.value;
    TrimPrepend(' ', h.value);
    TrimmedIsValid(h.value);
  }

  lemma SeparatorIsLine()
    ensures IsLineByte(':') && IsLineByte(' ') && IsOws(' ')
  {
  }

  lemma TrimmedIsValid(value: string)
    requires ValidValue(value)
    ensures ValidValue(Trim(value))
  {
    hide Trim;
    TrimMembers(value);
    forall i | 0 <= i < |Trim(value)|
      ensures Trim(value)[i] == '\t' || (' ' <= Trim(value)[i] && Trim(value)[i] != '\U{7F}')
    {
      assert Trim(value)[i] in value;
    }
  }

  lemma ParsePrintedFieldLine(h: Header, tail: string, limits: Limits, bytes: nat, count: nat, fate: Fate)
    requires ValidHeader(h)
    ensures ParseFieldLine(FieldLine(h) + CRLF + tail, limits, bytes, count, fate)
         == if bytes + |FieldLine(h)| + 2 <= limits.maxHeaderBytes && count < limits.maxHeaderCount
            then Done(Some(Header(h.name, Trim(h.value))), |FieldLine(h)| + 2)
            else Fail(HeaderLimitExceeded)
  {
    hide ParseField, ParseLine, FieldLine;
    ParsePrintedField(h);
    ParsePrintedLine(FieldLine(h), tail, if bytes < limits.maxHeaderBytes then limits.maxHeaderBytes - bytes else 0, fate);
  }

  lemma ParsePrintedEmptyLine(tail: string, limits: Limits, bytes: nat, count: nat, fate: Fate)
    ensures ParseFieldLine(CRLF + tail, limits, bytes, count, fate)
         == if bytes + 2 <= limits.maxHeaderBytes then Done(None, 2) else Fail(HeaderLimitExceeded)
  {
    hide ParseLine;
    assert CRLF + tail == "" + CRLF + tail;
    ParsePrintedLine("", tail, if bytes < limits.maxHeaderBytes then limits.maxHeaderBytes - bytes else 0, fate);
  }

  predicate FieldsFit(fields: seq<Header>, limits: Limits, bytes: nat, count: nat) {
    bytes + |FieldLines(fields)| + 2 <= limits.maxHeaderBytes && count + |fields| <= limits.maxHeaderCount
  }

  lemma FieldLinesUnfold(fields: seq<Header>, rest: string)
    ensures fields == [] ==> FieldLines(fields) + CRLF + rest == CRLF + rest && |FieldLines(fields)| == 0
    ensures fields != [] ==>
              var n := |FieldLine(fields[0])| + 2;
              var tail := FieldLines(fields[1..]) + CRLF + rest;
              && FieldLines(fields) + CRLF + rest == FieldLine(fields[0]) + CRLF + tail
              && (FieldLines(fields) + CRLF + rest)[n..] == tail
              && |FieldLines(fields)| == n + |FieldLines(fields[1..])|
  {
    hide FieldLine;
    if fields != [] {
      var tail := FieldLines(fields[1..]) + CRLF + rest;
      assert FieldLines(fields) + CRLF + rest == FieldLine(fields[0]) + CRLF + tail;
    }
  }

  lemma ParseFieldsUnfold(input: string, limits: Limits, bytes: nat, count: nat, fate: Fate)
    ensures ParseFields(input, limits, bytes, count, fate)
         == match ParseFieldLine(input, limits, bytes, count, fate)
            case Fail(k) => Fail(k)
            case Done(None, n) => Done(Block([], bytes + n, count), n)
            case Done(Some(h), n) => AddField([h], n, ParseFields(input[n..], limits, bytes + n, count + 1, fate))
  {
    hide ParseFieldLine;
  }

  /** A printed field block is read back with its values trimmed, or refused when it exceeds the budget. */
  lemma {:induction false} ParsePrintedFields(fields: seq<Header>, rest: string, limits: Limits, bytes: nat, count: nat, fate: Fate)
    requires ValidFields(fields) && count <= limits.maxHeaderCount
    ensures ParseFields(FieldLines(fields) + CRLF + rest, limits, bytes, count, fate)
         == if FieldsFit(fields, limits, bytes, count)
            then Done(Block(Delivered(fields), bytes + |FieldLines(fields)| + 2, count + |fields|), |FieldLines(fields)| + 2)
            else Fail(HeaderLimitExceeded)
  {
    hide ParseFields, ParseFieldLine, FieldLine, FieldLines, Trim;
    FieldLinesUnfold(fields, rest);
    ParseFieldsUnfold(FieldLines(fields) + CRLF + rest, limits, bytes, count, fate);
    if fields == [] {
      ParsePrintedEmptyLine(rest, limits, bytes, count, fate);
    } else {
      var n := |FieldLine(fields[0])| + 2;
      var tail := FieldLines(fields[1..]) + CRLF + rest;
      assert fields[0] in fields && forall h :: h in fields[1..] ==> h in fields;
      ParsePrintedFieldLine(fields[0], tail, limits, bytes, count, fate);
      if bytes + n <= limits.maxHeaderBytes && count < limits.maxHeaderCount {
        var h := Header(fields[0].name, Trim(fields[0].value));
        ParsePrintedFields(fields[1..], rest, limits, bytes + n, count + 1, fate);
      }
    }
  }

  // -------------------------------------------------------------------------- bodies

  function Concat(chunks: seq<string>): string {
    if chunks == [] then "" else chunks[0] + Concat(chunks[1..])
  }

  /** What the limits allow of a chunked body with these chunks and trailers. */
  predicate ChunksFit(chunks: seq<string>, trailers: seq<Header>, limits: Limits, decoded: nat, bytes: nat, count: nat) {
    && 1 <= limits.maxStartLine
    && (forall c :: c in chunks ==> |Print(|c|, 16)| <= limits.maxStartLine)
    && decoded + |Concat(chunks)| <= limits.maxBody
    && FieldsFit(trailers, limits, bytes, count)
  }

  lemma PrintedHex(n: nat)
    requires n <= USIZE_MAX
    ensures IsLine(Print(n, 16)) && ChunkSize(Print(n, 16)) == Some(n)
  {
    var s := Print(n, 16);
    PrintThenValue(n, 16);
    assert forall i :: 0 <= i < |s| ==> DigitOf(s[i], 16) >= 0;
    assert ValidValue(s);
    IndexOfIs(s, ';', |s|);
    assert s[..|s|] == s;
  }

  lemma ValidTrailersDelivered(trailers: seq<Header>)
    ensures ValidTrailers(Delivered(trailers)) == ValidTrailers(trailers)
  {
    DeliveredNames(trailers);
  }

  lemma {:induction false} DeliveredNames(fields: seq<Header>)
    ensures forall i :: 0 <= i < |fields| ==> Delivered(fields)[i].name == fields[i].name
  {
    if fields != [] {
      DeliveredNames(fields[1..]);
    }
  }

  lemma ParsePrintedLastChunk(trailers: seq<Header>, rest: string, limits: Limits, decoded: nat, bytes: nat, count: nat, fate: Fate)
    requires ValidFields(trailers) && ValidTrailers(trailers)
    requires decoded <= limits.maxBody && count <= limits.maxHeaderCount
    ensures ParseChunks(ChunkedBytes([], trailers) + rest, limits, decoded, bytes, count, fate)
         == if ChunksFit([], trailers, limits, decoded, bytes, count)
            then Done(Body("", Delivered(trailers)), |ChunkedBytes([], trailers)|)
            else Fail(HeaderLimitExceeded)
  {
    hide ParseLine, ParseFields, ChunkSize, ValidTrailers, FieldLines;
    var tail := FieldLines(trailers) + CRLF + rest;
    assert ChunkedBytes([], trailers) + rest == "0" + CRLF + tail;
    assert Print(0, 16) == "0";
    PrintedHex(0);
    ParsePrintedLine("0", tail, limits.maxStartLine, fate);
    ParsePrintedFields(trailers, rest, limits, bytes, count, fate);
    ValidTrailersDelivered(trailers);
  }

  lemma ParsePrintedChunk(c: string, rest: string, limits: Limits, decoded: nat, bytes: nat, count: nat, fate: Fate)
    requires c != "" && |c| <= USIZE_MAX && decoded <= limits.maxBody
    ensures ParseChunks(ChunkBytes(c) + rest, limits, decoded, bytes, count, fate)
         == if |Print(|c|, 16)| > limits.maxStartLine then Fail(HeaderLimitExceeded)
            else if decoded + |c| > limits.maxBody then Fail(BodyLimitExceeded)
            else AddData(c, |ChunkBytes(c)|, ParseChunks(rest, limits, decoded + |c|, bytes, count, fate))
  {
    hide ParseLine, ChunkSize, Print, AddData;
    var size := Print(|c|, 16);
    var tail := c + CRLF + rest;
    assert ChunkBytes(c) + rest == size + CRLF + tail;
    PrintedHex(|c|);
    ParsePrintedLine(size, tail, limits.maxStartLine, fate);
    if |size| <= limits.maxStartLine && decoded + |c| <= limits.maxBody {
      assert tail[..|c|] == c && tail[|c|..] == CRLF + rest;
      assert (CRLF + rest)[2..] == rest;
      var p := ParseChunks(rest, limits, decoded + |c|, bytes, count, fate);
      assert ParseChunkEnd(CRLF + rest, limits, decoded + |c|, bytes, count, fate) == AddData("", 2, p);
      assert ParseChunkData(tail, |c|, limits, decoded, bytes, count, fate) == AddData(c, |c|, AddData("", 2, p));
      AddDataTwice(c, |c|, "", 2, p);
      AddDataTwice("", |size| + 2, c + "", |c| + 2, p);
      assert "" + (c + "") == c;
    }
  }

  lemma ConcatMembers(chunks: seq<string>)
    requires chunks != []
    ensures |Concat(chunks)| == |chunks[0]| + |Concat(chunks[1..])|
    ensures forall c :: c in chunks <==> c == chunks[0] || c in chunks[1..]
  {
    assert chunks == [chunks[0]] + chunks[1..];
  }

  /** Any sequence of written chunks is read back as the concatenation of their data. */
  lemma {:induction false} ParsePrintedChunks(chunks: seq<string>, trailers: seq<Header>, rest: string, limits: Limits,
                                              decoded: nat, bytes: nat, count: nat, fate: Fate)
    requires ValidFields(trailers) && ValidTrailers(trailers)
    requires decoded <= limits.maxBody && count <= limits.maxHeaderCount
    requires forall c :: c in chunks ==> |c| <= USIZE_MAX
    ensures ChunksFit(chunks, trailers, limits, decoded, bytes, count) ==>
              ParseChunks(ChunkedBytes(chunks, trailers) + rest, limits, decoded, bytes, count, fate) ==
              Done(Body(Concat(chunks), Delivered(trailers)), |ChunkedBytes(chunks, trailers)|)
    ensures !ChunksFit(chunks, trailers, limits, decoded, bytes, count) ==>
              OverLimit(ParseChunks(ChunkedBytes(chunks, trailers) + rest, limits, decoded, bytes, count, fate))
    decreases |chunks|
  {
    hide ParseChunks, ChunkBytes, FieldsFit, Print;
    if chunks == [] {
      ParsePrintedLastChunk(trailers, rest, limits, decoded, bytes, count, fate);
    } else {
      var c := chunks[0];
      var tail := ChunkedBytes(chunks[1..], trailers) + rest;
      assert ChunkedBytes(chunks, trailers) + rest == ChunkBytes(c) + tail;
      ConcatMembers(chunks);
      if c == "" {
        EmptyChunk(chunks, trailers, limits, decoded, bytes, count);
        assert ChunkBytes("") + tail == tail;
        ParsePrintedChunks(chunks[1..], trailers, rest, limits, decoded, bytes, count, fate);
      } else {
        ParsePrintedChunk(c, tail, limits, decoded, bytes, count, fate);
        if |Print(|c|, 16)| <= limits.maxStartLine && decoded + |c| <= limits.maxBody {
          ParsePrintedChunks(chunks[1..], trailers, rest, limits, decoded + |c|, bytes, count, fate);
        }
      }
    }
  }

  lemma EmptyChunk(chunks: seq<string>, trailers: seq<Header>, limits: Limits, decoded: nat, bytes: nat, count: nat)
    requires chunks != [] && chunks[0] == ""
    ensures ChunkBytes("") == "" && ChunkedBytes(chunks, trailers) == ChunkedBytes(chunks[1..], trailers)
    ensures Concat(chunks) == Concat(chunks[1..])
    ensures ChunksFit(chunks, trailers, limits, decoded, bytes, count) ==
            ChunksFit(chunks[1..], trailers, limits, decoded, bytes, count)
  {
    ConcatMembers(chunks);
    assert |Print(0, 16)| == 1;
  }

  /** A body whose transfer was planned: the framing its fields announce, for either kind of message. */
  predicate Frames(body: string, trailers: seq<Header>, chunked: bool, info: BodyInfo) {
    if chunked then info == BodyInfo(Chunked, 0)
    else trailers == [] && |body| <= USIZE_MAX
         && (info == BodyInfo(ContentLength, |body|) || (body == "" && info == BodyInfo(NoBody, 0)))
  }

  predicate BodyFits(body: string, trailers: seq<Header>, chunked: bool, limits: Limits, bytes: nat, count: nat) {
    if chunked then ChunksFit([body], trailers, limits, 0, bytes, count) else |body| <= limits.maxBody
  }

  lemma ParsePrintedBody(body: string, trailers: seq<Header>, chunked: bool, info: BodyInfo, rest: string,
                         limits: Limits, bytes: nat, count: nat, fate: Fate)
    requires Frames(body, trailers, chunked, info) && |body| <= USIZE_MAX
    requires ValidFields(trailers) && ValidTrailers(trailers) && count <= limits.maxHeaderCount
    ensures BodyFits(body, trailers, chunked, limits, bytes, count) ==>
              ParseBody(BodyBytes(body, trailers, chunked, true) + rest, info, limits, bytes, count, fate) ==
              Done(Body(body, Delivered(trailers)), |BodyBytes(body, trailers, chunked, true)|)
    ensures !BodyFits(body, trailers, chunked, limits, bytes, count) ==>
              OverLimit(ParseBody(BodyBytes(body, trailers, chunked, true) + rest, info, limits, bytes, count, fate))
  {
    hide ParseChunks, ChunksFit, ChunkedBytes;
    if chunked {
      assert Concat([body]) == body + "" == body;
      ParsePrintedChunks([body], trailers, rest, limits, 0, bytes, count, fate);
    } else {
      assert (body + rest)[..|body|] == body;
    }
  }

  lemma PlanBodyFrames(fields: seq<Header>, body: string, trailers: seq<Header>, always: bool, closeDelimited: bool)
    requires PlanBody(fields, body, trailers, always).Ok? && |body| <= USIZE_MAX && ValidFields(fields)
    requires closeDelimited ==> always
    ensures var plan := PlanBody(fields, body, trailers, always).value;
            && plan.send && ValidFields(plan.fields)
            && Framing(Delivered(plan.fields), closeDelimited).Ok?
            && Frames(body, trailers, plan.chunked, Framing(Delivered(plan.fields), closeDelimited).value)
  {
    hide DeclaredLength, DeclaredChunked, Contains;
    var plan := PlanBody(fields, body, trailers, always).value;
    FramingDelivered(plan.fields, closeDelimited);
    if Framing(fields, false).value.kind == NoBody {
      FramingAfterSet(fields, |body|, closeDelimited);
      LengthHeaderValid(|body|);
    }
  }

  /** Adding a length changes no other field the reader looks at. */
  lemma PlanBodyKeeps(fields: seq<Header>, body: string, trailers: seq<Header>, always: bool, name: string)
    requires PlanBody(fields, body, trailers, always).Ok? && !EqualsIgnoreCase(CONTENT_LENGTH, name)
    ensures var plan := PlanBody(fields, body, trailers, always).value;
            GetAll(plan.fields, name) == GetAll(fields, name)
  {
    hide Framing, EqualsIgnoreCase;
    SetThenGetAll(fields, CONTENT_LENGTH, Print(|body|, 10), name);
  }

  // ------------------------------------------------------------------------ requests

  lemma SplitPrintedLine(verb: string, target: string, version: string)
    requires ' ' !in verb && ' ' !in target && ' ' !in version
    ensures SplitRequestLine(verb + " " + target + " " + version) == Some((verb, target, version))
  {
    var line := verb + " " + target + " " + version;
    assert line[..|verb|] == verb;
    IndexOfIs(line, ' ', |verb|);
    var tail := line[|verb| + 1..];
    assert tail == target + " " + version;
    assert tail[..|target|] == target;
    IndexOfIs(tail, ' ', |target|);
    assert tail[|target| + 1..] == version;
  }

  lemma ValidTargetIsLine(s: string)
    requires ValidTarget(s)
    ensures IsLine(s) && ' ' !in s
  {
  }

  lemma VersionIsLine(v: Version)
    ensures IsLine(VersionName(v)) && ' ' !in VersionName(v) && ParseVersion(VersionName(v)) == Ok(v)
  {
    assert "HTTP/1.0"[7] != "HTTP/1.1"[7];
  }

  lemma ParsePrintedRequestLine(head: RequestHead)
    requires ValidRequestLine(head)
    ensures IsLine(RequestLine(head))
    ensures ParseRequestLine(RequestLine(head)) == Ok(head.(fields := []))
  {
    hide ValidName, ValidTarget, VersionName, SplitRequestLine, ParseVersion;
    ValidNameIsLine(head.verb);
    ValidTargetIsLine(head.target);
    VersionIsLine(head.version);
    SplitPrintedLine(head.verb, head.target, VersionName(head.version));
  }

  lemma OneHostDelivered(fields: seq<Header>)
    requires OneHost(fields)
    ensures OneHost(Delivered(fields))
  {
    GetAllDelivered(fields, "Host");
    var hosts := GetAll(fields, "Host");
    TrimIdempotent(hosts[0]);
    TrimMembers(hosts[0]);
  }

  /** What the receiver of a written request sees: trimmed fields, including an added length. */
  function DeliveredRequest(q: Request, plan: Plan): Request {
    Request(q.head.(fields := Delivered(plan.fields)), q.body, Delivered(q.trailers))
  }

  predicate RequestFits(q: Request, plan: Plan, limits: Limits) {
    && |RequestLine(q.head)| <= limits.maxStartLine
    && FieldsFit(plan.fields, limits, 0, 0)
    && BodyFits(q.body, q.trailers, plan.chunked, limits, |FieldLines(plan.fields)| + 2, |plan.fields|)
  }

  /** The invariants every request object has: valid fields, and a body that is in memory. */
  predicate WellFormedRequest(q: Request) {
    ValidFields(q.head.fields) && ValidFields(q.trailers) && |q.body| <= USIZE_MAX
  }

  lemma RequestPlanFrames(q: Request)
    requires WellFormedRequest(q) && PlanRequest(q).Ok?
    ensures var plan := PlanRequest(q).value;
            var seen := q.head.(fields := Delivered(plan.fields));
            && plan.send && ValidFields(plan.fields)
            && RequestFraming(seen).Ok? && Frames(q.body, q.trailers, plan.chunked, RequestFraming(seen).value)
  {
    hide PlanBody, Framing, Frames, ValidRequestLine, EqualsIgnoreCase;
    var plan := PlanRequest(q).value;
    PlanBodyFrames(q.head.fields, q.body, q.trailers, false, false);
    assert !EqualsIgnoreCase(CONTENT_LENGTH, "Host") && !EqualsIgnoreCase(CONTENT_LENGTH, TRANSFER_ENCODING) by {
      NamesDiffer();
    }
    PlanBodyKeeps(q.head.fields, q.body, q.trailers, false, "Host");
    PlanBodyKeeps(q.head.fields, q.body, q.trailers, false, TRANSFER_ENCODING);
    if q.head.version == Http11 {
      OneHostDelivered(plan.fields);
    } else {
      ContainsIffGetAll(plan.fields, TRANSFER_ENCODING);
      ContainsIffGetAll(q.head.fields, TRANSFER_ENCODING);
      ContainsDelivered(plan.fields, TRANSFER_ENCODING);
    }
  }

  lemma NamesDiffer()
    ensures EqualsIgnoreCase(CONTENT_LENGTH, CONTENT_LENGTH)
    ensures !EqualsIgnoreCase(CONTENT_LENGTH, "Host") && !EqualsIgnoreCase(CONTENT_LENGTH, TRANSFER_ENCODING)
  {
  }

  /** The two parts of a printed head: its start line and, after it, its field block. */
  lemma ParsePrintedHead(start: string, fields: seq<Header>, rest: string, limits: Limits, fate: Fate)
    requires IsLine(start) && ValidFields(fields)
    ensures var input := HeadBytes(start, fields) + rest;
            && ParseLine(input, limits.maxStartLine, fate) ==
               (if |start| <= limits.maxStartLine then Done(start, |start| + 2) else Fail(HeaderLimitExceeded))
            && |HeadBytes(start, fields)| == |start| + 2 + |FieldLines(fields)| + 2
            && input[|HeadBytes(start, fields)|..] == rest
            && ParseFields(input[|start| + 2..], limits, 0, 0, fate) ==
               (if FieldsFit(fields, limits, 0, 0)
                then Done(Block(Delivered(fields), |FieldLines(fields)| + 2, |fields|), |FieldLines(fields)| + 2)
                else Fail(HeaderLimitExceeded))
  {
    hide ParseLine, ParseFields, FieldLines;
    var tail := FieldLines(fields) + CRLF + rest;
    assert HeadBytes(start, fields) + rest == start + CRLF + tail;
    ParsePrintedLine(start, tail, limits.maxStartLine, fate);
    ParsePrintedFields(fields, rest, limits, 0, 0, fate);
  }

  lemma ParsePrintedRequestHead(q: Request, rest: string, limits: Limits, fate: Fate)
    requires WellFormedRequest(q) && PlanRequest(q).Ok?
    ensures var plan := PlanRequest(q).value;
            var seen := q.head.(fields := Delivered(plan.fields));
            var bytes := HeadBytes(RequestLine(q.head), plan.fields);
            && RequestFraming(seen).Ok?
            && ParseRequestHead(bytes + rest, limits, fate) ==
               (if |RequestLine(q.head)| <= limits.maxStartLine && FieldsFit(plan.fields, limits, 0, 0)
                then Done(Opened(seen, RequestFraming(seen).value, |FieldLines(plan.fields)| + 2, |plan.fields|), |bytes|)
                else Fail(HeaderLimitExceeded))
  {
    hide ParseLine, ParseFields, ParseRequestLine, PlanBody, RequestFraming, RequestLine, FieldLines, HeadBytes;
    var plan := PlanRequest(q).value;
    RequestPlanFrames(q);
    ParsePrintedRequestLine(q.head);
    ParsePrintedHead(RequestLine(q.head), plan.fields, rest, limits, fate);
  }

  /**
    Every accepted request is read back from exactly its own bytes, whatever follows
    them, if and only if it fits the reader's limits.
   */
  lemma RequestRoundTrip(q: Request, rest: string, limits: Limits, fate: Fate)
    requires WellFormedRequest(q) && PlanRequest(q).Ok?
    ensures var plan := PlanRequest(q).value;
            var parsed := ParseRequest(RequestBytes(q, plan) + rest, limits, fate);
            && (RequestFits(q, plan, limits) ==>
                  parsed == Done(Some(DeliveredRequest(q, plan)), |RequestBytes(q, plan)|))
            && (!RequestFits(q, plan, limits) ==> OverLimit(parsed))
  {
    hide ParseRequestHead, ParseBody, FieldsFit, BodyFits, BodyBytes, Frames, PlanBody, ValidRequestLine;
    var plan := PlanRequest(q).value;
    var head := HeadBytes(RequestLine(q.head), plan.fields);
    var body := BodyBytes(q.body, q.trailers, plan.chunked, true);
    RequestPlanFrames(q);
    assert RequestBytes(q, plan) + rest == head + (body + rest);
    ParsePrintedRequestHead(q, body + rest, limits, fate);
    var seen := q.head.(fields := Delivered(plan.fields));
    var info := RequestFraming(seen).value;
    assert (head + (body + rest))[|head|..] == body + rest;
    FittingCount(plan.fields, limits);
    if |plan.fields| <= limits.maxHeaderCount {
      ParsePrintedBody(q.body, q.trailers, plan.chunked, info, rest, limits, |FieldLines(plan.fields)| + 2, |plan.fields|, fate);
    }
  }

  lemma FittingCount(fields: seq<Header>, limits: Limits)
    ensures FieldsFit(fields, limits, 0, 0) ==> |fields| <= limits.maxHeaderCount
  {
  }

  // ----------------------------------------------------------------------- responses

  lemma PrintedStatus(n: nat)
    requires 100 <= n <= 999
    ensures var s := Print(n, 10);
            && |s| == 3 && AllDigits(s, 10)
            && DigitOf(s[0], 10) * 100 + DigitOf(s[1], 10) * 10 + DigitOf(s[2], 10) == n
  {
    assert Print(n / 100, 10) == [DigitChar(n / 100)];
    assert (n / 10) / 10 == n / 100;
    assert Print(n / 10, 10) == Print(n / 100, 10) + [DigitChar(n / 10 % 10)];
    assert Print(n, 10) == Print(n / 10, 10) + [DigitChar(n % 10)];
  }

  lemma ReasonsValid0()
    ensures ValidValue("Continue")
    ensures ValidValue("Switching Protocols")
    ensures ValidValue("OK")
    ensures ValidValue("Created")
    ensures ValidValue("Accepted")
  {
  }

  lemma ReasonsValid1()
    ensures ValidValue("No Content")
    ensures ValidValue("Partial Content")
    ensures ValidValue("Multiple Choices")
    ensures ValidValue("Moved Permanently")
    ensures ValidValue("Found")
  {
  }

  lemma ReasonsValid2()
    ensures ValidValue("See Other")
    ensures ValidValue("Not Modified")
    ensures ValidValue("Temporary Redirect")
    ensures ValidValue("Permanent Redirect")
    ensures ValidValue("Bad Request")
  {
  }

  lemma ReasonsValid3()
    ensures ValidValue("Unauthorized")
    ensures ValidValue("Forbidden")
    ensures ValidValue("Not Found")
    ensures ValidValue("Method Not Allowed")
    ensures ValidValue("Request Timeout")
  {
  }

  lemma ReasonsValid4()
    ensures ValidValue("Conflict")
    ensures ValidValue("Length Required")
    ensures ValidValue("Content Too Large")
    ensures ValidValue("URI Too Long")
    ensures ValidValue("Unsupported Media Type")
  {
  }

  lemma ReasonsValid5()
    ensures ValidValue("Unprocessable Content")
    ensures ValidValue("Upgrade Required")
    ensures ValidValue("Too Many Requests")
    ensures ValidValue("Request Header Fields Too Large")
    ensures ValidValue("Internal Server Error")
  {
  }

  lemma ReasonsValid6()
    ensures ValidValue("Not Implemented")
    ensures ValidValue("Bad Gateway")
    ensures ValidValue("Service Unavailable")
    ensures ValidValue("Gateway Timeout")
    ensures ValidValue("HTTP Version Not Supported")
  {
  }

  lemma DefaultReasonValid(status: nat)
    ensures ValidValue(DefaultReason(status))
  {
    hide ValidValue;
    ReasonsValid0();
    ReasonsValid1();
    ReasonsValid2();
    ReasonsValid3();
    ReasonsValid4();
    ReasonsValid5();
    ReasonsValid6();
    assert ValidValue("") by { EmptyIsValid(); }
  }

  lemma EmptyIsValid()
    ensures ValidValue("")
  {
  }

  lemma StatusLineIsLine(head: ResponseHead)
    requires 100 <= head.status <= 999 && ValidValue(head.reason)
    ensures IsLine(StatusLine(head))
  {
    hide DefaultReason, Print, VersionName;
    PrintedStatus(head.status);
    DefaultReasonValid(head.status);
    VersionIsLine(head.version);
    ValidValueIsLine(Reason(head));
    var code := Print(head.status, 10);
    assert forall i :: 0 <= i < 3 ==> DigitOf(code[i], 10) >= 0;
  }

  lemma ParsePrintedStatusLine(head: ResponseHead)
    requires 100 <= head.status <= 999 && ValidValue(head.reason)
    ensures ParseStatusLine(StatusLine(head)) == Ok(head.(reason := Reason(head), fields := []))
  {
    hide DefaultReason, Reason, Print, ParseVersion, VersionName, IndexOf, AllDigits, DigitOf, ValidValue;
    var version, code, reason := VersionName(head.version), Print(head.status, 10), Reason(head);
    PrintedStatus(head.status);
    ReasonValid(head);
    VersionIsLine(head.version);
    StatusLineParts(version, code, reason);
  }

  lemma ReasonValid(head: ResponseHead)
    requires ValidValue(head.reason)
    ensures ValidValue(Reason(head))
  {
    hide DefaultReason, ValidValue;
    DefaultReasonValid(head.status);
  }

  /** Where the parts of a status line are found again. */
  lemma StatusLineParts(version: string, code: string, reason: string)
    requires ' ' !in version && |code| == 3
    ensures var line := version + " " + code + (if reason == "" then "" else " " + reason);
            && IndexOf(line, ' ') == |version| && line[..|version|] == version
            && |line| == |version| + 4 + (if reason == "" then 0 else 1 + |reason|)
            && line[|version| + 1..|version| + 4] == code
            && (reason != "" ==> line[|version| + 4] == ' ' && line[|version| + 5..] == reason)
  {
    hide IndexOf;
    var line := version + " " + code + (if reason == "" then "" else " " + reason);
    assert line[..|version|] == version;
    IndexOfIs(line, ' ', |version|);
  }

  /** What the receiver of a written response sees: no body when the exchange rules one out. */
  function DeliveredResponse(p: Response, plan: Plan): Response {
    Response(p.head.(reason := Reason(p.head), fields := Delivered(plan.fields)),
             if plan.send then p.body else "", Delivered(p.trailers))
  }

  predicate ResponseFits(p: Response, plan: Plan, limits: Limits) {
    && |StatusLine(p.head)| <= limits.maxStartLine
    && FieldsFit(plan.fields, limits, 0, 0)
    && (plan.send ==>
          BodyFits(p.body, p.trailers, plan.chunked, limits, |FieldLines(plan.fields)| + 2, |plan.fields|))
  }

  predicate WellFormedResponse(p: Response) {
    ValidFields(p.head.fields) && ValidFields(p.trailers) && |p.body| <= USIZE_MAX
  }

  /** The answer to HEAD gets a length field even when its status forbids one. */
  predicate LengthOnForbiddenStatus(p: Response, verb: string) {
    verb == "HEAD" && ForbidsFraming(p.head.status)
  }

  function SeenHead(p: Response, plan: Plan): ResponseHead {
    p.head.(reason := Reason(p.head), fields := Delivered(plan.fields))
  }

  /** A response that is sent without a body: refused by the reader exactly in the exceptional case. */
  lemma BodilessPlanFrames(p: Response, verb: string)
    requires WellFormedResponse(p) && PlanResponse(p, verb).Ok? && Bodiless(p.head.status, verb)
    ensures var plan := PlanResponse(p, verb).value;
            && !plan.send && !plan.chunked && ValidFields(plan.fields) && p.trailers == []
            && ResponseFraming(SeenHead(p, plan), verb) ==
               if LengthOnForbiddenStatus(p, verb) then Err(InvalidMessage) else Ok(BodyInfo(NoBody, 0))
  {
    hide PlanBody, Framing, EqualsIgnoreCase, Contains, Reason;
    var fields := p.head.fields;
    var plan := PlanResponse(p, verb).value;
    ContainsDelivered(plan.fields, CONTENT_LENGTH);
    ContainsDelivered(plan.fields, TRANSFER_ENCODING);
    if verb == "HEAD" && !Contains(fields, CONTENT_LENGTH) && !Contains(fields, TRANSFER_ENCODING) {
      WithLengthContains(fields, |p.body|);
    }
  }

  lemma WithLengthContains(fields: seq<Header>, n: nat)
    ensures Contains(WithLength(fields, n), CONTENT_LENGTH)
    ensures Contains(WithLength(fields, n), TRANSFER_ENCODING) == Contains(fields, TRANSFER_ENCODING)
    ensures ValidFields(fields) ==> ValidFields(WithLength(fields, n))
  {
    hide EqualsIgnoreCase;
    NamesDiffer();
    ContainsIffGetAll(WithLength(fields, n), CONTENT_LENGTH);
    ContainsIffGetAll(WithLength(fields, n), TRANSFER_ENCODING);
    ContainsIffGetAll(fields, TRANSFER_ENCODING);
    SetThenGetAll(fields, CONTENT_LENGTH, Print(n, 10), CONTENT_LENGTH);
    SetThenGetAll(fields, CONTENT_LENGTH, Print(n, 10), TRANSFER_ENCODING);
    LengthHeaderValid(n);
    WithoutMembers(fields, CONTENT_LENGTH);
  }

  lemma {:induction false} WithoutMembers(fields: seq<Header>, name: string)
    ensures forall h :: h in Without(fields, name) ==> h in fields
  {
    if fields != [] {
      WithoutMembers(fields[1..], name);
    }
  }

  /** A response that is sent with its body: accepted with the framing the writer planned. */
  lemma SentPlanFrames(p: Response, verb: string)
    requires WellFormedResponse(p) && PlanResponse(p, verb).Ok? && !Bodiless(p.head.status, verb)
    ensures var plan := PlanResponse(p, verb).value;
            var framing := ResponseFraming(SeenHead(p, plan), verb);
            && plan.send && ValidFields(plan.fields)
            && framing.Ok? && Frames(p.body, p.trailers, plan.chunked, framing.value)
  {
    hide PlanBody, Framing, Frames, EqualsIgnoreCase, Contains, Reason;
    var fields := p.head.fields;
    var plan := PlanResponse(p, verb).value;
    PlanBodyFrames(fields, p.body, p.trailers, true, true);
    NamesDiffer();
    PlanBodyKeeps(fields, p.body, p.trailers, true, TRANSFER_ENCODING);
    ContainsIffGetAll(plan.fields, TRANSFER_ENCODING);
    ContainsIffGetAll(fields, TRANSFER_ENCODING);
    ContainsDelivered(plan.fields, TRANSFER_ENCODING);
  }

  lemma ParsePrintedResponseHead(p: Response, verb: string, rest: string, limits: Limits, fate: Fate)
    requires WellFormedResponse(p) && PlanResponse(p, verb).Ok? && ValidFields(PlanResponse(p, verb).value.fields)
    ensures var plan := PlanResponse(p, verb).value;
            var framing := ResponseFraming(SeenHead(p, plan), verb);
            var bytes := HeadBytes(StatusLine(p.head), plan.fields);
            ParseResponseHead(bytes + rest, verb, limits, fate) ==
            if |StatusLine(p.head)| > limits.maxStartLine || !FieldsFit(plan.fields, limits, 0, 0)
            then Fail(HeaderLimitExceeded)
            else match framing
                 case Err(k) => Fail(k)
                 case Ok(info) =>
                   Done(Opened(SeenHead(p, plan), info, |FieldLines(plan.fields)| + 2, |plan.fields|), |bytes|)
  {
    hide ParseLine, ParseFields, ParseStatusLine, PlanBody, ResponseFraming, StatusLine, FieldLines, HeadBytes, Reason;
    var plan := PlanResponse(p, verb).value;
    ParsePrintedStatusLine(p.head);
    StatusLineIsLine(p.head);
    ParsePrintedHead(StatusLine(p.head), plan.fields, rest, limits, fate);
  }

  /**
    Every accepted response is read back from exactly its own bytes by a reader that knows
    the request method, if and only if it fits the limits and is not a HEAD answer whose
    status forbids the length field that the writer adds.
   */
  lemma ResponseRoundTrip(p: Response, verb: string, rest: string, limits: Limits, fate: Fate)
    requires WellFormedResponse(p) && PlanResponse(p, verb).Ok?
    ensures var plan := PlanResponse(p, verb).value;
            var parsed := ParseResponse(ResponseBytes(p, plan) + rest, verb, limits, fate);
            if !ResponseFits(p, plan, limits) then OverLimit(parsed)
            else if LengthOnForbiddenStatus(p, verb) then parsed == Fail(InvalidMessage)
            else parsed == Done(Some(DeliveredResponse(p, plan)), |ResponseBytes(p, plan)|)
  {
    hide ParseResponseHead, ParseBody, FieldsFit, BodyFits, BodyBytes, Frames, PlanBody, ResponseFraming, Reason, StatusLine;
    var plan := PlanResponse(p, verb).value;
    if Bodiless(p.head.status, verb) {
      BodilessPlanFrames(p, verb);
      NoBodyBytes(p.body, p.trailers, plan.chunked, rest, limits, |FieldLines(plan.fields)| + 2, |plan.fields|, fate);
    } else {
      SentPlanFrames(p, verb);
    }
    var head := HeadBytes(StatusLine(p.head), plan.fields);
    var body := BodyBytes(p.body, p.trailers, plan.chunked, plan.send);
    assert ResponseBytes(p, plan) + rest == head + (body + rest);
    assert (head + (body + rest))[|head|..] == body + rest;
    ParsePrintedResponseHead(p, verb, body + rest, limits, fate);
    FittingCount(plan.fields, limits);
    if plan.send && |plan.fields| <= limits.maxHeaderCount {
      var info := ResponseFraming(SeenHead(p, plan), verb).value;
      ParsePrintedBody(p.body, p.trailers, plan.chunked, info, rest, limits, |FieldLines(plan.fields)| + 2, |plan.fields|, fate);
    }
  }

  lemma NoBodyBytes(body: string, trailers: seq<Header>, chunked: bool, rest: string, limits: Limits, bytes: nat, count: nat, fate: Fate)
    ensures BodyBytes(body, trailers, chunked, false) == ""
    ensures ParseBody(rest, BodyInfo(NoBody, 0), limits, bytes, count, fate) == Done(Body("", []), 0)
  {
  }

  /** A bare 204 answer to HEAD: the writer accepts it and the reader refuses the bytes. */
  lemma NoContentAnswerToHeadIsLost()
    ensures var p := Response(ResponseHead(Http11, 204, "No Content", []), "", []);
            var limits := Limits(8192, 65536, 100, 8388608);
            && WellFormedResponse(p) && PlanResponse(p, "HEAD").Ok?
            && ParseResponse(ResponseBytes(p, PlanResponse(p, "HEAD").value), "HEAD", limits, Eof) == Fail(InvalidMessage)
  {
    hide ParseResponse, FieldsFit, StatusLine, FieldLines;
    var p := Response(ResponseHead(Http11, 204, "No Content", []), "", []);
    var limits := Limits(8192, 65536, 100, 8388608);
    assert PlanResponse(p, "HEAD") == Ok(Plan(WithLength([], 0), false, false)) by {
      ReasonsValid0();
    }
    var plan := PlanResponse(p, "HEAD").value;
    assert WithLength([], 0) == [Header(CONTENT_LENGTH, "0")];
    SmallResponseFits(p, plan, limits);
    ResponseRoundTrip(p, "HEAD", "", limits, Eof);
    assert ResponseBytes(p, plan) + "" == ResponseBytes(p, plan);
  }

  lemma SmallResponseFits(p: Response, plan: Plan, limits: Limits)
    requires p == Response(ResponseHead(Http11, 204, "No Content", []), "", [])
    requires plan == Plan([Header(CONTENT_LENGTH, "0")], false, false)
    requires limits == Limits(8192, 65536, 100, 8388608)
    ensures ResponseFits(p, plan, limits)
  {
    PrintedStatus(204);
    var h := Header(CONTENT_LENGTH, "0");
    assert |FieldLines([h])| == |FieldLine(h)| + 2 + |FieldLines([])|;
  }

  // --------------------------------------------------------------- chunk-by-chunk bodies

  lemma ChunkedHeaderValid()
    ensures ValidHeader(CHUNKED_HEADER)
  {
  }

  lemma ChunkedHeaderIsTransferEncoding()
    ensures GetAll([CHUNKED_HEADER], TRANSFER_ENCODING) == ["chunked"]
    ensures GetAll([CHUNKED_HEADER], CONTENT_LENGTH) == [] && GetAll([CHUNKED_HEADER], "Host") == []
  {
    assert [CHUNKED_HEADER][1..] == [];
    assert EqualsIgnoreCase(TRANSFER_ENCODING, TRANSFER_ENCODING);
    assert !EqualsIgnoreCase(TRANSFER_ENCODING, CONTENT_LENGTH) && !EqualsIgnoreCase(TRANSFER_ENCODING, "Host");
  }

  lemma ChunkedDeclared()
    ensures DeclaredChunked(["chunked"]) == Ok(true)
  {
    IndexOfIs("chunked", ',', 7);
    assert Trim("chunked") == "chunked";
    assert Tokens("chunked") == ["chunked"];
  }

  lemma PlanChunkedFrames(fields: seq<Header>, closeDelimited: bool)
    requires ValidFields(fields) && PlanChunked(fields).Ok?
    ensures var planned := PlanChunked(fields).value;
            && ValidFields(planned) && GetAll(planned, "Host") == GetAll(fields, "Host")
            && Framing(Delivered(planned), closeDelimited) == Ok(BodyInfo(Chunked, 0))
  {
    hide DeclaredChunked, Contains, GetAll, ValidHeader;
    var planned := PlanChunked(fields).value;
    ContainsIffGetAll(fields, CONTENT_LENGTH);
    FramingDelivered(planned, closeDelimited);
    ChunkedHeaderValid();
    ChunkedHeaderIsTransferEncoding();
    ChunkedDeclared();
    GetAllConcat(fields, [CHUNKED_HEADER], TRANSFER_ENCODING);
    GetAllConcat(fields, [CHUNKED_HEADER], CONTENT_LENGTH);
    GetAllConcat(fields, [CHUNKED_HEADER], "Host");
    NotDeclaredChunked(GetAll(fields, TRANSFER_ENCODING));
    assert forall name :: GetAll(fields, name) + [] == GetAll(fields, name);
    assert [] + ["chunked"] == ["chunked"];
  }

  lemma NotDeclaredChunked(values: seq<string>)
    ensures DeclaredChunked(values) == Ok(false) ==> values == []
    ensures DeclaredLength([]) == Ok(None)
  {
  }

  lemma StreamedRequestHead(head: RequestHead, rest: string, limits: Limits, fate: Fate)
    requires ValidFields(head.fields) && PlanChunkedRequest(head).Ok?
    ensures var fields := PlanChunkedRequest(head).value;
            var bytes := HeadBytes(RequestLine(head), fields);
            ParseRequestHead(bytes + rest, limits, fate) ==
            if |RequestLine(head)| <= limits.maxStartLine && FieldsFit(fields, limits, 0, 0)
            then Done(Opened(head.(fields := Delivered(fields)), BodyInfo(Chunked, 0), |FieldLines(fields)| + 2, |fields|), |bytes|)
            else Fail(HeaderLimitExceeded)
  {
    hide ParseLine, ParseFields, ParseRequestLine, PlanChunked, RequestLine, FieldLines, HeadBytes, Framing, OneHost, Contains;
    var fields := PlanChunkedRequest(head).value;
    PlanChunkedFrames(head.fields, false);
    SameHost(head.fields, fields);
    ParsePrintedRequestLine(head);
    ParsePrintedHead(RequestLine(head), fields, rest, limits, fate);
  }

  lemma SameHost(a: seq<Header>, b: seq<Header>)
    requires GetAll(a, "Host") == GetAll(b, "Host") && OneHost(a)
    ensures OneHost(Delivered(b))
  {
    OneHostDelivered(b);
  }

  lemma StreamedResponseHead(head: ResponseHead, verb: string, rest: string, limits: Limits, fate: Fate)
    requires ValidFields(head.fields) && PlanChunkedResponse(head, verb).Ok?
    ensures var fields := PlanChunkedResponse(head, verb).value;
            var bytes := HeadBytes(StatusLine(head), fields);
            var seen := head.(reason := Reason(head), fields := Delivered(fields));
            ParseResponseHead(bytes + rest, verb, limits, fate) ==
            if |StatusLine(head)| <= limits.maxStartLine && FieldsFit(fields, limits, 0, 0)
            then Done(Opened(seen, BodyInfo(Chunked, 0), |FieldLines(fields)| + 2, |fields|), |bytes|)
            else Fail(HeaderLimitExceeded)
  {
    hide ParseLine, ParseFields, ParseStatusLine, PlanChunked, StatusLine, FieldLines, HeadBytes, Framing, Contains, Reason;
    var fields := PlanChunkedResponse(head, verb).value;
    PlanChunkedFrames(head.fields, true);
    ParsePrintedStatusLine(head);
    StatusLineIsLine(head);
    ParsePrintedHead(StatusLine(head), fields, rest, limits, fate);
  }
}
