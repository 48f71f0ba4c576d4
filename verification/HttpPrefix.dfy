/**
  Messages cut short: no proper beginning of a request, or of a response whose length
  does not depend on the end of the connection, is ever taken for a whole message.
 */
module HttpPrefix {
  import opened Text
  import opened Numerals
  import opened HttpFields
  import opened HttpFraming
  import opened HttpWire
  import opened HttpPrint
  import opened HttpRoundTrip
  import opened HttpGrammar

  // ------------------------------------------------------------------------- lines

  lemma LineCut(input: string, limit: nat, fate: Fate, end: Fate, m: nat)
    requires ParseLine(input, limit, fate).Done? && m < ParseLine(input, limit, fate).used
    ensures ParseLine(input[..m], limit, end) == Fail(Cut(end))
  {
    var n := LineSpan(input);
    LineSpanIs(input[..m], if m < n then m else n);
  }

  lemma LineStays(input: string, limit: nat, fate: Fate, end: Fate, m: nat)
    requires ParseLine(input, limit, fate).Done? && ParseLine(input, limit, fate).used <= m <= |input|
    ensures ParseLine(input[..m], limit, end) == ParseLine(input, limit, fate)
  {
    hide ParseLine, IsLine;
    var p := ParseLine(input, limit, fate);
    LineIff(input, limit, fate, p.value, p.used);
    assert input[..m][..p.used] == input[..p.used];
    LineIff(input[..m], limit, end, p.value, p.used);
  }

  // ------------------------------------------------------------------------ fields

  lemma FieldLineCut(input: string, limits: Limits, bytes: nat, count: nat, fate: Fate, end: Fate, m: nat)
    requires ParseFieldLine(input, limits, bytes, count, fate).Done? && m <= |input|
    ensures ParseFieldLine(input[..m], limits, bytes, count, end) ==
            if m < ParseFieldLine(input, limits, bytes, count, fate).used then Fail(Cut(end))
            else ParseFieldLine(input, limits, bytes, count, fate)
  {
    hide ParseLine, ParseField;
    var limit := limits.maxHeaderBytes - bytes;
    if m < ParseFieldLine(input, limits, bytes, count, fate).used {
      LineCut(input, limit, fate, end, m);
    } else {
      LineStays(input, limit, fate, end, m);
    }
  }

  lemma {:induction false} FieldsCut(input: string, limits: Limits, bytes: nat, count: nat, fate: Fate, end: Fate, m: nat)
    requires ParseFields(input, limits, bytes, count, fate).Done? && m <= |input|
    ensures ParseFields(input[..m], limits, bytes, count, end) ==
            if m < ParseFields(input, limits, bytes, count, fate).used then Fail(Cut(end))
            else ParseFields(input, limits, bytes, count, fate)
    decreases |input|
  {
    hide ParseFields, ParseFieldLine;
    ParseFieldsUnfold(input, limits, bytes, count, fate);
    ParseFieldsUnfold(input[..m], limits, bytes, count, end);
    FieldLineCut(input, limits, bytes, count, fate, end, m);
    var first := ParseFieldLine(input, limits, bytes, count, fate);
    var n := first.used;
    if m >= n && first.value.Some? {
      FieldsCut(input[n..], limits, bytes + n, count + 1, fate, end, m - n);
      assert input[..m][n..] == input[n..][..m - n];
    }
  }

  // ------------------------------------------------------------------------ bodies

  /** What a chunked body needs after its first size line. */
  lemma ChunksUnfold(input: string, limits: Limits, decoded: nat, bytes: nat, count: nat, fate: Fate, line: string, n: nat, size: usize)
    requires decoded <= limits.maxBody
    requires ParseLine(input, limits.maxStartLine, fate) == Done(line, n) && n <= |input| && ChunkSize(line) == Some(size)
    ensures ParseChunks(input, limits, decoded, bytes, count, fate) ==
            if size == 0 then
              match ParseFields(input[n..], limits, bytes, count, fate)
              case Fail(k) => Fail(k)
              case Done(b, m) => if ValidTrailers(b.fields) then Done(Body("", b.fields), n + m) else Fail(InvalidMessage)
            else if size > limits.maxBody - decoded then Fail(BodyLimitExceeded)
            else AddData("", n, ParseChunkData(input[n..], size, limits, decoded, bytes, count, fate))
  {
    hide ParseLine, ParseFields, ChunkSize, ParseChunkData, ValidTrailers;
  }

  lemma ChunksStart(input: string, limits: Limits, decoded: nat, bytes: nat, count: nat, fate: Fate) returns (line: string, n: nat, size: usize)
    requires decoded <= limits.maxBody && ParseChunks(input, limits, decoded, bytes, count, fate).Done?
    ensures ParseLine(input, limits.maxStartLine, fate) == Done(line, n) && n <= |input| && ChunkSize(line) == Some(size)
    ensures 2 <= n <= ParseChunks(input, limits, decoded, bytes, count, fate).used
  {
    hide ParseLine, ParseFields, ChunkSize, ValidTrailers;
    var p := ParseLine(input, limits.maxStartLine, fate);
    line, n := p.value, p.used;
    size := ChunkSize(line).value;
  }

  lemma {:induction false} ChunksCut(input: string, limits: Limits, decoded: nat, bytes: nat, count: nat, fate: Fate, end: Fate, m: nat)
    requires decoded <= limits.maxBody && ParseChunks(input, limits, decoded, bytes, count, fate).Done?
    requires m < ParseChunks(input, limits, decoded, bytes, count, fate).used
    ensures ParseChunks(input[..m], limits, decoded, bytes, count, end) == Fail(Cut(end))
    decreases |input|
  {
    hide ParseLine, ParseFields, ParseChunks, ParseChunkData, ChunkSize, ValidTrailers;
    var line, n, size := ChunksStart(input, limits, decoded, bytes, count, fate);
    ChunksUnfold(input, limits, decoded, bytes, count, fate, line, n, size);
    if m < n {
      LineCut(input, limits.maxStartLine, fate, end, m);
      NoSizeLine(input[..m], limits, decoded, bytes, count, end);
    } else {
      LineStays(input, limits.maxStartLine, fate, end, m);
      assert input[..m][n..] == input[n..][..m - n];
      ChunksUnfold(input[..m], limits, decoded, bytes, count, end, line, n, size);
      if size == 0 {
        FieldsCut(input[n..], limits, bytes, count, fate, end, m - n);
      } else {
        ChunkDataCut(input[n..], size, limits, decoded, bytes, count, fate, end, m - n);
      }
    }
  }

  lemma NoSizeLine(input: string, limits: Limits, decoded: nat, bytes: nat, count: nat, fate: Fate)
    requires decoded <= limits.maxBody && ParseLine(input, limits.maxStartLine, fate) == Fail(Cut(fate))
    ensures ParseChunks(input, limits, decoded, bytes, count, fate) == Fail(Cut(fate))
  {
    hide ParseLine;
  }

  lemma {:induction false} ChunkDataCut(input: string, size: nat, limits: Limits, decoded: nat, bytes: nat, count: nat, fate: Fate, end: Fate, m: nat)
    requires decoded + size <= limits.maxBody && ParseChunkData(input, size, limits, decoded, bytes, count, fate).Done?
    requires m < ParseChunkData(input, size, limits, decoded, bytes, count, fate).used
    ensures ParseChunkData(input[..m], size, limits, decoded, bytes, count, end) == Fail(Cut(end))
    decreases |input|, 1
  {
    hide ParseChunks;
    ChunkDataBack(input, size, limits, decoded, bytes, count, fate);
    if m >= size {
      var ending := input[size..];
      assert input[..m][size..] == ending[..m - size];
      assert ending[..2] == input[size..size + 2];
      if m >= size + 2 {
        assert ending[..m - size][2..] == input[size + 2..][..m - size - 2];
        assert ending[..m - size][..2] == ending[..2];
        ChunksCut(input[size + 2..], limits, decoded + size, bytes, count, fate, end, m - size - 2);
      }
    }
  }

  // ---------------------------------------------------------------- whole messages

  lemma RequestHeadCut(input: string, limits: Limits, fate: Fate, end: Fate, m: nat)
    requires ParseRequestHead(input, limits, fate).Done? && m <= |input|
    ensures ParseRequestHead(input[..m], limits, end) ==
            if m < ParseRequestHead(input, limits, fate).used then Fail(Cut(end)) else ParseRequestHead(input, limits, fate)
  {
    hide ParseLine, ParseFields, ParseRequestLine, RequestFraming;
    var first := ParseLine(input, limits.maxStartLine, fate);
    if m < first.used {
      LineCut(input, limits.maxStartLine, fate, end, m);
    } else {
      LineStays(input, limits.maxStartLine, fate, end, m);
      FieldsCut(input[first.used..], limits, 0, 0, fate, end, m - first.used);
      assert input[..m][first.used..] == input[first.used..][..m - first.used];
    }
  }

  lemma ResponseHeadCut(input: string, verb: string, limits: Limits, fate: Fate, end: Fate, m: nat)
    requires ParseResponseHead(input, verb, limits, fate).Done? && m <= |input|
    ensures ParseResponseHead(input[..m], verb, limits, end) ==
            if m < ParseResponseHead(input, verb, limits, fate).used then Fail(Cut(end)) else ParseResponseHead(input, verb, limits, fate)
  {
    hide ParseLine, ParseFields, ParseStatusLine, ResponseFraming;
    var first := ParseLine(input, limits.maxStartLine, fate);
    if m < first.used {
      LineCut(input, limits.maxStartLine, fate, end, m);
    } else {
      LineStays(input, limits.maxStartLine, fate, end, m);
      FieldsCut(input[first.used..], limits, 0, 0, fate, end, m - first.used);
      assert input[..m][first.used..] == input[first.used..][..m - first.used];
    }
  }

  lemma BodyCut(input: string, info: BodyInfo, limits: Limits, bytes: nat, count: nat, fate: Fate, end: Fate, m: nat)
    requires info.kind != CloseDelimited && ParseBody(input, info, limits, bytes, count, fate).Done?
    requires m < ParseBody(input, info, limits, bytes, count, fate).used
    ensures m <= |input| && ParseBody(input[..m], info, limits, bytes, count, end) == Fail(Cut(end))
  {
    hide ParseChunks;
    if info.kind == Chunked {
      ChunksCut(input, limits, 0, bytes, count, fate, end, m);
    }
  }

  lemma BodyWithin(input: string, info: BodyInfo, limits: Limits, bytes: nat, count: nat, fate: Fate)
    requires ParseBody(input, info, limits, bytes, count, fate).Done?
    ensures ParseBody(input, info, limits, bytes, count, fate).used <= |input|
  {
    hide ParseChunks;
  }

  lemma RequestFramed(input: string, limits: Limits, fate: Fate)
    requires ParseRequestHead(input, limits, fate).Done?
    ensures ParseRequestHead(input, limits, fate).value.info.kind != CloseDelimited
  {
    hide ParseLine, ParseFields, ParseRequestLine, OneHost, Contains, Framing;
    var head := ParseRequestHead(input, limits, fate).value.head;
    FramingIff(head.fields, false);
  }

  /**
    A request cut short after `m` of its bytes is reported as such, or as the clean end of
    the connection when nothing of it was sent.
   */
  lemma RequestCut(input: string, limits: Limits, fate: Fate, end: Fate, m: nat)
    requires ParseRequest(input, limits, fate).Done? && ParseRequest(input, limits, fate).value.Some?
    requires m < ParseRequest(input, limits, fate).used
    ensures m <= |input|
    ensures ParseRequest(input[..m], limits, end) ==
            if m == 0 && end == Eof then Done(None, 0) else Fail(if end == Broken then Io else InvalidMessage)
  {
    hide ParseRequestHead, ParseBody;
    var head := ParseRequestHead(input, limits, fate);
    var k, o := head.used, head.value;
    BodyWithin(input[k..], o.info, limits, o.bytes, o.count, fate);
    RequestHeadCut(input, limits, fate, end, m);
    if m >= k {
      RequestFramed(input, limits, fate);
      BodyCut(input[k..], o.info, limits, o.bytes, o.count, fate, end, m - k);
      assert input[..m][k..] == input[k..][..m - k];
    }
  }

  /** The same for a response, unless its body runs to the end of the connection. */
  lemma ResponseCut(input: string, verb: string, limits: Limits, fate: Fate, end: Fate, m: nat)
    requires ParseResponse(input, verb, limits, fate).Done? && ParseResponse(input, verb, limits, fate).value.Some?
    requires m < ParseResponse(input, verb, limits, fate).used
    requires ParseResponseHead(input, verb, limits, fate).value.info.kind != CloseDelimited
    ensures m <= |input|
    ensures ParseResponse(input[..m], verb, limits, end) ==
            if m == 0 && end == Eof then Done(None, 0) else Fail(if end == Broken then Io else InvalidMessage)
  {
    hide ParseResponseHead, ParseBody;
    var head := ParseResponseHead(input, verb, limits, fate);
    var k, o := head.used, head.value;
    BodyWithin(input[k..], o.info, limits, o.bytes, o.count, fate);
    ResponseHeadCut(input, verb, limits, fate, end, m);
    if m >= k {
      BodyCut(input[k..], o.info, limits, o.bytes, o.count, fate, end, m - k);
      assert input[..m][k..] == input[k..][..m - k];
    }
  }
}
