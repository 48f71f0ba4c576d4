/**
  The HTTP/1 writer over an append-only byte sink, and the chunk-by-chunk body
  writer it lends out.
 */
module HttpWriter {
  import opened Text
  import opened Numerals
  import opened HttpFields
  import opened HttpFraming
  import opened HttpWire
  import opened HttpPrint

  /** Where the bytes go: a growing sequence that may fail after so many bytes. */
  class ByteSink {
    var out: string
    /** How many bytes are taken before every write fails; `None` when none does. */
    const limit: Option<nat>

    constructor (limit: Option<nat>)
      ensures out == "" && this.limit == limit && Valid()
    {
      out := "";
      this.limit := limit;
    }

    ghost predicate Valid()
      reads this
    {
      Room(|out|)
    }

    predicate Room(n: nat) {
      limit.Some? ==> n <= limit.value
    }

    /** What the sink holds after all of `s` was sent to it. */
    function Taken(s: string): string {
      if Room(|s|) then s else s[..limit.value]
    }

    /** `data` was sent after `before`: all of it, or an error and what fitted. */
    ghost predicate Wrote(before: string, data: string, r: Outcome<()>)
      reads this
    {
      && r == (if Room(|before + data|) then Ok(()) else Err(Io))
      && out == Taken(before + data)
    }

    method WriteAll(data: string) returns (r: Outcome<()>)
      requires Valid()
      modifies this
      ensures Valid() && Wrote(old(out), data, r)
    {
      var all := out + data;
      out := Taken(all);
      r := if Room(|all|) then Ok(()) else Err(Io);
    }

    /** After an error, what would have followed makes no difference. */
    lemma Cut(before: string, data: string, rest: string, r: Outcome<()>)
      requires Wrote(before, data, r)
      ensures r.Err? ==> Wrote(before, data + rest, r)
    {
      assert before + (data + rest) == (before + data) + rest;
    }

    /** Two writes after each other are one. */
    lemma Joined(before: string, data: string, more: string, r: Outcome<()>)
      requires Wrote(before + data, more, r)
      ensures Wrote(before, data + more, r)
    {
      assert before + (data + more) == (before + data) + more;
    }

    lemma Whole(before: string, data: string, r: Outcome<()>)
      requires Wrote(before, data, r)
      ensures r.Ok? ==> out == before + data
    {
    }

    lemma Nothing(before: string)
      requires Valid() && out == before
      ensures Wrote(before, "", Ok(()))
    {
      assert before + "" == before;
    }
  }

  // --------------------------------------------------------------- deciding the framing

  /** The framing checks and the added length of an outgoing body. */
  method SettleBody(fields: seq<Header>, body: string, trailers: seq<Header>, always: bool) returns (r: Outcome<Plan>)
    requires ValidFields(fields) && |body| <= USIZE_MAX
    ensures r == PlanBody(fields, body, trailers, always)
  {
    hide Framing, Without, ValidHeader;
    var framing := BodyFraming(fields, false);
    if framing.Err? {
      return Err(framing.kind);
    }
    FramingKinds(fields);
    var info := framing.value;
    var headers := new HttpHeaders();
    headers.entries := fields;
    if info.kind == NoBody && (always || body != "") {
      LengthHeaderValid(|body|);
      var _ := headers.Set(CONTENT_LENGTH, Print(|body|, 10));
      info := BodyInfo(ContentLength, |body|);
    }
    if info.kind == ContentLength && info.contentLength != |body| {
      return Err(InvalidMessage);
    }
    if info.kind != Chunked && trailers != [] {
      return Err(InvalidMessage);
    }
    r := Ok(Plan(headers.entries, info.kind == Chunked, true));
  }

  lemma FramingKinds(fields: seq<Header>)
    ensures Framing(fields, false).Ok? ==> Framing(fields, false).value.kind != CloseDelimited
  {
  }

  method SettleRequest(q: Request) returns (r: Outcome<Plan>)
    requires ValidFields(q.head.fields) && |q.body| <= USIZE_MAX
    ensures r == PlanRequest(q)
  {
    hide PlanBody, OneHost, Contains, ValidTrailers, ValidRequestLine;
    if !ValidRequestLine(q.head) {
      return Err(InvalidMessage);
    }
    if q.head.version == Http11 && !OneHost(q.head.fields) {
      return Err(InvalidMessage);
    }
    if q.head.version == Http10 && Contains(q.head.fields, TRANSFER_ENCODING) {
      return Err(InvalidMessage);
    }
    if !ValidTrailers(q.trailers) {
      return Err(InvalidMessage);
    }
    r := SettleBody(q.head.fields, q.body, q.trailers, false);
  }

  method SettleResponse(p: Response, verb: string) returns (r: Outcome<Plan>)
    requires ValidFields(p.head.fields) && |p.body| <= USIZE_MAX
    ensures r == PlanResponse(p, verb)
  {
    hide PlanBody, Contains, ValidTrailers, ValidValue, Without, ValidHeader;
    var head := p.head;
    if head.status < 100 || head.status > 999 || !ValidValue(head.reason) {
      return Err(InvalidMessage);
    }
    if !ValidTrailers(p.trailers) {
      return Err(InvalidMessage);
    }
    var headResponse := verb == "HEAD";
    var tunnel := IsTunnel(head.status, verb);
    if (ForbidsBody(head.status) || tunnel) && p.body != "" {
      return Err(InvalidMessage);
    }
    var send := !ForbidsBody(head.status) && !headResponse && !tunnel;
    if head.version == Http10 && Contains(head.fields, TRANSFER_ENCODING) {
      return Err(InvalidMessage);
    }
    var framed := Contains(head.fields, CONTENT_LENGTH) || Contains(head.fields, TRANSFER_ENCODING);
    if (ForbidsFraming(head.status) || tunnel) && framed {
      return Err(InvalidMessage);
    }
    if !send && p.trailers != [] {
      return Err(InvalidMessage);
    }
    if send {
      r := SettleBody(head.fields, p.body, p.trailers, true);
      return;
    }
    var headers := new HttpHeaders();
    headers.entries := head.fields;
    if headResponse && !framed {
      LengthHeaderValid(|p.body|);
      var _ := headers.Set(CONTENT_LENGTH, Print(|p.body|, 10));
    }
    r := Ok(Plan(headers.entries, false, false));
  }

  // ------------------------------------------------------------------------ the writer

  class Http1Writer {
    const sink: ByteSink
    var chunkedBodyActive: bool

    constructor (sink: ByteSink)
      ensures this.sink == sink && !chunkedBodyActive
    {
      this.sink, chunkedBodyActive := sink, false;
    }

    method WriteHeaders(fields: seq<Header>) returns (r: Outcome<()>)
      requires sink.Valid()
      modifies sink
      ensures sink.Valid() && sink.Wrote(old(sink.out), FieldLines(fields), r)
    {
      hide FieldLine, ByteSink.Wrote, FieldLines;
      ghost var before := sink.out;
      ghost var sent := "";
      assert fields[0..] == fields;
      sink.Nothing(before);
      assert sent + FieldLines(fields) == FieldLines(fields);
      r := Ok(());
      for i := 0 to |fields|
        invariant sink.Valid() && r.Ok? && sink.Wrote(before, sent, r)
        invariant sent + FieldLines(fields[i..]) == FieldLines(fields)
      {
        ghost var rest := FieldLines(fields[i + 1..]);
        FieldLinesStep(fields, i);
        sink.Whole(before, sent, r);
        r := WriteField(before, sent, fields[i]);
        ghost var now := sent + (FieldLine(fields[i]) + CRLF);
        assert now + rest == sent + (FieldLine(fields[i]) + CRLF + rest);
        if r.Err? {
          sink.Cut(before, now, rest, r);
          return;
        }
        sent := now;
      }
      FieldLinesNone(fields);
      assert sent + "" == sent;
    }

    /** One field line after what was sent before. */
    method WriteField(ghost before: string, ghost sent: string, h: Header) returns (r: Outcome<()>)
      requires sink.Valid() && sink.out == before + sent
      modifies sink
      ensures sink.Valid() && sink.Wrote(before, sent + (FieldLine(h) + CRLF), r)
    {
      hide FieldLine, ByteSink.Wrote;
      r := sink.WriteAll(FieldLine(h));
      sink.Joined(before, sent, FieldLine(h), r);
      assert sent + FieldLine(h) + CRLF == sent + (FieldLine(h) + CRLF);
      if r.Err? {
        sink.Cut(before, sent + FieldLine(h), CRLF, r);
        return;
      }
      sink.Whole(before, sent + FieldLine(h), r);
      r := sink.WriteAll(CRLF);
      sink.Joined(before, sent + FieldLine(h), CRLF, r);
    }

    /** Text, then field lines, then an empty line. */
    method WriteBlock(start: string, fields: seq<Header>) returns (r: Outcome<()>)
      requires sink.Valid()
      modifies sink
      ensures sink.Valid() && sink.Wrote(old(sink.out), start + FieldLines(fields) + CRLF, r)
    {
      hide FieldLines, ByteSink.Wrote;
      ghost var before, lines := sink.out, FieldLines(fields);
      assert start + (lines + CRLF) == start + lines + CRLF;
      r := sink.WriteAll(start);
      if r.Err? {
        sink.Cut(before, start, lines + CRLF, r);
        return;
      }
      sink.Whole(before, start, r);
      r := WriteHeaders(fields);
      sink.Joined(before, start, lines, r);
      if r.Err? {
        sink.Cut(before, start + lines, CRLF, r);
        return;
      }
      sink.Whole(before, start + lines, r);
      r := sink.WriteAll(CRLF);
      sink.Joined(before, start + lines, CRLF, r);
    }

    method WriteHead(start: string, fields: seq<Header>) returns (r: Outcome<()>)
      requires sink.Valid()
      modifies sink
      ensures sink.Valid() && sink.Wrote(old(sink.out), HeadBytes(start, fields), r)
    {
      hide FieldLines, ByteSink.Wrote;
      assert HeadBytes(start, fields) == start + CRLF + FieldLines(fields) + CRLF;
      r := WriteBlock(start + CRLF, fields);
    }

    /** One chunk with its size line; nothing for an empty one. */
    method WriteOneChunk(data: string) returns (r: Outcome<()>)
      requires sink.Valid()
      modifies sink
      ensures sink.Valid() && sink.Wrote(old(sink.out), ChunkBytes(data), r)
    {
      hide Print, ByteSink.Wrote;
      ghost var before := sink.out;
      if data == "" {
        sink.Nothing(before);
        return Ok(());
      }
      var size := Print(|data|, 16) + CRLF;
      r := sink.WriteAll(size);
      assert size + (data + CRLF) == ChunkBytes(data) && size + data + CRLF == ChunkBytes(data);
      if r.Err? {
        sink.Cut(before, size, data + CRLF, r);
        return;
      }
      sink.Whole(before, size, r);
      r := sink.WriteAll(data);
      sink.Joined(before, size, data, r);
      if r.Err? {
        sink.Cut(before, size + data, CRLF, r);
        return;
      }
      sink.Whole(before, size + data, r);
      r := sink.WriteAll(CRLF);
      sink.Joined(before, size + data, CRLF, r);
    }

    /** The last chunk and the trailers. */
    method WriteLastChunk(trailers: seq<Header>) returns (r: Outcome<()>)
      requires sink.Valid()
      modifies sink
      ensures sink.Valid() && sink.Wrote(old(sink.out), ChunkedBytes([], trailers), r)
    {
      hide FieldLines, ByteSink.Wrote;
      assert ChunkedBytes([], trailers) == "0" + CRLF + FieldLines(trailers) + CRLF;
      r := WriteBlock("0" + CRLF, trailers);
    }

    method WriteBody(body: string, trailers: seq<Header>, chunked: bool, send: bool) returns (r: Outcome<()>)
      requires sink.Valid()
      modifies sink
      ensures sink.Valid() && sink.Wrote(old(sink.out), BodyBytes(body, trailers, chunked, send), r)
    {
      hide FieldLines, ChunkBytes, ByteSink.Wrote;
      ghost var before := sink.out;
      if !send {
        sink.Nothing(before);
        return Ok(());
      }
      if !chunked {
        r := sink.WriteAll(body);
        return;
      }
      assert [body][1..] == [];
      r := WriteOneChunk(body);
      if r.Err? {
        sink.Cut(before, ChunkBytes(body), ChunkedBytes([], trailers), r);
        return;
      }
      sink.Whole(before, ChunkBytes(body), r);
      r := WriteLastChunk(trailers);
      sink.Joined(before, ChunkBytes(body), ChunkedBytes([], trailers), r);
    }

    method WriteRequest(q: Request) returns (r: Outcome<()>)
      requires ValidFields(q.head.fields) && |q.body| <= USIZE_MAX
      requires sink.Valid()
      modifies sink
      ensures sink.Valid()
      ensures chunkedBodyActive ==> r == Err(InvalidState) && sink.out == old(sink.out)
      ensures !chunkedBodyActive ==>
                match PlanRequest(q)
                case Err(k) => r == Err(k) && sink.out == old(sink.out)
                case Ok(plan) => sink.Wrote(old(sink.out), RequestBytes(q, plan), r)
    {
      hide PlanRequest, HeadBytes, BodyBytes, ByteSink.Wrote;
      if chunkedBodyActive {
        return Err(InvalidState);
      }
      var plan := SettleRequest(q);
      if plan.Err? {
        return Err(plan.kind);
      }
      ghost var before := sink.out;
      ghost var head := HeadBytes(RequestLine(q.head), plan.value.fields);
      ghost var body := BodyBytes(q.body, q.trailers, plan.value.chunked, plan.value.send);
      r := WriteHead(RequestLine(q.head), plan.value.fields);
      if r.Err? {
        sink.Cut(before, head, body, r);
        return;
      }
      sink.Whole(before, head, r);
      r := WriteBody(q.body, q.trailers, plan.value.chunked, plan.value.send);
      sink.Joined(before, head, body, r);
    }

    method WriteResponse(p: Response, verb: string) returns (r: Outcome<()>)
      requires ValidFields(p.head.fields) && |p.body| <= USIZE_MAX
      requires sink.Valid()
      modifies sink
      ensures sink.Valid()
      ensures chunkedBodyActive ==> r == Err(InvalidState) && sink.out == old(sink.out)
      ensures !chunkedBodyActive ==>
                match PlanResponse(p, verb)
                case Err(k) => r == Err(k) && sink.out == old(sink.out)
                case Ok(plan) => sink.Wrote(old(sink.out), ResponseBytes(p, plan), r)
    {
      hide PlanResponse, HeadBytes, BodyBytes, ByteSink.Wrote;
      if chunkedBodyActive {
        return Err(InvalidState);
      }
      var plan := SettleResponse(p, verb);
      if plan.Err? {
        return Err(plan.kind);
      }
      ghost var before := sink.out;
      ghost var head := HeadBytes(StatusLine(p.head), plan.value.fields);
      ghost var body := BodyBytes(p.body, p.trailers, plan.value.chunked, plan.value.send);
      r := WriteHead(StatusLine(p.head), plan.value.fields);
      if r.Err? {
        sink.Cut(before, head, body, r);
        return;
      }
      sink.Whole(before, head, r);
      r := WriteBody(p.body, p.trailers, plan.value.chunked, plan.value.send);
      sink.Joined(before, head, body, r);
    }

    /** Writes the head of a request whose body follows chunk by chunk. */
    method BeginChunkedRequest(head: RequestHead) returns (r: Outcome<ChunkedBodyWriter>)
      requires sink.Valid()
      modifies this, sink
      ensures sink.Valid()
      ensures old(chunkedBodyActive) ==> r == Err(InvalidState) && sink.out == old(sink.out) && chunkedBodyActive
      ensures !old(chunkedBodyActive) ==>
                match PlanChunkedRequest(head)
                case Err(k) => r == Err(k) && sink.out == old(sink.out) && !chunkedBodyActive
                case Ok(fields) =>
                  && sink.Wrote(old(sink.out), HeadBytes(RequestLine(head), fields), if r.Ok? then Ok(()) else Err(r.kind))
                  && chunkedBodyActive == r.Ok?
                  && (r.Ok? ==> fresh(r.value) && r.value.owner == this && !r.value.finished)
    {
      hide ByteSink.Wrote, HeadBytes, DeclaredChunked, ValidRequestLine, OneHost, Contains;
      if chunkedBodyActive {
        return Err(InvalidState);
      }
      if !ValidRequestLine(head) {
        return Err(InvalidMessage);
      }
      if head.version != Http11 {
        return Err(Unsupported);
      }
      if !OneHost(head.fields) {
        return Err(InvalidMessage);
      }
      var fields := SettleChunked(head.fields);
      if fields.Err? {
        return Err(fields.kind);
      }
      var written := WriteHead(RequestLine(head), fields.value);
      if written.Err? {
        return Err(written.kind);
      }
      Succeeded(written);
      chunkedBodyActive := true;
      var body := new ChunkedBodyWriter(this);
      r := Ok(body);
    }

    method BeginChunkedResponse(head: ResponseHead, verb: string) returns (r: Outcome<ChunkedBodyWriter>)
      requires sink.Valid()
      modifies this, sink
      ensures sink.Valid()
      ensures old(chunkedBodyActive) ==> r == Err(InvalidState) && sink.out == old(sink.out) && chunkedBodyActive
      ensures !old(chunkedBodyActive) ==>
                match PlanChunkedResponse(head, verb)
                case Err(k) => r == Err(k) && sink.out == old(sink.out) && !chunkedBodyActive
                case Ok(fields) =>
                  && sink.Wrote(old(sink.out), HeadBytes(StatusLine(head), fields), if r.Ok? then Ok(()) else Err(r.kind))
                  && chunkedBodyActive == r.Ok?
                  && (r.Ok? ==> fresh(r.value) && r.value.owner == this && !r.value.finished)
    {
      hide ByteSink.Wrote, HeadBytes, DeclaredChunked, ValidValue, Contains, StatusLine;
      if chunkedBodyActive {
        return Err(InvalidState);
      }
      if head.status < 100 || head.status > 999 || !ValidValue(head.reason) {
        return Err(InvalidMessage);
      }
      if head.version != Http11 {
        return Err(Unsupported);
      }
      if Bodiless(head.status, verb) {
        return Err(InvalidMessage);
      }
      var fields := SettleChunked(head.fields);
      if fields.Err? {
        return Err(fields.kind);
      }
      var written := WriteHead(StatusLine(head), fields.value);
      if written.Err? {
        return Err(written.kind);
      }
      Succeeded(written);
      chunkedBodyActive := true;
      var body := new ChunkedBodyWriter(this);
      r := Ok(body);
    }
  }

  /** The body writer lent out while a chunked message is open. */
  class ChunkedBodyWriter {
    var owner: Http1Writer?
    var finished: bool

    constructor (owner: Http1Writer)
      ensures this.owner == owner && !finished
    {
      this.owner, finished := owner, false;
    }

    predicate Active()
      reads this, owner
    {
      owner != null && !finished && owner.chunkedBodyActive
    }

    method WriteChunk(data: string) returns (r: Outcome<()>)
      requires owner != null ==> owner.sink.Valid()
      modifies if owner == null then {} else {owner.sink}
      ensures owner != null ==> owner.sink.Valid()
      ensures !old(Active()) ==> r == Err(InvalidState) && (owner != null ==> owner.sink.out == old(owner.sink.out))
      ensures old(Active()) ==> Active() && owner.sink.Wrote(old(owner.sink.out), ChunkBytes(data), r)
    {
      hide ByteSink.Wrote, ChunkBytes;
      if !Active() {
        return Err(InvalidState);
      }
      r := owner.WriteOneChunk(data);
    }

    /**
      Ends the body and returns the writer to service; the lent object is dead afterwards.
      When the sink fails on the way, the body stays open.
     */
    method Finish(trailers: seq<Header>) returns (r: Outcome<()>)
      requires owner != null ==> owner.sink.Valid()
      modifies this, owner, if owner == null then {} else {owner.sink}
      ensures old(owner) != null ==> old(owner).sink.Valid()
      ensures !old(Active()) ==> r == Err(InvalidState) && owner == old(owner) && finished == old(finished)
      ensures !old(Active()) && owner != null ==>
                owner.sink.out == old(owner.sink.out) && owner.chunkedBodyActive == old(owner.chunkedBodyActive)
      ensures old(Active()) && !ValidTrailers(trailers) ==>
                r == Err(InvalidMessage) && Active() && owner == old(owner) && owner.sink.out == old(owner.sink.out)
      ensures old(Active()) && ValidTrailers(trailers) ==>
                && old(owner).sink.Wrote(old(owner.sink.out), ChunkedBytes([], trailers), r)
                && (r.Ok? ==> !Active() && finished && !old(owner).chunkedBodyActive)
                && (r.Err? ==> Active() && owner == old(owner))
    {
      hide FieldLines, ValidTrailers, ByteSink.Wrote;
      if !Active() {
        return Err(InvalidState);
      }
      if !ValidTrailers(trailers) {
        return Err(InvalidMessage);
      }
      r := owner.WriteLastChunk(trailers);
      if r.Err? {
        return;
      }
      owner.chunkedBodyActive := false;
      owner := null;
      finished := true;
    }
  }

  lemma Succeeded(r: Outcome<()>)
    ensures r.Ok? ==> r == Ok(())
  {
    match r
    case Ok(()) =>
    case Err(_) =>
  }

  lemma FieldLinesStep(fields: seq<Header>, i: nat)
    requires i < |fields|
    ensures FieldLines(fields[i..]) == FieldLine(fields[i]) + CRLF + FieldLines(fields[i + 1..])
  {
    hide FieldLine;
    assert fields[i..][0] == fields[i] && fields[i..][1..] == fields[i + 1..];
  }

  lemma FieldLinesNone(fields: seq<Header>)
    ensures FieldLines(fields[|fields|..]) == ""
  {
  }

  method SettleChunked(fields: seq<Header>) returns (r: Outcome<seq<Header>>)
    ensures r == PlanChunked(fields)
  {
    hide Contains, DeclaredChunked;
    if Contains(fields, CONTENT_LENGTH) {
      return Err(InvalidMessage);
    }
    var chunked := ParseChunkedTransferEncoding(GetAll(fields, TRANSFER_ENCODING));
    if chunked.Err? {
      return Err(chunked.kind);
    }
    r := Ok(if chunked.value then fields else fields + [CHUNKED_HEADER]);
  }
}
