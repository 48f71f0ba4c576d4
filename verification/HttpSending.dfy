/**
  Which messages the HTTP/1 writer accepts and what it sends for them, said on the
  fields of the message and on literal bytes.
 */
module HttpSending {
  import opened Text
  import opened Numerals
  import opened HttpFields
  import opened HttpFraming
  import opened HttpWire
  import opened HttpPrint
  import opened HttpGrammar

  /** The framing fields fit the body; `sent` are the fields that go out and `chunked` how the body does. */
  predicate BodyAgrees(given: seq<Header>, body: string, trailers: seq<Header>, always: bool, sent: seq<Header>, chunked: bool) {
    if chunked then OnlyChunked(given) && !Contains(given, "Content-Length") && sent == given
    else
      && !Contains(given, "Transfer-Encoding") && trailers == []
      && if Contains(given, "Content-Length") then OnlyLength(given, |body|) && sent == given
         else sent == given + (if always || body != "" then [Header("Content-Length", Print(|body|, 10))] else [])
  }

  ghost predicate RequestSendable(q: Request, plan: Plan) {
    && ValidName(q.head.verb) && ValidTarget(q.head.target)
    && (q.head.version == Http11 ==> HasOneHost(q.head.fields))
    && (q.head.version == Http10 ==> !Contains(q.head.fields, "Transfer-Encoding"))
    && TrailersAllowed(q.trailers)
    && plan.send && BodyAgrees(q.head.fields, q.body, q.trailers, false, plan.fields, plan.chunked)
  }

  predicate ResponseSendable(p: Response, verb: string, plan: Plan) {
    var head, s := p.head, p.head.status;
    var tunnel := verb == "CONNECT" && 200 <= s <= 299;
    var informational := 100 <= s <= 199 || s == 204;
    && 100 <= s <= 999 && ValidValue(head.reason) && TrailersAllowed(p.trailers)
    && (head.version == Http10 ==> !Contains(head.fields, "Transfer-Encoding"))
    && (informational || s == 304 || tunnel ==> p.body == "")
    && (informational || tunnel ==> Unframed(head.fields))
    && if informational || s == 304 || tunnel || verb == "HEAD" then
         && p.trailers == [] && !plan.send && !plan.chunked
         && plan.fields == head.fields +
              (if verb == "HEAD" && Unframed(head.fields) then [Header("Content-Length", Print(|p.body|, 10))] else [])
       else
         plan.send && BodyAgrees(head.fields, p.body, p.trailers, true, plan.fields, plan.chunked)
  }

  lemma AddedLength(fields: seq<Header>, n: nat)
    requires !Contains(fields, "Content-Length")
    ensures WithLength(fields, n) == fields + [Header("Content-Length", Print(n, 10))]
  {
    WithoutAbsent(fields, "Content-Length");
  }

  lemma ChunkedIsPresent(fields: seq<Header>)
    ensures OnlyChunked(fields) ==> Contains(fields, "Transfer-Encoding")
  {
    ContainsIffGetAll(fields, "Transfer-Encoding");
  }

  lemma PlanBodyIff(given: seq<Header>, body: string, trailers: seq<Header>, always: bool, plan: Plan)
    ensures PlanBody(given, body, trailers, always) == Ok(plan) <==>
              plan.send && BodyAgrees(given, body, trailers, always, plan.fields, plan.chunked)
  {
    hide Framing, Contains, OnlyLength, OnlyChunked, WithLength;
    FramingIff(given, false);
    if !Contains(given, "Content-Length") {
      AddedLength(given, |body|);
    }
    assert given + [] == given;
    match Framing(given, false) {
      case Err(k) =>
        assert !Announces(given, false, BodyInfo(Chunked, 0)) && !Announces(given, false, BodyInfo(NoBody, 0));
        LengthFits(given, 0, |body|);
        assert |body| <= USIZE_MAX ==> !Announces(given, false, BodyInfo(ContentLength, |body|));
      case Ok(info) =>
        assert Announces(given, false, info);
        LengthFits(given, info.contentLength, |body|);
        LengthFits(given, |body|, info.contentLength);
        ChunkedIsPresent(given);
    }
  }

  lemma LengthFits(given: seq<Header>, m: nat, n: nat)
    ensures OnlyLength(given, n) ==> n <= USIZE_MAX && Contains(given, "Content-Length")
    ensures OnlyLength(given, m) && OnlyLength(given, n) ==> m == n
  {
    hide Tokens, Value, AllDigits, GetAll, Contains;
    var values := GetAll(given, "Content-Length");
    ContainsIffGetAll(given, "Content-Length");
    if OnlyLength(given, n) {
      assert values[0] in values && Declares(values[0], n);
      assert Tokens(values[0])[0] in Tokens(values[0]);
    }
  }

  /** The writer accepts exactly the sendable requests, and this is what it sends. */
  lemma PlanRequestIff(q: Request, plan: Plan)
    ensures PlanRequest(q) == Ok(plan) <==> RequestSendable(q, plan)
  {
    hide PlanBody, BodyAgrees, OneHost, HasOneHost, Contains, ValidName, ValidTarget, ValidTrailers, TrailersAllowed;
    OneHostIff(q.head.fields);
    TrailersIff(q.trailers);
    PlanBodyIff(q.head.fields, q.body, q.trailers, false, plan);
  }

  /** The same for responses, given the method they answer. */
  lemma PlanResponseIff(p: Response, verb: string, plan: Plan)
    ensures PlanResponse(p, verb) == Ok(plan) <==> ResponseSendable(p, verb, plan)
  {
    hide PlanBody, BodyAgrees, Contains, WithLength, ValidValue, ValidTrailers, TrailersAllowed;
    TrailersIff(p.trailers);
    PlanBodyIff(p.head.fields, p.body, p.trailers, true, plan);
    if !Contains(p.head.fields, "Content-Length") {
      AddedLength(p.head.fields, |p.body|);
    }
    assert p.head.fields + [] == p.head.fields;
  }

  /** No field contradicts a body written chunk by chunk; the coding is announced if it is not yet. */
  predicate ChunkedAgrees(given: seq<Header>, sent: seq<Header>) {
    && !Contains(given, "Content-Length")
    && if Contains(given, "Transfer-Encoding") then OnlyChunked(given) && sent == given
       else sent == given + [Header("Transfer-Encoding", "chunked")]
  }

  lemma PlanChunkedIff(given: seq<Header>, sent: seq<Header>)
    ensures PlanChunked(given) == Ok(sent) <==> ChunkedAgrees(given, sent)
  {
    hide Contains, GetAll, DeclaredChunked;
    ContainsIffGetAll(given, "Transfer-Encoding");
    DeclaredChunkedIff(GetAll(given, "Transfer-Encoding"));
    DeclaresNothing([], GetAll(given, "Transfer-Encoding"));
  }

  /** Which heads open a body written chunk by chunk, and the fields that go out with them. */
  lemma PlanStreamIff(q: RequestHead, p: ResponseHead, verb: string, sent: seq<Header>)
    ensures PlanChunkedRequest(q) == Ok(sent) <==>
              && ValidName(q.verb) && ValidTarget(q.target) && q.version == Http11 && HasOneHost(q.fields)
              && ChunkedAgrees(q.fields, sent)
    ensures PlanChunkedResponse(p, verb) == Ok(sent) <==>
              && 200 <= p.status <= 999 && p.status != 204 && p.status != 304 && ValidValue(p.reason) && p.version == Http11
              && verb != "HEAD" && !(verb == "CONNECT" && p.status <= 299)
              && ChunkedAgrees(p.fields, sent)
  {
    hide PlanChunked, ChunkedAgrees, OneHost, HasOneHost, ValidName, ValidTarget, ValidValue;
    OneHostIff(q.fields);
    PlanChunkedIff(q.fields, sent);
    PlanChunkedIff(p.fields, sent);
  }

  // ------------------------------------------------------------------ literal bytes

  /** One line for each field: its name, a colon and a blank, its value. */
  function PlainLines(fields: seq<Header>): (lines: seq<string>)
    ensures |lines| == |fields|
  {
    seq(|fields|, i requires 0 <= i < |fields| => fields[i].name + ": " + fields[i].value)
  }

  lemma {:induction false} FieldLinesText(fields: seq<Header>)
    ensures FieldLines(fields) == LinesText(PlainLines(fields))
  {
    if fields != [] {
      var lines := PlainLines(fields);
      assert lines[1..] == PlainLines(fields[1..]);
      FieldLinesText(fields[1..]);
      assert lines[0] == FieldLine(fields[0]);
    }
  }

  /** What goes out behind the head: nothing, the body itself, or one chunk of it and the trailers. */
  function BodyText(body: string, trailers: seq<Header>, plan: Plan): string {
    if !plan.send then ""
    else if !plan.chunked then body
    else
      (if body == "" then "" else Print(|body|, 16) + "\r\n" + body + "\r\n")
      + "0\r\n" + LinesText(PlainLines(trailers)) + "\r\n"
  }

  lemma BodyBytesAre(body: string, trailers: seq<Header>, plan: Plan)
    ensures BodyBytes(body, trailers, plan.chunked, plan.send) == BodyText(body, trailers, plan)
  {
    hide Print, FieldLines, LinesText;
    FieldLinesText(trailers);
    if plan.send && plan.chunked {
      var tail := "0" + CRLF + (FieldLines(trailers) + CRLF);
      assert [body][1..] == [];
      assert ChunkedBytes([], trailers) == tail;
      assert ChunkedBytes([body], trailers) == ChunkBytes(body) + tail;
      assert tail == "0\r\n" + LinesText(PlainLines(trailers)) + "\r\n";
      assert body != "" ==> ChunkBytes(body) == Print(|body|, 16) + "\r\n" + body + "\r\n";
    }
  }

  /** The bytes of a request: request line, field lines, empty line, body. */
  lemma RequestBytesAre(q: Request, plan: Plan)
    ensures RequestBytes(q, plan) ==
            q.head.verb + " " + q.head.target + (if q.head.version == Http10 then " HTTP/1.0\r\n" else " HTTP/1.1\r\n")
            + LinesText(PlainLines(plan.fields)) + "\r\n" + BodyText(q.body, q.trailers, plan)
  {
    hide FieldLines, LinesText, BodyBytes, BodyText, PlainLines;
    FieldLinesText(plan.fields);
    BodyBytesAre(q.body, q.trailers, plan);
  }

  /** The bytes of a response; an empty reason becomes the customary one, and without one the blank goes too. */
  lemma ResponseBytesAre(p: Response, plan: Plan)
    ensures ResponseBytes(p, plan) ==
            (if p.head.version == Http10 then "HTTP/1.0 " else "HTTP/1.1 ") + Print(p.head.status, 10)
            + (if p.head.reason != "" then " " + p.head.reason
               else if DefaultReason(p.head.status) != "" then " " + DefaultReason(p.head.status) else "")
            + "\r\n" + LinesText(PlainLines(plan.fields)) + "\r\n" + BodyText(p.body, p.trailers, plan)
  {
    hide FieldLines, LinesText, BodyBytes, BodyText, PlainLines, DefaultReason, Print;
    FieldLinesText(plan.fields);
    BodyBytesAre(p.body, p.trailers, plan);
  }
}
