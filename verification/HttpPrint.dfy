/**
  The byte sequences the HTTP/1 writer emits for the messages it accepts.
 */
module HttpPrint {
  import opened Text
  import opened Numerals
  import opened HttpFields
  import opened HttpFraming
  import opened HttpWire

  const CRLF: string := "\r\n"

  function FieldLine(h: Header): string {
    h.name + ": " + h.value
  }

  function FieldLines(fields: seq<Header>): string {
    if fields == [] then "" else FieldLine(fields[0]) + CRLF + FieldLines(fields[1..])
  }

  /** Start line, field lines and the empty line. */
  function HeadBytes(start: string, fields: seq<Header>): string {
    start + CRLF + (FieldLines(fields) + CRLF)
  }

  /** One chunk; empty data prints nothing, since an empty chunk would end the body. */
  function ChunkBytes(data: string): string {
    if data == "" then "" else Print(|data|, 16) + CRLF + (data + CRLF)
  }

  function ChunkedBytes(chunks: seq<string>, trailers: seq<Header>): string {
    if chunks == [] then "0" + CRLF + (FieldLines(trailers) + CRLF)
    else ChunkBytes(chunks[0]) + ChunkedBytes(chunks[1..], trailers)
  }

  function BodyBytes(body: string, trailers: seq<Header>, chunked: bool, send: bool): string {
    if !send then "" else if chunked then ChunkedBytes([body], trailers) else body
  }

  /** What the writer settles before it writes the first byte. */
  datatype Plan = Plan(fields: seq<Header>, chunked: bool, send: bool)

  function WithLength(fields: seq<Header>, n: nat): seq<Header> {
    Without(fields, CONTENT_LENGTH) + [Header(CONTENT_LENGTH, Print(n, 10))]
  }

  /** Fields whose framing agrees with the body; a missing length is added when `always` or the body is nonempty. */
  function PlanBody(fields: seq<Header>, body: string, trailers: seq<Header>, always: bool): Outcome<Plan> {
    match Framing(fields, false)
    case Err(k) => Err(k)
    case Ok(info) =>
      if info.kind == NoBody then
        if trailers != [] then Err(InvalidMessage)
        else Ok(Plan(if always || body != "" then WithLength(fields, |body|) else fields, false, true))
      else if info.kind == ContentLength && (info.contentLength != |body| || trailers != []) then Err(InvalidMessage)
      else Ok(Plan(fields, info.kind == Chunked, true))
  }

  // ------------------------------------------------------------------------ requests

  function RequestLine(head: RequestHead): string {
    head.verb + " " + head.target + " " + VersionName(head.version)
  }

  predicate ValidRequestLine(head: RequestHead) {
    ValidName(head.verb) && ValidTarget(head.target)
  }

  function PlanRequest(q: Request): Outcome<Plan> {
    if !ValidRequestLine(q.head) then Err(InvalidMessage)
    else if q.head.version == Http11 && !OneHost(q.head.fields) then Err(InvalidMessage)
    else if q.head.version == Http10 && Contains(q.head.fields, TRANSFER_ENCODING) then Err(InvalidMessage)
    else if !ValidTrailers(q.trailers) then Err(InvalidMessage)
    else PlanBody(q.head.fields, q.body, q.trailers, false)
  }

  function RequestBytes(q: Request, plan: Plan): string {
    HeadBytes(RequestLine(q.head), plan.fields) + BodyBytes(q.body, q.trailers, plan.chunked, plan.send)
  }

  // ----------------------------------------------------------------------- responses

  /** The customary reason phrase of a status, or the empty string. */
  function DefaultReason(status: nat): string {
    match status
    case 100 => "Continue"
    case 101 => "Switching Protocols"
    case 200 => "OK"
    case 201 => "Created"
    case 202 => "Accepted"
    case 204 => "No Content"
    case 206 => "Partial Content"
    case 300 => "Multiple Choices"
    case 301 => "Moved Permanently"
    case 302 => "Found"
    case 303 => "See Other"
    case 304 => "Not Modified"
    case 307 => "Temporary Redirect"
    case 308 => "Permanent Redirect"
    case 400 => "Bad Request"
    case 401 => "Unauthorized"
    case 403 => "Forbidden"
    case 404 => "Not Found"
    case 405 => "Method Not Allowed"
    case 408 => "Request Timeout"
    case 409 => "Conflict"
    case 411 => "Length Required"
    case 413 => "Content Too Large"
    case 414 => "URI Too Long"
    case 415 => "Unsupported Media Type"
    case 422 => "Unprocessable Content"
    case 426 => "Upgrade Required"
    case 429 => "Too Many Requests"
    case 431 => "Request Header Fields Too Large"
    case 500 => "Internal Server Error"
    case 501 => "Not Implemented"
    case 502 => "Bad Gateway"
    case 503 => "Service Unavailable"
    case 504 => "Gateway Timeout"
    case 505 => "HTTP Version Not Supported"
    case _ => ""
  }

  /** The reason phrase on the wire: the given one, or the customary one for the status. */
  function Reason(head: ResponseHead): string {
    if head.reason == "" then DefaultReason(head.status) else head.reason
  }

  function StatusLine(head: ResponseHead): string {
    VersionName(head.version) + " " + Print(head.status, 10) +
    (if Reason(head) == "" then "" else " " + Reason(head))
  }

  function PlanResponse(p: Response, verb: string): Outcome<Plan> {
    var head := p.head;
    var send := !Bodiless(head.status, verb);
    var framed := Contains(head.fields, CONTENT_LENGTH) || Contains(head.fields, TRANSFER_ENCODING);
    if head.status < 100 || head.status > 999 || !ValidValue(head.reason) then Err(InvalidMessage)
    else if !ValidTrailers(p.trailers) then Err(InvalidMessage)
    else if (ForbidsBody(head.status) || IsTunnel(head.status, verb)) && p.body != "" then Err(InvalidMessage)
    else if head.version == Http10 && Contains(head.fields, TRANSFER_ENCODING) then Err(InvalidMessage)
    else if (ForbidsFraming(head.status) || IsTunnel(head.status, verb)) && framed then Err(InvalidMessage)
    else if !send && p.trailers != [] then Err(InvalidMessage)
    else if send then PlanBody(head.fields, p.body, p.trailers, true)
    else if verb == "HEAD" && !framed then Ok(Plan(WithLength(head.fields, |p.body|), false, false))
    else Ok(Plan(head.fields, false, false))
  }

  function ResponseBytes(p: Response, plan: Plan): string {
    HeadBytes(StatusLine(p.head), plan.fields) + BodyBytes(p.body, p.trailers, plan.chunked, plan.send)
  }

  // --------------------------------------------------------------- chunk-by-chunk bodies

  const CHUNKED_HEADER := Header(TRANSFER_ENCODING, "chunked")

  /** The fields of a message whose body is written chunk by chunk. */
  function PlanChunked(fields: seq<Header>): Outcome<seq<Header>> {
    if Contains(fields, CONTENT_LENGTH) then Err(InvalidMessage)
    else
      match DeclaredChunked(GetAll(fields, TRANSFER_ENCODING))
      case Err(k) => Err(k)
      case Ok(chunked) => Ok(if chunked then fields else fields + [CHUNKED_HEADER])
  }

  function PlanChunkedRequest(head: RequestHead): Outcome<seq<Header>> {
    if !ValidRequestLine(head) then Err(InvalidMessage)
    else if head.version != Http11 then Err(Unsupported)
    else if !OneHost(head.fields) then Err(InvalidMessage)
    else PlanChunked(head.fields)
  }

  function PlanChunkedResponse(head: ResponseHead, verb: string): Outcome<seq<Header>> {
    if head.status < 100 || head.status > 999 || !ValidValue(head.reason) then Err(InvalidMessage)
    else if head.version != Http11 then Err(Unsupported)
    else if Bodiless(head.status, verb) then Err(InvalidMessage)
    else PlanChunked(head.fields)
  }

  lemma LengthHeaderValid(n: nat)
    ensures ValidHeader(Header(CONTENT_LENGTH, Print(n, 10)))
  {
    PrintThenValue(n, 10);
    assert forall i :: 0 <= i < |Print(n, 10)| ==> DigitOf(Print(n, 10)[i], 10) >= 0;
  }
}
