/**
  HTTP/1 messages and the byte sequences they occupy on a connection: what a
  reader must find in the incoming bytes, independently of how they arrive.
 */
module HttpWire {
  import opened Text
  import opened Numerals
  import opened HttpFields
  import opened HttpFraming

  datatype Version = Http10 | Http11

  datatype Limits = Limits(maxStartLine: usize, maxHeaderBytes: usize, maxHeaderCount: usize, maxBody: usize) {
    predicate Positive() {
      maxStartLine > 0 && maxHeaderBytes > 0 && maxHeaderCount > 0 && maxBody > 0
    }
  }

  datatype RequestHead = RequestHead(verb: string, target: string, version: Version, fields: seq<Header>)

  datatype ResponseHead = ResponseHead(version: Version, status: nat, reason: string, fields: seq<Header>)

  datatype Request = Request(head: RequestHead, body: string, trailers: seq<Header>)

  datatype Response = Response(head: ResponseHead, body: string, trailers: seq<Header>)

  /** How a connection ends once its bytes are used up. */
  datatype Fate = Eof | Broken | Overrun

  /** The error of needing one more byte than the connection has. */
  function Cut(fate: Fate): HttpErrorKind {
    if fate == Broken then Io else InvalidMessage
  }

  /** A parse of a prefix of the input: its value and length, or the error. */
  datatype Parse<+T> = Done(value: T, used: nat) | Fail(kind: HttpErrorKind)

  // -------------------------------------------------------------------------- lines

  predicate IsLineByte(c: char) {
    c != '\r' && c != '\n'
  }

  /** The length of the longest prefix without CR and LF. */
  function LineSpan(s: string): (n: nat)
    ensures n <= |s|
    ensures forall i :: 0 <= i < n ==> IsLineByte(s[i])
    ensures n < |s| ==> !IsLineByte(s[n])
  {
    if s == [] || !IsLineByte(s[0]) then 0 else 1 + LineSpan(s[1..])
  }

  lemma LineSpanIs(s: string, n: nat)
    requires n <= |s|
    requires forall i :: 0 <= i < n ==> IsLineByte(s[i])
    requires n < |s| ==> !IsLineByte(s[n])
    ensures LineSpan(s) == n
  {
  }

  /** A CRLF-terminated line of at most `limit` bytes; bare CR and bare LF are refused. */
  function ParseLine(input: string, limit: nat, fate: Fate): (r: Parse<string>)
    ensures r.Done? ==> r.used == |r.value| + 2 <= |input| && r.value == input[..|r.value|]
  {
    var n := LineSpan(input);
    if n > limit then Fail(HeaderLimitExceeded)
    else if n == |input| then Fail(Cut(fate))
    else if input[n] == '\n' then Fail(InvalidMessage)
    else if n + 1 == |input| then Fail(Cut(fate))
    else if input[n + 1] != '\n' then Fail(InvalidMessage)
    else Done(input[..n], n + 2)
  }

  // ------------------------------------------------------------------ header fields

  function ParseField(line: string): (r: Option<Header>)
    ensures r.Some? ==> ValidHeader(r.value)
  {
    var colon := IndexOf(line, ':');
    if colon == |line| then None
    else
      var h := Header(line[..colon], Trim(line[colon + 1..]));
      if ValidHeader(h) then Some(h) else None
  }

  /** One line of a field block against the remaining budget: a field, or the empty line that ends the block. */
  function ParseFieldLine(input: string, limits: Limits, bytes: nat, count: nat, fate: Fate): (r: Parse<Option<Header>>)
    ensures r.Done? ==> 2 <= r.used <= |input| && bytes + r.used <= limits.maxHeaderBytes
    ensures r.Done? && r.value.Some? ==> ValidHeader(r.value.value) && count < limits.maxHeaderCount
  {
    if bytes >= limits.maxHeaderBytes then Fail(HeaderLimitExceeded)
    else
      match ParseLine(input, limits.maxHeaderBytes - bytes, fate)
      case Fail(k) => Fail(k)
      case Done(line, n) =>
        if n > limits.maxHeaderBytes - bytes then Fail(HeaderLimitExceeded)
        else if line == "" then Done(None, n)
        else if IsOws(line[0]) then Fail(InvalidMessage)
        else if count >= limits.maxHeaderCount then Fail(HeaderLimitExceeded)
        else
          match ParseField(line)
          case None => Fail(InvalidMessage)
          case Some(h) => Done(Some(h), n)
  }

  /** A block of fields together with the header budget used after it. */
  datatype Block = Block(fields: seq<Header>, bytes: nat, count: nat)

  function ParseFields(input: string, limits: Limits, bytes: nat, count: nat, fate: Fate): (r: Parse<Block>)
    ensures r.Done? ==> r.used <= |input| && ValidFields(r.value.fields)
    ensures r.Done? ==> bytes <= r.value.bytes <= limits.maxHeaderBytes
    ensures r.Done? && count <= limits.maxHeaderCount ==> r.value.count <= limits.maxHeaderCount
    decreases |input|
  {
    match ParseFieldLine(input, limits, bytes, count, fate)
    case Fail(k) => Fail(k)
    case Done(None, n) => Done(Block([], bytes + n, count), n)
    case Done(Some(h), n) => AddField([h], n, ParseFields(input[n..], limits, bytes + n, count + 1, fate))
  }

  function AddField(fields: seq<Header>, n: nat, p: Parse<Block>): Parse<Block> {
    match p
    case Fail(k) => Fail(k)
    case Done(b, m) => Done(b.(fields := fields + b.fields), n + m)
  }

  lemma AddFieldTwice(a: seq<Header>, n: nat, b: seq<Header>, m: nat, p: Parse<Block>)
    ensures AddField(a, n, AddField(b, m, p)) == AddField(a + b, n + m, p)
  {
    if p.Done? {
      assert a + (b + p.value.fields) == (a + b) + p.value.fields;
    }
  }

  lemma AddFieldNothing(p: Parse<Block>)
    ensures AddField([], 0, p) == p
  {
    if p.Done? {
      assert [] + p.value.fields == p.value.fields;
    }
  }

  // -------------------------------------------------------------------------- bodies

  datatype Body = Body(data: string, trailers: seq<Header>)

  function AddData(data: string, n: nat, p: Parse<Body>): Parse<Body> {
    match p
    case Fail(k) => Fail(k)
    case Done(b, m) => Done(b.(data := data + b.data), n + m)
  }

  lemma AddDataTwice(a: string, n: nat, b: string, m: nat, p: Parse<Body>)
    ensures AddData(a, n, AddData(b, m, p)) == AddData(a + b, n + m, p)
  {
    if p.Done? {
      assert a + (b + p.value.data) == (a + b) + p.value.data;
    }
  }

  lemma AddDataNothing(p: Parse<Body>)
    ensures AddData("", 0, p) == p
  {
    if p.Done? {
      assert "" + p.value.data == p.value.data;
    }
  }

  /** The size announced by a chunk-size line; extensions after `;` are ignored. */
  function ChunkSize(line: string): Option<usize> {
    var text := line[..IndexOf(line, ';')];
    if ValidValue(line) && IsNumeral(text, 16) then Some(Value(text, 16)) else None
  }

  const FORBIDDEN_TRAILERS: seq<string> := [CONTENT_LENGTH, TRANSFER_ENCODING, "Host", "Trailer"]

  predicate ForbiddenTrailer(name: string) {
    exists i :: 0 <= i < |FORBIDDEN_TRAILERS| && EqualsIgnoreCase(name, FORBIDDEN_TRAILERS[i])
  }

  predicate ValidTrailers(fields: seq<Header>) {
    forall i :: 0 <= i < |fields| ==> !ForbiddenTrailer(fields[i].name)
  }

  /** Everything from a chunk-size line on; `decoded`, `bytes` and `count` are what the message used so far. */
  function ParseChunks(input: string, limits: Limits, decoded: nat, bytes: nat, count: nat, fate: Fate): (r: Parse<Body>)
    requires decoded <= limits.maxBody
    ensures r.Done? ==> r.used <= |input|
    ensures r.Done? ==> decoded + |r.value.data| <= limits.maxBody
    decreases |input|, 0
  {
    match ParseLine(input, limits.maxStartLine, fate)
    case Fail(k) => Fail(k)
    case Done(line, n) =>
      match ChunkSize(line)
      case None => Fail(InvalidMessage)
      case Some(size) =>
        if size == 0 then
          match ParseFields(input[n..], limits, bytes, count, fate)
          case Fail(k) => Fail(k)
          case Done(b, m) =>
            if ValidTrailers(b.fields) then Done(Body("", b.fields), n + m) else Fail(InvalidMessage)
        else if size > limits.maxBody - decoded then Fail(BodyLimitExceeded)
        else AddData("", n, ParseChunkData(input[n..], size, limits, decoded, bytes, count, fate))
  }

  /** The `size` data bytes still due in the current chunk and what follows them. */
  function ParseChunkData(input: string, size: nat, limits: Limits, decoded: nat, bytes: nat, count: nat, fate: Fate): (r: Parse<Body>)
    requires decoded + size <= limits.maxBody
    ensures r.Done? ==> r.used <= |input|
    ensures r.Done? ==> decoded + |r.value.data| <= limits.maxBody
    decreases |input|, 2
  {
    if |input| < size then Fail(Cut(fate))
    else AddData(input[..size], size, ParseChunkEnd(input[size..], limits, decoded + size, bytes, count, fate))
  }

  /** The CRLF after chunk data and what follows it. */
  function ParseChunkEnd(input: string, limits: Limits, decoded: nat, bytes: nat, count: nat, fate: Fate): (r: Parse<Body>)
    requires decoded <= limits.maxBody
    ensures r.Done? ==> r.used <= |input|
    ensures r.Done? ==> decoded + |r.value.data| <= limits.maxBody
    decreases |input|, 1
  {
    if |input| < 2 then Fail(Cut(fate))
    else if input[0] != '\r' || input[1] != '\n' then Fail(InvalidMessage)
    else AddData("", 2, ParseChunks(input[2..], limits, decoded, bytes, count, fate))
  }

  function ParseFixed(input: string, size: nat, fate: Fate): Parse<Body> {
    if |input| < size then Fail(Cut(fate)) else Done(Body(input[..size], []), size)
  }

  function ParseUntilClose(input: string, limits: Limits, decoded: nat, fate: Fate): Parse<Body>
    requires decoded <= limits.maxBody
  {
    if |input| > limits.maxBody - decoded then Fail(BodyLimitExceeded)
    else if fate != Eof then Fail(Cut(fate))
    else Done(Body(input, []), |input|)
  }

  /** The body announced by `info`, read from the byte after the message head. */
  function ParseBody(input: string, info: BodyInfo, limits: Limits, bytes: nat, count: nat, fate: Fate): Parse<Body> {
    match info.kind
    case NoBody => Done(Body("", []), 0)
    case ContentLength =>
      if info.contentLength > limits.maxBody then Fail(BodyLimitExceeded) else ParseFixed(input, info.contentLength, fate)
    case Chunked => ParseChunks(input, limits, 0, bytes, count, fate)
    case CloseDelimited => ParseUntilClose(input, limits, 0, fate)
  }

  // --------------------------------------------------------------------------- heads

  function VersionName(v: Version): string {
    if v == Http10 then "HTTP/1.0" else "HTTP/1.1"
  }

  function ParseVersion(s: string): Outcome<Version> {
    if s == "HTTP/1.0" then Ok(Http10)
    else if s == "HTTP/1.1" then Ok(Http11)
    else Err(Unsupported)
  }

  predicate ValidTarget(s: string) {
    s != [] && forall i :: 0 <= i < |s| ==> s[i] > ' ' && s[i] != '\U{7F}'
  }

  /** Exactly one Host field, nonempty after trimming and without a list separator. */
  predicate OneHost(fields: seq<Header>) {
    var hosts := GetAll(fields, "Host");
    |hosts| == 1 && Trim(hosts[0]) != "" && ',' !in hosts[0]
  }

  /** Method, target and the raw version text of a request line with exactly two spaces. */
  function SplitRequestLine(line: string): Option<(string, string, string)> {
    var first := IndexOf(line, ' ');
    if first == |line| then None
    else
      var tail := line[first + 1..];
      var second := IndexOf(tail, ' ');
      if second == |tail| || ' ' in tail[second + 1..] then None
      else Some((line[..first], tail[..second], tail[second + 1..]))
  }

  function ParseRequestLine(line: string): Outcome<RequestHead> {
    match SplitRequestLine(line)
    case None => Err(InvalidMessage)
    case Some((verb, target, version)) =>
      if !ValidName(verb) || !ValidTarget(target) then Err(InvalidMessage)
      else
        match ParseVersion(version)
        case Err(k) => Err(k)
        case Ok(v) => Ok(RequestHead(verb, target, v, []))
  }

  /** The method of a request line whose method and target are valid, whatever its version. */
  function RequestMethod(line: string): Option<string> {
    match SplitRequestLine(line)
    case None => None
    case Some((verb, target, _)) => if ValidName(verb) && ValidTarget(target) then Some(verb) else None
  }

  lemma RequestMethodIs(line: string)
    ensures ParseRequestLine(line).Ok? ==> RequestMethod(line) == Some(ParseRequestLine(line).value.verb)
  {
    hide SplitRequestLine, ValidName, ValidTarget, ParseVersion;
  }

  /** The method on record after a head was begun on `input`: that of its line, if it has one. */
  function MethodSeen(input: string, limits: Limits, fate: Fate, last: string): string {
    match ParseLine(input, limits.maxStartLine, fate)
    case Fail(_) => last
    case Done(line, _) => if RequestMethod(line).Some? then RequestMethod(line).value else last
  }

  /** The framing of an incoming request head, or why the head is refused. */
  function RequestFraming(head: RequestHead): Outcome<BodyInfo> {
    if head.version == Http11 && !OneHost(head.fields) then Err(InvalidMessage)
    else if head.version == Http10 && Contains(head.fields, TRANSFER_ENCODING) then Err(InvalidMessage)
    else Framing(head.fields, false)
  }

  predicate ForbidsFraming(status: nat) {
    100 <= status < 200 || status == 204
  }

  predicate ForbidsBody(status: nat) {
    100 <= status < 200 || status == 204 || status == 304
  }

  predicate IsTunnel(status: nat, verb: string) {
    verb == "CONNECT" && 200 <= status < 300
  }

  /** Whether the response to `verb` has no body whatever its fields say. */
  predicate Bodiless(status: nat, verb: string) {
    ForbidsBody(status) || verb == "HEAD" || IsTunnel(status, verb)
  }

  function ParseStatusLine(line: string): (r: Outcome<ResponseHead>)
    ensures r.Ok? ==> 100 <= r.value.status <= 999
  {
    var space := IndexOf(line, ' ');
    if |line| < space + 4 then Err(InvalidMessage)
    else
      match ParseVersion(line[..space])
      case Err(k) => Err(k)
      case Ok(v) =>
        var code := line[space + 1..space + 4];
        if !AllDigits(code, 10) then Err(InvalidMessage)
        else if |line| > space + 4 && line[space + 4] != ' ' then Err(InvalidMessage)
        else
          var status := DigitOf(code[0], 10) * 100 + DigitOf(code[1], 10) * 10 + DigitOf(code[2], 10);
          var reason := if |line| > space + 4 then line[space + 5..] else "";
          if status < 100 || !ValidValue(reason) then Err(InvalidMessage)
          else Ok(ResponseHead(v, status, reason, []))
  }

  /** The framing of an incoming response to `verb`, or why the head is refused. */
  function ResponseFraming(head: ResponseHead, verb: string): Outcome<BodyInfo> {
    if head.version == Http10 && Contains(head.fields, TRANSFER_ENCODING) then Err(InvalidMessage)
    else if ForbidsFraming(head.status)
         && (Contains(head.fields, CONTENT_LENGTH) || Contains(head.fields, TRANSFER_ENCODING)) then Err(InvalidMessage)
    else if Bodiless(head.status, verb) then Ok(BodyInfo(NoBody, 0))
    else Framing(head.fields, true)
  }

  /** A head, the framing of its body, and the header budget it used. */
  datatype Opened<+H> = Opened(head: H, info: BodyInfo, bytes: nat, count: nat)

  function ParseRequestHead(input: string, limits: Limits, fate: Fate): (r: Parse<Opened<RequestHead>>)
    ensures r.Done? ==> r.used <= |input|
  {
    match ParseLine(input, limits.maxStartLine, fate)
    case Fail(k) => Fail(k)
    case Done(line, n) =>
      match ParseRequestLine(line)
      case Err(k) => Fail(k)
      case Ok(start) =>
        match ParseFields(input[n..], limits, 0, 0, fate)
        case Fail(k) => Fail(k)
        case Done(b, m) =>
          var head := start.(fields := b.fields);
          match RequestFraming(head)
          case Err(k) => Fail(k)
          case Ok(info) => Done(Opened(head, info, b.bytes, b.count), n + m)
  }

  function ParseResponseHead(input: string, verb: string, limits: Limits, fate: Fate): (r: Parse<Opened<ResponseHead>>)
    ensures r.Done? ==> r.used <= |input|
  {
    match ParseLine(input, limits.maxStartLine, fate)
    case Fail(k) => Fail(k)
    case Done(line, n) =>
      match ParseStatusLine(line)
      case Err(k) => Fail(k)
      case Ok(start) =>
        match ParseFields(input[n..], limits, 0, 0, fate)
        case Fail(k) => Fail(k)
        case Done(b, m) =>
          var head := start.(fields := b.fields);
          match ResponseFraming(head, verb)
          case Err(k) => Fail(k)
          case Ok(info) => Done(Opened(head, info, b.bytes, b.count), n + m)
  }

  // -------------------------------------------------------------------- whole messages

  /** A complete request at the start of the input; `None` is a clean end of the connection. */
  function ParseRequest(input: string, limits: Limits, fate: Fate): Parse<Option<Request>> {
    if input == [] && fate == Eof then Done(None, 0)
    else
      match ParseRequestHead(input, limits, fate)
      case Fail(k) => Fail(k)
      case Done(o, n) =>
        match ParseBody(input[n..], o.info, limits, o.bytes, o.count, fate)
        case Fail(k) => Fail(k)
        case Done(b, m) => Done(Some(Request(o.head, b.data, b.trailers)), n + m)
  }

  function ParseResponse(input: string, verb: string, limits: Limits, fate: Fate): Parse<Option<Response>> {
    if input == [] && fate == Eof then Done(None, 0)
    else
      match ParseResponseHead(input, verb, limits, fate)
      case Fail(k) => Fail(k)
      case Done(o, n) =>
        match ParseBody(input[n..], o.info, limits, o.bytes, o.count, fate)
        case Fail(k) => Fail(k)
        case Done(b, m) => Done(Some(Response(o.head, b.data, b.trailers)), n + m)
  }
}
