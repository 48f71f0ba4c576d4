/**
  The bytes an HTTP/1 reader accepts, described by how they are put together rather
  than by how they are taken apart, and the proof that parsing accepts exactly these.
 */
module HttpGrammar {
  import opened Text
  import opened Numerals
  import opened HttpFields
  import opened HttpFraming
  import opened HttpWire
  import opened HttpPrint
  import opened HttpRoundTrip

  // ------------------------------------------------------------------------- lines

  /** A line is read exactly when the input starts with it, its CR and its LF. */
  lemma LineIff(input: string, limit: nat, fate: Fate, line: string, n: nat)
    ensures ParseLine(input, limit, fate) == Done(line, n) <==>
              IsLine(line) && |line| <= limit && n == |line| + 2 <= |input| && input[..n] == line + CRLF
  {
    if IsLine(line) && |line| <= limit && n == |line| + 2 <= |input| && input[..n] == line + CRLF {
      ParsePrintedLine(line, input[n..], limit, fate);
      assert input == line + CRLF + input[n..];
    }
    if ParseLine(input, limit, fate) == Done(line, n) {
      assert input[..n] == line + CRLF;
    }
  }

  // ------------------------------------------------------------------------ fields

  /** `line` is a field name, a colon and a value between blanks. */
  ghost predicate SpellsField(line: string, h: Header) {
    ValidHeader(h) && |h.name| < |line| && line[..|h.name|] == h.name && line[|h.name|] == ':'
    && IsCore(line[|h.name| + 1..], h.value)
  }

  ghost predicate SpellFields(lines: seq<string>, fields: seq<Header>) {
    |lines| == |fields| && forall i :: 0 <= i < |lines| ==> SpellsField(lines[i], fields[i])
  }

  /** The lines, each behind its line end. */
  function LinesText(lines: seq<string>): string {
    if lines == [] then "" else lines[0] + CRLF + LinesText(lines[1..])
  }

  lemma FieldIff(line: string, h: Header)
    ensures ParseField(line) == Some(h) <==> SpellsField(line, h)
  {
    hide ValidName, ValidValue, Trim, IsCore;
    if SpellsField(line, h) {
      ValidNameIsLine(h.name);
      IndexOfIs(line, ':', |h.name|);
    }
    var colon := IndexOf(line, ':');
    if colon < |line| {
      TrimIff(line[colon + 1..], h.value);
    }
  }

  lemma LineJoined(a: string, b: string)
    requires IsLine(a) && IsLine(b)
    ensures IsLine(a + b)
  {
  }

  lemma CoreIsLine(raw: string, core: string)
    requires IsCore(raw, core) && IsLine(core)
    ensures IsLine(raw)
  {
    var left, right :| Blank(left) && Blank(right) && raw == left + core + right;
    assert IsLine(left) && IsLine(right);
    LineJoined(left, core);
    LineJoined(left + core, right);
  }

  lemma SpelledIsLine(line: string, h: Header)
    requires SpellsField(line, h)
    ensures IsLine(line) && line != "" && !IsOws(line[0])
  {
    hide IsTokenChar, ValidValue, IsCore, IsLine;
    ValidNameIsLine(h.name);
    assert line[0] == h.name[0];
    ValidValueIsLine(h.value);
    var raw := line[|h.name| + 1..];
    CoreIsLine(raw, h.value);
    assert IsLine(":") by { ColonIsLine(); }
    LineJoined(h.name, ":");
    LineJoined(h.name + ":", raw);
    assert line == h.name + ":" + raw;
  }

  lemma ColonIsLine()
    ensures IsLine(":")
  {
  }

  lemma FieldLineIff(input: string, limits: Limits, bytes: nat, count: nat, fate: Fate, line: string, h: Header, n: nat)
    requires n == |line| + 2 <= |input| && input[..n] == line + CRLF && SpellsField(line, h)
    ensures ParseFieldLine(input, limits, bytes, count, fate) ==
            if bytes + n <= limits.maxHeaderBytes && count < limits.maxHeaderCount then Done(Some(h), n)
            else Fail(HeaderLimitExceeded)
  {
    hide ParseField, ParseLine, SpellsField, IsLine;
    SpelledIsLine(line, h);
    FieldIff(line, h);
    ParsePrintedLine(line, input[n..], if bytes < limits.maxHeaderBytes then limits.maxHeaderBytes - bytes else 0, fate);
    assert input == line + CRLF + input[n..];
  }

  /** The lines of an accepted field line, taken from the input. */
  lemma FieldLineBack(input: string, limits: Limits, bytes: nat, count: nat, fate: Fate) returns (line: string)
    requires ParseFieldLine(input, limits, bytes, count, fate).Done?
    ensures var p := ParseFieldLine(input, limits, bytes, count, fate);
            && p.used == |line| + 2 <= |input| && input[..p.used] == line + CRLF
            && (if p.value.None? then line == "" else SpellsField(line, p.value.value))
  {
    hide ParseField, ParseLine, SpellsField, IsLine;
    var p := ParseLine(input, limits.maxHeaderBytes - bytes, fate);
    line := p.value;
    LineIff(input, limits.maxHeaderBytes - bytes, fate, line, p.used);
    if line != "" {
      FieldIff(line, ParseField(line).value);
    }
  }

  /** A field block within the budget: its lines, the empty line, and what they use up. */
  ghost predicate IsBlock(text: string, lines: seq<string>, limits: Limits, bytes: nat, count: nat, b: Block) {
    && text == LinesText(lines) + CRLF && SpellFields(lines, b.fields)
    && b.bytes == bytes + |text| <= limits.maxHeaderBytes
    && b.count == count + |lines| && (lines == [] || b.count <= limits.maxHeaderCount)
  }

  lemma LinesTextUnfold(lines: seq<string>, input: string, n: nat)
    requires lines != [] && n <= |input| && input[..n] == LinesText(lines) + CRLF
    ensures var k := |lines[0]| + 2;
            && k <= n && input[..k] == lines[0] + CRLF && input[k..][..n - k] == LinesText(lines[1..]) + CRLF
  {
    var k := |lines[0]| + 2;
    var rest := LinesText(lines[1..]) + CRLF;
    assert input[..n] == lines[0] + CRLF + rest;
    assert input[..k] == input[..n][..k];
    assert input[k..][..n - k] == input[..n][k..];
  }

  lemma {:induction false} BlockForth(input: string, lines: seq<string>, limits: Limits, bytes: nat, count: nat, fate: Fate, b: Block, n: nat)
    requires n <= |input| && IsBlock(input[..n], lines, limits, bytes, count, b)
    ensures ParseFields(input, limits, bytes, count, fate) == Done(b, n)
    decreases |lines|
  {
    hide ParseFields, ParseFieldLine, SpellsField;
    ParseFieldsUnfold(input, limits, bytes, count, fate);
    if lines == [] {
      assert input == CRLF + input[2..];
      ParsePrintedEmptyLine(input[2..], limits, bytes, count, fate);
      assert b.fields == [];
    } else {
      LinesTextUnfold(lines, input, n);
      var k := |lines[0]| + 2;
      FieldLineIff(input, limits, bytes, count, fate, lines[0], b.fields[0], k);
      var rest := b.(fields := b.fields[1..]);
      BlockForth(input[k..], lines[1..], limits, bytes + k, count + 1, fate, rest, n - k);
      assert b.fields == [b.fields[0]] + rest.fields;
    }
  }

  lemma {:induction false} BlockBack(input: string, limits: Limits, bytes: nat, count: nat, fate: Fate) returns (lines: seq<string>)
    requires ParseFields(input, limits, bytes, count, fate).Done?
    ensures var p := ParseFields(input, limits, bytes, count, fate);
            p.used <= |input| && IsBlock(input[..p.used], lines, limits, bytes, count, p.value)
    decreases |input|
  {
    hide ParseFields, ParseFieldLine, SpellsField;
    ParseFieldsUnfold(input, limits, bytes, count, fate);
    var p := ParseFields(input, limits, bytes, count, fate);
    var line := FieldLineBack(input, limits, bytes, count, fate);
    var k := |line| + 2;
    if ParseFieldLine(input, limits, bytes, count, fate).value.None? {
      lines := [];
    } else {
      var rest := BlockBack(input[k..], limits, bytes + k, count + 1, fate);
      lines := [line] + rest;
      assert lines[1..] == rest;
      assert input[..p.used] == input[..k] + input[k..][..p.used - k];
      assert input[..p.used] == LinesText(lines) + CRLF;
    }
  }

  /** Parsing a field block accepts exactly the spellings of its fields that fit the budget. */
  lemma FieldsIff(input: string, limits: Limits, bytes: nat, count: nat, fate: Fate, b: Block, n: nat)
    ensures ParseFields(input, limits, bytes, count, fate) == Done(b, n) <==>
              n <= |input| && exists lines :: IsBlock(input[..n], lines, limits, bytes, count, b)
  {
    hide ParseFields, IsBlock;
    if n <= |input| && exists lines :: IsBlock(input[..n], lines, limits, bytes, count, b) {
      var lines :| IsBlock(input[..n], lines, limits, bytes, count, b);
      BlockForth(input, lines, limits, bytes, count, fate, b, n);
    }
    if ParseFields(input, limits, bytes, count, fate) == Done(b, n) {
      var lines := BlockBack(input, limits, bytes, count, fate);
    }
  }

  // ------------------------------------------------------------------- start lines

  /** Method, target and version with one space between them. */
  predicate SpellsRequestLine(line: string, verb: string, target: string, version: Version) {
    ValidName(verb) && ValidTarget(target)
    && line == verb + " " + target + " " + (match version case Http10 => "HTTP/1.0" case Http11 => "HTTP/1.1")
  }

  /** Version, a number of three digits and, behind another space, the reason. */
  predicate SpellsStatusLine(line: string, version: Version, status: nat, reason: string) {
    100 <= status <= 999 && ValidValue(reason)
    && var start := (match version case Http10 => "HTTP/1.0 " case Http11 => "HTTP/1.1 ") + Print(status, 10);
       line == start + " " + reason || (line == start && reason == "")
  }

  lemma VersionIff(s: string, v: Version)
    ensures ParseVersion(s) == Ok(v) <==> s == match v case Http10 => "HTTP/1.0" case Http11 => "HTTP/1.1"
  {
    assert "HTTP/1.0"[7] != "HTTP/1.1"[7];
  }

  lemma SplitLineBack(line: string)
    requires SplitRequestLine(line).Some?
    ensures var (verb, target, version) := SplitRequestLine(line).value; line == verb + " " + target + " " + version
  {
    hide IndexOf;
    var first := IndexOf(line, ' ');
    var tail := line[first + 1..];
    var second := IndexOf(tail, ' ');
    CutAtSpace(tail, second);
    CutAtSpace(line, first);
    Spaced(line[..first], tail[..second], tail[second + 1..]);
  }

  lemma Spaced(a: string, b: string, c: string)
    ensures a + " " + (b + " " + c) == a + " " + b + " " + c
  {
  }

  lemma CutAtSpace(s: string, i: nat)
    requires i < |s| && s[i] == ' '
    ensures s == s[..i] + " " + s[i + 1..]
  {
  }

  lemma RequestLineIff(line: string, head: RequestHead)
    ensures ParseRequestLine(line) == Ok(head) <==>
              head.fields == [] && SpellsRequestLine(line, head.verb, head.target, head.version)
  {
    hide ValidName, ValidTarget, SplitRequestLine, ParseVersion;
    if SpellsRequestLine(line, head.verb, head.target, head.version) {
      ParsePrintedRequestLine(head);
      assert line == RequestLine(head);
    }
    if ParseRequestLine(line) == Ok(head) {
      SplitLineBack(line);
      VersionIff(SplitRequestLine(line).value.2, head.version);
    }
  }

  lemma ThreeDigits(code: string, status: nat)
    requires |code| == 3 && AllDigits(code, 10) && 100 <= status
    requires status == DigitOf(code[0], 10) * 100 + DigitOf(code[1], 10) * 10 + DigitOf(code[2], 10)
    ensures Print(status, 10) == code
  {
    hide Print, Value;
    ValueOfThree(code);
    assert code[0] != '0';
    ValueThenPrint(code, 10);
  }

  lemma ValueOfThree(code: string)
    requires |code| == 3 && AllDigits(code, 10)
    ensures Value(code, 10) == DigitOf(code[0], 10) * 100 + DigitOf(code[1], 10) * 10 + DigitOf(code[2], 10)
  {
    hide DigitOf;
    assert code[..2][..1] == code[..1] && code[..1][..0] == [];
    assert Value(code[..1], 10) == DigitOf(code[0], 10);
    assert Value(code[..2], 10) == Value(code[..1], 10) * 10 + DigitOf(code[1], 10);
  }

  lemma StatusLineBack(line: string, head: ResponseHead)
    requires ParseStatusLine(line) == Ok(head)
    ensures head.fields == [] && SpellsStatusLine(line, head.version, head.status, head.reason)
  {
    hide ParseVersion, Print, DigitOf, Value, ValidValue;
    var space := IndexOf(line, ' ');
    VersionIff(line[..space], head.version);
    var code := line[space + 1..space + 4];
    ThreeDigits(code, head.status);
    var start := line[..space] + " " + code;
    assert line[..space + 4] == start;
    if |line| > space + 4 {
      assert line == start + " " + line[space + 5..];
    }
  }

  lemma StatusLineForth(line: string, head: ResponseHead)
    requires head.fields == [] && SpellsStatusLine(line, head.version, head.status, head.reason)
    ensures ParseStatusLine(line) == Ok(head)
  {
    hide ParseVersion, Print, DigitOf, ValidValue;
    var version := match head.version case Http10 => "HTTP/1.0" case Http11 => "HTTP/1.1";
    VersionIff(version, head.version);
    var code := Print(head.status, 10);
    PrintedStatus(head.status);
    assert line[..|version|] == version;
    IndexOfIs(line, ' ', |version|);
    assert line[|version| + 1..|version| + 4] == code;
    if |line| > |version| + 4 {
      assert line[|version| + 5..] == head.reason;
    }
  }

  // ------------------------------------------------------------------------- heads

  ghost predicate HasOneHost(fields: seq<Header>) {
    exists host :: GetAll(fields, "Host") == [host] && !Blank(host) && ',' !in host
  }

  lemma OneHostIff(fields: seq<Header>)
    ensures OneHost(fields) <==> HasOneHost(fields)
  {
    hide Trim, GetAll;
    var hosts := GetAll(fields, "Host");
    if |hosts| == 1 {
      assert hosts == [hosts[0]];
      TrimEmptyIff(hosts[0]);
    }
  }

  lemma TrimEmptyIff(s: string)
    ensures Trim(s) == "" <==> Blank(s)
  {
    hide Trim;
    TrimIff(s, "");
    if IsCore(s, "") {
      var left, right :| Blank(left) && Blank(right) && s == left + "" + right;
    }
    if Blank(s) {
      assert Blank("") && s == s + "" + "";
    }
  }

  /** What a request head must have beyond its syntax, and the framing it announces. */
  ghost predicate RequestMeets(head: RequestHead, info: BodyInfo) {
    && (head.version == Http11 ==> HasOneHost(head.fields))
    && (head.version == Http10 ==> !Contains(head.fields, "Transfer-Encoding"))
    && Announces(head.fields, false, info)
  }

  /** The same for the response to a request with method `verb`. */
  predicate ResponseMeets(head: ResponseHead, verb: string, info: BodyInfo) {
    var s := head.status;
    && (head.version == Http10 ==> !Contains(head.fields, "Transfer-Encoding"))
    && (100 <= s <= 199 || s == 204 ==> !Contains(head.fields, "Content-Length") && !Contains(head.fields, "Transfer-Encoding"))
    && if 100 <= s <= 199 || s == 204 || s == 304 || verb == "HEAD" || (verb == "CONNECT" && 200 <= s <= 299)
       then info == BodyInfo(NoBody, 0)
       else Announces(head.fields, true, info)
  }

  lemma RequestMeetsIff(head: RequestHead, info: BodyInfo)
    ensures RequestFraming(head) == Ok(info) <==> RequestMeets(head, info)
  {
    hide Framing, Announces, HasOneHost, OneHost, Contains;
    OneHostIff(head.fields);
    FramingIff(head.fields, false);
  }

  lemma ResponseMeetsIff(head: ResponseHead, verb: string, info: BodyInfo)
    ensures ResponseFraming(head, verb) == Ok(info) <==> ResponseMeets(head, verb, info)
  {
    hide Framing, Announces, Contains;
    FramingIff(head.fields, true);
  }

  /** A start line and a field block within the limits, as bytes. */
  ghost predicate IsHead(text: string, start: string, lines: seq<string>, limits: Limits, b: Block) {
    && |start| <= limits.maxStartLine && |start| + 2 <= |text| && text[..|start| + 2] == start + CRLF
    && IsBlock(text[|start| + 2..], lines, limits, 0, 0, b)
  }

  ghost predicate IsRequestHead(text: string, start: string, lines: seq<string>, limits: Limits, o: Opened<RequestHead>) {
    && SpellsRequestLine(start, o.head.verb, o.head.target, o.head.version)
    && IsHead(text, start, lines, limits, Block(o.head.fields, o.bytes, o.count))
    && RequestMeets(o.head, o.info)
  }

  ghost predicate IsResponseHead(text: string, verb: string, start: string, lines: seq<string>, limits: Limits, o: Opened<ResponseHead>) {
    && SpellsStatusLine(start, o.head.version, o.head.status, o.head.reason)
    && IsHead(text, start, lines, limits, Block(o.head.fields, o.bytes, o.count))
    && ResponseMeets(o.head, verb, o.info)
  }

  lemma HeadForth(input: string, start: string, lines: seq<string>, limits: Limits, fate: Fate, b: Block, n: nat)
    requires n <= |input| && IsLine(start) && IsHead(input[..n], start, lines, limits, b)
    ensures ParseLine(input, limits.maxStartLine, fate) == Done(start, |start| + 2)
    ensures ParseFields(input[|start| + 2..], limits, 0, 0, fate) == Done(b, n - (|start| + 2))
  {
    hide ParseLine, ParseFields, IsBlock, IsLine;
    var k := |start| + 2;
    assert input[..n][..k] == input[..k];
    LineIff(input, limits.maxStartLine, fate, start, k);
    assert input[..n][k..] == input[k..][..n - k];
    BlockForth(input[k..], lines, limits, 0, 0, fate, b, n - k);
  }

  lemma HeadBack(input: string, limits: Limits, fate: Fate) returns (start: string, lines: seq<string>)
    requires ParseLine(input, limits.maxStartLine, fate).Done?
    requires ParseFields(input[ParseLine(input, limits.maxStartLine, fate).used..], limits, 0, 0, fate).Done?
    ensures var first := ParseLine(input, limits.maxStartLine, fate);
            var block := ParseFields(input[first.used..], limits, 0, 0, fate);
            && start == first.value && first.used + block.used <= |input|
            && IsHead(input[..first.used + block.used], start, lines, limits, block.value)
  {
    hide ParseLine, ParseFields, IsBlock, IsLine;
    var first := ParseLine(input, limits.maxStartLine, fate);
    start := first.value;
    LineIff(input, limits.maxStartLine, fate, start, first.used);
    lines := BlockBack(input[first.used..], limits, 0, 0, fate);
    var n := first.used + ParseFields(input[first.used..], limits, 0, 0, fate).used;
    assert input[..n][..first.used] == input[..first.used];
    assert input[..n][first.used..] == input[first.used..][..n - first.used];
  }

  lemma RequestLineIsLine(start: string, verb: string, target: string, version: Version)
    requires SpellsRequestLine(start, verb, target, version)
    ensures IsLine(start)
  {
    hide ValidName, ValidTarget, IsLine;
    ParsePrintedRequestLine(RequestHead(verb, target, version, []));
    assert start == RequestLine(RequestHead(verb, target, version, []));
  }

  lemma StatusLineIsALine(start: string, version: Version, status: nat, reason: string)
    requires SpellsStatusLine(start, version, status, reason)
    ensures IsLine(start)
  {
    hide Print, ValidValue, IsLine;
    PrintThenValue(status, 10);
    DigitsAreLine(Print(status, 10));
    ValidValueIsLine(reason);
    var name := match version case Http10 => "HTTP/1.0 " case Http11 => "HTTP/1.1 ";
    NamesAreLines();
    LineJoined(name, Print(status, 10));
    LineJoined(name + Print(status, 10), " ");
    LineJoined(name + Print(status, 10) + " ", reason);
  }

  lemma DigitsAreLine(s: string)
    requires AllDigits(s, 10)
    ensures IsLine(s)
  {
    forall i | 0 <= i < |s|
      ensures IsLineByte(s[i])
    {
      assert DigitOf(s[i], 10) >= 0;
    }
  }

  lemma NamesAreLines()
    ensures IsLine("HTTP/1.0 ") && IsLine("HTTP/1.1 ") && IsLine(" ")
  {
  }

  /** Parsing accepts exactly the request heads of the grammar, each with what it spells. */
  lemma RequestHeadIff(input: string, limits: Limits, fate: Fate, o: Opened<RequestHead>, n: nat)
    ensures ParseRequestHead(input, limits, fate) == Done(o, n) <==>
              n <= |input| && exists start, lines :: IsRequestHead(input[..n], start, lines, limits, o)
  {
    hide ParseLine, ParseFields, ParseRequestLine, RequestFraming, RequestMeets, SpellsRequestLine, IsHead, IsLine;
    RequestMeetsIff(o.head, o.info);
    if n <= |input| && exists start, lines :: IsRequestHead(input[..n], start, lines, limits, o) {
      var start, lines :| IsRequestHead(input[..n], start, lines, limits, o);
      RequestLineIsLine(start, o.head.verb, o.head.target, o.head.version);
      RequestLineIff(start, o.head.(fields := []));
      HeadForth(input, start, lines, limits, fate, Block(o.head.fields, o.bytes, o.count), n);
    }
    if ParseRequestHead(input, limits, fate) == Done(o, n) {
      var start, lines := HeadBack(input, limits, fate);
      RequestLineIff(start, ParseRequestLine(start).value);
      assert IsRequestHead(input[..n], start, lines, limits, o);
    }
  }

  lemma ResponseHeadIff(input: string, verb: string, limits: Limits, fate: Fate, o: Opened<ResponseHead>, n: nat)
    ensures ParseResponseHead(input, verb, limits, fate) == Done(o, n) <==>
              n <= |input| && exists start, lines :: IsResponseHead(input[..n], verb, start, lines, limits, o)
  {
    hide ParseLine, ParseFields, ParseStatusLine, ResponseFraming, ResponseMeets, SpellsStatusLine, IsHead, IsLine;
    ResponseMeetsIff(o.head, verb, o.info);
    if n <= |input| && exists start, lines :: IsResponseHead(input[..n], verb, start, lines, limits, o) {
      var start, lines :| IsResponseHead(input[..n], verb, start, lines, limits, o);
      StatusLineIsALine(start, o.head.version, o.head.status, o.head.reason);
      StatusLineForth(start, o.head.(fields := []));
      HeadForth(input, start, lines, limits, fate, Block(o.head.fields, o.bytes, o.count), n);
    }
    if ParseResponseHead(input, verb, limits, fate) == Done(o, n) {
      var start, lines := HeadBack(input, limits, fate);
      StatusLineBack(start, ParseStatusLine(start).value);
      assert IsResponseHead(input[..n], verb, start, lines, limits, o);
    }
  }

  /** No head with both framing fields is ever accepted, apart from responses that have no body anyway. */
  lemma NeverBothFields(input: string, verb: string, limits: Limits, fate: Fate)
    ensures var p := ParseRequestHead(input, limits, fate);
            p.Done? ==> !(Contains(p.value.head.fields, "Content-Length") && Contains(p.value.head.fields, "Transfer-Encoding"))
    ensures var p := ParseResponseHead(input, verb, limits, fate);
            p.Done? && Contains(p.value.head.fields, "Content-Length") && Contains(p.value.head.fields, "Transfer-Encoding") ==>
              var s := p.value.head.status; s == 304 || verb == "HEAD" || (verb == "CONNECT" && 200 <= s <= 299)
  {
    hide ParseRequestHead, ParseResponseHead, Contains, IsHead, SpellsRequestLine, SpellsStatusLine, HasOneHost, OnlyChunked, OnlyLength;
    var p, q := ParseRequestHead(input, limits, fate), ParseResponseHead(input, verb, limits, fate);
    if p.Done? {
      RequestHeadIff(input, limits, fate, p.value, p.used);
    }
    if q.Done? {
      ResponseHeadIff(input, verb, limits, fate, q.value, q.used);
    }
  }

  // ------------------------------------------------------------------------ bodies

  /** A size line and the data it announces. */
  datatype Chunk = Chunk(line: string, data: string)

  /** `line` is a hexadecimal number, alone or before a semicolon and an extension. */
  ghost predicate SpellsSize(line: string, size: nat) {
    ValidValue(line) && exists k :: 0 <= k <= |line| && IsSizeAt(line, k, size)
  }

  predicate IsSizeAt(line: string, k: nat, size: nat)
    requires k <= |line|
  {
    (k == |line| || line[k] == ';') && IsNumeral(line[..k], 16) && Value(line[..k], 16) == size
  }

  ghost predicate IsChunk(c: Chunk, limits: Limits) {
    c.data != "" && |c.line| <= limits.maxStartLine && SpellsSize(c.line, |c.data|)
  }

  function ChunkText(c: Chunk): string {
    c.line + CRLF + (c.data + CRLF)
  }

  function ChunksText(chunks: seq<Chunk>): string {
    if chunks == [] then "" else ChunkText(chunks[0]) + ChunksText(chunks[1..])
  }

  function ChunksData(chunks: seq<Chunk>): string {
    if chunks == [] then "" else chunks[0].data + ChunksData(chunks[1..])
  }

  /** None of the fields may change the framing or the routing of the message. */
  predicate TrailersAllowed(fields: seq<Header>) {
    && !Contains(fields, "Content-Length") && !Contains(fields, "Transfer-Encoding")
    && !Contains(fields, "Host") && !Contains(fields, "Trailer")
  }

  /** What follows the chunks: a size line that says zero and the trailer block. */
  ghost predicate IsTail(text: string, last: string, lines: seq<string>, limits: Limits, bytes: nat, count: nat, trailers: seq<Header>) {
    && |last| <= limits.maxStartLine && SpellsSize(last, 0)
    && text == last + CRLF + (LinesText(lines) + CRLF) && TrailersAllowed(trailers)
    && var block := LinesText(lines) + CRLF;
       IsBlock(block, lines, limits, bytes, count, Block(trailers, bytes + |block|, count + |lines|))
  }

  /** A chunked body whose data together with the `decoded` bytes before it stays within the limit. */
  ghost predicate IsChunked(text: string, chunks: seq<Chunk>, last: string, lines: seq<string>, limits: Limits,
                            decoded: nat, bytes: nat, count: nat, body: Body) {
    && (forall i :: 0 <= i < |chunks| ==> IsChunk(chunks[i], limits))
    && body.data == ChunksData(chunks) && decoded + |body.data| <= limits.maxBody
    && |ChunksText(chunks)| <= |text| && text[..|ChunksText(chunks)|] == ChunksText(chunks)
    && IsTail(text[|ChunksText(chunks)|..], last, lines, limits, bytes, count, body.trailers)
  }

  lemma SizeIff(line: string, size: usize)
    ensures ChunkSize(line) == Some(size) <==> SpellsSize(line, size)
  {
    hide ValidValue, Value, DigitOf;
    if SpellsSize(line, size) {
      var k :| 0 <= k <= |line| && IsSizeAt(line, k, size);
      NoSemicolon(line[..k]);
      IndexOfIs(line, ';', k);
    }
    if ChunkSize(line) == Some(size) {
      assert IsSizeAt(line, IndexOf(line, ';'), size);
    }
  }

  lemma NoSemicolon(s: string)
    requires AllDigits(s, 16)
    ensures ';' !in s
  {
    forall i | 0 <= i < |s|
      ensures s[i] != ';'
    {
      assert DigitOf(s[i], 16) >= 0;
    }
  }

  lemma SpelledSizeFits(line: string, size: nat)
    requires SpellsSize(line, size)
    ensures size <= USIZE_MAX && IsLine(line)
  {
    ValidValueIsLine(line);
  }

  lemma TrailersIff(fields: seq<Header>)
    ensures ValidTrailers(fields) <==> TrailersAllowed(fields)
  {
    hide EqualsIgnoreCase;
    forall i | 0 <= i < |fields|
      ensures ForbiddenTrailer(fields[i].name) <==>
                EqualsIgnoreCase(fields[i].name, "Content-Length") || EqualsIgnoreCase(fields[i].name, "Transfer-Encoding")
                || EqualsIgnoreCase(fields[i].name, "Host") || EqualsIgnoreCase(fields[i].name, "Trailer")
    {
      ForbiddenNames(fields[i].name);
    }
  }

  lemma ForbiddenNames(name: string)
    ensures ForbiddenTrailer(name) <==>
              EqualsIgnoreCase(name, "Content-Length") || EqualsIgnoreCase(name, "Transfer-Encoding")
              || EqualsIgnoreCase(name, "Host") || EqualsIgnoreCase(name, "Trailer")
  {
    hide EqualsIgnoreCase;
    var f := FORBIDDEN_TRAILERS;
    assert f[0] == "Content-Length" && f[1] == "Transfer-Encoding" && f[2] == "Host" && f[3] == "Trailer";
  }

  /** One chunk at the front of the input is taken off. */
  lemma ChunkTaken(input: string, c: Chunk, limits: Limits, decoded: nat, bytes: nat, count: nat, fate: Fate)
    requires IsChunk(c, limits) && decoded + |c.data| <= limits.maxBody
    requires |ChunkText(c)| <= |input| && input[..|ChunkText(c)|] == ChunkText(c)
    ensures ParseChunks(input, limits, decoded, bytes, count, fate) ==
            AddData(c.data, |ChunkText(c)|, ParseChunks(input[|ChunkText(c)|..], limits, decoded + |c.data|, bytes, count, fate))
  {
    hide ParseLine, SpellsSize, IsLine, ChunkSize, ParseChunkData, ParseChunks;
    var n, size := |c.line| + 2, |c.data|;
    SpelledSizeFits(c.line, size);
    SizeIff(c.line, size);
    var rest := input[|ChunkText(c)|..];
    assert input == c.line + CRLF + (c.data + CRLF + rest);
    ParsePrintedLine(c.line, c.data + CRLF + rest, limits.maxStartLine, fate);
    SizeTaken(input, c.line, size, limits, decoded, bytes, count, fate);
    ChunkDataTaken(input[n..], c.data, rest, limits, decoded, bytes, count, fate);
    var p := ParseChunks(rest, limits, decoded + size, bytes, count, fate);
    AddDataTwice("", n, c.data, size + 2, p);
    assert "" + c.data == c.data;
  }

  /** A size line that announces data. */
  lemma SizeTaken(input: string, line: string, size: usize, limits: Limits, decoded: nat, bytes: nat, count: nat, fate: Fate)
    requires ParseLine(input, limits.maxStartLine, fate) == Done(line, |line| + 2)
    requires ChunkSize(line) == Some(size) && size > 0 && decoded + size <= limits.maxBody
    ensures ParseChunks(input, limits, decoded, bytes, count, fate) ==
            AddData("", |line| + 2, ParseChunkData(input[|line| + 2..], size, limits, decoded, bytes, count, fate))
  {
    hide ParseLine, ChunkSize, ParseChunkData;
  }

  lemma ChunkDataTaken(input: string, data: string, rest: string, limits: Limits, decoded: nat, bytes: nat, count: nat, fate: Fate)
    requires input == data + CRLF + rest && decoded + |data| <= limits.maxBody
    ensures ParseChunkData(input, |data|, limits, decoded, bytes, count, fate) ==
            AddData(data, |data| + 2, ParseChunks(rest, limits, decoded + |data|, bytes, count, fate))
  {
    hide ParseChunks;
    var size := |data|;
    assert input[..size] == data && input[size..] == CRLF + rest;
    assert (CRLF + rest)[2..] == rest;
    AddDataTwice(data, size, "", 2, ParseChunks(rest, limits, decoded + size, bytes, count, fate));
    assert data + "" == data;
  }

  lemma TailTaken(input: string, last: string, lines: seq<string>, limits: Limits, decoded: nat, bytes: nat, count: nat, fate: Fate, trailers: seq<Header>, n: nat)
    requires decoded <= limits.maxBody
    requires n <= |input| && IsTail(input[..n], last, lines, limits, bytes, count, trailers)
    ensures ParseChunks(input, limits, decoded, bytes, count, fate) == Done(Body("", trailers), n)
  {
    hide ParseLine, ParseFields, SpellsSize, IsLine, ChunkSize, IsBlock, ValidTrailers, TrailersAllowed;
    SpelledSizeFits(last, 0);
    SizeIff(last, 0);
    TrailersIff(trailers);
    var k, block := |last| + 2, LinesText(lines) + CRLF;
    assert input == last + CRLF + (block + input[n..]);
    ParsePrintedLine(last, block + input[n..], limits.maxStartLine, fate);
    assert input[k..][..n - k] == block;
    BlockForth(input[k..], lines, limits, bytes, count, fate, Block(trailers, bytes + |block|, count + |lines|), n - k);
  }

  lemma {:induction false} ChunkedForth(input: string, chunks: seq<Chunk>, last: string, lines: seq<string>, limits: Limits,
                                        decoded: nat, bytes: nat, count: nat, fate: Fate, body: Body, n: nat)
    requires n <= |input| && IsChunked(input[..n], chunks, last, lines, limits, decoded, bytes, count, body)
    ensures decoded <= limits.maxBody
    ensures ParseChunks(input, limits, decoded, bytes, count, fate) == Done(body, n)
    decreases |chunks|
  {
    hide ParseChunks, IsChunk, IsTail, ChunkText;
    if chunks == [] {
      assert input[..n][0..] == input[..n];
      TailTaken(input, last, lines, limits, decoded, bytes, count, fate, body.trailers, n);
    } else {
      var c, rest := chunks[0], chunks[1..];
      var k := |ChunkText(c)|;
      ChunksSplit(input, chunks, n);
      ChunkTaken(input, c, limits, decoded, bytes, count, fate);
      assert input[k..][..n - k][|ChunksText(rest)|..] == input[..n][|ChunksText(chunks)|..];
      var tail := Body(ChunksData(rest), body.trailers);
      ChunkedForth(input[k..], rest, last, lines, limits, decoded + |c.data|, bytes, count, fate, tail, n - k);
    }
  }

  lemma ChunksSplit(input: string, chunks: seq<Chunk>, n: nat)
    requires chunks != [] && n <= |input|
    requires |ChunksText(chunks)| <= n && input[..n][..|ChunksText(chunks)|] == ChunksText(chunks)
    ensures var k, rest := |ChunkText(chunks[0])|, ChunksText(chunks[1..]);
            && k + |rest| == |ChunksText(chunks)| && input[..k] == ChunkText(chunks[0])
            && input[k..][..n - k][..|rest|] == rest
  {
    hide ChunkText;
    var k, m := |ChunkText(chunks[0])|, |ChunksText(chunks)|;
    assert input[..k] == input[..n][..m][..k];
    assert input[k..][..n - k][..m - k] == input[..n][..m][k..];
  }

  /** The first size line of an accepted chunked body. */
  lemma SizeLineBack(input: string, limits: Limits, decoded: nat, bytes: nat, count: nat, fate: Fate) returns (line: string, size: usize)
    requires decoded <= limits.maxBody && ParseChunks(input, limits, decoded, bytes, count, fate).Done?
    ensures |line| <= limits.maxStartLine && |line| + 2 <= |input| && input[..|line| + 2] == line + CRLF && SpellsSize(line, size)
    ensures var p, after := ParseChunks(input, limits, decoded, bytes, count, fate), input[|line| + 2..];
            if size == 0 then
              var q := ParseFields(after, limits, bytes, count, fate);
              q.Done? && ValidTrailers(q.value.fields) && p == Done(Body("", q.value.fields), |line| + 2 + q.used)
            else
              && size <= |after| && decoded + size <= limits.maxBody
              && |after| >= size + 2 && after[size..size + 2] == CRLF
              && var q := ParseChunks(after[size + 2..], limits, decoded + size, bytes, count, fate);
                 q.Done? && p == Done(Body(after[..size] + q.value.data, q.value.trailers), |line| + 2 + size + 2 + q.used)
  {
    hide ParseLine, ParseFields, SpellsSize, ChunkSize, ValidTrailers, IsLine;
    var first := ParseLine(input, limits.maxStartLine, fate);
    line := first.value;
    LineIff(input, limits.maxStartLine, fate, line, first.used);
    size := ChunkSize(line).value;
    SizeIff(line, size);
    var after := input[first.used..];
    if size > 0 {
      assert ParseChunks(input, limits, decoded, bytes, count, fate)
          == AddData("", first.used, ParseChunkData(after, size, limits, decoded, bytes, count, fate));
      ChunkDataBack(after, size, limits, decoded, bytes, count, fate);
      var q := ParseChunks(after[size + 2..], limits, decoded + size, bytes, count, fate);
      assert "" + (after[..size] + q.value.data) == after[..size] + q.value.data;
    }
  }

  lemma ChunkDataBack(input: string, size: nat, limits: Limits, decoded: nat, bytes: nat, count: nat, fate: Fate)
    requires decoded + size <= limits.maxBody && ParseChunkData(input, size, limits, decoded, bytes, count, fate).Done?
    ensures size + 2 <= |input| && input[size..size + 2] == CRLF
    ensures var q := ParseChunks(input[size + 2..], limits, decoded + size, bytes, count, fate);
            && q.Done?
            && ParseChunkData(input, size, limits, decoded, bytes, count, fate)
               == Done(Body(input[..size] + q.value.data, q.value.trailers), size + 2 + q.used)
  {
    hide ParseChunks;
    var ending := input[size..];
    assert ending[2..] == input[size + 2..];
    assert ParseChunkEnd(ending, limits, decoded + size, bytes, count, fate).Done?;
    assert "" + ParseChunks(ending[2..], limits, decoded + size, bytes, count, fate).value.data
        == ParseChunks(ending[2..], limits, decoded + size, bytes, count, fate).value.data;
  }

  lemma {:induction false} ChunkedBack(input: string, limits: Limits, decoded: nat, bytes: nat, count: nat, fate: Fate)
    returns (chunks: seq<Chunk>, last: string, lines: seq<string>)
    requires decoded <= limits.maxBody && ParseChunks(input, limits, decoded, bytes, count, fate).Done?
    ensures var p := ParseChunks(input, limits, decoded, bytes, count, fate);
            p.used <= |input| && IsChunked(input[..p.used], chunks, last, lines, limits, decoded, bytes, count, p.value)
    decreases |input|
  {
    hide ParseChunks, ParseFields, SpellsSize, IsBlock, ValidTrailers, IsTail;
    var p := ParseChunks(input, limits, decoded, bytes, count, fate);
    var line, size := SizeLineBack(input, limits, decoded, bytes, count, fate);
    var k := |line| + 2;
    if size == 0 {
      last, chunks := line, [];
      lines := TailBack(input, line, limits, bytes, count, fate);
      assert input[..p.used][0..] == input[..p.used];
    } else {
      var rest := input[k..][size + 2..];
      var c := Chunk(line, input[k..][..size]);
      var more;
      more, last, lines := ChunkedBack(rest, limits, decoded + size, bytes, count, fate);
      chunks := [c] + more;
      ChunkInFront(input, c, more, p.used);
      assert rest[..p.used - |ChunkText(c)|][|ChunksText(more)|..] == input[..p.used][|ChunksText(chunks)|..];
    }
  }

  lemma TailBack(input: string, line: string, limits: Limits, bytes: nat, count: nat, fate: Fate) returns (lines: seq<string>)
    requires |line| <= limits.maxStartLine && |line| + 2 <= |input| && input[..|line| + 2] == line + CRLF && SpellsSize(line, 0)
    requires var q := ParseFields(input[|line| + 2..], limits, bytes, count, fate); q.Done? && ValidTrailers(q.value.fields)
    ensures var q := ParseFields(input[|line| + 2..], limits, bytes, count, fate);
            |line| + 2 + q.used <= |input| && IsTail(input[..|line| + 2 + q.used], line, lines, limits, bytes, count, q.value.fields)
  {
    hide ParseFields, SpellsSize, ValidTrailers, TrailersAllowed, SpellFields;
    var k := |line| + 2;
    var q := ParseFields(input[k..], limits, bytes, count, fate);
    lines := BlockBack(input[k..], limits, bytes, count, fate);
    TrailersIff(q.value.fields);
    assert input[..k + q.used] == input[..k] + input[k..][..q.used];
    assert q.value == Block(q.value.fields, bytes + q.used, count + |lines|);
  }

  lemma ChunkInFront(input: string, c: Chunk, more: seq<Chunk>, n: nat)
    requires |ChunkText(c)| <= n <= |input| && input[..|c.line| + 2] == c.line + CRLF
    requires input[|c.line| + 2..][..|c.data|] == c.data && input[|c.line| + 2..][|c.data|..|c.data| + 2] == CRLF
    requires var rest := input[|c.line| + 2..][|c.data| + 2..][..n - |ChunkText(c)|];
             |ChunksText(more)| <= |rest| && rest[..|ChunksText(more)|] == ChunksText(more)
    ensures var text := ChunksText([c] + more);
            && |text| == |ChunkText(c)| + |ChunksText(more)| <= n && input[..n][..|text|] == text
            && input[|c.line| + 2..][|c.data| + 2..] == input[|ChunkText(c)|..]
  {
    var k := |c.line| + 2;
    assert ([c] + more)[1..] == more;
    var text := ChunksText([c] + more);
    assert text == ChunkText(c) + ChunksText(more);
    var m := |ChunkText(c)|;
    assert input[k..][|c.data| + 2..] == input[m..];
    assert input[..m] == input[..k] + (input[k..][..|c.data|] + input[k..][|c.data|..|c.data| + 2]);
    assert input[..|text|] == input[..m] + input[m..][..n - m][..|text| - m];
    assert input[..n][..|text|] == input[..|text|];
  }

  /** Parsing accepts exactly the chunked bodies of the grammar, each with the data and trailers it spells. */
  lemma ChunkedIff(input: string, limits: Limits, decoded: nat, bytes: nat, count: nat, fate: Fate, body: Body, n: nat)
    requires decoded <= limits.maxBody
    ensures ParseChunks(input, limits, decoded, bytes, count, fate) == Done(body, n) <==>
              n <= |input| && exists chunks, last, lines :: IsChunked(input[..n], chunks, last, lines, limits, decoded, bytes, count, body)
  {
    hide ParseChunks, IsChunked;
    if n <= |input| && exists chunks, last, lines :: IsChunked(input[..n], chunks, last, lines, limits, decoded, bytes, count, body) {
      var chunks, last, lines :| IsChunked(input[..n], chunks, last, lines, limits, decoded, bytes, count, body);
      ChunkedForth(input, chunks, last, lines, limits, decoded, bytes, count, fate, body, n);
    }
    if ParseChunks(input, limits, decoded, bytes, count, fate) == Done(body, n) {
      var chunks, last, lines := ChunkedBack(input, limits, decoded, bytes, count, fate);
    }
  }

  /** The connection ends, in good order, behind the first `n` bytes. */
  predicate Closed(input: string, n: nat, fate: Fate) {
    n == |input| && fate == Eof
  }

  /** The bytes of a body with the given framing; `closed` says that the connection ends with them. */
  ghost predicate IsBody(text: string, info: BodyInfo, limits: Limits, bytes: nat, count: nat, closed: bool, body: Body) {
    match info.kind
    case NoBody => text == "" && body == Body("", [])
    case ContentLength => |text| == info.contentLength <= limits.maxBody && body == Body(text, [])
    case Chunked => exists chunks, last, lines :: IsChunked(text, chunks, last, lines, limits, 0, bytes, count, body)
    case CloseDelimited => closed && |text| <= limits.maxBody && body == Body(text, [])
  }

  lemma BodyIff(input: string, info: BodyInfo, limits: Limits, bytes: nat, count: nat, fate: Fate, body: Body, n: nat)
    ensures ParseBody(input, info, limits, bytes, count, fate) == Done(body, n) <==>
              n <= |input| && IsBody(input[..n], info, limits, bytes, count, Closed(input, n, fate), body)
  {
    hide ParseChunks, IsChunked;
    ChunkedIff(input, limits, 0, bytes, count, fate, body, n);
    assert input[..|input|] == input;
  }

  // ---------------------------------------------------------------- whole messages

  /** A request as bytes: a head of `k` bytes and the body it announces. */
  ghost predicate IsRequest(text: string, closed: bool, limits: Limits, q: Request,
                            k: nat, start: string, lines: seq<string>, o: Opened<RequestHead>) {
    && k <= |text| && IsRequestHead(text[..k], start, lines, limits, o) && o.head == q.head
    && IsBody(text[k..], o.info, limits, o.bytes, o.count, closed, Body(q.body, q.trailers))
  }

  ghost predicate IsResponse(text: string, verb: string, closed: bool, limits: Limits, p: Response,
                             k: nat, start: string, lines: seq<string>, o: Opened<ResponseHead>) {
    && k <= |text| && IsResponseHead(text[..k], verb, start, lines, limits, o) && o.head == p.head
    && IsBody(text[k..], o.info, limits, o.bytes, o.count, closed, Body(p.body, p.trailers))
  }

  lemma HeadNotEmpty(text: string, start: string, lines: seq<string>, limits: Limits, b: Block)
    requires IsHead(text, start, lines, limits, b)
    ensures text != ""
  {
    hide IsBlock;
  }

  /** Reading a request succeeds exactly on the requests of the grammar, each with its own bytes and contents. */
  lemma RequestIff(input: string, limits: Limits, fate: Fate, q: Request, n: nat)
    ensures ParseRequest(input, limits, fate) == Done(Some(q), n) <==>
              n <= |input| && exists k: nat, start, lines, o ::
                IsRequest(input[..n], Closed(input, n, fate), limits, q, k, start, lines, o)
  {
    hide ParseRequestHead, ParseBody, IsHead, SpellsRequestLine, RequestMeets, IsBody;
    if n <= |input| && exists k: nat, start, lines, o ::
         IsRequest(input[..n], Closed(input, n, fate), limits, q, k, start, lines, o) {
      var k: nat, start, lines, o :| IsRequest(input[..n], Closed(input, n, fate), limits, q, k, start, lines, o);
      assert input[..n][..k] == input[..k] && input[..n][k..] == input[k..][..n - k];
      HeadNotEmpty(input[..k], start, lines, limits, Block(o.head.fields, o.bytes, o.count));
      RequestHeadIff(input, limits, fate, o, k);
      BodyIff(input[k..], o.info, limits, o.bytes, o.count, fate, Body(q.body, q.trailers), n - k);
    }
    if ParseRequest(input, limits, fate) == Done(Some(q), n) {
      var head := ParseRequestHead(input, limits, fate);
      var k, o := head.used, head.value;
      RequestHeadIff(input, limits, fate, o, k);
      BodyIff(input[k..], o.info, limits, o.bytes, o.count, fate, Body(q.body, q.trailers), n - k);
      var start, lines :| IsRequestHead(input[..k], start, lines, limits, o);
      assert input[..n][..k] == input[..k] && input[..n][k..] == input[k..][..n - k];
      assert IsRequest(input[..n], Closed(input, n, fate), limits, q, k, start, lines, o);
    }
  }

  /** The same for a response, given the method it answers. */
  lemma ResponseIff(input: string, verb: string, limits: Limits, fate: Fate, p: Response, n: nat)
    ensures ParseResponse(input, verb, limits, fate) == Done(Some(p), n) <==>
              n <= |input| && exists k: nat, start, lines, o ::
                IsResponse(input[..n], verb, Closed(input, n, fate), limits, p, k, start, lines, o)
  {
    hide ParseResponseHead, ParseBody, IsHead, SpellsStatusLine, ResponseMeets, IsBody;
    if n <= |input| && exists k: nat, start, lines, o ::
         IsResponse(input[..n], verb, Closed(input, n, fate), limits, p, k, start, lines, o) {
      var k: nat, start, lines, o :| IsResponse(input[..n], verb, Closed(input, n, fate), limits, p, k, start, lines, o);
      assert input[..n][..k] == input[..k] && input[..n][k..] == input[k..][..n - k];
      HeadNotEmpty(input[..k], start, lines, limits, Block(o.head.fields, o.bytes, o.count));
      ResponseHeadIff(input, verb, limits, fate, o, k);
      BodyIff(input[k..], o.info, limits, o.bytes, o.count, fate, Body(p.body, p.trailers), n - k);
    }
    if ParseResponse(input, verb, limits, fate) == Done(Some(p), n) {
      var head := ParseResponseHead(input, verb, limits, fate);
      var k, o := head.used, head.value;
      ResponseHeadIff(input, verb, limits, fate, o, k);
      BodyIff(input[k..], o.info, limits, o.bytes, o.count, fate, Body(p.body, p.trailers), n - k);
      var start, lines :| IsResponseHead(input[..k], verb, start, lines, limits, o);
      assert input[..n][..k] == input[..k] && input[..n][k..] == input[k..][..n - k];
      assert IsResponse(input[..n], verb, Closed(input, n, fate), limits, p, k, start, lines, o);
    }
  }
}
