/**
  The buffered HTTP/1 reader: a state machine that pulls bytes from a connection
  in whatever fragments it delivers them.
 */
module HttpReader {
  import opened Text
  import opened Numerals
  import opened HttpFields
  import opened HttpFraming
  import opened HttpWire

  // ------------------------------------------------------------------- the connection

  /** What the connection does at one read: report an interruption, or serve at most `extra + 1` bytes. */
  datatype Turn = Interrupted | Deliver(extra: nat)

  datatype IoResult = Count(n: nat) | IoInterrupted | IoFailed

  /** A byte stream cut into arbitrary nonempty fragments, followed by an arbitrary fate. */
  class ByteSource {
    const fate: Fate
    var rest: string
    var schedule: seq<Turn>

    constructor (rest: string, schedule: seq<Turn>, fate: Fate)
      ensures this.rest == rest && this.schedule == schedule && this.fate == fate
    {
      this.rest, this.schedule, this.fate := rest, schedule, fate;
    }

    method Read(target: array<char>) returns (r: IoResult)
      requires target.Length > 0
      modifies this, target
      ensures r.IoInterrupted? ==> rest == old(rest) && |schedule| < |old(schedule)|
      ensures r.IoFailed? ==> old(rest) == [] == rest && fate == Broken
      ensures r.Count? && r.n > target.Length ==> old(rest) == [] == rest && fate == Overrun
      ensures r.Count? && r.n <= target.Length ==>
                r.n <= |old(rest)| && target[..r.n] == old(rest)[..r.n] && rest == old(rest)[r.n..]
      ensures r == Count(0) ==> old(rest) == [] && fate == Eof
    {
      var most := |rest|;
      if schedule != [] {
        var turn := schedule[0];
        schedule := schedule[1..];
        if turn == Interrupted {
          return IoInterrupted;
        }
        most := turn.extra + 1;
      }
      if rest == [] {
        return match fate case Eof => Count(0) case Broken => IoFailed case Overrun => Count(target.Length + 1);
      }
      var n := if most < |rest| then most else |rest|;
      n := if n < target.Length then n else target.Length;
      var fragment := rest[..n];
      forall i | 0 <= i < n {
        target[i] := fragment[i];
      }
      rest := rest[n..];
      r := Count(n);
    }
  }

  // ----------------------------------------------------------------------- the reader

  datatype ReadState =
    | Ready
    | ReadingHead
    | FixedBody
    | ChunkSizeLine
    | ChunkData
    | ChunkDataEnding
    | CloseDelimitedBody
    | BodyComplete
    | Failed

  /** No further head, body, finish or discard call can succeed. */
  predicate IsDead(state: ReadState) {
    state == ReadingHead || state == Failed
  }

  /** A message has been opened and not yet finished. */
  predicate IsOpen(state: ReadState) {
    state != Ready && !IsDead(state)
  }

  predicate IsChunked(state: ReadState) {
    state == ChunkSizeLine || state == ChunkData || state == ChunkDataEnding
  }

  /** `n` bytes in, the fields read so far and those of the rest make up the whole block. */
  ghost predicate FieldsLeft(whole: Parse<Block>, read: seq<Header>, input: string, n: nat,
                             limits: Limits, bytes: nat, count: nat, fate: Fate)
    requires n <= |input|
  {
    whole == AddField(read, n, ParseFields(input[n..], limits, bytes, count, fate))
  }

  lemma FieldsStart(input: string, limits: Limits, bytes: nat, count: nat, fate: Fate)
    ensures FieldsLeft(ParseFields(input, limits, bytes, count, fate), [], input, 0, limits, bytes, count, fate)
  {
    hide ParseFields, AddField;
    assert input[0..] == input;
    AddFieldNothing(ParseFields(input, limits, bytes, count, fate));
  }

  /** Moving past one field line moves that field from the unread block to the fields read so far. */
  lemma ParseFieldsStep(whole: Parse<Block>, read: seq<Header>, input: string, n: nat,
                        limits: Limits, bytes: nat, count: nat, fate: Fate)
    requires n <= |input| && FieldsLeft(whole, read, input, n, limits, bytes, count, fate)
    ensures match ParseFieldLine(input[n..], limits, bytes, count, fate)
            case Fail(k) => whole == Fail(k)
            case Done(None, m) => n + m <= |input| && input[n..][m..] == input[n + m..]
                                  && whole == Done(Block(read, bytes + m, count), n + m)
            case Done(Some(h), m) => n + m <= |input| && input[n..][m..] == input[n + m..]
                                     && FieldsLeft(whole, read + [h], input, n + m, limits, bytes + m, count + 1, fate)
  {
    hide ParseFieldLine;
    match ParseFieldLine(input[n..], limits, bytes, count, fate)
    case Fail(k) =>
    case Done(None, m) =>
      assert read + [] == read;
      assert input[n..][m..] == input[n + m..];
    case Done(Some(h), m) =>
      assert input[n..][m..] == input[n + m..];
      AddFieldTwice(read, n, [h], m, ParseFields(input[n + m..], limits, bytes + m, count + 1, fate));
  }

  const BUFFER_SIZE: nat := 8192

  class Http1Reader {
    const source: ByteSource
    const limits: Limits
    const buffer: array<char>
    var position: usize
    var filled: usize
    var state: ReadState
    var bodyInfo: BodyInfo
    var bodyRemaining: usize
    var bodyDecoded: usize
    var usedHeaderBytes: usize
    var usedHeaderCount: usize
    var bodyTrailers: seq<Header>
    var lastHeadMethod: string

    ghost predicate BufferValid()
      reads this`position, this`filled
    {
      buffer.Length == BUFFER_SIZE && position <= filled <= buffer.Length
    }

    /**
      The counters never exceed their limits, whatever the peer sends. Decoded plus remaining
      bytes are bounded while a body can still be read; a refused length stays in
      `bodyRemaining` of a failed reader.
     */
    ghost predicate CountersValid()
      reads this
    {
      && usedHeaderBytes <= limits.maxHeaderBytes
      && usedHeaderCount <= limits.maxHeaderCount
      && bodyDecoded <= limits.maxBody
      && (state != Failed ==> bodyDecoded + bodyRemaining <= limits.maxBody)
      && (state == FixedBody || state == ChunkData ==> bodyRemaining > 0)
      && (state != FixedBody && state != ChunkData && state != Failed ==> bodyRemaining == 0)
      && (state == FixedBody || state == CloseDelimitedBody ==> bodyTrailers == [])
      && (!limits.Positive() ==> state == Ready)
    }

    ghost predicate Valid()
      reads this
    {
      BufferValid() && CountersValid()
    }

    /** The bytes not yet consumed: those read ahead and those still in the connection. */
    ghost function Pending(): string
      requires BufferValid()
      reads this`position, this`filled, buffer, source`rest
    {
      buffer[position..filled] + source.rest
    }

    /** What is left of the current body, as a function of the state and the pending bytes. */
    ghost function Remaining(): Parse<Body>
      requires Valid()
      reads this, buffer, source
    {
      match state
      case FixedBody => ParseFixed(Pending(), bodyRemaining, source.fate)
      case ChunkSizeLine => ParseChunks(Pending(), limits, bodyDecoded, usedHeaderBytes, usedHeaderCount, source.fate)
      case ChunkData =>
        ParseChunkData(Pending(), bodyRemaining, limits, bodyDecoded, usedHeaderBytes, usedHeaderCount, source.fate)
      case ChunkDataEnding => ParseChunkEnd(Pending(), limits, bodyDecoded, usedHeaderBytes, usedHeaderCount, source.fate)
      case CloseDelimitedBody => ParseUntilClose(Pending(), limits, bodyDecoded, source.fate)
      case BodyComplete => Done(Body("", bodyTrailers), 0)
      case _ => Fail(InvalidState)
    }

    constructor (source: ByteSource, limits: Limits)
      ensures Valid() && fresh(buffer)
      ensures this.source == source && this.limits == limits
      ensures state == Ready && Pending() == source.rest
    {
      this.source, this.limits := source, limits;
      buffer := new char[BUFFER_SIZE];
      position, filled, state := 0, 0, Ready;
      bodyInfo, bodyRemaining, bodyDecoded := BodyInfo(NoBody, 0), 0, 0;
      usedHeaderBytes, usedHeaderCount, bodyTrailers, lastHeadMethod := 0, 0, [], "";
    }

    // ------------------------------------------------------------------- byte supply

    /** Makes a byte available; `false` is the end of the connection. No byte is lost or invented. */
    method FillBuffer() returns (r: Outcome<bool>)
      requires BufferValid()
      modifies this`position, this`filled, buffer, source
      ensures BufferValid() && Pending() == old(Pending())
      ensures r == Ok(true) ==> position < filled
      ensures r == Ok(false) ==> Pending() == [] && source.fate == Eof
      ensures r.Err? ==> Pending() == [] && source.fate != Eof && r.kind == Cut(source.fate)
    {
      if position < filled {
        return Ok(true);
      }
      while true
        invariant BufferValid() && position == filled
        invariant source.rest == old(source.rest)
        decreases |source.schedule|
      {
        var read := source.Read(buffer);
        if read.IoInterrupted? {
          continue;
        }
        if read.IoFailed? {
          return Err(Io);
        }
        if read.n > buffer.Length {
          return Err(InvalidMessage);
        }
        position, filled := 0, read.n;
        return Ok(read.n != 0);
      }
    }

    method ReadByte() returns (r: Outcome<Option<char>>)
      requires BufferValid()
      modifies this`position, this`filled, buffer, source
      ensures BufferValid()
      ensures old(Pending()) != [] ==> r == Ok(Some(old(Pending())[0])) && Pending() == old(Pending())[1..]
      ensures old(Pending()) == [] && source.fate == Eof ==> r == Ok(None) && Pending() == []
      ensures old(Pending()) == [] && source.fate != Eof ==> r == Err(Cut(source.fate)) && Pending() == []
    {
      var ready := FillBuffer();
      if ready.Err? {
        return Err(ready.kind);
      }
      if !ready.value {
        return Ok(None);
      }
      var c := buffer[position];
      assert Pending()[0] == c;
      position := position + 1;
      r := Ok(Some(c));
    }

    method ReadLine(limit: nat, allowCleanEof: bool) returns (r: Outcome<Option<string>>)
      requires BufferValid()
      modifies this`position, this`filled, buffer, source
      ensures BufferValid()
      ensures allowCleanEof && old(Pending()) == [] && source.fate == Eof ==> r == Ok(None) && Pending() == []
      ensures !(allowCleanEof && old(Pending()) == [] && source.fate == Eof) ==>
                match ParseLine(old(Pending()), limit, source.fate)
                case Fail(k) => r == Err(k)
                case Done(line, n) => r == Ok(Some(line)) && Pending() == old(Pending())[n..]
    {
      hide Pending, BufferValid, LineSpan;
      ghost var input := Pending();
      ghost var at: nat := 0;
      var line := "";
      var sawCarriageReturn := false;
      var sawAnyByte := false;
      assert input[0..] == input;
      while true
        invariant BufferValid()
        invariant |line| <= limit && |line| <= |input| && line == input[..|line|]
        invariant forall i :: 0 <= i < |line| ==> IsLineByte(input[i])
        invariant sawCarriageReturn ==> |line| < |input| && input[|line|] == '\r'
        invariant at == |line| + (if sawCarriageReturn then 1 else 0) && at <= |input| && Pending() == input[at..]
        invariant sawAnyByte <==> |line| > 0 || sawCarriageReturn
        decreases |input| - at
      {
        var next := ReadByte();
        if next.Err? || next.value.None? {
          LineSpanIs(input, |line|);
          if next.Err? {
            return Err(next.kind);
          }
          if allowCleanEof && !sawAnyByte {
            return Ok(None);
          }
          return Err(InvalidMessage);
        }
        sawAnyByte := true;
        var c := next.value.value;
        assert c == input[at..][0] == input[at];
        SliceTwice(input, at, 1);
        at := at + 1;
        if sawCarriageReturn {
          LineSpanIs(input, |line|);
          if c != '\n' {
            return Err(InvalidMessage);
          }
          return Ok(Some(line));
        }
        if c == '\r' {
          sawCarriageReturn := true;
          continue;
        }
        if c == '\n' {
          LineSpanIs(input, |line|);
          return Err(InvalidMessage);
        }
        if |line| >= limit {
          SpanExceeds(input, limit);
          return Err(HeaderLimitExceeded);
        }
        line := line + [c];
        assert input[..at] == input[..at - 1] + [c];
      }
    }

    /** One header line; `None` is the empty line. `bytes` is the budget used after it. */
    method ReadHeaderLine(usedBytes: usize, usedCount: usize) returns (r: Outcome<Option<Header>>, bytes: usize)
      requires BufferValid() && usedBytes <= limits.maxHeaderBytes
      modifies this`position, this`filled, buffer, source
      ensures BufferValid() && bytes <= limits.maxHeaderBytes
      ensures match ParseFieldLine(old(Pending()), limits, usedBytes, usedCount, source.fate)
              case Fail(k) => r == Err(k)
              case Done(h, n) => r == Ok(h) && bytes == usedBytes + n && Pending() == old(Pending())[n..]
    {
      bytes := usedBytes;
      if bytes >= limits.maxHeaderBytes {
        return Err(HeaderLimitExceeded), bytes;
      }
      var next := ReadLine(limits.maxHeaderBytes - bytes, false);
      if next.Err? {
        return Err(next.kind), bytes;
      }
      var line := next.value.value;
      if |line| + 2 > limits.maxHeaderBytes - bytes {
        return Err(HeaderLimitExceeded), bytes;
      }
      bytes := bytes + |line| + 2;
      if line == "" {
        return Ok(None), bytes;
      }
      if IsOws(line[0]) {
        return Err(InvalidMessage), bytes;
      }
      if usedCount >= limits.maxHeaderCount {
        return Err(HeaderLimitExceeded), bytes;
      }
      var colon := IndexOf(line, ':');
      if colon == |line| {
        return Err(InvalidMessage), bytes;
      }
      var value := TrimOws(line[colon + 1..]);
      var header := Header(line[..colon], value);
      if !ValidHeader(header) {
        return Err(InvalidMessage), bytes;
      }
      r := Ok(Some(header));
    }

    /** Reads a block of fields against the budget already used; the budget stays within its limits. */
    method ReadHeaders(usedBytes: usize, usedCount: usize) returns (r: Outcome<seq<Header>>, bytes: usize, count: usize)
      requires BufferValid() && usedBytes <= limits.maxHeaderBytes && usedCount <= limits.maxHeaderCount
      modifies this`position, this`filled, buffer, source
      ensures BufferValid() && bytes <= limits.maxHeaderBytes && count <= limits.maxHeaderCount
      ensures match ParseFields(old(Pending()), limits, usedBytes, usedCount, source.fate)
              case Fail(k) => r == Err(k)
              case Done(b, n) => r == Ok(b.fields) && bytes == b.bytes && count == b.count && Pending() == old(Pending())[n..]
    {
      hide Pending, BufferValid, ParseFieldLine, ParseFields, FieldsLeft;
      var headers: seq<Header> := [];
      ghost var input := Pending();
      ghost var n: nat := 0;
      bytes, count := usedBytes, usedCount;
      ghost var whole := ParseFields(input, limits, bytes, count, source.fate);
      FieldsStart(input, limits, bytes, count, source.fate);
      assert input[0..] == input;
      while true
        invariant BufferValid()
        invariant bytes <= limits.maxHeaderBytes && count <= limits.maxHeaderCount
        invariant n <= |input| && Pending() == input[n..]
        invariant FieldsLeft(whole, headers, input, n, limits, bytes, count, source.fate)
        decreases |input| - n
      {
        ghost var parsed := ParseFieldLine(input[n..], limits, bytes, count, source.fate);
        ParseFieldsStep(whole, headers, input, n, limits, bytes, count, source.fate);
        var line;
        line, bytes := ReadHeaderLine(bytes, count);
        if line.Err? {
          return Err(line.kind), bytes, count;
        }
        if line.value.None? {
          return Ok(headers), bytes, count;
        }
        headers := headers + [line.value.value];
        count := count + 1;
        n := n + parsed.used;
      }
    }

    // ------------------------------------------------------------------- message heads

    method EnsureReady() returns (r: Outcome<()>)
      requires Valid()
      modifies this`state
      ensures Valid() && Pending() == old(Pending())
      ensures old(state) != Ready ==> r == Err(InvalidState) && state == old(state)
      ensures old(state) == Ready && !limits.Positive() ==> r == Err(InvalidMessage) && state == Ready
      ensures old(state) == Ready && limits.Positive() ==> r == Ok(()) && state == ReadingHead
    {
      if state != Ready {
        return Err(InvalidState);
      }
      if !limits.Positive() {
        return Err(InvalidMessage);
      }
      state := ReadingHead;
      r := Ok(());
    }

    /** Opens the body announced by `info`: from here on `Remaining` is that body. */
    method BeginBody(info: BodyInfo, bytes: usize, count: usize) returns (r: Outcome<()>)
      requires BufferValid() && limits.Positive()
      requires bytes <= limits.maxHeaderBytes && count <= limits.maxHeaderCount
      requires info.kind != ContentLength ==> info.contentLength == 0
      modifies this`state, this`bodyInfo, this`bodyRemaining, this`bodyDecoded, this`usedHeaderBytes,
               this`usedHeaderCount, this`bodyTrailers
      ensures Valid() && Pending() == old(Pending())
      ensures info.kind == ContentLength && info.contentLength > limits.maxBody ==>
                r == Err(BodyLimitExceeded) && state == Failed
      ensures !(info.kind == ContentLength && info.contentLength > limits.maxBody) ==>
                r == Ok(()) && IsOpen(state) && bodyInfo == info
                && Remaining() == ParseBody(Pending(), info, limits, bytes, count, source.fate)
    {
      hide Pending, ParseChunks, ParseUntilClose;
      bodyInfo := info;
      bodyRemaining, bodyDecoded := info.contentLength, 0;
      usedHeaderBytes, usedHeaderCount := bytes, count;
      bodyTrailers := [];
      if info.kind == ContentLength && info.contentLength > limits.maxBody {
        state := Failed;
        return Err(BodyLimitExceeded);
      }
      state := match info.kind
        case NoBody => BodyComplete
        case ContentLength => if info.contentLength == 0 then BodyComplete else FixedBody
        case Chunked => ChunkSizeLine
        case CloseDelimited => CloseDelimitedBody;
      r := Ok(());
    }

    /** The result of opening a message whose head is found at the start of the pending bytes. */
    ghost predicate Announces<H>(parsed: Parse<Opened<H>>, before: string, r: Outcome<Option<H>>)
      requires Valid() && (parsed.Done? ==> parsed.used <= |before|)
      reads this, buffer, source
    {
      match parsed
      case Fail(k) => r == Err(k) && IsDead(state)
      case Done(o, n) =>
        if o.info.kind == ContentLength && o.info.contentLength > limits.maxBody
        then r == Err(BodyLimitExceeded) && IsDead(state)
        else r == Ok(Some(o.head)) && IsOpen(state) && bodyInfo == o.info && Pending() == before[n..]
             && Remaining() == ParseBody(Pending(), o.info, limits, o.bytes, o.count, source.fate)
    }

    method ReadRequestHead() returns (r: Outcome<Option<RequestHead>>)
      requires Valid()
      modifies this, buffer, source
      ensures Valid()
      ensures old(state) != Ready ==> r == Err(InvalidState) && state == old(state)
      ensures old(state) == Ready && !limits.Positive() ==> r == Err(InvalidMessage) && state == Ready
      ensures old(state) == Ready && limits.Positive() ==>
                if old(Pending()) == [] && source.fate == Eof
                then r == Ok(None) && state == Ready && Pending() == []
                else Announces(ParseRequestHead(old(Pending()), limits, source.fate), old(Pending()), r)
      ensures lastHeadMethod == if old(state) == Ready && limits.Positive()
                                then MethodSeen(old(Pending()), limits, source.fate, old(lastHeadMethod))
                                else old(lastHeadMethod)
      ensures r.Ok? && r.value.Some? ==> lastHeadMethod == r.value.value.verb
    {
      hide Pending, BufferValid, ParseLine, ParseFields, ParseRequestLine, RequestMethod, RequestFraming;
      ghost var input := Pending();
      var ready := EnsureReady();
      if ready.Err? {
        return Err(ready.kind);
      }
      var line := ReadLine(limits.maxStartLine, true);
      if line.Err? {
        return Err(line.kind);
      }
      EmptyHasNoLine(limits.maxStartLine, source.fate);
      if line.value.None? {
        state := Ready;
        return Ok(None);
      }
      r := ContinueRequestHead(line.value.value, input);
    }

    /** The head after its first line. */
    method ContinueRequestHead(line: string, ghost input: string) returns (r: Outcome<Option<RequestHead>>)
      requires Valid() && limits.Positive() && state == ReadingHead
      requires var first := ParseLine(input, limits.maxStartLine, source.fate);
               first.Done? && first.value == line && Pending() == input[first.used..]
      modifies this, buffer, source
      ensures Valid() && Announces(ParseRequestHead(input, limits, source.fate), input, r)
      ensures lastHeadMethod == MethodSeen(input, limits, source.fate, old(lastHeadMethod))
      ensures r.Ok? && r.value.Some? ==> lastHeadMethod == r.value.value.verb
    {
      hide Pending, BufferValid, ParseLine, ParseFields, ParseRequestLine, RequestMethod, RequestFraming, ParseBody, Remaining;
      ghost var n := ParseLine(input, limits.maxStartLine, source.fate).used;
      // The method is recorded before the version is looked at.
      RequestMethodIs(line);
      var named := RequestMethod(line);
      if named.Some? {
        lastHeadMethod := named.value;
      }
      var start := ParseRequestLine(line);
      if start.Err? {
        return Err(start.kind);
      }
      var fields, bytes, count := ReadHeaders(0, 0);
      if fields.Err? {
        return Err(fields.kind);
      }
      ghost var m := ParseFields(input[n..], limits, 0, 0, source.fate).used;
      assert input[n..][m..] == input[n + m..];
      var head := start.value.(fields := fields.value);
      var framing := CheckRequestHead(head);
      if framing.Err? {
        return Err(framing.kind);
      }
      var begun := BeginBody(framing.value, bytes, count);
      if begun.Err? {
        return Err(begun.kind);
      }
      r := Ok(Some(head));
    }

    method ReadResponseHead(verb: string) returns (r: Outcome<Option<ResponseHead>>)
      requires Valid()
      modifies this, buffer, source
      ensures Valid()
      ensures old(state) != Ready ==> r == Err(InvalidState) && state == old(state)
      ensures old(state) == Ready && !limits.Positive() ==> r == Err(InvalidMessage) && state == Ready
      ensures old(state) == Ready && limits.Positive() ==>
                if old(Pending()) == [] && source.fate == Eof
                then r == Ok(None) && state == Ready && Pending() == []
                else Announces(ParseResponseHead(old(Pending()), verb, limits, source.fate), old(Pending()), r)
    {
      hide Pending, BufferValid, ParseLine, ParseFields, ParseStatusLine, ResponseFraming;
      ghost var input := Pending();
      var ready := EnsureReady();
      if ready.Err? {
        return Err(ready.kind);
      }
      var line := ReadLine(limits.maxStartLine, true);
      if line.Err? {
        return Err(line.kind);
      }
      if line.value.None? {
        state := Ready;
        return Ok(None);
      }
      r := ContinueResponseHead(verb, line.value.value, input);
    }

    /** The head after its first line. */
    method ContinueResponseHead(verb: string, line: string, ghost input: string) returns (r: Outcome<Option<ResponseHead>>)
      requires Valid() && limits.Positive() && state == ReadingHead
      requires var first := ParseLine(input, limits.maxStartLine, source.fate);
               first.Done? && first.value == line && Pending() == input[first.used..]
      modifies this, buffer, source
      ensures Valid() && Announces(ParseResponseHead(input, verb, limits, source.fate), input, r)
    {
      hide Pending, BufferValid, ParseLine, ParseFields, ParseStatusLine, ResponseFraming, ParseBody, Remaining;
      ghost var n := ParseLine(input, limits.maxStartLine, source.fate).used;
      var start := ParseStatusLine(line);
      if start.Err? {
        return Err(start.kind);
      }
      var fields, bytes, count := ReadHeaders(0, 0);
      if fields.Err? {
        return Err(fields.kind);
      }
      ghost var m := ParseFields(input[n..], limits, 0, 0, source.fate).used;
      assert input[n..][m..] == input[n + m..];
      var head := start.value.(fields := fields.value);
      var framing := CheckResponseHead(head, verb);
      if framing.Err? {
        return Err(framing.kind);
      }
      var begun := BeginBody(framing.value, bytes, count);
      if begun.Err? {
        return Err(begun.kind);
      }
      r := Ok(Some(head));
    }

    // -------------------------------------------------------------------------- bodies

    /** Copies the next `n` buffered bytes out and consumes them. */
    method Take(output: array<char>, n: usize)
      requires BufferValid() && position + n <= filled && n <= output.Length && output != buffer
      modifies this`position, output
      ensures BufferValid() && n <= |old(Pending())|
      ensures output[..n] == old(Pending())[..n] && Pending() == old(Pending())[n..]
    {
      ghost var held, rest := buffer[position..filled], source.rest;
      assert Pending() == held + rest;
      SplitPending(held, rest, n);
      forall i | 0 <= i < n {
        output[i] := buffer[position + i];
      }
      assert output[..n] == held[..n];
      assert buffer[position + n..filled] == held[n..];
      position := position + n;
      assert Pending() == held[n..] + rest;
    }

    /** Fills the buffer if it is empty and takes at most `most` of it; zero bytes is the end of the connection. */
    method TakeAvailable(output: array<char>, most: usize) returns (r: Outcome<usize>)
      requires BufferValid() && 0 < most <= output.Length && output != buffer
      modifies this`position, this`filled, buffer, source, output
      ensures BufferValid()
      ensures r.Ok? ==> r.value <= most && r.value <= |old(Pending())| && output[..r.value] == old(Pending())[..r.value]
      ensures r.Ok? ==> Pending() == old(Pending())[r.value..]
      ensures r == Ok(0) ==> old(Pending()) == [] && source.fate == Eof
      ensures r.Err? ==> old(Pending()) == [] && r.kind == Cut(source.fate)
    {
      var ready := FillBuffer();
      if ready.Err? {
        return Err(ready.kind);
      }
      if !ready.value {
        return Ok(0);
      }
      var count := if most < filled - position then most else filled - position;
      Take(output, count);
      r := Ok(count);
    }

    /** `k` bytes were consumed and `data` delivered; the rest of the body is what `Remaining` says now. */
    ghost predicate Advanced(before: Parse<Body>, pending: string, data: string, k: nat)
      requires Valid()
      reads this, buffer, source
    {
      IsOpen(state) && k <= |pending| && Pending() == pending[k..] && before == AddData(data, k, Remaining())
    }

    lemma NotYet(whole: Parse<Body>, input: string)
      requires Valid() && IsOpen(state) && whole == Remaining() && input == Pending()
      ensures Advanced(whole, input, "", 0)
    {
      hide Pending, Remaining, AddData, BufferValid, CountersValid;
      AddDataNothing(whole);
      assert input[0..] == input;
    }

    /** What was consumed and delivered so far, spelled out. */
    lemma AdvancedIs(before: Parse<Body>, pending: string, data: string, k: nat)
      requires Valid() && Advanced(before, pending, data, k)
      ensures k <= |pending| && Pending() == pending[k..] && before == AddData(data, k, Remaining())
    {
      hide Pending, Remaining, AddData;
    }

    /** Two advances in a row are one. */
    lemma Onward(whole: Parse<Body>, input: string, data: string, k: nat, left: Parse<Body>, more: string, m: nat)
      requires Valid() && k <= |input| && whole == AddData(data, k, left) && Advanced(left, input[k..], more, m)
      ensures k + m <= |input| && Advanced(whole, input, data + more, k + m)
    {
      hide Pending, Remaining, AddData, BufferValid, CountersValid;
      var _ := Chain(whole, input, data, k, left, more, m, Remaining());
    }

    method ReadFixedBodyPart(output: array<char>, capacity: usize) returns (r: Outcome<usize>)
      requires Valid() && state == FixedBody && 0 < capacity <= output.Length && output != buffer
      modifies this, buffer, source, output
      ensures Valid()
      ensures r.Ok? ==> 0 < r.value <= capacity && Advanced(old(Remaining()), old(Pending()), output[..r.value], r.value)
      ensures r.Err? ==> old(Remaining()) == Fail(r.kind)
    {
      hide Pending, BufferValid, AddData, ParseChunks, ParseChunkData, ParseChunkEnd, ParseUntilClose;
      ghost var input := Pending();
      var taken := TakeAvailable(output, if capacity < bodyRemaining then capacity else bodyRemaining);
      if taken.Err? {
        return Err(taken.kind);
      }
      var count := taken.value;
      if count == 0 {
        return Err(InvalidMessage);
      }
      FixedSplits(input, count, bodyRemaining, source.fate);
      bodyRemaining := bodyRemaining - count;
      bodyDecoded := bodyDecoded + count;
      if bodyRemaining == 0 {
        state := BodyComplete;
      }
      r := Ok(count);
    }

    method ReadCloseDelimitedBodyPart(output: array<char>, capacity: usize) returns (r: Outcome<usize>)
      requires Valid() && state == CloseDelimitedBody && 0 < capacity <= output.Length && output != buffer
      modifies this, buffer, source, output
      ensures Valid()
      ensures r.Ok? ==> r.value <= capacity && (r.value == 0 ==> state == BodyComplete)
                        && Advanced(old(Remaining()), old(Pending()), output[..r.value], r.value)
      ensures r.Err? ==> old(Remaining()) == Fail(r.kind)
    {
      ghost var input := Pending();
      var ready := FillBuffer();
      if ready.Err? {
        return Err(ready.kind);
      }
      if !ready.value {
        state := BodyComplete;
        return Ok(0);
      }
      var count := if capacity < filled - position then capacity else filled - position;
      if count > limits.maxBody - bodyDecoded {
        return Err(BodyLimitExceeded);
      }
      Take(output, count);
      CloseSplits(input, count, limits, bodyDecoded, source.fate);
      bodyDecoded := bodyDecoded + count;
      r := Ok(count);
    }

    method ReadTrailers() returns (r: Outcome<()>)
      requires Valid() && state == ChunkSizeLine
      modifies this, buffer, source
      ensures Valid()
      ensures match ParseFields(old(Pending()), limits, old(usedHeaderBytes), old(usedHeaderCount), source.fate)
              case Fail(k) => r == Err(k)
              case Done(b, n) =>
                if !ValidTrailers(b.fields) then r == Err(InvalidMessage)
                else r == Ok(()) && state == BodyComplete && bodyTrailers == b.fields && Pending() == old(Pending())[n..]
    {
      hide Pending, BufferValid, ParseFields, ValidTrailers;
      var trailers, bytes, count := ReadHeaders(usedHeaderBytes, usedHeaderCount);
      usedHeaderBytes, usedHeaderCount := bytes, count;
      if trailers.Err? {
        return Err(trailers.kind);
      }
      bodyTrailers := trailers.value;
      if !ValidTrailers(bodyTrailers) {
        return Err(InvalidMessage);
      }
      state := BodyComplete;
      r := Ok(());
    }

    /** A chunk-size line: either opens the data of a chunk, or ends the body with its trailers. */
    method ReadChunkSize() returns (r: Outcome<()>)
      requires Valid() && state == ChunkSizeLine
      modifies this, buffer, source
      ensures Valid()
      ensures r.Ok? ==> (state == ChunkData || state == BodyComplete) && |Pending()| < |old(Pending())|
                        && Advanced(old(Remaining()), old(Pending()), "", |old(Pending())| - |Pending()|)
      ensures r.Err? ==> old(Remaining()) == Fail(r.kind)
    {
      hide Pending, ParseLine, ChunkSize, ParseFields, ParseChunkData, ParseChunkEnd, ParseFixed, ParseUntilClose, ValidTrailers, BufferValid;
      ghost var input := Pending();
      var line := ReadLine(limits.maxStartLine, false);
      if line.Err? {
        return Err(line.kind);
      }
      ghost var n := ParseLine(input, limits.maxStartLine, source.fate).used;
      assert Pending() == input[n..];
      var size := ParseChunkSize(line.value.value);
      if size.None? {
        return Err(InvalidMessage);
      }
      if size.value == 0 {
        r := ReadTrailers();
        if r.Ok? {
          ghost var m := ParseFields(input[n..], limits, old(usedHeaderBytes), old(usedHeaderCount), source.fate).used;
          assert Pending() == input[n..][m..] == input[n + m..];
          assert "" + "" == "";
        }
        return;
      }
      if size.value > limits.maxBody - bodyDecoded {
        return Err(BodyLimitExceeded);
      }
      bodyRemaining := size.value;
      state := ChunkData;
      r := Ok(());
    }

    method ReadChunkDataPart(output: array<char>, capacity: usize) returns (r: Outcome<usize>)
      requires Valid() && state == ChunkData && 0 < capacity <= output.Length && output != buffer
      modifies this, buffer, source, output
      ensures Valid()
      ensures r.Ok? ==> 0 < r.value <= capacity && Advanced(old(Remaining()), old(Pending()), output[..r.value], r.value)
      ensures r.Err? ==> old(Remaining()) == Fail(r.kind)
    {
      hide Pending, ParseChunks, ParseChunkData, ParseChunkEnd, ParseFixed, ParseUntilClose, BufferValid, AddData;
      ghost var input := Pending();
      ChunkSplits(input, bodyRemaining, limits, bodyDecoded, usedHeaderBytes, usedHeaderCount, source.fate);
      var taken := TakeAvailable(output, if capacity < bodyRemaining then capacity else bodyRemaining);
      if taken.Err? {
        return Err(taken.kind);
      }
      var count := taken.value;
      if count == 0 {
        return Err(InvalidMessage);
      }
      bodyRemaining := bodyRemaining - count;
      bodyDecoded := bodyDecoded + count;
      if bodyRemaining == 0 {
        state := ChunkDataEnding;
      }
      r := Ok(count);
    }

    method ReadChunkEnding() returns (r: Outcome<()>)
      requires Valid() && state == ChunkDataEnding
      modifies this, buffer, source
      ensures Valid()
      ensures r.Ok? ==> state == ChunkSizeLine && |Pending()| < |old(Pending())|
                        && Advanced(old(Remaining()), old(Pending()), "", |old(Pending())| - |Pending()|)
      ensures r.Err? ==> old(Remaining()) == Fail(r.kind)
    {
      hide Pending, ParseChunks, ParseChunkData, ParseFixed, ParseUntilClose;
      ghost var input := Pending();
      var cr := ReadByte();
      if cr.Err? {
        return Err(cr.kind);
      }
      var lf := ReadByte();
      if lf.Err? {
        return Err(lf.kind);
      }
      if cr.value.None? || lf.value.None? || cr.value.value != '\r' || lf.value.value != '\n' {
        return Err(InvalidMessage);
      }
      assert input[1..][1..] == input[2..];
      state := ChunkSizeLine;
      r := Ok(());
    }

    method StepChunk() returns (r: Outcome<()>)
      requires Valid() && IsChunked(state) && state != ChunkData
      modifies this, buffer, source
      ensures Valid()
      ensures r.Ok? ==> (IsChunked(state) || state == BodyComplete) && |Pending()| < |old(Pending())|
                        && Advanced(old(Remaining()), old(Pending()), "", |old(Pending())| - |Pending()|)
      ensures r.Err? ==> old(Remaining()) == Fail(r.kind)
    {
      hide Pending, Remaining;
      if state == ChunkSizeLine {
        r := ReadChunkSize();
      } else {
        r := ReadChunkEnding();
      }
    }

    /** Steps through chunk endings and size lines until there is data to deliver or the body is complete. */
    method ReachChunkData() returns (r: Outcome<()>)
      requires Valid() && IsChunked(state)
      modifies this, buffer, source
      ensures Valid()
      ensures r.Ok? ==> (state == ChunkData || state == BodyComplete) && |Pending()| <= |old(Pending())|
                        && Advanced(old(Remaining()), old(Pending()), "", |old(Pending())| - |Pending()|)
      ensures r.Err? ==> old(Remaining()) == Fail(r.kind)
    {
      hide Pending, Remaining, BufferValid, CountersValid, Advanced, AddData;
      ghost var input, whole := Pending(), Remaining();
      ghost var k: nat := 0;
      NotYet(whole, input);
      while state == ChunkSizeLine || state == ChunkDataEnding
        invariant Valid() && (IsChunked(state) || state == BodyComplete)
        invariant k <= |input| && Advanced(whole, input, "", k)
        decreases |input| - k
      {
        ghost var here, left := Pending(), Remaining();
        AdvancedIs(whole, input, "", k);
        var step := StepChunk();
        if step.Err? {
          FailedLeft(whole, "", k, left);
          return Err(step.kind);
        }
        ghost var m := |here| - |Pending()|;
        Onward(whole, input, "", k, left, "", m);
        assert "" + "" == "";
        k := k + m;
      }
      AdvancedIs(whole, input, "", k);
      r := Ok(());
    }

    /** One delivery of a chunked body. */
    method ReadChunkedBodyPart(output: array<char>, capacity: usize) returns (r: Outcome<usize>)
      requires Valid() && IsChunked(state)
      requires 0 < capacity <= output.Length && output != buffer
      modifies this, buffer, source, output
      ensures Valid()
      ensures r.Ok? ==> r.value <= capacity && (r.value == 0 ==> state == BodyComplete)
                        && |Pending()| <= |old(Pending())| - r.value
                        && Advanced(old(Remaining()), old(Pending()), output[..r.value], |old(Pending())| - |Pending()|)
      ensures r.Err? ==> old(Remaining()) == Fail(r.kind)
    {
      hide Pending, Remaining;
      ghost var input, whole := Pending(), Remaining();
      var reached := ReachChunkData();
      if reached.Err? {
        return Err(reached.kind);
      }
      if state == BodyComplete {
        assert output[..0] == "";
        return Ok(0);
      }
      ghost var here, left := Pending(), Remaining();
      r := ReadChunkDataPart(output, capacity);
      if r.Ok? {
        ghost var k := Chain(whole, input, "", |input| - |here|, left, output[..r.value], r.value, Remaining());
        assert "" + output[..r.value] == output[..r.value];
      }
    }

    /** Delivers the next piece of the decoded body; an empty piece means the body is complete. */
    method ReadBody(output: array?<char>, capacity: usize) returns (r: Outcome<usize>)
      requires Valid()
      requires output != null ==> capacity <= output.Length && output != buffer
      modifies this, buffer, source, output
      ensures Valid()
      ensures !IsOpen(old(state)) ==> r == Err(InvalidState) && state == old(state) && Pending() == old(Pending())
      ensures IsOpen(old(state)) && (old(state) == BodyComplete || capacity == 0) ==>
                r == Ok(0) && state == old(state) && Pending() == old(Pending()) && Remaining() == old(Remaining())
      ensures IsOpen(old(state)) && old(state) != BodyComplete && capacity > 0 && output == null ==>
                r == Err(InvalidState) && state == old(state)
      ensures IsOpen(old(state)) && old(state) != BodyComplete && capacity > 0 && output != null && r.Ok? ==>
                r.value <= capacity && |Pending()| <= |old(Pending())|
                && (state != BodyComplete ==> r.value > 0 && |Pending()| < |old(Pending())|)
                && Advanced(old(Remaining()), old(Pending()), output[..r.value], |old(Pending())| - |Pending()|)
      ensures IsOpen(old(state)) && old(state) != BodyComplete && capacity > 0 && output != null && r.Err? ==>
                old(Remaining()) == Fail(r.kind) && state == Failed
    {
      hide Pending, Remaining;
      if !IsOpen(state) {
        return Err(InvalidState);
      }
      if state == BodyComplete || capacity == 0 {
        return Ok(0);
      }
      if output == null {
        return Err(InvalidState);
      }
      if state == FixedBody {
        r := ReadFixedBodyPart(output, capacity);
      } else if state == CloseDelimitedBody {
        r := ReadCloseDelimitedBodyPart(output, capacity);
      } else {
        r := ReadChunkedBodyPart(output, capacity);
      }
      if r.Err? {
        state := Failed;
      }
    }

    method FinishBody() returns (r: Outcome<seq<Header>>)
      requires Valid()
      modifies this
      ensures Valid() && Pending() == old(Pending())
      ensures old(state) != BodyComplete ==> r == Err(InvalidState) && state == old(state)
      ensures old(state) == BodyComplete ==> r == Ok(old(bodyTrailers)) && state == Ready
    {
      if state != BodyComplete {
        return Err(InvalidState);
      }
      r := Ok(bodyTrailers);
      bodyTrailers := [];
      bodyInfo := BodyInfo(NoBody, 0);
      bodyRemaining, bodyDecoded := 0, 0;
      usedHeaderBytes, usedHeaderCount := 0, 0;
      state := Ready;
    }

    /** Reads the body to its end: the pieces put together are exactly what `Remaining` promised. */
    method ReadBodyAll() returns (r: Outcome<Body>)
      requires Valid() && IsOpen(state)
      modifies this, buffer, source
      ensures Valid()
      ensures match old(Remaining())
              case Fail(k) => r == Err(k) && state == Failed
              case Done(b, n) => n <= |old(Pending())| && r == Ok(b) && state == Ready && Pending() == old(Pending())[n..]
    {
      hide Pending;
      ghost var input, whole := Pending(), Remaining();
      ghost var k: nat := 0;
      var output := "";
      var chunk := new char[8192];
      AddDataNothing(whole);
      assert input[0..] == input;
      while state != BodyComplete
        invariant Valid() && chunk != buffer && chunk.Length == 8192
        invariant Advanced(whole, input, output, k)
        decreases |Pending()|, state != BodyComplete
      {
        hide Remaining;
        ghost var here, left := Pending(), Remaining();
        var read := ReadBody(chunk, 8192);
        if read.Err? {
          return Err(read.kind);
        }
        k := Chain(whole, input, output, k, left, chunk[..read.value], |here| - |Pending()|, Remaining());
        output := output + chunk[..read.value];
      }
      assert output + "" == output;
      var trailers := FinishBody();
      r := Ok(Body(output, trailers.value));
    }

    method DiscardBody() returns (r: Outcome<seq<Header>>)
      requires Valid()
      modifies this, buffer, source
      ensures Valid()
      ensures !IsOpen(old(state)) ==> r == Err(InvalidState) && state == old(state)
      ensures IsOpen(old(state)) ==>
                match old(Remaining())
                case Fail(k) => r == Err(k) && state == Failed
                case Done(b, n) =>
                  n <= |old(Pending())| && r == Ok(b.trailers) && state == Ready && Pending() == old(Pending())[n..]
    {
      hide Pending;
      if !IsOpen(state) {
        return Err(InvalidState);
      }
      ghost var input, whole := Pending(), Remaining();
      ghost var k: nat, dropped := 0, "";
      var discarded := new char[8192];
      AddDataNothing(whole);
      assert input[0..] == input;
      while state != BodyComplete
        invariant Valid() && discarded != buffer && discarded.Length == 8192
        invariant Advanced(whole, input, dropped, k)
        decreases |Pending()|, state != BodyComplete
      {
        hide Remaining;
        ghost var here, left := Pending(), Remaining();
        var read := ReadBody(discarded, 8192);
        if read.Err? {
          return Err(read.kind);
        }
        k := Chain(whole, input, dropped, k, left, discarded[..read.value], |here| - |Pending()|, Remaining());
        dropped := dropped + discarded[..read.value];
      }
      r := FinishBody();
    }

    // ------------------------------------------------------------------ whole messages

    /** A complete request: a function of the pending bytes alone, not of how they are delivered. */
    method ReadRequest() returns (r: Outcome<Option<Request>>)
      requires Valid()
      modifies this, buffer, source
      ensures Valid()
      ensures old(state) != Ready ==> r == Err(InvalidState) && state == old(state)
      ensures old(state) == Ready && !limits.Positive() ==> r == Err(InvalidMessage) && state == Ready
      ensures old(state) == Ready && limits.Positive() ==>
                match ParseRequest(old(Pending()), limits, source.fate)
                case Fail(k) => r == Err(k) && IsDead(state)
                case Done(q, n) => n <= |old(Pending())| && r == Ok(q) && state == Ready && Pending() == old(Pending())[n..]
    {
      hide Pending, Remaining, BufferValid, CountersValid, ParseRequestHead, ParseBody, ParseRequest;
      ghost var input := Pending();
      var head := ReadRequestHead();
      RequestParsed(input, limits, source.fate);
      if head.Err? {
        return Err(head.kind);
      }
      if head.value.None? {
        return Ok(None);
      }
      ghost var n := ParseRequestHead(input, limits, source.fate).used;
      RequestParsed(input, limits, source.fate);
      assert Pending() == input[n..];
      ghost var left := Remaining();
      ghost var m := if left.Done? then left.used else 0;
      var body := ReadBodyAll();
      if body.Err? {
        return Err(body.kind);
      }
      SliceTwice(input, n, m);
      r := Ok(Some(Request(head.value.value, body.value.data, body.value.trailers)));
    }

    method ReadResponse(verb: string) returns (r: Outcome<Option<Response>>)
      requires Valid()
      modifies this, buffer, source
      ensures Valid()
      ensures old(state) != Ready ==> r == Err(InvalidState) && state == old(state)
      ensures old(state) == Ready && !limits.Positive() ==> r == Err(InvalidMessage) && state == Ready
      ensures old(state) == Ready && limits.Positive() ==>
                match ParseResponse(old(Pending()), verb, limits, source.fate)
                case Fail(k) => r == Err(k) && IsDead(state)
                case Done(q, n) => n <= |old(Pending())| && r == Ok(q) && state == Ready && Pending() == old(Pending())[n..]
    {
      hide Pending, Remaining, BufferValid, CountersValid, ParseResponseHead, ParseBody, ParseResponse;
      ghost var input := Pending();
      var head := ReadResponseHead(verb);
      ResponseParsed(input, verb, limits, source.fate);
      if head.Err? {
        return Err(head.kind);
      }
      if head.value.None? {
        return Ok(None);
      }
      ghost var n := ParseResponseHead(input, verb, limits, source.fate).used;
      ResponseParsed(input, verb, limits, source.fate);
      assert Pending() == input[n..];
      ghost var left := Remaining();
      ghost var m := if left.Done? then left.used else 0;
      var body := ReadBodyAll();
      if body.Err? {
        return Err(body.kind);
      }
      SliceTwice(input, n, m);
      r := Ok(Some(Response(head.value.value, body.value.data, body.value.trailers)));
    }
  }

  /** A whole message from its head and its body. */
  lemma RequestParsed(input: string, limits: Limits, fate: Fate)
    ensures input == [] && fate == Eof ==> ParseRequest(input, limits, fate) == Done(None, 0)
    ensures !(input == [] && fate == Eof) ==>
              match ParseRequestHead(input, limits, fate)
              case Fail(k) => ParseRequest(input, limits, fate) == Fail(k)
              case Done(o, n) =>
                match ParseBody(input[n..], o.info, limits, o.bytes, o.count, fate)
                case Fail(k) => ParseRequest(input, limits, fate) == Fail(k)
                case Done(b, m) => ParseRequest(input, limits, fate) == Done(Some(Request(o.head, b.data, b.trailers)), n + m)
    ensures !(input == [] && fate == Eof) && ParseRequestHead(input, limits, fate).Done? ==>
              var o := ParseRequestHead(input, limits, fate).value;
              o.info.kind == ContentLength && o.info.contentLength > limits.maxBody ==> ParseRequest(input, limits, fate) == Fail(BodyLimitExceeded)
  {
    hide ParseRequestHead, ParseFixed, ParseChunks, ParseUntilClose;
  }

  /** A whole message from its head and its body. */
  lemma ResponseParsed(input: string, verb: string, limits: Limits, fate: Fate)
    ensures input == [] && fate == Eof ==> ParseResponse(input, verb, limits, fate) == Done(None, 0)
    ensures !(input == [] && fate == Eof) ==>
              match ParseResponseHead(input, verb, limits, fate)
              case Fail(k) => ParseResponse(input, verb, limits, fate) == Fail(k)
              case Done(o, n) =>
                match ParseBody(input[n..], o.info, limits, o.bytes, o.count, fate)
                case Fail(k) => ParseResponse(input, verb, limits, fate) == Fail(k)
                case Done(b, m) => ParseResponse(input, verb, limits, fate) == Done(Some(Response(o.head, b.data, b.trailers)), n + m)
    ensures !(input == [] && fate == Eof) && ParseResponseHead(input, verb, limits, fate).Done? ==>
              var o := ParseResponseHead(input, verb, limits, fate).value;
              o.info.kind == ContentLength && o.info.contentLength > limits.maxBody ==> ParseResponse(input, verb, limits, fate) == Fail(BodyLimitExceeded)
  {
    hide ParseResponseHead, ParseFixed, ParseChunks, ParseUntilClose;
  }

  lemma FailedLeft(whole: Parse<Body>, data: string, k: nat, left: Parse<Body>)
    requires whole == AddData(data, k, left)
    ensures left.Fail? ==> whole == left
  {
  }

  lemma SplitPending(held: string, rest: string, n: nat)
    requires n <= |held|
    ensures (held + rest)[..n] == held[..n] && (held + rest)[n..] == held[n..] + rest
  {
  }

  lemma EmptyHasNoLine(limit: nat, fate: Fate)
    ensures ParseLine("", limit, fate).Fail?
  {
  }

  lemma SliceTwice(s: string, n: nat, m: nat)
    requires n <= |s|
    ensures n + m <= |s| ==> s[n..][m..] == s[n + m..]
  {
  }

  /** Two advances in a row are one advance. */
  lemma Chain(whole: Parse<Body>, input: string, a: string, n: nat, left: Parse<Body>, b: string, m: nat,
              rest: Parse<Body>) returns (k: nat)
    requires n + m <= |input|
    requires whole == AddData(a, n, left) && left == AddData(b, m, rest)
    ensures k == n + m && whole == AddData(a + b, k, rest) && input[n..][m..] == input[k..]
  {
    k := n + m;
    AddDataTwice(a, n, b, m, rest);
  }

  lemma FixedSplits(input: string, n: nat, size: nat, fate: Fate)
    requires n <= |input| && n <= size
    ensures ParseFixed(input, size, fate) == AddData(input[..n], n, ParseFixed(input[n..], size - n, fate))
  {
    if size <= |input| {
      assert input[..size] == input[..n] + input[n..][..size - n];
    }
  }

  /** Chunk data may be taken in pieces of any size. */
  lemma ChunkSplits(input: string, size: nat, limits: Limits, decoded: nat, bytes: nat, count: nat, fate: Fate)
    requires decoded + size <= limits.maxBody
    ensures |input| < size ==> ParseChunkData(input, size, limits, decoded, bytes, count, fate) == Fail(Cut(fate))
    ensures forall n ::
              0 <= n <= |input| && n < size ==>
                ParseChunkData(input, size, limits, decoded, bytes, count, fate) ==
                AddData(input[..n], n, ParseChunkData(input[n..], size - n, limits, decoded + n, bytes, count, fate))
    ensures size <= |input| ==>
              ParseChunkData(input, size, limits, decoded, bytes, count, fate) ==
              AddData(input[..size], size, ParseChunkEnd(input[size..], limits, decoded + size, bytes, count, fate))
  {
    hide ParseChunkEnd;
    forall n | 0 <= n <= |input| && n < size
      ensures ParseChunkData(input, size, limits, decoded, bytes, count, fate)
           == AddData(input[..n], n, ParseChunkData(input[n..], size - n, limits, decoded + n, bytes, count, fate))
    {
      if size <= |input| {
        assert input[..size] == input[..n] + input[n..][..size - n];
        assert input[n..][size - n..] == input[size..];
        AddDataTwice(input[..n], n, input[n..][..size - n], size - n,
                     ParseChunkEnd(input[size..], limits, decoded + size, bytes, count, fate));
      }
    }
  }

  lemma CloseSplits(input: string, n: nat, limits: Limits, decoded: nat, fate: Fate)
    requires n <= |input| && decoded + n <= limits.maxBody
    ensures ParseUntilClose(input, limits, decoded, fate)
         == AddData(input[..n], n, ParseUntilClose(input[n..], limits, decoded + n, fate))
  {
    assert input == input[..n] + input[n..];
  }

  method ParseChunkSize(line: string) returns (r: Option<usize>)
    ensures r == ChunkSize(line)
  {
    if !ValidValue(line) {
      return None;
    }
    var text := line[..IndexOf(line, ';')];
    if text == "" {
      return None;
    }
    r := ParseNumeral(text, 16);
  }

  method CheckRequestHead(head: RequestHead) returns (r: Outcome<BodyInfo>)
    ensures r == RequestFraming(head)
    ensures r.Ok? && r.value.kind != ContentLength ==> r.value.contentLength == 0
  {
    if head.version == Http11 && !OneHost(head.fields) {
      return Err(InvalidMessage);
    }
    if head.version == Http10 && Contains(head.fields, TRANSFER_ENCODING) {
      return Err(InvalidMessage);
    }
    r := BodyFraming(head.fields, false);
  }

  method CheckResponseHead(head: ResponseHead, verb: string) returns (r: Outcome<BodyInfo>)
    ensures r == ResponseFraming(head, verb)
    ensures r.Ok? && r.value.kind != ContentLength ==> r.value.contentLength == 0
  {
    if head.version == Http10 && Contains(head.fields, TRANSFER_ENCODING) {
      return Err(InvalidMessage);
    }
    if ForbidsFraming(head.status) && (Contains(head.fields, CONTENT_LENGTH) || Contains(head.fields, TRANSFER_ENCODING)) {
      return Err(InvalidMessage);
    }
    if Bodiless(head.status, verb) {
      return Ok(BodyInfo(NoBody, 0));
    }
    r := BodyFraming(head.fields, true);
  }

  lemma SpanExceeds(s: string, n: nat)
    requires n < |s| && forall i :: 0 <= i <= n ==> IsLineByte(s[i])
    ensures LineSpan(s) > n
  {
  }
}
