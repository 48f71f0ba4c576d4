/**
  The CSV reader and writer: a quoting state machine over bytes and its printer
  (section 2 of RFC 4180, with configurable delimiter, quote and line ending).
 */
module Csv {
  import Text

  datatype Location = Location(line: nat, column: nat)

  datatype Result<+T> = Ok(value: T) | Err(at: Location)

  type Row = seq<string>

  datatype Document = Document(header: Text.Option<Row>, rows: seq<Row>)

  datatype ReaderOptions = ReaderOptions(delimiter: char, quote: char, trim: bool, firstRowIsHeader: bool)

  datatype WriterOptions =
    WriterOptions(delimiter: char, quote: char, lineEnding: string, alwaysQuote: bool, writeHeader: bool)

  predicate IsReserved(c: char) {
    c == '\r' || c == '\n' || c == '\0'
  }

  predicate Legal(delimiter: char, quote: char) {
    delimiter != quote && !IsReserved(delimiter) && !IsReserved(quote)
  }

  // -------------------------------------------------------------------------- reading

  predicate IsSpace(c: char) {
    c == ' ' || c == '\t' || c == '\r' || c == '\n'
  }

  function TrimLeft(s: string): (r: string)
    ensures |r| <= |s|
  {
    if s != [] && IsSpace(s[0]) then TrimLeft(s[1..]) else s
  }

  function TrimRight(s: string): string {
    if s != [] && IsSpace(s[|s| - 1]) then TrimRight(s[..|s| - 1]) else s
  }

  /** The scanning state between two bytes. */
  datatype Cursor = Cursor(
    rows: seq<Row>, row: Row, field: string, inQuotes: bool, wasQuoted: bool, line: nat, column: nat)

  const START := Cursor([], [], "", false, false, 1, 1)

  /** The value of the field being collected. */
  function FieldValue(c: Cursor, o: ReaderOptions): string {
    if !c.wasQuoted && o.trim then TrimRight(TrimLeft(c.field)) else c.field
  }

  function FinishField(c: Cursor, o: ReaderOptions): Cursor {
    c.(row := c.row + [FieldValue(c, o)], field := "", wasQuoted := false)
  }

  function FinishRow(c: Cursor, o: ReaderOptions): Cursor {
    var d := FinishField(c, o);
    d.(rows := d.rows + [d.row], row := [])
  }

  function Newline(c: Cursor): Cursor {
    c.(line := c.line + 1, column := 1)
  }

  function Advance(c: Cursor, n: nat): Cursor {
    c.(column := c.column + n)
  }

  /** One step of the machine: the new state and how many bytes it took. */
  function Step(s: string, c: Cursor, o: ReaderOptions): (r: Result<(Cursor, nat)>)
    requires s != []
    ensures r.Ok? ==> 1 <= r.value.1 <= |s|
  {
    var ch := s[0];
    if c.inQuotes then
      if ch == o.quote then
        if |s| > 1 && s[1] == o.quote then Ok((Advance(c.(field := c.field + [o.quote]), 2), 2))
        else Ok((Advance(c.(inQuotes := false), 1), 1))
      else
        var d := c.(field := c.field + [ch]);
        Ok((if ch == '\n' then Newline(d) else Advance(d, 1), 1))
    else if ch == o.quote && c.field == "" then Ok((Advance(c.(inQuotes := true, wasQuoted := true), 1), 1))
    else if ch == o.delimiter then Ok((Advance(FinishField(c, o), 1), 1))
    else if ch == '\r' || ch == '\n' then
      Ok((Newline(FinishRow(c, o)), if ch == '\r' && |s| > 1 && s[1] == '\n' then 2 else 1))
    else if c.wasQuoted then Err(Location(c.line, c.column))
    else Ok((Advance(c.(field := c.field + [ch]), 1), 1))
  }

  /** The machine run to the end of `s`. */
  function Run(s: string, c: Cursor, o: ReaderOptions): Result<Cursor>
    decreases |s|
  {
    if s == [] then Ok(c)
    else
      match Step(s, c, o)
      case Err(at) => Err(at)
      case Ok((d, n)) => Run(s[n..], d, o)
  }

  predicate HasBom(s: string) {
    |s| >= 3 && s[0] == '\U{EF}' && s[1] == '\U{BB}' && s[2] == '\U{BF}'
  }

  function SkipBom(s: string): string {
    if HasBom(s) then s[3..] else s
  }

  /** A last row without a line ending is kept unless nothing at all belongs to it. */
  function Complete(c: Cursor, s: string, o: ReaderOptions): Result<seq<Row>> {
    if c.inQuotes then Err(Location(c.line, c.column))
    else if SkipBom(s) != [] && (c.field != "" || c.row != [] || s[|s| - 1] == o.delimiter || c.wasQuoted)
    then Ok(FinishRow(c, o).rows)
    else Ok(c.rows)
  }

  function ParseRows(s: string, o: ReaderOptions): Result<seq<Row>> {
    if !Legal(o.delimiter, o.quote) then Err(Location(1, 1))
    else
      match Run(SkipBom(s), START, o)
      case Err(at) => Err(at)
      case Ok(c) => Complete(c, s, o)
  }

  function ToDocument(rows: seq<Row>, firstRowIsHeader: bool): Document {
    if firstRowIsHeader && rows != [] then Document(Text.Some(rows[0]), rows[1..]) else Document(Text.None, rows)
  }

  method TrimAsciiSpace(value: string) returns (r: string)
    ensures r == TrimRight(TrimLeft(value))
  {
    var begin := 0;
    assert value[0..] == value;
    while begin < |value| && IsSpace(value[begin])
      invariant begin <= |value| && TrimLeft(value[begin..]) == TrimLeft(value)
    {
      assert value[begin..][1..] == value[begin + 1..];
      begin := begin + 1;
    }
    var core := value[begin..];
    var end := |core|;
    assert core[..end] == core;
    while end > 0 && IsSpace(core[end - 1])
      invariant end <= |core| && TrimRight(core[..end]) == TrimRight(core)
    {
      assert core[..end][..end - 1] == core[..end - 1];
      end := end - 1;
    }
    r := core[..end];
  }

  /** The single-pass reader: one byte at a time, with one byte of lookahead. */
  method Read(input: string, o: ReaderOptions) returns (r: Result<Document>)
    ensures match ParseRows(input, o)
            case Err(at) => r == Err(at)
            case Ok(rows) => r == Ok(ToDocument(rows, o.firstRowIsHeader))
  {
    hide Run;
    if o.delimiter == o.quote || IsReserved(o.delimiter) || IsReserved(o.quote) {
      return Err(Location(1, 1));
    }
    var c := START;
    var begin := if HasBom(input) then 3 else 0;
    var i := begin;
    ghost var whole := Run(SkipBom(input), START, o);
    assert input[0..] == input;
    while i < |input|
      invariant begin <= i <= |input|
      invariant whole == Run(input[i..], c, o)
    {
      var ch := input[i];
      ghost var here, old_i := c, i;
      var next := if i + 1 < |input| then input[i + 1] else '\0';
      if c.inQuotes {
        if ch == o.quote {
          if i + 1 < |input| && next == o.quote {
            c := c.(field := c.field + [o.quote], column := c.column + 1);
            i := i + 1;
          } else {
            c := c.(inQuotes := false);
          }
        } else {
          c := c.(field := c.field + [ch]);
          if ch == '\n' {
            c := c.(line := c.line + 1, column := 0);
          }
        }
      } else if ch == o.quote && c.field == "" {
        c := c.(inQuotes := true, wasQuoted := true);
      } else if ch == o.delimiter {
        c := EndField(c, o);
      } else if ch == '\r' || ch == '\n' {
        c := EndField(c, o);
        c := c.(rows := c.rows + [c.row], row := [], line := c.line + 1, column := 0);
        if ch == '\r' && i + 1 < |input| && next == '\n' {
          i := i + 1;
        }
      } else if c.wasQuoted {
        RunError(input[i..], c, o);
        return Err(Location(c.line, c.column));
      } else {
        c := c.(field := c.field + [ch]);
      }
      c := c.(column := c.column + 1);
      i := i + 1;
      StepTaken(input, old_i, here, i, c, o);
    }
    assert input[i..] == [];
    RunEnd(c, o);
    if c.inQuotes {
      return Err(Location(c.line, c.column));
    }
    if begin < |input| && (c.field != "" || c.row != [] || input[|input| - 1] == o.delimiter || c.wasQuoted) {
      c := EndField(c, o);
      c := c.(rows := c.rows + [c.row], row := []);
    }
    r := Ok(ToDocument(c.rows, o.firstRowIsHeader));
  }

  method EndField(c: Cursor, o: ReaderOptions) returns (d: Cursor)
    ensures d == FinishField(c, o)
  {
    var value := c.field;
    if !c.wasQuoted && o.trim {
      value := TrimAsciiSpace(c.field);
    }
    d := c.(row := c.row + [value], field := "", wasQuoted := false);
  }

  lemma StepTaken(input: string, i: nat, c: Cursor, j: nat, d: Cursor, o: ReaderOptions)
    requires i < j <= |input| && Step(input[i..], c, o) == Ok((d, j - i))
    ensures Run(input[i..], c, o) == Run(input[j..], d, o)
  {
    assert input[i..][j - i..] == input[j..];
  }

  lemma RunError(s: string, c: Cursor, o: ReaderOptions)
    requires s != [] && Step(s, c, o).Err?
    ensures Run(s, c, o) == Err(Step(s, c, o).at)
  {
  }

  lemma RunEnd(c: Cursor, o: ReaderOptions)
    ensures Run([], c, o) == Ok(c)
  {
  }

  // -------------------------------------------------------------------------- writing

  predicate NeedsQuote(f: string, o: WriterOptions) {
    o.alwaysQuote ||
    (f != [] &&
     (f[0] == ' ' || f[0] == '\t' || f[|f| - 1] == ' ' || f[|f| - 1] == '\t'
      || exists i :: 0 <= i < |f| && (f[i] == o.delimiter || f[i] == o.quote || f[i] == '\r' || f[i] == '\n')))
  }

  /** Doubles every quote. */
  function Escape(f: string, quote: char): string {
    if f == [] then []
    else (if f[0] == quote then [quote, quote] else [f[0]]) + Escape(f[1..], quote)
  }

  function PrintField(f: string, o: WriterOptions): string {
    if NeedsQuote(f, o) then [o.quote] + Escape(f, o.quote) + [o.quote] else f
  }

  function PrintRow(r: Row, o: WriterOptions): string {
    if r == [] then ""
    else PrintField(r[0], o) + (if |r| == 1 then "" else [o.delimiter] + PrintRow(r[1..], o))
  }

  function PrintRows(rows: seq<Row>, o: WriterOptions): string {
    if rows == [] then ""
    else PrintRow(rows[0], o) + (if |rows| == 1 then "" else o.lineEnding + PrintRows(rows[1..], o))
  }

  /** All rows the writer emits: the header first, if there is one and it is wanted. */
  function WrittenRows(doc: Document, o: WriterOptions): seq<Row> {
    (if o.writeHeader && doc.header.Some? then [doc.header.value] else []) + doc.rows
  }

  /** The scan for a byte that forces quoting. */
  method FieldNeedsQuote(f: string, o: WriterOptions) returns (b: bool)
    ensures b == NeedsQuote(f, o)
  {
    if o.alwaysQuote {
      return true;
    }
    if |f| == 0 {
      return false;
    }
    var first, last := f[0], f[|f| - 1];
    if first == ' ' || first == '\t' || last == ' ' || last == '\t' {
      return true;
    }
    for i := 0 to |f|
      invariant forall j :: 0 <= j < i ==> f[j] != o.delimiter && f[j] != o.quote && f[j] != '\r' && f[j] != '\n'
    {
      if f[i] == o.delimiter || f[i] == o.quote || f[i] == '\r' || f[i] == '\n' {
        return true;
      }
    }
    b := false;
  }

  method WriteField(output: string, f: string, o: WriterOptions) returns (r: string)
    ensures r == output + PrintField(f, o)
  {
    var quoted := FieldNeedsQuote(f, o);
    if !quoted {
      return output + f;
    }
    r := output + [o.quote];
    assert f[0..] == f;
    for i := 0 to |f|
      invariant r + Escape(f[i..], o.quote) == output + [o.quote] + Escape(f, o.quote)
    {
      ghost var before := r;
      assert f[i..][1..] == f[i + 1..];
      if f[i] == o.quote {
        r := r + [o.quote];
      }
      r := r + [f[i]];
      assert r + Escape(f[i + 1..], o.quote) == before + Escape(f[i..], o.quote);
    }
    assert r == output + [o.quote] + Escape(f, o.quote);
    r := r + [o.quote];
    assert r == output + ([o.quote] + Escape(f, o.quote) + [o.quote]);
  }

  method WriteRow(output: string, fields: Row, o: WriterOptions) returns (r: string)
    ensures r == output + PrintRow(fields, o)
  {
    hide PrintField;
    r := output;
    assert fields[0..] == fields;
    for i := 0 to |fields|
      invariant i == 0 ==> r == output
      invariant i < |fields| ==>
                  r + (if i == 0 then "" else [o.delimiter]) + PrintRow(fields[i..], o) == output + PrintRow(fields, o)
      invariant i == |fields| ==> r == output + PrintRow(fields, o)
    {
      ghost var before := r;
      if i > 0 {
        r := r + [o.delimiter];
      }
      ghost var rest := fields[i..];
      r := WriteField(r, fields[i], o);
      assert rest[0] == fields[i] && rest[1..] == fields[i + 1..];
      assert r + (if i + 1 == |fields| then "" else [o.delimiter] + PrintRow(fields[i + 1..], o))
          == before + (if i == 0 then "" else [o.delimiter]) + PrintRow(rest, o);
    }
  }

  lemma Regroup(a: string, b: string, c: string, d: string)
    ensures a + (b + (c + d)) == a + b + c + d
    ensures a + (b + "") == a + b
  {
  }

  method WriteToStream(output: string, doc: Document, o: WriterOptions) returns (r: string)
    ensures r == output + PrintRows(WrittenRows(doc, o), o)
  {
    hide PrintRow;
    var rows := (if o.writeHeader && doc.header.Some? then [doc.header.value] else []) + doc.rows;
    r := output;
    var wroteRow := false;
    assert rows[0..] == rows;
    for i := 0 to |rows|
      invariant wroteRow <==> i > 0
      invariant i == 0 ==> r == output
      invariant i < |rows| ==>
                  r + (if i == 0 then "" else o.lineEnding) + PrintRows(rows[i..], o) == output + PrintRows(rows, o)
      invariant i == |rows| ==> r == output + PrintRows(rows, o)
    {
      ghost var before := r;
      if wroteRow {
        r := r + o.lineEnding;
      }
      assert r == before + (if i == 0 then "" else o.lineEnding);
      ghost var start, rest := r, rows[i..];
      r := WriteRow(r, rows[i], o);
      assert rest[0] == rows[i] && rest[1..] == rows[i + 1..];
      Regroup(start, PrintRow(rows[i], o), o.lineEnding, PrintRows(rows[i + 1..], o));
      wroteRow := true;
    }
  }

  method Write(doc: Document, o: WriterOptions) returns (text: string)
    ensures text == PrintRows(WrittenRows(doc, o), o)
  {
    text := WriteToStream("", doc, o);
    assert "" + PrintRows(WrittenRows(doc, o), o) == PrintRows(WrittenRows(doc, o), o);
  }

  /** Writing a document and reading the text again, as a program. */
  method WriteThenRead(doc: Document, o: ReaderOptions, w: WriterOptions) returns (r: Result<Document>)
    requires Compatible(o, w)
    ensures r == Ok(doc) <==>
              HeaderMatches(doc, o, w) && Survives(WrittenRows(doc, w), w) && !HasBom(PrintRows(WrittenRows(doc, w), w))
  {
    hide ParseRows, PrintRows, HeaderMatches, Survives;
    var text := Write(doc, w);
    r := Read(text, o);
    DocumentRoundTrip(doc, o, w);
  }

  // ----------------------------------------------------------------------- round trip

  /** Reader and writer configured alike; the reader may or may not trim. */
  predicate Compatible(o: ReaderOptions, w: WriterOptions) {
    && o.delimiter == w.delimiter && o.quote == w.quote && Legal(o.delimiter, o.quote)
    && (w.lineEnding == "\n" || w.lineEnding == "\r" || w.lineEnding == "\r\n")
  }

  /** No byte of an unquoted field is structural. */
  predicate IsPlain(f: string, o: ReaderOptions) {
    forall i :: 0 <= i < |f| ==> f[i] != o.delimiter && f[i] != o.quote && f[i] != '\r' && f[i] != '\n'
  }

  lemma {:induction false} RunPlain(f: string, tail: string, c: Cursor, o: ReaderOptions)
    requires IsPlain(f, o) && !c.inQuotes && !c.wasQuoted
    ensures Run(f + tail, c, o) == Run(tail, c.(field := c.field + f, column := c.column + |f|), o)
  {
    if f == [] {
      assert f + tail == tail && c.field + f == c.field;
    } else {
      var d := Advance(c.(field := c.field + [f[0]]), 1);
      assert (f + tail)[1..] == f[1..] + tail;
      assert Step(f + tail, c, o) == Ok((d, 1));
      RunPlain(f[1..], tail, d, o);
      assert c.field + [f[0]] + f[1..] == c.field + f;
    }
  }

  predicate AtBoundary(tail: string, o: ReaderOptions) {
    tail == [] || tail[0] == o.delimiter || tail[0] == '\r' || tail[0] == '\n'
  }

  /** From inside a quoted field, its escaped text and the closing quote yield the original text. */
  lemma {:induction false} RunEscaped(f: string, tail: string, c: Cursor, o: ReaderOptions) returns (d: Cursor)
    requires Legal(o.delimiter, o.quote) && c.inQuotes && AtBoundary(tail, o)
    ensures Run(Escape(f, o.quote) + [o.quote] + tail, c, o) == Run(tail, d, o)
    ensures d == c.(field := c.field + f, inQuotes := false, line := d.line, column := d.column)
    decreases |f|
  {
    hide Run, Step, Legal;
    var q := o.quote;
    if f == [] {
      assert Escape(f, q) + [q] + tail == [q] + tail;
      d := CloseStep(tail, c, o);
      assert c.field + f == c.field;
    } else {
      var rest := Escape(f[1..], q) + [q] + tail;
      assert Escape(f, q) + [q] + tail == (if f[0] == q then [q, q] else [f[0]]) + rest;
      var e := InsideStep(f[0], rest, c, o);
      d := RunEscaped(f[1..], tail, e, o);
      assert c.field + [f[0]] + f[1..] == c.field + f;
    }
  }

  /** One byte of a quoted field, doubled if it is a quote. */
  lemma InsideStep(x: char, rest: string, c: Cursor, o: ReaderOptions) returns (e: Cursor)
    requires Legal(o.delimiter, o.quote) && c.inQuotes
    ensures Run((if x == o.quote then [o.quote, o.quote] else [x]) + rest, c, o) == Run(rest, e, o)
    ensures e == c.(field := c.field + [x], line := e.line, column := e.column)
  {
    var n := if x == o.quote then 2 else 1;
    var s := (if x == o.quote then [o.quote, o.quote] else [x]) + rest;
    assert s[n..] == rest;
    e := Step(s, c, o).value.0;
  }

  /** The closing quote. */
  lemma CloseStep(tail: string, c: Cursor, o: ReaderOptions) returns (d: Cursor)
    requires Legal(o.delimiter, o.quote) && c.inQuotes && AtBoundary(tail, o)
    ensures Run([o.quote] + tail, c, o) == Run(tail, d, o)
    ensures d == c.(inQuotes := false, line := d.line, column := d.column)
  {
    assert ([o.quote] + tail)[1..] == tail;
    d := Advance(c.(inQuotes := false), 1);
  }

  lemma PlainTrims(f: string, w: WriterOptions)
    requires !NeedsQuote(f, w)
    ensures TrimRight(TrimLeft(f)) == f
  {
  }

  /** A printed field, up to the delimiter or line ending after it. */
  lemma RunField(f: string, tail: string, c: Cursor, o: ReaderOptions, w: WriterOptions) returns (d: Cursor)
    requires Compatible(o, w) && AtBoundary(tail, o)
    requires c.field == "" && !c.inQuotes && !c.wasQuoted
    ensures Run(PrintField(f, w) + tail, c, o) == Run(tail, d, o)
    ensures d.rows == c.rows && d.row == c.row && !d.inQuotes && FieldValue(d, o) == f
    ensures d.field != "" || d.wasQuoted <==> PrintField(f, w) != ""
  {
    hide Run, Escape;
    if NeedsQuote(f, w) {
      var e := Advance(c.(inQuotes := true, wasQuoted := true), 1);
      var s := PrintField(f, w) + tail;
      assert s[1..] == Escape(f, o.quote) + [o.quote] + tail;
      RunStep(s, c, o, e, 1);
      d := RunEscaped(f, tail, e, o);
      assert "" + f == f;
    } else {
      RunPlain(f, tail, c, o);
      PlainTrims(f, w);
      d := c.(field := c.field + f, column := c.column + |f|);
      assert "" + f == f;
    }
  }

  lemma RunStep(s: string, c: Cursor, o: ReaderOptions, d: Cursor, n: nat)
    requires s != [] && Step(s, c, o) == Ok((d, n))
    ensures Run(s, c, o) == Run(s[n..], d, o)
  {
  }

  predicate AtLineEnd(tail: string) {
    tail == [] || tail[0] == '\r' || tail[0] == '\n'
  }

  /** A printed row, up to the line ending after it: all its fields but the last are in the row already. */
  lemma {:induction false} RunRow(r: Row, tail: string, c: Cursor, o: ReaderOptions, w: WriterOptions) returns (d: Cursor)
    requires Compatible(o, w) && AtLineEnd(tail) && r != []
    requires c.field == "" && !c.inQuotes && !c.wasQuoted
    ensures Run(PrintRow(r, w) + tail, c, o) == Run(tail, d, o)
    ensures d.rows == c.rows && !d.inQuotes && d.row + [FieldValue(d, o)] == c.row + r
    ensures d.row != [] || d.field != "" || d.wasQuoted <==> c.row != [] || PrintRow(r, w) != ""
    decreases |r|
  {
    hide Run, PrintField, FieldValue;
    if |r| == 1 {
      assert PrintRow(r, w) + tail == PrintField(r[0], w) + tail;
      d := RunField(r[0], tail, c, o, w);
      assert r == [r[0]];
    } else {
      var rest := [o.delimiter] + (PrintRow(r[1..], w) + tail);
      assert PrintRow(r, w) + tail == PrintField(r[0], w) + rest;
      var e := RunField(r[0], rest, c, o, w);
      var g := Advance(FinishField(e, o), 1);
      DelimiterStep(rest, e, o);
      RunStep(rest, e, o, g, 1);
      assert rest[1..] == PrintRow(r[1..], w) + tail;
      d := RunRow(r[1..], tail, g, o, w);
      assert c.row + [r[0]] + r[1..] == c.row + r;
      assert PrintRow(r, w)[|PrintField(r[0], w)|] == w.delimiter;
    }
  }

  lemma DelimiterStep(s: string, c: Cursor, o: ReaderOptions)
    requires Legal(o.delimiter, o.quote) && s != [] && s[0] == o.delimiter && !c.inQuotes
    ensures Step(s, c, o) == Ok((Advance(FinishField(c, o), 1), 1))
  {
  }

  /** A line ending closes the row, provided no line feed follows a lone carriage return. */
  lemma LineEndingStep(tail: string, c: Cursor, o: ReaderOptions, w: WriterOptions)
    requires Compatible(o, w) && !c.inQuotes
    requires w.lineEnding == "\r" ==> tail == [] || tail[0] != '\n'
    ensures Run(w.lineEnding + tail, c, o) == Run(tail, Newline(FinishRow(c, o)), o)
  {
    hide Run, FinishRow, FinishField;
    var s := w.lineEnding + tail;
    var n := |w.lineEnding|;
    assert s[n..] == tail;
    if n == 2 {
      assert s[0] == '\r' && s[1] == '\n';
    } else if s[0] == '\r' {
      assert |s| > 1 ==> s[1] == tail[0];
    }
    RunStep(s, c, o, Newline(FinishRow(c, o)), n);
  }

  lemma NoLeadingLineFeed(rows: seq<Row>, o: ReaderOptions, w: WriterOptions)
    requires Compatible(o, w) && w.lineEnding == "\r"
    ensures PrintRows(rows, w) == [] || PrintRows(rows, w)[0] != '\n'
  {
    if rows != [] && rows[0] != [] {
      var f := rows[0][0];
      if f == [] && !NeedsQuote(f, w) {
        assert PrintField(f, w) == [];
      } else if !NeedsQuote(f, w) {
        assert f[0] != '\n';
      }
    }
  }

  // --------------------------------------------------------- what survives being written

  /** A row that prints as nothing at all. */
  predicate Blank(r: Row, w: WriterOptions) {
    PrintRow(r, w) == ""
  }

  /** A row without fields cannot be told from a row with one empty field. */
  function Normal(r: Row): Row {
    if r == [] then [""] else r
  }

  /** The rows that reading returns: a blank last row leaves no trace in the text. */
  function Survivors(rows: seq<Row>, w: WriterOptions): seq<Row> {
    if rows == [] then []
    else if |rows| == 1 then (if Blank(rows[0], w) then [] else rows)
    else [Normal(rows[0])] + Survivors(rows[1..], w)
  }

  lemma RunFirstRow(r: Row, tail: string, c: Cursor, o: ReaderOptions, w: WriterOptions) returns (d: Cursor)
    requires Compatible(o, w) && AtLineEnd(tail)
    requires c.field == "" && !c.inQuotes && !c.wasQuoted && c.row == []
    ensures Run(PrintRow(r, w) + tail, c, o) == Run(tail, d, o)
    ensures d.rows == c.rows && !d.inQuotes && d.row + [FieldValue(d, o)] == Normal(r)
    ensures d.row != [] || d.field != "" || d.wasQuoted <==> !Blank(r, w)
  {
    if r == [] {
      assert "" + tail == tail;
      d := c;
    } else {
      hide Run, FieldValue, PrintRow;
      d := RunRow(r, tail, c, o, w);
      assert [] + r == r;
    }
  }

  /** The whole text: the rows before the last are complete, the last one is pending. */
  lemma {:induction false} RunRows(rows: seq<Row>, c: Cursor, o: ReaderOptions, w: WriterOptions) returns (d: Cursor)
    requires Compatible(o, w) && rows != []
    requires c.field == "" && !c.inQuotes && !c.wasQuoted && c.row == []
    ensures Run(PrintRows(rows, w), c, o) == Ok(d) && !d.inQuotes
    ensures d.row != [] || d.field != "" || d.wasQuoted <==> !Blank(rows[|rows| - 1], w)
    ensures (if Blank(rows[|rows| - 1], w) then d.rows else FinishRow(d, o).rows) == c.rows + Survivors(rows, w)
    decreases |rows|
  {
    hide PrintRow, PrintRows, FieldValue, Blank, Run, FinishRow, Survivors, Newline, Legal;
    if |rows| == 1 {
      OneRow(rows, w);
      d := RunFirstRow(rows[0], "", c, o, w);
      RunNothing(d, o);
      Finished(d, o);
      assert c.rows + [] == c.rows;
    } else {
      var tail := PrintRows(rows[1..], w);
      PrintRowsStep(rows, w);
      var e := RunFirstRow(rows[0], w.lineEnding + tail, c, o, w);
      if w.lineEnding == "\r" {
        NoLeadingLineFeed(rows[1..], o, w);
      }
      LineEndingStep(tail, e, o, w);
      Finished(e, o);
      d := RunRows(rows[1..], Newline(FinishRow(e, o)), o, w);
      assert rows[1..][|rows| - 2] == rows[|rows| - 1];
      SurvivorsStep(c.rows, rows, w);
    }
  }

  lemma OneRow(rows: seq<Row>, w: WriterOptions)
    requires |rows| == 1
    ensures PrintRows(rows, w) == PrintRow(rows[0], w) + ""
    ensures Survivors(rows, w) == if Blank(rows[0], w) then [] else [Normal(rows[0])]
  {
    hide PrintRow;
    BlankOfNothing(w);
    assert rows == [rows[0]];
  }

  lemma PrintRowsStep(rows: seq<Row>, w: WriterOptions)
    requires |rows| > 1
    ensures PrintRows(rows, w) == PrintRow(rows[0], w) + (w.lineEnding + PrintRows(rows[1..], w))
  {
    hide PrintRow;
  }

  lemma RunNothing(c: Cursor, o: ReaderOptions)
    ensures Run("", c, o) == Ok(c)
  {
  }

  /** Ending a row leaves a fresh start behind the completed row. */
  lemma Finished(c: Cursor, o: ReaderOptions)
    ensures var d := FinishRow(c, o);
            && d.rows == c.rows + [c.row + [FieldValue(c, o)]] && d.row == [] && d.field == "" && !d.wasQuoted
            && d.inQuotes == c.inQuotes && Newline(d).rows == d.rows && Newline(d).row == [] && Newline(d).field == ""
            && !Newline(d).wasQuoted && Newline(d).inQuotes == c.inQuotes
  {
    hide FieldValue;
  }

  lemma SurvivorsStep(before: seq<Row>, rows: seq<Row>, w: WriterOptions)
    requires |rows| > 1
    ensures before + [Normal(rows[0])] + Survivors(rows[1..], w) == before + Survivors(rows, w)
  {
    hide Blank;
    assert before + ([Normal(rows[0])] + Survivors(rows[1..], w)) == before + [Normal(rows[0])] + Survivors(rows[1..], w);
  }

  lemma BlankOfNothing(w: WriterOptions)
    ensures Blank([], w)
  {
  }

  /** A text whose last row is blank ends with a line ending or is empty. */
  lemma {:induction false} BlankLastRowEnds(rows: seq<Row>, w: WriterOptions)
    requires rows != [] && Blank(rows[|rows| - 1], w) && w.lineEnding != ""
    ensures var s := PrintRows(rows, w);
            s == "" || s[|s| - 1] == w.lineEnding[|w.lineEnding| - 1]
  {
    hide PrintRow;
    if |rows| > 1 {
      BlankLastRowEnds(rows[1..], w);
    }
  }

  /**
    Without a byte order mark, reading back what was written returns exactly the surviving
    rows, for all rows, every legal delimiter and quote, each line ending, quoting on demand
    or always, and with or without trimming of unquoted fields.
   */
  lemma Survivorship(rows: seq<Row>, o: ReaderOptions, w: WriterOptions)
    requires Compatible(o, w) && !HasBom(PrintRows(rows, w))
    ensures ParseRows(PrintRows(rows, w), o) == Ok(Survivors(rows, w))
  {
    hide PrintRow, FieldValue, Run, Survivors, Blank, PrintRows, FinishRow;
    if rows == [] {
      NoRows(o, w);
    } else {
      var text := PrintRows(rows, w);
      var d := RunRows(rows, START, o, w);
      assert [] + Survivors(rows, w) == Survivors(rows, w);
      if Blank(rows[|rows| - 1], w) {
        BlankLastRowEnds(rows, w);
      } else {
        PrintedNonempty(rows, w);
      }
    }
  }

  /**
    Rows come back unchanged exactly when every row has a field, the last one prints as
    something, and the text does not begin with a byte order mark.
   */
  lemma RowsRoundTrip(rows: seq<Row>, o: ReaderOptions, w: WriterOptions)
    requires Compatible(o, w)
    ensures ParseRows(PrintRows(rows, w), o) == Ok(rows) <==> Survives(rows, w) && !HasBom(PrintRows(rows, w))
    ensures !HasBom(PrintRows(rows, w)) ==> ParseRows(PrintRows(rows, w), o) == Ok(Survivors(rows, w))
  {
    hide ParseRows, PrintRows, Survives, Survivors;
    if HasBom(PrintRows(rows, w)) {
      BomIsMissed(rows, o, w);
    } else {
      Survivorship(rows, o, w);
      SurvivesIff(rows, w);
    }
  }

  lemma NoRows(o: ReaderOptions, w: WriterOptions)
    requires Compatible(o, w)
    ensures ParseRows(PrintRows([], w), o) == Ok(Survivors([], w))
  {
  }

  lemma {:induction false} PrintedNonempty(rows: seq<Row>, w: WriterOptions)
    requires rows != [] && !Blank(rows[|rows| - 1], w)
    ensures PrintRows(rows, w) != ""
  {
    hide PrintRow;
    if |rows| > 1 {
      PrintedNonempty(rows[1..], w);
    }
  }

  /** Which rows survive unchanged: every row has a field, and the last one prints as something. */
  predicate Survives(rows: seq<Row>, w: WriterOptions) {
    (forall i :: 0 <= i < |rows| ==> rows[i] != []) && (rows == [] || rows[|rows| - 1] != [""] || w.alwaysQuote)
  }

  lemma {:induction false} SurvivesIff(rows: seq<Row>, w: WriterOptions)
    ensures Survivors(rows, w) == rows <==> Survives(rows, w)
  {
    if |rows| == 1 {
      BlankIff(rows[0], w);
    } else if |rows| > 1 {
      SurvivesIff(rows[1..], w);
      assert rows == [rows[0]] + rows[1..];
      assert rows[1..][|rows| - 2] == rows[|rows| - 1];
      SurvivesTail(rows, w);
    }
  }

  lemma SurvivesTail(rows: seq<Row>, w: WriterOptions)
    requires |rows| > 1
    ensures Survives(rows, w) <==> rows[0] != [] && Survives(rows[1..], w)
  {
    if rows[0] != [] && Survives(rows[1..], w) {
      forall i | 0 <= i < |rows| ensures rows[i] != [] {
        assert i > 0 ==> rows[i] == rows[1..][i - 1];
      }
    }
  }

  lemma BlankIff(r: Row, w: WriterOptions)
    ensures Blank(r, w) <==> r == [] || (r == [""] && !w.alwaysQuote)
  {
    if |r| == 1 && r[0] == "" {
      assert r == [""];
    }
  }

  /** The header is written and read as one; without one, no row is taken for it. */
  predicate HeaderMatches(doc: Document, o: ReaderOptions, w: WriterOptions) {
    if doc.header.Some? then w.writeHeader && o.firstRowIsHeader else !o.firstRowIsHeader || doc.rows == []
  }

  /** A document is read back unchanged under exactly these conditions, for all options. */
  lemma DocumentRoundTrip(doc: Document, o: ReaderOptions, w: WriterOptions)
    requires Compatible(o, w)
    ensures var read := ParseRows(PrintRows(WrittenRows(doc, w), w), o);
            read.Ok? && ToDocument(read.value, o.firstRowIsHeader) == doc <==>
              HeaderMatches(doc, o, w) && Survives(WrittenRows(doc, w), w) && !HasBom(PrintRows(WrittenRows(doc, w), w))
  {
    hide ParseRows, PrintRows, Survives;
    var rows := WrittenRows(doc, w);
    RowsRoundTrip(rows, o, w);
    var read := ParseRows(PrintRows(rows, w), o);
    DocumentRows(doc, rows, read, o, w);
    if read.Ok? && ToDocument(read.value, o.firstRowIsHeader) == doc && read.value != rows {
      OnlyItsRows(doc, rows, read.value, o, w);
    }
  }

  /** When the rows come back, the document does exactly if the header options match. */
  lemma DocumentRows(doc: Document, rows: seq<Row>, read: Result<seq<Row>>, o: ReaderOptions, w: WriterOptions)
    requires rows == WrittenRows(doc, w)
    ensures read == Ok(rows) ==> (ToDocument(rows, o.firstRowIsHeader) == doc <==> HeaderMatches(doc, o, w))
  {
    if doc.header.Some? && w.writeHeader {
      assert rows[0] == doc.header.value && rows[1..] == doc.rows;
    } else {
      assert rows == doc.rows;
      if o.firstRowIsHeader && rows != [] {
        assert |rows[1..]| < |rows|;
      }
    }
  }

  /** Other rows than those written never make up the document again. */
  lemma OnlyItsRows(doc: Document, rows: seq<Row>, got: seq<Row>, o: ReaderOptions, w: WriterOptions)
    requires Compatible(o, w) && rows == WrittenRows(doc, w) && ParseRows(PrintRows(rows, w), o) == Ok(got)
    requires ToDocument(got, o.firstRowIsHeader) == doc
    ensures got == rows
  {
    hide ParseRows, PrintRows, Survivors, Survives, RowsLoad;
    if o.firstRowIsHeader && got != [] {
      assert got == [doc.header.value] + doc.rows;
      if !w.writeHeader {
        assert rows == doc.rows;
        if HasBom(PrintRows(rows, w)) {
          LostLoad(rows, got, o, w);
          RowsLoadCons(doc.header.value, doc.rows, o.quote);
        } else {
          Survivorship(rows, o, w);
          SurvivorsFewer(rows, w);
        }
      }
    } else {
      assert got == doc.rows;
    }
  }

  lemma {:induction false} SurvivorsFewer(rows: seq<Row>, w: WriterOptions)
    ensures |Survivors(rows, w)| <= |rows|
  {
    if |rows| > 1 {
      SurvivorsFewer(rows[1..], w);
    }
  }

  // ------------------------------------------------------------------- byte order marks

  /** How many bytes of `s` are neither quotes nor line ends. */
  function Load(s: string, quote: char): nat {
    if s == [] then 0 else (if s[0] == quote || s[0] == '\r' || s[0] == '\n' then 0 else 1) + Load(s[1..], quote)
  }

  /** What a row takes at least: its fields and a delimiter between any two. */
  function RowLoad(r: Row, quote: char): nat {
    if r == [] then 0
    else Load(r[0], quote) + if |r| == 1 then 0 else 1 + RowLoad(r[1..], quote)
  }

  function RowsLoad(rows: seq<Row>, quote: char): nat {
    if rows == [] then 0 else RowsLoad(rows[..|rows| - 1], quote) + RowLoad(rows[|rows| - 1], quote)
  }

  lemma {:induction false} LoadAppend(a: string, b: string, quote: char)
    ensures Load(a + b, quote) == Load(a, quote) + Load(b, quote)
  {
    if a == [] {
      assert a + b == b;
    } else {
      assert (a + b)[1..] == a[1..] + b;
      LoadAppend(a[1..], b, quote);
    }
  }

  lemma LoadOne(c: char, quote: char)
    ensures Load([c], quote) == if c == quote || c == '\r' || c == '\n' then 0 else 1
  {
    assert [c][1..] == [];
  }

  lemma {:induction false} RowsLoadCons(r: Row, rows: seq<Row>, quote: char)
    ensures RowsLoad([r] + rows, quote) == RowLoad(r, quote) + RowsLoad(rows, quote)
    decreases |rows|
  {
    var all := [r] + rows;
    if rows == [] {
      assert all[..0] == [];
    } else {
      assert all[..|all| - 1] == [r] + rows[..|rows| - 1];
      RowsLoadCons(r, rows[..|rows| - 1], quote);
    }
  }

  // What printing takes.

  lemma {:induction false} EscapeLoad(f: string, quote: char)
    ensures Load(Escape(f, quote), quote) == Load(f, quote)
  {
    if f != [] {
      EscapeLoad(f[1..], quote);
      var first := if f[0] == quote then [quote, quote] else [f[0]];
      LoadAppend(first, Escape(f[1..], quote), quote);
      LoadAppend([quote], [quote], quote);
      LoadOne(quote, quote);
      LoadOne(f[0], quote);
      assert [quote] + [quote] == [quote, quote];
    }
  }

  lemma FieldLoad(f: string, w: WriterOptions)
    ensures Load(PrintField(f, w), w.quote) == Load(f, w.quote)
  {
    hide Load, NeedsQuote, Escape;
    var q := w.quote;
    EscapeLoad(f, q);
    LoadOne(q, q);
    LoadAppend([q], Escape(f, q), q);
    LoadAppend([q] + Escape(f, q), [q], q);
  }

  lemma {:induction false} PrintedRowLoad(r: Row, w: WriterOptions)
    requires Legal(w.delimiter, w.quote)
    ensures Load(PrintRow(r, w), w.quote) == RowLoad(r, w.quote)
  {
    hide Load, PrintField;
    if r == [] {
      LoadNothing(w.quote);
    } else {
      FieldLoad(r[0], w);
      var rest := if |r| == 1 then "" else [w.delimiter] + PrintRow(r[1..], w);
      LoadAppend(PrintField(r[0], w), rest, w.quote);
      LoadNothing(w.quote);
      if |r| > 1 {
        PrintedRowLoad(r[1..], w);
        LoadAppend([w.delimiter], PrintRow(r[1..], w), w.quote);
        LoadOne(w.delimiter, w.quote);
      }
    }
  }

  lemma LoadNothing(quote: char)
    ensures Load("", quote) == 0
  {
  }

  lemma LineEndingLoad(w: WriterOptions)
    requires w.lineEnding == "\n" || w.lineEnding == "\r" || w.lineEnding == "\r\n"
    ensures Load(w.lineEnding, w.quote) == 0
  {
    LoadOne('\r', w.quote);
    LoadOne('\n', w.quote);
    assert "\r\n" == "\r" + "\n";
    LoadAppend("\r", "\n", w.quote);
  }

  lemma {:induction false} PrintedLoad(rows: seq<Row>, w: WriterOptions)
    requires Legal(w.delimiter, w.quote) && (w.lineEnding == "\n" || w.lineEnding == "\r" || w.lineEnding == "\r\n")
    ensures Load(PrintRows(rows, w), w.quote) == RowsLoad(rows, w.quote)
  {
    hide Load, PrintRow, RowsLoad, RowLoad;
    LoadNothing(w.quote);
    RowsLoadNone(w.quote);
    if rows != [] {
      PrintedRowLoad(rows[0], w);
      var rest := if |rows| == 1 then "" else w.lineEnding + PrintRows(rows[1..], w);
      LoadAppend(PrintRow(rows[0], w), rest, w.quote);
      assert rows == [rows[0]] + rows[1..];
      RowsLoadCons(rows[0], rows[1..], w.quote);
      if |rows| > 1 {
        PrintedLoad(rows[1..], w);
        LineEndingLoad(w);
        LoadAppend(w.lineEnding, PrintRows(rows[1..], w), w.quote);
      } else {
        assert rows[1..] == [];
      }
    }
  }

  lemma RowsLoadNone(quote: char)
    ensures RowsLoad([], quote) == 0
  {
  }

  // What reading yields.

  /** The fields of an unfinished row, each with the delimiter after it. */
  function HeldLoad(r: Row, quote: char): nat {
    if r == [] then 0 else HeldLoad(r[..|r| - 1], quote) + Load(r[|r| - 1], quote) + 1
  }

  function CursorLoad(c: Cursor, quote: char): nat {
    RowsLoad(c.rows, quote) + HeldLoad(c.row, quote) + Load(c.field, quote)
  }

  lemma {:induction false} HeldCons(f: string, r: Row, quote: char)
    ensures HeldLoad([f] + r, quote) == Load(f, quote) + 1 + HeldLoad(r, quote)
    decreases |r|
  {
    var all := [f] + r;
    if r == [] {
      assert all[..0] == [];
    } else {
      assert all[..|all| - 1] == [f] + r[..|r| - 1];
      HeldCons(f, r[..|r| - 1], quote);
    }
  }

  lemma {:induction false} RowLoadSnoc(r: Row, f: string, quote: char)
    ensures RowLoad(r + [f], quote) == HeldLoad(r, quote) + Load(f, quote)
    decreases |r|
  {
    hide Load;
    if r == [] {
      assert r + [f] == [f];
    } else {
      assert (r + [f])[1..] == r[1..] + [f] && r == [r[0]] + r[1..];
      RowLoadSnoc(r[1..], f, quote);
      HeldCons(r[0], r[1..], quote);
    }
  }

  lemma {:induction false} TrimLeftLoad(s: string, quote: char)
    ensures Load(TrimLeft(s), quote) <= Load(s, quote)
  {
    if s != [] && IsSpace(s[0]) {
      TrimLeftLoad(s[1..], quote);
    }
  }

  lemma {:induction false} TrimRightLoad(s: string, quote: char)
    ensures Load(TrimRight(s), quote) <= Load(s, quote)
    decreases |s|
  {
    if s != [] && IsSpace(s[|s| - 1]) {
      var init := s[..|s| - 1];
      TrimRightLoad(init, quote);
      assert s == init + [s[|s| - 1]];
      LoadAppend(init, [s[|s| - 1]], quote);
    }
  }

  lemma ValueLoad(c: Cursor, o: ReaderOptions)
    ensures Load(FieldValue(c, o), o.quote) <= Load(c.field, o.quote)
  {
    TrimLeftLoad(c.field, o.quote);
    TrimRightLoad(TrimLeft(c.field), o.quote);
  }

  lemma FinishFieldLoad(c: Cursor, o: ReaderOptions)
    ensures CursorLoad(FinishField(c, o), o.quote) <= CursorLoad(c, o.quote) + 1
  {
    hide Load, RowsLoad, FieldValue;
    ValueLoad(c, o);
    LoadNothing(o.quote);
    var row := c.row + [FieldValue(c, o)];
    assert row[..|row| - 1] == c.row;
  }

  lemma FinishRowLoad(c: Cursor, o: ReaderOptions)
    ensures CursorLoad(FinishRow(c, o), o.quote) <= CursorLoad(c, o.quote)
    ensures RowsLoad(FinishRow(c, o).rows, o.quote) <= CursorLoad(c, o.quote)
  {
    hide Load, RowLoad, FieldValue;
    ValueLoad(c, o);
    LoadNothing(o.quote);
    var row := c.row + [FieldValue(c, o)];
    RowLoadSnoc(c.row, FieldValue(c, o), o.quote);
    var rows := c.rows + [row];
    assert rows[..|rows| - 1] == c.rows;
  }

  /** A step yields no more than the bytes it takes. */
  lemma StepLoad(s: string, c: Cursor, o: ReaderOptions)
    requires s != [] && Step(s, c, o).Ok? && Legal(o.delimiter, o.quote)
    ensures var (d, n) := Step(s, c, o).value; CursorLoad(d, o.quote) <= CursorLoad(c, o.quote) + Load(s[..n], o.quote)
  {
    hide Load, RowsLoad, HeldLoad, FinishField, FinishRow;
    var (d, n) := Step(s, c, o).value;
    assert s[..1] == [s[0]];
    LoadOne(s[0], o.quote);
    LoadAppend(c.field, [s[0]], o.quote);
    LoadAppend(c.field, [o.quote], o.quote);
    LoadOne(o.quote, o.quote);
    FinishFieldLoad(c, o);
    FinishRowLoad(c, o);
  }

  lemma {:induction false} RunLoad(s: string, c: Cursor, o: ReaderOptions)
    requires Legal(o.delimiter, o.quote) && Run(s, c, o).Ok?
    ensures CursorLoad(Run(s, c, o).value, o.quote) <= CursorLoad(c, o.quote) + Load(s, o.quote)
    decreases |s|
  {
    hide Load, CursorLoad, Step;
    if s != [] {
      var (d, n) := Step(s, c, o).value;
      StepLoad(s, c, o);
      RunLoad(s[n..], d, o);
      assert s == s[..n] + s[n..];
      LoadAppend(s[..n], s[n..], o.quote);
    }
  }

  /** Reading never yields more than the text holds after its byte order mark. */
  lemma ReadLoad(s: string, o: ReaderOptions)
    requires ParseRows(s, o).Ok?
    ensures RowsLoad(ParseRows(s, o).value, o.quote) <= Load(SkipBom(s), o.quote)
  {
    hide Load, RowsLoad, HeldLoad, Run, FinishRow, SkipBom;
    var c := Run(SkipBom(s), START, o).value;
    RunLoad(SkipBom(s), START, o);
    StartLoad(o.quote);
    FinishRowLoad(c, o);
  }

  lemma StartLoad(quote: char)
    ensures CursorLoad(START, quote) == 0
  {
  }

  lemma BomLoad(s: string, quote: char)
    requires HasBom(s)
    ensures Load(s[3..], quote) + 2 <= Load(s, quote)
  {
    hide Load;
    assert s == [s[0]] + ([s[1]] + ([s[2]] + s[3..]));
    LoadAppend([s[0]], [s[1]] + ([s[2]] + s[3..]), quote);
    LoadAppend([s[1]], [s[2]] + s[3..], quote);
    LoadAppend([s[2]], s[3..], quote);
    LoadOne(s[0], quote);
    LoadOne(s[1], quote);
    LoadOne(s[2], quote);
  }

  /** With a byte order mark, what is read weighs less than what was written. */
  lemma LostLoad(rows: seq<Row>, got: seq<Row>, o: ReaderOptions, w: WriterOptions)
    requires Compatible(o, w) && HasBom(PrintRows(rows, w)) && ParseRows(PrintRows(rows, w), o) == Ok(got)
    ensures RowsLoad(got, o.quote) < RowsLoad(rows, o.quote)
  {
    hide Load, RowsLoad, ParseRows, PrintRows;
    ReadLoad(PrintRows(rows, w), o);
    BomLoad(PrintRows(rows, w), o.quote);
    PrintedLoad(rows, w);
  }

  /** A text that begins with a byte order mark never reads back as its rows, whatever the delimiter and quote. */
  lemma BomIsMissed(rows: seq<Row>, o: ReaderOptions, w: WriterOptions)
    requires Compatible(o, w) && HasBom(PrintRows(rows, w))
    ensures ParseRows(PrintRows(rows, w), o) != Ok(rows)
  {
    hide ParseRows, PrintRows, RowsLoad;
    if ParseRows(PrintRows(rows, w), o) == Ok(rows) {
      LostLoad(rows, rows, o, w);
    }
  }

  predicate IsBomByte(c: char) {
    c == '\U{EF}' || c == '\U{BB}' || c == '\U{BF}'
  }

  /** For delimiters and quotes outside the mark: the first field begins with it and is not quoted. */
  lemma BomIff(rows: seq<Row>, w: WriterOptions)
    requires !IsBomByte(w.delimiter) && !IsBomByte(w.quote)
    requires w.lineEnding == "\n" || w.lineEnding == "\r" || w.lineEnding == "\r\n"
    ensures HasBom(PrintRows(rows, w)) <==>
              rows != [] && rows[0] != [] && HasBom(rows[0][0]) && !NeedsQuote(rows[0][0], w)
  {
    hide NeedsQuote, Escape;
    if rows != [] {
      var text := PrintRows(rows, w);
      var after := if |rows| == 1 then "" else w.lineEnding + PrintRows(rows[1..], w);
      if rows[0] == [] {
        assert text == after;
      } else {
        var f := rows[0][0];
        var tail := (if |rows[0]| == 1 then "" else [w.delimiter] + PrintRow(rows[0][1..], w)) + after;
        assert text == PrintField(f, w) + tail;
        assert tail == "" || !IsBomByte(tail[0]);
      }
    }
  }

  // ---------------------------------------------------------------- the three losses, shown

  /** A row without fields comes back with one. */
  lemma FieldlessRowGainsField()
    ensures var o := ReaderOptions(',', '"', false, false);
            var w := WriterOptions(',', '"', "\n", false, false);
            Compatible(o, w) && ParseRows(PrintRows([[], ["a"]], w), o) == Ok([[""], ["a"]])
  {
    hide ParseRows;
    var o := ReaderOptions(',', '"', false, false);
    var w := WriterOptions(',', '"', "\n", false, false);
    var rows := [[], ["a"]];
    assert !NeedsQuote("a", w);
    assert rows[1..] == [["a"]];
    assert PrintRows(rows, w) == "\na";
    Survivorship(rows, o, w);
    assert Survivors([["a"]], w) == [["a"]];
    assert Survivors(rows, w) == [[""]] + [["a"]] == [[""], ["a"]];
  }

  /** A last row of one empty field is dropped. */
  lemma BlankLastRowIsLost()
    ensures var o := ReaderOptions(',', '"', false, false);
            var w := WriterOptions(',', '"', "\n", false, false);
            Compatible(o, w) && ParseRows(PrintRows([["a"], [""]], w), o) == Ok([["a"]])
  {
    hide ParseRows;
    var o := ReaderOptions(',', '"', false, false);
    var w := WriterOptions(',', '"', "\n", false, false);
    var rows := [["a"], [""]];
    assert !NeedsQuote("a", w) && !NeedsQuote("", w);
    assert rows[1..] == [[""]];
    assert PrintRows(rows, w) == "a\n";
    Survivorship(rows, o, w);
    assert Survivors([[""]], w) == [];
    assert Survivors(rows, w) == [["a"]] + [] == [["a"]];
  }

  /** A first field that begins with the byte order mark loses it. */
  lemma LeadingBomIsLost()
    ensures var o := ReaderOptions(',', '"', false, false);
            var w := WriterOptions(',', '"', "\n", false, false);
            var rows := [["\U{EF}\U{BB}\U{BF}a"]];
            Compatible(o, w) && Survives(rows, w) && ParseRows(PrintRows(rows, w), o) == Ok([["a"]])
  {
    hide PrintRows, ParseRows;
    var o := ReaderOptions(',', '"', false, false);
    var w := WriterOptions(',', '"', "\n", false, false);
    BomIsPrinted(w);
    BomIsSkipped(o);
  }

  lemma BomIsPrinted(w: WriterOptions)
    requires w == WriterOptions(',', '"', "\n", false, false)
    ensures PrintRows([["\U{EF}\U{BB}\U{BF}a"]], w) == "\U{EF}\U{BB}\U{BF}a"
  {
    assert !NeedsQuote("\U{EF}\U{BB}\U{BF}a", w);
  }

  lemma BomIsSkipped(o: ReaderOptions)
    requires o == ReaderOptions(',', '"', false, false)
    ensures ParseRows("\U{EF}\U{BB}\U{BF}a", o) == Ok([["a"]])
  {
    hide TrimLeft, TrimRight, Step;
    assert "\U{EF}\U{BB}\U{BF}a"[3..] == "a";
    RunPlain("a", "", START, o);
    assert "a" + "" == "a" && "" + "a" == "a";
    var d := START.(field := "a", column := 2);
    assert START.column + |"a"| == 2;
    assert START.(field := START.field + "a", column := START.column + |"a"|) == d;
    assert Run("", d, o) == Ok(d);
    assert FinishField(d, o).row == [] + ["a"] == ["a"];
    assert FinishRow(d, o).rows == [] + [["a"]] == [["a"]];
  }
}
