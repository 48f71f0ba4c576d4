/**
  The texts a CSV reader accepts, described by how they are put together, and the
  proof that reading accepts exactly these with the values they spell.
 */
module CsvGrammar {
  import opened Csv

  /** A field as it stands in the text and what it means. */
  datatype Cell = Cell(text: string, value: string)

  /** The fields of a row and the line ending behind them. */
  datatype Line = Line(cells: seq<Cell>, end: string)

  predicate Blank(s: string) {
    forall i :: 0 <= i < |s| ==> s[i] == ' ' || s[i] == '\t' || s[i] == '\r' || s[i] == '\n'
  }

  /** `core` is `s` without the blanks at its two ends. */
  ghost predicate IsTrimOf(s: string, core: string) {
    && (exists left, right :: Blank(left) && Blank(right) && s == left + core + right)
    && (core != "" ==> !Blank(core[..1]) && !Blank(core[|core| - 1..]))
  }

  /** Text that can stand for itself: nothing structural in it, and no quote in front. */
  predicate IsRaw(text: string, o: ReaderOptions) {
    && (forall i :: 0 <= i < |text| ==> text[i] != o.delimiter && text[i] != '\r' && text[i] != '\n')
    && (text != "" ==> text[0] != o.quote)
  }

  /** The text without its blanks where trimming is on, or the value between quotes with every quote in it doubled. */
  ghost predicate SpellsCell(x: Cell, o: ReaderOptions) {
    || (IsRaw(x.text, o) && if o.trim then IsTrimOf(x.text, x.value) else x.value == x.text)
    || x.text == [o.quote] + Escape(x.value, o.quote) + [o.quote]
  }

  ghost predicate SpellsCells(cells: seq<Cell>, o: ReaderOptions) {
    cells != [] && forall i :: 0 <= i < |cells| ==> SpellsCell(cells[i], o)
  }

  /** The fields with a delimiter between any two. */
  function CellsText(cells: seq<Cell>, o: ReaderOptions): string {
    if cells == [] then ""
    else if |cells| == 1 then cells[0].text
    else cells[0].text + [o.delimiter] + CellsText(cells[1..], o)
  }

  function Values(cells: seq<Cell>): Row {
    seq(|cells|, i requires 0 <= i < |cells| => cells[i].value)
  }

  /** Rows with their line endings, and the row behind the last line ending. */
  ghost predicate IsDocument(text: string, lines: seq<Line>, last: seq<Cell>, o: ReaderOptions)
    decreases |lines|
  {
    if lines == [] then SpellsCells(last, o) && text == CellsText(last, o)
    else
      var front := CellsText(lines[0].cells, o) + lines[0].end;
      && SpellsCells(lines[0].cells, o) && (lines[0].end == "\n" || lines[0].end == "\r" || lines[0].end == "\r\n")
      && |front| <= |text| && text[..|front|] == front
      && IsDocument(text[|front|..], lines[1..], last, o)
      && (lines[0].end == "\r" ==> text[|front|..] == "" || text[|front|] != '\n')
  }

  /** The rows a document means; a row without any text behind the last line ending is none. */
  function Rows(lines: seq<Line>, last: seq<Cell>, o: ReaderOptions): seq<Row> {
    if lines == [] then if CellsText(last, o) == "" then [] else [Values(last)]
    else [Values(lines[0].cells)] + Rows(lines[1..], last, o)
  }

  /** The strings with a separator between any two. */
  function Join(parts: seq<string>, separator: string): string {
    if parts == [] then "" else if |parts| == 1 then parts[0] else parts[0] + separator + Join(parts[1..], separator)
  }

  // ----------------------------------------------------------------------- trimming

  lemma {:induction false} TrimLeftOf(left: string, rest: string)
    requires Blank(left) && (rest == "" || !IsSpace(rest[0]))
    ensures TrimLeft(left + rest) == rest
  {
    if left == [] {
      assert left + rest == rest;
    } else {
      assert (left + rest)[1..] == left[1..] + rest;
      TrimLeftOf(left[1..], rest);
    }
  }

  lemma {:induction false} TrimRightOf(rest: string, right: string)
    requires Blank(right) && (rest == "" || !IsSpace(rest[|rest| - 1]))
    ensures TrimRight(rest + right) == rest
    decreases |right|
  {
    if right == [] {
      assert rest + right == rest;
    } else {
      var s := rest + right;
      assert s[..|s| - 1] == rest + right[..|right| - 1];
      TrimRightOf(rest, right[..|right| - 1]);
    }
  }

  lemma {:induction false} TrimLeftBack(s: string) returns (left: string)
    ensures Blank(left) && s == left + TrimLeft(s) && (TrimLeft(s) == "" || !IsSpace(TrimLeft(s)[0]))
  {
    if s != [] && IsSpace(s[0]) {
      var more := TrimLeftBack(s[1..]);
      left := [s[0]] + more;
      assert s == [s[0]] + s[1..];
    } else {
      left := "";
    }
  }

  lemma {:induction false} TrimRightBack(s: string) returns (right: string)
    ensures Blank(right) && s == TrimRight(s) + right
    ensures TrimRight(s) == "" || !IsSpace(TrimRight(s)[|TrimRight(s)| - 1])
  {
    if s != [] && IsSpace(s[|s| - 1]) {
      var more := TrimRightBack(s[..|s| - 1]);
      right := more + [s[|s| - 1]];
      assert s == s[..|s| - 1] + [s[|s| - 1]];
    } else {
      right := "";
    }
  }

  /** Trimming finds the one core there is. */
  lemma TrimIff(s: string, core: string)
    ensures TrimRight(TrimLeft(s)) == core <==> IsTrimOf(s, core)
  {
    hide TrimLeft, TrimRight;
    var left := TrimLeftBack(s);
    var t := TrimLeft(s);
    var right := TrimRightBack(t);
    if TrimRight(t) == core {
      assert s == left + core + right;
    }
    if IsTrimOf(s, core) {
      var l, r :| Blank(l) && Blank(r) && s == l + core + r;
      TrimAround(l, core, r);
    }
  }

  lemma TrimAround(l: string, core: string, r: string)
    requires Blank(l) && Blank(r) && (core != "" ==> !Blank(core[..1]) && !Blank(core[|core| - 1..]))
    ensures TrimRight(TrimLeft(l + core + r)) == core
  {
    hide TrimLeft, TrimRight;
    if core == "" {
      assert l + core + r == (l + r) + "";
      TrimLeftOf(l + r, "");
      TrimRightOf("", "");
      assert "" + "" == "";
    } else {
      assert l + core + r == l + (core + r);
      TrimLeftOf(l, core + r);
      TrimRightOf(core, r);
    }
  }

  // ---------------------------------------------------------- documents are accepted

  /** Between two fields nothing is collected. */
  predicate AtStart(c: Cursor) {
    c.field == "" && !c.inQuotes && !c.wasQuoted
  }

  /** Bytes that are collected as they are: a quote is one of them once something is collected. */
  lemma {:induction false} RunRaw(f: string, tail: string, c: Cursor, o: ReaderOptions)
    requires forall i :: 0 <= i < |f| ==> f[i] != o.delimiter && f[i] != '\r' && f[i] != '\n'
    requires !c.inQuotes && !c.wasQuoted && (c.field != "" || f == "" || f[0] != o.quote)
    ensures Run(f + tail, c, o) == Run(tail, c.(field := c.field + f, column := c.column + |f|), o)
    decreases |f|
  {
    hide Run;
    if f == [] {
      assert f + tail == tail && c.field + f == c.field;
    } else {
      var d := Advance(c.(field := c.field + [f[0]]), 1);
      assert (f + tail)[1..] == f[1..] + tail;
      assert Step(f + tail, c, o) == Ok((d, 1));
      RunStep(f + tail, c, o, d, 1);
      RunRaw(f[1..], tail, d, o);
      assert c.field + [f[0]] + f[1..] == c.field + f;
    }
  }

  /** A field that stands between quotes. */
  lemma RunQuoted(value: string, tail: string, c: Cursor, o: ReaderOptions) returns (d: Cursor)
    requires Legal(o.delimiter, o.quote) && AtBoundary(tail, o) && AtStart(c)
    ensures Run([o.quote] + Escape(value, o.quote) + [o.quote] + tail, c, o) == Run(tail, d, o)
    ensures d.rows == c.rows && d.row == c.row && !d.inQuotes && d.wasQuoted && d.field == value
  {
    hide Run, Escape;
    var e := Advance(c.(inQuotes := true, wasQuoted := true), 1);
    var s := [o.quote] + Escape(value, o.quote) + [o.quote] + tail;
    assert s[1..] == Escape(value, o.quote) + [o.quote] + tail;
    RunStep(s, c, o, e, 1);
    d := RunEscaped(value, tail, e, o);
    assert "" + value == value;
  }

  lemma RunCell(x: Cell, tail: string, c: Cursor, o: ReaderOptions) returns (d: Cursor)
    requires Legal(o.delimiter, o.quote) && SpellsCell(x, o) && AtBoundary(tail, o) && AtStart(c)
    ensures Run(x.text + tail, c, o) == Run(tail, d, o)
    ensures d.rows == c.rows && d.row == c.row && !d.inQuotes && FieldValue(d, o) == x.value
    ensures d.field != "" || d.wasQuoted <==> x.text != ""
  {
    hide Run, Escape, TrimLeft, TrimRight, IsTrimOf;
    if IsRaw(x.text, o) && if o.trim then IsTrimOf(x.text, x.value) else x.value == x.text {
      RunRaw(x.text, tail, c, o);
      d := c.(field := c.field + x.text, column := c.column + |x.text|);
      assert "" + x.text == x.text;
      TrimIff(x.text, x.value);
    } else {
      d := RunQuoted(x.value, tail, c, o);
    }
  }

  lemma {:induction false} RunCells(cells: seq<Cell>, tail: string, c: Cursor, o: ReaderOptions) returns (d: Cursor)
    requires Legal(o.delimiter, o.quote) && SpellsCells(cells, o) && AtLineEnd(tail) && AtStart(c)
    ensures Run(CellsText(cells, o) + tail, c, o) == Run(tail, d, o)
    ensures d.rows == c.rows && !d.inQuotes && d.row + [FieldValue(d, o)] == c.row + Values(cells)
    ensures d.row != [] || d.field != "" || d.wasQuoted <==> c.row != [] || CellsText(cells, o) != ""
    decreases |cells|
  {
    hide Run, SpellsCell, FieldValue, Step;
    if |cells| == 1 {
      d := RunCell(cells[0], tail, c, o);
      assert Values(cells) == [cells[0].value];
    } else {
      var more := CellsText(cells[1..], o) + tail;
      var rest := [o.delimiter] + more;
      assert CellsText(cells, o) + tail == cells[0].text + rest;
      var e := RunCell(cells[0], rest, c, o);
      var g := Advance(FinishField(e, o), 1);
      DelimiterStep(rest, e, o);
      RunStep(rest, e, o, g, 1);
      assert rest[1..] == more;
      d := RunCells(cells[1..], tail, g, o);
      assert Values(cells) == [cells[0].value] + Values(cells[1..]);
      assert c.row + [cells[0].value] + Values(cells[1..]) == c.row + Values(cells);
    }
  }

  lemma RunLineEnd(end: string, rest: string, c: Cursor, o: ReaderOptions)
    requires Legal(o.delimiter, o.quote) && !c.inQuotes
    requires end == "\n" || end == "\r\n" || (end == "\r" && (rest == "" || rest[0] != '\n'))
    ensures Run(end + rest, c, o) == Run(rest, Newline(FinishRow(c, o)), o)
  {
    hide Run, FinishRow;
    assert (end + rest)[|end|..] == rest;
    assert Step(end + rest, c, o) == Ok((Newline(FinishRow(c, o)), |end|));
    RunStep(end + rest, c, o, Newline(FinishRow(c, o)), |end|);
  }

  lemma RunLastRow(last: seq<Cell>, c: Cursor, o: ReaderOptions)
    requires Legal(o.delimiter, o.quote) && SpellsCells(last, o) && AtStart(c) && c.row == []
    ensures Run(CellsText(last, o), c, o).Ok?
    ensures var d := Run(CellsText(last, o), c, o).value;
            && !d.inQuotes && (d.row != [] || d.field != "" || d.wasQuoted <==> CellsText(last, o) != "")
            && (if CellsText(last, o) == "" then d.rows else FinishRow(d, o).rows) == c.rows + Rows([], last, o)
  {
    hide Run, SpellsCells, FieldValue, CellsText, Values;
    var d := RunCells(last, "", c, o);
    RunEnd(d, o);
    assert CellsText(last, o) + "" == CellsText(last, o);
    assert [] + Values(last) == Values(last);
    assert c.rows + [] == c.rows;
  }

  /** Reading a document behind finished rows: the rows added, and whether a last row is being collected. */
  lemma {:induction false} RunDocument(text: string, lines: seq<Line>, last: seq<Cell>, c: Cursor, o: ReaderOptions)
    requires Legal(o.delimiter, o.quote) && IsDocument(text, lines, last, o) && AtStart(c) && c.row == []
    ensures Run(text, c, o).Ok?
    ensures var d := Run(text, c, o).value;
            && !d.inQuotes && (d.row != [] || d.field != "" || d.wasQuoted <==> CellsText(last, o) != "")
            && (if CellsText(last, o) == "" then d.rows else FinishRow(d, o).rows) == c.rows + Rows(lines, last, o)
    decreases |lines|
  {
    hide Run, SpellsCell, FieldValue, CellsText, Values, SpellsCells;
    if lines == [] {
      RunLastRow(last, c, o);
    } else {
      var cells, end := lines[0].cells, lines[0].end;
      var front := CellsText(cells, o) + end;
      var rest := text[|front|..];
      assert text == CellsText(cells, o) + (end + rest);
      var e := RunCells(cells, end + rest, c, o);
      RunLineEnd(end, rest, e, o);
      var g := Newline(FinishRow(e, o));
      assert [] + Values(cells) == Values(cells);
      RunDocument(rest, lines[1..], last, g, o);
      assert c.rows + [Values(cells)] + Rows(lines[1..], last, o) == c.rows + Rows(lines, last, o);
    }
  }

  // -------------------------------------------------- what is accepted is a document

  /** Reading `s` from `c` succeeds and does not end inside quotes. */
  predicate Accepted(s: string, c: Cursor, o: ReaderOptions) {
    Run(s, c, o).Ok? && !Run(s, c, o).value.inQuotes
  }

  lemma AcceptedStep(s: string, c: Cursor, o: ReaderOptions)
    requires s != [] && Accepted(s, c, o)
    ensures Step(s, c, o).Ok?
    ensures var (d, n) := Step(s, c, o).value; Accepted(s[n..], d, o)
  {
    hide Step;
  }

  /** Inside quotes, the text up to the closing quote is an escaped value. */
  lemma {:induction false} QuotedBack(s: string, c: Cursor, o: ReaderOptions) returns (value: string, tail: string)
    requires Legal(o.delimiter, o.quote) && c.inQuotes && c.wasQuoted && Accepted(s, c, o)
    ensures s == Escape(value, o.quote) + [o.quote] + tail && AtBoundary(tail, o)
    decreases |s|
  {
    hide Run, Legal;
    if s == [] {
      RunEnd(c, o);
      assert false;
    }
    AcceptedStep(s, c, o);
    var (d, n) := Step(s, c, o).value;
    if s[0] == o.quote && n == 1 {
      value, tail := "", s[1..];
      if tail != [] {
        AcceptedStep(tail, d, o);
      }
      assert s == [o.quote] + tail;
    } else {
      var more;
      more, tail := QuotedBack(s[n..], d, o);
      value := [s[0]] + more;
      assert value[1..] == more;
      assert s == s[..n] + s[n..];
      assert s[..n] == if s[0] == o.quote then [o.quote, o.quote] else [s[0]];
    }
  }

  /** The length of the longest prefix without structural bytes. */
  function RawSpan(s: string, o: ReaderOptions): (n: nat)
    ensures n <= |s| && AtBoundary(s[n..], o)
    ensures forall i :: 0 <= i < n ==> s[i] != o.delimiter && s[i] != '\r' && s[i] != '\n'
  {
    if AtBoundary(s, o) then 0 else assert forall i :: 0 < i < |s| ==> s[i] == s[1..][i - 1]; 1 + RawSpan(s[1..], o)
  }

  lemma CellBack(s: string, c: Cursor, o: ReaderOptions) returns (x: Cell, tail: string)
    requires Legal(o.delimiter, o.quote) && AtStart(c) && Accepted(s, c, o)
    ensures s == x.text + tail && AtBoundary(tail, o) && SpellsCell(x, o)
  {
    hide Accepted, Escape, TrimLeft, TrimRight, IsTrimOf;
    if s != [] && s[0] == o.quote {
      AcceptedStep(s, c, o);
      var (d, n) := Step(s, c, o).value;
      var value;
      value, tail := QuotedBack(s[1..], d, o);
      x := Cell([o.quote] + Escape(value, o.quote) + [o.quote], value);
      assert s == [s[0]] + s[1..];
    } else {
      var n := RawSpan(s, o);
      x := Cell(s[..n], if o.trim then TrimRight(TrimLeft(s[..n])) else s[..n]);
      tail := s[n..];
      TrimIff(x.text, x.value);
    }
  }

  lemma LineEndBack(s: string, c: Cursor, o: ReaderOptions) returns (end: string, rest: string)
    requires Legal(o.delimiter, o.quote) && !c.inQuotes && s != [] && (s[0] == '\r' || s[0] == '\n')
    ensures s == end + rest && end != ""
    ensures end == "\n" || end == "\r\n" || (end == "\r" && (rest == "" || rest[0] != '\n'))
  {
    if s[0] == '\r' && |s| > 1 && s[1] == '\n' {
      end, rest := s[..2], s[2..];
    } else {
      end, rest := s[..1], s[1..];
    }
  }

  /** One more field in front of the first row. */
  lemma CellInFront(x: Cell, text: string, lines: seq<Line>, last: seq<Cell>, o: ReaderOptions) returns (lines': seq<Line>, last': seq<Cell>)
    requires SpellsCell(x, o) && IsDocument(text, lines, last, o)
    ensures IsDocument(x.text + [o.delimiter] + text, lines', last', o)
  {
    hide SpellsCell;
    var s := x.text + [o.delimiter] + text;
    if lines == [] {
      lines', last' := [], [x] + last;
      assert last'[1..] == last;
    } else {
      var cells := [x] + lines[0].cells;
      assert cells[1..] == lines[0].cells;
      lines', last' := [Line(cells, lines[0].end)] + lines[1..], last;
      var front := CellsText(lines[0].cells, o) + lines[0].end;
      var front' := CellsText(cells, o) + lines[0].end;
      assert front' == x.text + [o.delimiter] + front;
      assert s[..|front'|] == front' && s[|front'|..] == text[|front|..];
    }
  }

  lemma {:induction false} DocumentBack(s: string, c: Cursor, o: ReaderOptions) returns (lines: seq<Line>, last: seq<Cell>)
    requires Legal(o.delimiter, o.quote) && AtStart(c) && Accepted(s, c, o)
    ensures IsDocument(s, lines, last, o)
    decreases |s|
  {
    hide Run, SpellsCell, Step, FieldValue, Legal, IsDocument;
    var x, tail := CellBack(s, c, o);
    var d := RunCell(x, tail, c, o);
    if tail == [] {
      assert s == x.text;
      OneRow(x, o);
      lines, last := [], [x];
    } else if tail[0] == o.delimiter {
      DelimiterStep(tail, d, o);
      RunStep(tail, d, o, Advance(FinishField(d, o), 1), 1);
      var more, end := DocumentBack(tail[1..], Advance(FinishField(d, o), 1), o);
      lines, last := CellInFront(x, tail[1..], more, end, o);
      assert s == x.text + [o.delimiter] + tail[1..];
    } else {
      var end, rest := LineEndBack(tail, d, o);
      RunLineEnd(end, rest, d, o);
      var more;
      more, last := DocumentBack(rest, Newline(FinishRow(d, o)), o);
      lines := [Line([x], end)] + more;
      LineInFront(x, end, rest, more, last, o);
      assert s == x.text + end + rest;
    }
  }

  /** One more row of one field in front. */
  lemma LineInFront(x: Cell, end: string, rest: string, lines: seq<Line>, last: seq<Cell>, o: ReaderOptions)
    requires SpellsCell(x, o) && IsDocument(rest, lines, last, o)
    requires end == "\n" || end == "\r\n" || (end == "\r" && (rest == "" || rest[0] != '\n'))
    ensures IsDocument(x.text + end + rest, [Line([x], end)] + lines, last, o)
  {
    hide SpellsCell;
    var s, all := x.text + end + rest, [Line([x], end)] + lines;
    assert all[1..] == lines && CellsText([x], o) == x.text;
    assert s[..|x.text + end|] == x.text + end && s[|x.text + end|..] == rest;
  }

  lemma OneRow(x: Cell, o: ReaderOptions)
    requires SpellsCell(x, o)
    ensures IsDocument(x.text, [], [x], o)
  {
    hide SpellsCell;
  }

  /**
    Reading accepts exactly the documents of the grammar, and gives the rows they mean:
    fields trimmed where that is asked for, or taken out of their quotes.
   */
  lemma RowsIff(s: string, o: ReaderOptions, rows: seq<Row>)
    requires Legal(o.delimiter, o.quote)
    ensures ParseRows(s, o) == Ok(rows) <==>
              exists lines, last :: IsDocument(SkipBom(s), lines, last, o) && rows == Rows(lines, last, o)
  {
    hide Run, IsDocument, Rows, CellsText, SkipBom;
    if exists lines, last :: IsDocument(SkipBom(s), lines, last, o) && rows == Rows(lines, last, o) {
      var lines, last :| IsDocument(SkipBom(s), lines, last, o) && rows == Rows(lines, last, o);
      ReadDocument(s, lines, last, o);
    }
    if ParseRows(s, o) == Ok(rows) {
      var lines, last := DocumentBack(SkipBom(s), START, o);
      ReadDocument(s, lines, last, o);
    }
  }

  lemma ReadDocument(s: string, lines: seq<Line>, last: seq<Cell>, o: ReaderOptions)
    requires Legal(o.delimiter, o.quote) && IsDocument(SkipBom(s), lines, last, o)
    ensures ParseRows(s, o) == Ok(Rows(lines, last, o))
  {
    hide Run, IsDocument, Rows, CellsText, FinishRow;
    RunDocument(SkipBom(s), lines, last, START, o);
    assert [] + Rows(lines, last, o) == Rows(lines, last, o);
    if SkipBom(s) != [] && CellsText(last, o) == "" {
      EndsInLineEnd(SkipBom(s), lines, last, o);
    }
    if SkipBom(s) == [] {
      NothingIsEmpty(lines, last, o);
    }
  }

  /** Behind the last line ending there is nothing, so a line ending is the last byte. */
  lemma {:induction false} EndsInLineEnd(text: string, lines: seq<Line>, last: seq<Cell>, o: ReaderOptions)
    requires IsDocument(text, lines, last, o) && text != "" && CellsText(last, o) == ""
    ensures text[|text| - 1] == '\r' || text[|text| - 1] == '\n'
    decreases |lines|
  {
    hide CellsText, SpellsCells;
    if lines != [] {
      var front := CellsText(lines[0].cells, o) + lines[0].end;
      var rest := text[|front|..];
      if rest == "" {
        assert text == front;
      } else {
        EndsInLineEnd(rest, lines[1..], last, o);
      }
    }
  }

  lemma NothingIsEmpty(lines: seq<Line>, last: seq<Cell>, o: ReaderOptions)
    requires IsDocument("", lines, last, o)
    ensures CellsText(last, o) == ""
  {
    hide CellsText, SpellsCells;
  }

  /**
    One row of raw fields: with trimming on each comes back without the blanks at its
    ends, with trimming off as it is.
   */
  lemma RawRow(fields: seq<string>, o: ReaderOptions) returns (row: Row)
    requires Legal(o.delimiter, o.quote) && fields != [] && forall i :: 0 <= i < |fields| ==> IsRaw(fields[i], o)
    requires !HasBom(Join(fields, [o.delimiter])) && Join(fields, [o.delimiter]) != ""
    ensures ParseRows(Join(fields, [o.delimiter]), o) == Ok([row]) && |row| == |fields|
    ensures forall i :: 0 <= i < |fields| ==> if o.trim then IsTrimOf(fields[i], row[i]) else row[i] == fields[i]
  {
    hide ParseRows, TrimLeft, TrimRight, IsTrimOf, IsRaw, HasBom;
    var cells := seq(|fields|, i requires 0 <= i < |fields| =>
      Cell(fields[i], if o.trim then TrimRight(TrimLeft(fields[i])) else fields[i]));
    forall i | 0 <= i < |fields|
      ensures SpellsCell(cells[i], o)
    {
      TrimIff(fields[i], cells[i].value);
    }
    JoinedCells(cells, fields, o);
    row := Values(cells);
    ReadDocument(Join(fields, [o.delimiter]), [], cells, o);
    forall i | 0 <= i < |fields|
      ensures if o.trim then IsTrimOf(fields[i], row[i]) else row[i] == fields[i]
    {
      TrimIff(fields[i], row[i]);
    }
  }

  lemma {:induction false} JoinedCells(cells: seq<Cell>, fields: seq<string>, o: ReaderOptions)
    requires |cells| == |fields| && forall i :: 0 <= i < |fields| ==> cells[i].text == fields[i]
    ensures CellsText(cells, o) == Join(fields, [o.delimiter])
    decreases |cells|
  {
    if |cells| > 1 {
      JoinedCells(cells[1..], fields[1..], o);
    }
  }

  // ----------------------------------------------------------------- error positions

  /** Line and column behind the text: a line feed begins a line, every other byte is a column. */
  function PositionAfter(text: string): Location {
    if text == "" then Location(1, 1)
    else
      var p := PositionAfter(text[..|text| - 1]);
      if text[|text| - 1] == '\n' then Location(p.line + 1, 1) else Location(p.line, p.column + 1)
  }

  /** Every carriage return is half of a line ending. */
  predicate NoLoneCr(s: string) {
    forall i :: 0 <= i < |s| && s[i] == '\r' ==> i + 1 < |s| && s[i + 1] == '\n'
  }

  ghost predicate IsSomeDocument(text: string, o: ReaderOptions) {
    exists lines, last :: IsDocument(text, lines, last, o)
  }

  function Place(c: Cursor): Location {
    Location(c.line, c.column)
  }

  lemma PositionSnoc(text: string, x: char)
    ensures PositionAfter(text + [x]) ==
            var p := PositionAfter(text); if x == '\n' then Location(p.line + 1, 1) else Location(p.line, p.column + 1)
  {
    assert (text + [x])[..|text|] == text;
  }

  lemma StepPosition(pre: string, s: string, c: Cursor, o: ReaderOptions)
    requires Legal(o.delimiter, o.quote) && s != [] && NoLoneCr(s) && Step(s, c, o).Ok? && Place(c) == PositionAfter(pre)
    ensures var (d, n) := Step(s, c, o).value; Place(d) == PositionAfter(pre + s[..n]) && NoLoneCr(s[n..])
  {
    hide PositionAfter;
    var (d, n) := Step(s, c, o).value;
    PositionSnoc(pre, s[0]);
    assert s[..1] == [s[0]];
    if n == 2 {
      PositionSnoc(pre + [s[0]], s[1]);
      assert pre + s[..2] == pre + [s[0]] + [s[1]];
    }
  }

  lemma {:induction false} RunPosition(pre: string, s: string, c: Cursor, o: ReaderOptions)
    requires Legal(o.delimiter, o.quote) && NoLoneCr(s) && Run(s, c, o).Ok? && Place(c) == PositionAfter(pre)
    ensures Place(Run(s, c, o).value) == PositionAfter(pre + s)
    decreases |s|
  {
    hide PositionAfter, Step;
    if s == [] {
      assert pre + s == pre;
    } else {
      var (d, n) := Step(s, c, o).value;
      StepPosition(pre, s, c, o);
      RunPosition(pre + s[..n], s[n..], d, o);
      assert pre + s[..n] + s[n..] == pre + s;
    }
  }

  /** A step looks at no more than two bytes, and an error at one. */
  lemma StepLocal(s: string, s': string, c: Cursor, o: ReaderOptions)
    requires s != [] && s' != [] && s[0] == s'[0] && Legal(o.delimiter, o.quote)
    ensures Step(s, c, o).Err? ==> Step(s', c, o) == Step(s, c, o) == Err(Place(c)) && s[0] != '\n'
    ensures |s| > 1 && |s'| > 1 && s[1] == s'[1] ==> Step(s', c, o) == Step(s, c, o)
    ensures Step(s, c, o).Ok? && Step(s, c, o).value.1 == 1 && |s'| == 1 ==> Step(s', c, o) == Step(s, c, o)
  {
  }

  /** A byte that cannot be read: the text before it is read, and with it nothing is. */
  lemma {:induction false} RunFails(s: string, c: Cursor, o: ReaderOptions) returns (j: nat)
    requires Legal(o.delimiter, o.quote) && Run(s, c, o).Err?
    ensures j < |s| && s[j] != '\n' && Accepted(s[..j], c, o) && Run(s, c, o) == Err(Place(Run(s[..j], c, o).value))
    ensures forall t :: s[..j + 1] <= t ==> Run(t, c, o).Err?
    decreases |s|
  {
    hide Step, Legal, Run;
    RunEnd(c, o);
    if Step(s, c, o).Err? {
      j := 0;
      RunError(s, c, o);
      StepErrOutside(s, c, o);
      forall t | s[..1] <= t
        ensures Run(t, c, o).Err?
      {
        StepLocal(s, t, c, o);
        RunError(t, c, o);
      }
      StepLocal(s, s, c, o);
    } else {
      var (d, n) := Step(s, c, o).value;
      RunStep(s, c, o, d, n);
      var i := RunFails(s[n..], d, o);
      j := n + i;
      assert s[..j][n..] == s[n..][..i] && s[..j][0] == s[0];
      StepLocal(s, s[..j], c, o);
      RunStep(s[..j], c, o, d, n);
      forall t | s[..j + 1] <= t
        ensures Run(t, c, o).Err?
      {
        assert s[n..][..i + 1] == s[..j + 1][n..] <= t[n..];
        assert t[0] == s[..j + 1][0] && t[1] == s[..j + 1][1];
        StepLocal(s, t, c, o);
        RunStep(t, c, o, d, n);
      }
    }
  }

  lemma StepErrOutside(s: string, c: Cursor, o: ReaderOptions)
    requires s != [] && Step(s, c, o).Err?
    ensures !c.inQuotes
  {
  }

  /** A closing quote behind text that ends inside quotes. */
  lemma {:induction false} RunThenQuote(s: string, c: Cursor, o: ReaderOptions)
    requires Legal(o.delimiter, o.quote) && Run(s, c, o).Ok? && Run(s, c, o).value.inQuotes
    ensures Accepted(s + [o.quote], c, o)
    decreases |s|
  {
    hide Run;
    var t := s + [o.quote];
    if s == [] {
      RunEnd(c, o);
      var d := CloseStep("", c, o);
      RunEnd(d, o);
      assert t == [o.quote] + "";
    } else {
      OkSteps(s, c, o);
      var (d, n) := Step(s, c, o).value;
      RunStep(s, c, o, d, n);
      if s == [o.quote] && c.inQuotes {
        assert s[n..] == [];
        RunEnd(d, o);
        assert false;
      }
      assert Step(t, c, o) == Step(s, c, o);
      RunStep(t, c, o, d, n);
      assert t[n..] == s[n..] + [o.quote];
      RunThenQuote(s[n..], d, o);
    }
  }

  lemma OkSteps(s: string, c: Cursor, o: ReaderOptions)
    requires s != [] && Run(s, c, o).Ok?
    ensures Step(s, c, o).Ok?
  {
    hide Step;
  }

  /**
    Where an error is reported: behind the whole text when a quote is missing there, and
    otherwise at the first byte after which no continuation is a document.
   */
  lemma ErrorPlace(s: string, o: ReaderOptions, at: Location) returns (j: nat)
    requires Legal(o.delimiter, o.quote) && ParseRows(s, o) == Err(at) && NoLoneCr(SkipBom(s))
    ensures var t := SkipBom(s);
            && j <= |t| && at == PositionAfter(t[..j])
            && if j == |t| then !IsSomeDocument(t, o) && IsSomeDocument(t + [o.quote], o)
               else IsSomeDocument(t[..j], o) && forall u :: t[..j + 1] <= u ==> !IsSomeDocument(u, o)
  {
    hide Run, IsDocument, PositionAfter, Rows, SkipBom;
    var t := SkipBom(s);
    StartPosition();
    if Run(t, START, o).Ok? {
      j := |t|;
      RunPosition("", t, START, o);
      assert "" + t == t && t[..j] == t;
      RunThenQuote(t, START, o);
      var lines, last := DocumentBack(t + [o.quote], START, o);
      assert IsSomeDocument(t + [o.quote], o);
      NotAccepted(s, o);
    } else {
      j := RunFails(t, START, o);
      RunPosition("", t[..j], START, o);
      assert "" + t[..j] == t[..j];
      var lines, last := DocumentBack(t[..j], START, o);
      assert IsSomeDocument(t[..j], o);
      forall u | t[..j + 1] <= u
        ensures !IsSomeDocument(u, o)
      {
        Unreadable(u, o);
      }
    }
  }

  lemma StartPosition()
    ensures Place(START) == PositionAfter("")
  {
  }

  lemma NotAccepted(s: string, o: ReaderOptions)
    requires Legal(o.delimiter, o.quote) && ParseRows(s, o).Err?
    ensures !IsSomeDocument(SkipBom(s), o)
  {
    hide ParseRows, IsDocument, SkipBom;
    if IsSomeDocument(SkipBom(s), o) {
      var lines, last :| IsDocument(SkipBom(s), lines, last, o);
      ReadDocument(s, lines, last, o);
    }
  }

  lemma Unreadable(t: string, o: ReaderOptions)
    requires Legal(o.delimiter, o.quote) && Run(t, START, o).Err?
    ensures !IsSomeDocument(t, o)
  {
    hide Run, IsDocument, Rows, CellsText;
    if IsSomeDocument(t, o) {
      var lines, last :| IsDocument(t, lines, last, o);
      RunDocument(t, lines, last, START, o);
    }
  }

  // -------------------------------------------------------------------- written texts

  /** A field stands for itself unless that is forbidden or would be read differently; then it is quoted. */
  function FieldText(f: string, w: WriterOptions): string {
    if !w.alwaysQuote && w.delimiter !in f && w.quote !in f && '\r' !in f && '\n' !in f
       && (f == "" || (f[0] !in " \t" && f[|f| - 1] !in " \t"))
    then f
    else [w.quote] + Escape(f, w.quote) + [w.quote]
  }

  lemma PrintedField(f: string, w: WriterOptions)
    ensures PrintField(f, w) == FieldText(f, w)
  {
    hide Escape;
    if exists i :: 0 <= i < |f| && (f[i] == w.delimiter || f[i] == w.quote || f[i] == '\r' || f[i] == '\n') {
      var i :| 0 <= i < |f| && (f[i] == w.delimiter || f[i] == w.quote || f[i] == '\r' || f[i] == '\n');
      assert f[i] in f;
    }
  }

  function RowText(r: Row, w: WriterOptions): string {
    Join(seq(|r|, i requires 0 <= i < |r| => FieldText(r[i], w)), [w.delimiter])
  }

  lemma {:induction false} PrintedRow(r: Row, w: WriterOptions)
    ensures PrintRow(r, w) == RowText(r, w)
  {
    hide FieldText, PrintField;
    if r != [] {
      var parts := seq(|r|, i requires 0 <= i < |r| => FieldText(r[i], w));
      PrintedField(r[0], w);
      PrintedRow(r[1..], w);
      assert parts[1..] == seq(|r[1..]|, i requires 0 <= i < |r[1..]| => FieldText(r[1..][i], w));
    }
  }

  /** The written text: the fields of a row between delimiters, the rows between line endings. */
  lemma {:induction false} PrintedRows(rows: seq<Row>, w: WriterOptions)
    ensures PrintRows(rows, w) == Join(seq(|rows|, i requires 0 <= i < |rows| => RowText(rows[i], w)), w.lineEnding)
  {
    hide RowText, PrintRow;
    if rows != [] {
      var parts := seq(|rows|, i requires 0 <= i < |rows| => RowText(rows[i], w));
      PrintedRow(rows[0], w);
      PrintedRows(rows[1..], w);
      assert parts[1..] == seq(|rows[1..]|, i requires 0 <= i < |rows[1..]| => RowText(rows[1..][i], w));
    }
  }
}
