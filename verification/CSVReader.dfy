/**
  The driver `CSVParser.startReader`: it pulls lines, feeds each one to
  `parse`, and reports the document to its delegate. The delegate's three
  callbacks become an event trace.
 */
module CSVReader {
  import opened Wrappers
  import opened CSVParser
  import opened CSVFields
  import TextFile

  /** `parserDidStartDocument`, `parserDidReadLine` (with `lineCount` at that moment) and `parserDidEndDocument`. */
  datatype Event =
    | StartDocument
    | ReadLine(lineCount: nat, fields: seq<string>)
    | EndDocument

  /** Only record events, numbered within `(lo, hi]` and strictly increasing. */
  predicate Records(events: seq<Event>, lo: nat, hi: nat) {
    && (forall i :: 0 <= i < |events| ==> events[i].ReadLine? && lo < events[i].lineCount <= hi)
    && (forall i, j :: 0 <= i < j < |events| ==> events[i].lineCount < events[j].lineCount)
  }

  /** The states the parser rests in between two lines. */
  predicate AtRest(p: Parser) {
    p.state == FieldNotBegun || p.state == FieldContinuesNextLine
  }

  /** The parser, `lineCount` and the events of the read loop. */
  datatype Loop = Loop(parser: Parser, lineCount: nat, events: seq<Event>)

  /**
    The `while line != nil` loop over the remaining lines. Every line is read
    and counted (the `ERROR` break is never taken); a record is reported after
    the line that completes it, numbered with the physical lines read so far;
    and a record still open in a quoted field when the lines run out is never
    reported.
   */
  function ReadLoop(p: Parser, lineCount: nat, lines: seq<string>, delim: char, quote: char): (r: Loop)
    requires CanParse(p)
    ensures CanParse(r.parser)
    ensures r.lineCount == lineCount + |lines|
    ensures Records(r.events, lineCount, r.lineCount)
    ensures |lines| == 0 ==> r == Loop(p, lineCount, [])
    ensures |lines| > 0 ==> AtRest(r.parser)
    ensures |lines| > 0 ==> (r.parser.state == FieldNotBegun <==> |r.events| > 0 && r.events[|r.events| - 1].lineCount == r.lineCount)
    ensures |lines| > 0 && r.parser.state == FieldNotBegun ==> r.parser.line == []
    decreases |lines|
  {
    if lines == [] then
      Loop(p, lineCount, [])
    else
      var parsed := ParseLine(p, lines[0], delim, quote);
      if parsed.state == LineCompleted then
        var rest := ReadLoop(parsed.(line := [], state := FieldNotBegun), lineCount + 1, lines[1..], delim, quote);
        RecordsPrepend(lineCount, parsed.line, rest.events, rest.lineCount);
        Loop(rest.parser, rest.lineCount, [ReadLine(lineCount + 1, parsed.line)] + rest.events)
      else if parsed.state == FieldContinuesNextLine then
        ReadLoop(parsed, lineCount + 1, lines[1..], delim, quote)
      else
        // the source's `print("ERROR: ...")` and `break`: `ParseLine` never ends in another state
        assert false; Loop(parsed, lineCount, [])
  }

  lemma RecordsPrepend(n: nat, fields: seq<string>, events: seq<Event>, hi: nat)
    requires n < hi && Records(events, n + 1, hi)
    ensures Records([ReadLine(n + 1, fields)] + events, n, hi)
  {
    var all := [ReadLine(n + 1, fields)] + events;
    assert forall i :: 0 < i < |all| ==> all[i] == events[i - 1];
  }

  /** Exactly one start event first, exactly one end event last, records in between. */
  predicate Bracketed(events: seq<Event>, lineCount: nat) {
    && |events| >= 2
    && events[0] == StartDocument
    && events[|events| - 1] == EndDocument
    && Records(events[1..|events| - 1], 0, lineCount)
  }

  datatype Run = Run(events: seq<Event>, parser: Parser, lineCount: nat)

  /**
    `startReader(delimiter, quote)`. The delimiter and quote are the first
    scalars of their strings (the source force-unwraps them). `lineCount` is
    reset; the parser's accumulators are not. `hasDelegate` is whether the weak
    delegate is still there; `lines` is `nil` when the file could not be opened
    and otherwise the lines `nextLine` returns up to its first `nil`.
   */
  function StartReader(p: Parser, hasDelegate: bool, lines: Option<seq<string>>, delimiter: string, quote: string): (r: Run)
    requires |delimiter| > 0 && |quote| > 0
    requires CanParse(p)
    ensures !hasDelegate ==> r == Run([], p, 0)
    ensures hasDelegate ==> Bracketed(r.events, r.lineCount)
    ensures hasDelegate && lines.None? ==> r == Run([StartDocument, EndDocument], p, 0)
    ensures hasDelegate && lines.Some? ==> r.lineCount == |lines.value| && CanParse(r.parser)
    ensures hasDelegate && lines.Some? && |lines.value| > 0 ==> AtRest(r.parser)
  {
    if !hasDelegate then
      Run([], p, 0)
    else
      match lines
      case None => Run([StartDocument, EndDocument], p, 0)
      case Some(ls) =>
        var loop := ReadLoop(p, 0, ls, delimiter[0], quote[0]);
        var events := [StartDocument] + loop.events + [EndDocument];
        assert events[1..|events| - 1] == loop.events;
        Run(events, loop.parser, loop.lineCount)
  }

  /**
    `startReader` on a file: `file` is `None` when it cannot be opened, and the
    lines parsed are the texts of the file's reference lines, up to the first
    that fails to decode. At most one line per reference line is read, and all
    of them are when decoding never fails.
   */
  function ReadFile(p: Parser, hasDelegate: bool, file: Option<seq<TextFile.byte>>, decode: seq<TextFile.byte> -> Option<string>,
                    delimiter: string, quote: string): (r: Run)
    requires |delimiter| > 0 && |quote| > 0
    requires CanParse(p)
    ensures hasDelegate ==> Bracketed(r.events, r.lineCount)
    ensures hasDelegate && file.Some? ==>
      exists ts :: TextFile.DecodingsOf(ts, TextFile.SplitLines(file.value), decode) && r == StartReader(p, true, Some(ts), delimiter, quote)
    ensures hasDelegate && file.Some? ==> r.lineCount <= |TextFile.SplitLines(file.value)|
    ensures hasDelegate && file.Some? && (forall b :: decode(b).Some?) ==> r.lineCount == |TextFile.SplitLines(file.value)|
  {
    match file
    case None => StartReader(p, hasDelegate, None, delimiter, quote)
    case Some(bytes) =>
      TextFile.ReadLinesAreSplitLines(bytes);
      StartReader(p, hasDelegate, Some(TextFile.DecodedLines(TextFile.Open(bytes), decode)), delimiter, quote)
  }

  /**
    A quoted field spanning two physical lines: reading them is reading the
    one logical line that joins them with a newline, except that both lines
    are counted. So the record is reported once, after the second line.
   */
  lemma MultiLineRecord(p: Parser, n: nat, s1: string, s2: string, rest: seq<string>, delim: char, quote: char)
    requires CanParse(p) && delim != Newline && quote != Newline
    requires ParseLine(p, s1, delim, quote).state == FieldContinuesNextLine
    ensures ReadLoop(p, n, [s1, s2] + rest, delim, quote) == ReadLoop(p, n + 1, [s1 + [Newline] + s2] + rest, delim, quote)
  {
    var p1 := ParseLine(p, s1, delim, quote);
    ContinuedLineJoins(p, s1, s2, delim, quote);
    assert ([s1, s2] + rest)[1..] == [s2] + rest;
    assert ([s2] + rest)[1..] == rest;
    assert ([s1 + [Newline] + s2] + rest)[1..] == rest;
    assert ReadLoop(p, n, [s1, s2] + rest, delim, quote) == ReadLoop(p1, n + 1, [s2] + rest, delim, quote);
  }

  /** The parser between two lines of a document: between fields, with `field` left in the field buffer. */
  function Holding(field: string): (p: Parser)
    ensures p.state == FieldNotBegun && p.line == [] && p.field == field && CanParse(p) && Inv(p)
    ensures field == [] ==> p == Initial()
  {
    Initial().(field := field)
  }

  /** Each line is the rendering of its row of well-formed cells. */
  predicate WrittenRows(rows: seq<seq<Cell>>, lines: seq<string>, delim: char, quote: char) {
    && |lines| == |rows|
    && forall i :: 0 <= i < |rows| ==> |rows[i]| > 0 && AllWellFormed(rows[i], delim, quote) && lines[i] == Render(rows[i], delim, quote)
  }

  predicate NonEmptyRows(rows: seq<seq<Cell>>) {
    forall i :: 0 <= i < |rows| ==> |rows[i]| > 0
  }

  /**
    What a written row stands for, given the text `pending` left from the row
    before: its record, and the text it leaves pending in turn. A row whose
    last cell is bare blanks (an empty line, `a,`, `a,  `) does not submit that
    cell; its text carries over into the next row.
   */
  function RowOutcome(pending: string, row: seq<Cell>): (o: (seq<string>, string))
    requires |row| > 0
    ensures |o.0| == if Completes(row[|row| - 1]) then |row| else |row| - 1
    ensures Completes(row[|row| - 1]) ==> o.1 == []
  {
    var vs := Values(pending, row);
    if Completes(row[|row| - 1]) then (vs, []) else (vs[..|row| - 1], vs[|row| - 1])
  }

  /** The records of a written document, row by row, each row starting from what the one before left pending. */
  function ExpectedRecords(pending: string, rows: seq<seq<Cell>>): (recs: seq<seq<string>>)
    requires NonEmptyRows(rows)
    ensures |recs| == |rows|
    decreases |rows|
  {
    if rows == [] then []
    else
      var (rec, next) := RowOutcome(pending, rows[0]);
      assert NonEmptyRows(rows[1..]) by {
        assert forall i :: 0 <= i < |rows| - 1 ==> rows[1..][i] == rows[i + 1];
      }
      [rec] + ExpectedRecords(next, rows[1..])
  }

  /**
    The first of the written lines is reported as one record, the record of
    its row, and the parser is left holding what that row leaves pending.
   */
  lemma ReadRenderedRow(n: nat, pending: string, rows: seq<seq<Cell>>, lines: seq<string>, delim: char, quote: char)
    requires Separable(delim, quote) && WrittenRows(rows, lines, delim, quote) && |rows| > 0
    ensures var (rec, next) := RowOutcome(pending, rows[0]);
      ReadLoop(Holding(pending), n, lines, delim, quote).events
        == [ReadLine(n + 1, rec)] + ReadLoop(Holding(next), n + 1, lines[1..], delim, quote).events
  {
    assert |rows[0]| > 0 && AllWellFormed(rows[0], delim, quote) && lines[0] == Render(rows[0], delim, quote);
    ParseRendered(Holding(pending), rows[0], delim, quote);
    var parsed := ParseLine(Holding(pending), lines[0], delim, quote);
    var (rec, next) := RowOutcome(pending, rows[0]);
    assert parsed.state == LineCompleted && parsed.line == rec && parsed.field == next;
    assert parsed.(line := [], state := FieldNotBegun) == Holding(next);
  }

  /**
    Reading written lines reports one record per line, in order, numbered by
    line: exactly the records `ExpectedRecords` assigns to the rows.
   */
  lemma {:induction false} ReadRenderedLines(n: nat, pending: string, rows: seq<seq<Cell>>, lines: seq<string>, delim: char, quote: char)
    requires Separable(delim, quote) && WrittenRows(rows, lines, delim, quote)
    ensures NonEmptyRows(rows)
    ensures var events := ReadLoop(Holding(pending), n, lines, delim, quote).events;
      && |events| == |rows|
      && forall i :: 0 <= i < |rows| ==> events[i] == ReadLine(n + i + 1, ExpectedRecords(pending, rows)[i])
    decreases |rows|
  {
    if rows != [] {
      ReadRenderedRow(n, pending, rows, lines, delim, quote);
      var next := RowOutcome(pending, rows[0]).1;
      TailRows(rows, lines, delim, quote);
      ReadRenderedLines(n + 1, next, rows[1..], lines[1..], delim, quote);
      ShiftRecords(n, ExpectedRecords(pending, rows), ReadLoop(Holding(pending), n, lines, delim, quote).events,
                   ReadLoop(Holding(next), n + 1, lines[1..], delim, quote).events);
    }
  }

  lemma TailRows(rows: seq<seq<Cell>>, lines: seq<string>, delim: char, quote: char)
    requires WrittenRows(rows, lines, delim, quote) && |rows| > 0
    ensures WrittenRows(rows[1..], lines[1..], delim, quote)
  {
    forall i | 0 <= i < |rows| - 1
      ensures |rows[1..][i]| > 0 && AllWellFormed(rows[1..][i], delim, quote) && lines[1..][i] == Render(rows[1..][i], delim, quote)
    {
      assert rows[1..][i] == rows[i + 1] && lines[1..][i] == lines[i + 1];
    }
  }

  lemma ShiftRecords(n: nat, recs: seq<seq<string>>, events: seq<Event>, tail: seq<Event>)
    requires |recs| > 0 && events == [ReadLine(n + 1, recs[0])] + tail && |tail| == |recs| - 1
    requires forall i :: 0 <= i < |recs| - 1 ==> tail[i] == ReadLine(n + 1 + i + 1, recs[1..][i])
    ensures |events| == |recs| && forall i :: 0 <= i < |recs| ==> events[i] == ReadLine(n + i + 1, recs[i])
  {
    forall i | 0 < i < |recs| ensures events[i] == ReadLine(n + i + 1, recs[i]) {
      assert events[i] == tail[i - 1] && recs[1..][i - 1] == recs[i];
    }
  }

  /**
    The round trip of a whole document written one row per line: each row is
    reported once, in order, numbered by its line, with the record
    `ExpectedRecords` assigns it, between one start and one end event.
   */
  lemma ReadRenderedDocument(rows: seq<seq<Cell>>, lines: seq<string>, delimiter: string, quote: string)
    requires |delimiter| > 0 && |quote| > 0 && Separable(delimiter[0], quote[0])
    requires WrittenRows(rows, lines, delimiter[0], quote[0])
    ensures NonEmptyRows(rows)
    ensures var events := StartReader(Initial(), true, Some(lines), delimiter, quote).events;
      && |events| == |rows| + 2 && events[0] == StartDocument && events[|rows| + 1] == EndDocument
      && forall i :: 0 <= i < |rows| ==> events[i + 1] == ReadLine(i + 1, ExpectedRecords([], rows)[i])
  {
    ReadRenderedLines(0, [], rows, lines, delimiter[0], quote[0]);
  }

  /** A row whose last cell completes the record. */
  predicate CompleteRow(row: seq<Cell>) {
    |row| > 0 && Completes(row[|row| - 1])
  }

  /** When every row completes its record, nothing carries over and each record is its row's values. */
  lemma {:induction false} CompleteRowsReadBack(rows: seq<seq<Cell>>)
    requires forall i :: 0 <= i < |rows| ==> CompleteRow(rows[i])
    ensures NonEmptyRows(rows)
    ensures forall i :: 0 <= i < |rows| ==> ExpectedRecords([], rows)[i] == Values([], rows[i])
    decreases |rows|
  {
    if rows != [] {
      assert CompleteRow(rows[0]);
      assert forall i :: 0 <= i < |rows| - 1 ==> rows[1..][i] == rows[i + 1];
      CompleteRowsReadBack(rows[1..]);
      var recs := ExpectedRecords([], rows);
      assert recs == [Values([], rows[0])] + ExpectedRecords([], rows[1..]);
      forall i | 0 < i < |rows| ensures recs[i] == Values([], rows[i]) {
        assert recs[i] == ExpectedRecords([], rows[1..])[i - 1];
      }
    }
  }

  /** A document of complete rows reads back as exactly its rows' values. */
  lemma ReadCompleteDocument(rows: seq<seq<Cell>>, lines: seq<string>, delimiter: string, quote: string)
    requires |delimiter| > 0 && |quote| > 0 && Separable(delimiter[0], quote[0])
    requires WrittenRows(rows, lines, delimiter[0], quote[0])
    requires forall i :: 0 <= i < |rows| ==> CompleteRow(rows[i])
    ensures var events := StartReader(Initial(), true, Some(lines), delimiter, quote).events;
      && |events| == |rows| + 2 && events[0] == StartDocument && events[|rows| + 1] == EndDocument
      && forall i :: 0 <= i < |rows| ==> events[i + 1] == ReadLine(i + 1, Values([], rows[i]))
  {
    ReadRenderedDocument(rows, lines, delimiter, quote);
    CompleteRowsReadBack(rows);
  }
}
