/** Worked inputs, each derived from the general theorems or by stepping the automaton. */
module Examples {
  import opened Wrappers
  import opened CSVParser
  import opened CSVFields
  import opened CSVReader
  import TextFile

  /** A doubled quote inside a quoted field is one quote: `"a""b",c` gives `a"b` and `c`. */
  lemma EscapedQuotes()
    ensures var r := ParseLine(Initial(), "\"a\"\"b\",c", ',', '"');
      r.state == LineCompleted && r.line == ["a\"b", "c"]
  {
    var v := "a\"b";
    assert Escape(v, '"') == "a\"\"b" by {
      assert v[1..] == "\"b" && v[1..][1..] == "b" && "b"[1..] == [];
    }
    var cells := [Quoted("", v, ""), Bare("c")];
    assert cells[1..] == [Bare("c")];
    assert Render([Bare("c")], ',', '"') == "c";
    assert Render(cells, ',', '"') == "\"a\"\"b\",c";
    assert AllWellFormed(cells, ',', '"');
    assert UnquotedValue("c") == "c";
    assert CellValue("", Bare("c")) == "c";
    assert [Bare("c")][1..] == [];
    assert Values("", []) == [];
    assert Values("", cells) == [v, "c"];
    assert Completes(Bare("c")) by { assert !IsBlank("c"[0]); }
    ParseRendered(Initial(), cells, ',', '"');
  }

  /** Consecutive delimiters give an empty field: `a,,b` is `a`, ``, `b`. */
  lemma ConsecutiveDelimiters()
    ensures var r := ParseLine(Initial(), "a,,b", ',', '"');
      r.state == LineCompleted && r.line == ["a", "", "b"]
  {
    var cells := [Bare("a"), Bare(""), Bare("b")];
    assert cells[1..] == [Bare(""), Bare("b")];
    assert cells[1..][1..] == [Bare("b")];
    assert Render([Bare("b")], ',', '"') == "b";
    assert Render(cells[1..], ',', '"') == ",b";
    assert Render(cells, ',', '"') == "a,,b";
    assert AllWellFormed(cells, ',', '"');
    assert UnquotedValue("b") == "b";
    assert UnquotedValue("a") == "a";
    assert [Bare("b")][1..] == [];
    assert CellValue("", Bare("b")) == "b";
    assert Values("", []) == [];
    assert CellValue("", Bare("a")) == "a";
    assert Values("", [Bare("b")]) == ["b"];
    assert UnquotedValue("") == "" && CellValue("", Bare("")) == "";
    assert Values("", cells[1..]) == ["", "b"] by {
      assert Values("", cells[1..]) == [CellValue("", Bare(""))] + Values([], [Bare("b")]);
    }
    assert Values("", cells) == ["a", "", "b"];
    assert Completes(Bare("b")) by { assert !IsBlank("b"[0]); }
    ParseRendered(Initial(), cells, ',', '"');
  }

  /** Tabs before an unquoted field are skipped, tabs after it are kept: tab `a` tab `,b` gives `a` tab and `b`. */
  lemma TabsAroundUnquotedField()
    ensures var r := ParseLine(Initial(), "\ta\t,b", ',', '"');
      r.state == LineCompleted && r.line == ["a\t", "b"]
  {
    var cells := [Bare("\ta\t"), Bare("b")];
    assert Render(cells, ',', '"') == "\ta\t,b" by {
      assert cells[1..] == [Bare("b")];
      assert Render([Bare("b")], ',', '"') == "b";
    }
    assert Values("", cells) == ["a\t", "b"] by {
      assert cells[1..] == [Bare("b")];
      assert UnquotedValue("\ta\t") == "a\t" by {
        assert "\ta\t"[1..] == "a\t";
      }
      assert UnquotedValue("b") == "b";
      assert CellValue("", Bare("\ta\t")) == "a\t";
      assert CellValue("", Bare("b")) == "b";
      assert [Bare("b")][1..] == [];
      assert Values("", [Bare("b")]) == ["b"];
    }
    assert AllWellFormed(cells, ',', '"');
    assert Completes(Bare("b")) by { assert !IsBlank("b"[0]); }
    ParseRendered(Initial(), cells, ',', '"');
  }

  /**
    The end of a line in `FieldNotBegun` does not submit the pending field:
    an empty line has no field, `,` has one and `a,` has one.
   */
  lemma EmptyAndTrailingDelimiter()
    ensures ParseLine(Initial(), "", ',', '"').line == []
    ensures ParseLine(Initial(), ",", ',', '"').line == [""]
    ensures ParseLine(Initial(), "a,", ',', '"').line == ["a"]
  {
    assert Render([Bare("")], ',', '"') == "";
    assert AllWellFormed([Bare("")], ',', '"');
    ParseRendered(Initial(), [Bare("")], ',', '"');

    var two := [Bare(""), Bare("")];
    assert two[1..] == [Bare("")];
    assert Render(two, ',', '"') == ",";
    assert AllWellFormed(two, ',', '"');
    assert Values("", two)[..1] == [""];
    ParseRendered(Initial(), two, ',', '"');

    var trailing := [Bare("a"), Bare("")];
    assert trailing[1..] == [Bare("")];
    assert Render(trailing, ',', '"') == "a,";
    assert AllWellFormed(trailing, ',', '"');
    assert UnquotedValue("a") == "a";
    assert CellValue("", Bare("a")) == "a";
    assert Values("", trailing)[..1] == ["a"];
    ParseRendered(Initial(), trailing, ',', '"');
  }

  /** Blanks after the last delimiter are not submitted: `a,  ` gives `a`, with two spaces left in the field buffer. */
  lemma TrailingBlanksPending()
    ensures var r := ParseLine(Initial(), "a,  ", ',', '"');
      r.state == LineCompleted && r.line == ["a"] && r.field == "  "
  {
    var cells := [Bare("a"), Bare("  ")];
    assert cells[1..] == [Bare("  ")];
    assert Render(cells, ',', '"') == "a,  ";
    assert AllWellFormed(cells, ',', '"');
    assert UnquotedValue("a") == "a";
    assert UnquotedValue("  ") == "  " by {
      assert "  "[1..] == " " && " "[1..] == "";
    }
    assert !Completes(Bare("  "));
    assert CellValue("", Bare("a")) == "a";
    assert CellValue("", Bare("  ")) == "  ";
    assert Values("", cells) == ["a", "  "];
    ParseRendered(Initial(), cells, ',', '"');
  }

  /** A pending field buffer prefixes the first unquoted field of the next line. */
  lemma PendingPrefixesField(p: Parser)
    requires p.state == FieldNotBegun && p.field == "  "
    ensures ParseLine(p, "b", ',', '"').line == p.line + ["  b"]
  {
    assert Render([Bare("b")], ',', '"') == "b";
    assert AllWellFormed([Bare("b")], ',', '"');
    assert UnquotedValue("b") == "b";
    assert Completes(Bare("b")) by { assert !IsBlank("b"[0]); }
    assert CellValue("  ", Bare("b")) == "  b";
    assert Values("  ", [Bare("b")]) == ["  b"] by { assert [Bare("b")][1..] == []; }
    ParseRendered(p, [Bare("b")], ',', '"');
  }

  /**
    Blanks after the last delimiter stay in the field buffer, since the driver
    clears only the record, and prefix the first unquoted field of the next
    line: reading `a,  ` then `b` reports `a`, then `  b`.
   */
  lemma LeadingSpacesCarryOver()
    ensures ReadLoop(Initial(), 0, ["a,  ", "b"], ',', '"').events == [ReadLine(1, ["a"]), ReadLine(2, ["  b"])]
  {
    TrailingBlanksPending();
    var r1 := ParseLine(Initial(), "a,  ", ',', '"');
    var p2 := r1.(line := [], state := FieldNotBegun);
    PendingPrefixesField(p2);
    var r2 := ParseLine(p2, "b", ',', '"');
    assert r2.state == LineCompleted by {
      ParseRendered(p2, [Bare("b")], ',', '"');
      assert Render([Bare("b")], ',', '"') == "b";
      assert AllWellFormed([Bare("b")], ',', '"');
    }
    assert ["a,  ", "b"][1..] == ["b"] && ["b"][1..] == [];
  }

  /** A quoted `b` after pending blanks is the record `b`, with nothing left pending. */
  lemma QuotedAfterPending(p: Parser)
    requires p.state == FieldNotBegun && p.line == [] && p.field == "  "
    ensures var r := ParseLine(p, "\"b\"", ',', '"');
      r.state == LineCompleted && r.line == ["b"]
  {
    var cells := [Quoted("", "b", "")];
    assert Escape("b", '"') == "b" by { assert "b"[1..] == []; }
    assert Render(cells, ',', '"') == "\"b\"";
    assert AllWellFormed(cells, ',', '"');
    assert Values("  ", cells) == ["b"] by { assert cells[1..] == []; }
    ParseRendered(p, cells, ',', '"');
  }

  /**
    An opening quote discards what the field buffer held: reading `a,  ` then
    a quoted `b` reports `a`, then `b`.
   */
  lemma QuoteDiscardsCarriedBlanks()
    ensures ReadLoop(Initial(), 0, ["a,  ", "\"b\""], ',', '"').events == [ReadLine(1, ["a"]), ReadLine(2, ["b"])]
  {
    TrailingBlanksPending();
    var r1 := ParseLine(Initial(), "a,  ", ',', '"');
    QuotedAfterPending(r1.(line := [], state := FieldNotBegun));
    assert ["a,  ", "\"b\""][1..] == ["\"b\""] && ["\"b\""][1..] == [];
  }

  /** Stepping the automaton over a nonempty line. */
  lemma ScanStep(p: Parser, s: string, delim: char, quote: char)
    requires Inv(p) && s != []
    ensures Scan(p, s, delim, quote) == Scan(Step(p, s[0], delim, quote), s[1..], delim, quote)
  {
  }

  /** Scanning a line in two pieces whose scans are known. */
  lemma ScanPieces(p: Parser, a: string, b: string, q: Parser, r: Parser, delim: char, quote: char)
    requires Inv(p) && Scan(p, a, delim, quote) == q && Scan(q, b, delim, quote) == r
    ensures Scan(p, a + b, delim, quote) == r
  {
    ScanAppend(p, a, b, delim, quote);
  }

  /** `a"b` from the start of a line: an unquoted field holding the quote. */
  lemma ScanStrayQuoteText()
    ensures Scan(Initial(), "a\"b", ',', '"') == Parser(FieldBegun, [], "a\"b", false, 0)
  {
    var s := "a\"b";
    var p0 := Initial();
    ScanStep(p0, s, ',', '"');
    var p1 := Parser(FieldBegun, [], "a", false, 0);
    assert Step(p0, 'a', ',', '"') == p1;
    assert s[1..] == "\"b";
    ScanStep(p1, s[1..], ',', '"');
    var p2 := Parser(FieldMightHaveEnded, [], "a\"", false, 0);
    assert Step(p1, '"', ',', '"') == p2;
    assert s[2..] == "b";
    ScanStep(p2, s[2..], ',', '"');
    assert Step(p2, 'b', ',', '"') == Parser(FieldBegun, [], "a\"b", false, 0);
    assert s[3..] == [];
  }

  /** `,c` after an open unquoted field `f`: `f` is submitted and `c` begins the next field. */
  lemma ScanDelimiterThenText(f: string, c: char)
    requires c != ',' && c != '"' && c != ' ' && c != '\t'
    ensures Scan(Parser(FieldBegun, [], f, false, 0), [',', c], ',', '"') == Parser(FieldBegun, [f], [c], false, 0)
  {
    var p3 := Parser(FieldBegun, [], f, false, 0);
    var s := [',', c];
    ScanStep(p3, s, ',', '"');
    var p4 := Parser(FieldNotBegun, [f], "", false, 0);
    assert Step(p3, ',', ',', '"') == p4;
    assert s[1..] == [c];
    ScanStep(p4, s[1..], ',', '"');
    assert Step(p4, c, ',', '"') == Parser(FieldBegun, [f], [c], false, 0);
    assert s[1..][1..] == [];
  }

  /** A stray quote followed by text is data: `a"b,c` gives `a"b` and `c`. */
  lemma StrayQuoteInText()
    ensures var r := ParseLine(Initial(), "a\"b,c", ',', '"');
      r.state == LineCompleted && r.line == ["a\"b", "c"]
  {
    assert BeginLine(Initial()) == Initial();
    ScanStrayQuoteText();
    ScanDelimiterThenText("a\"b", 'c');
    ScanPieces(Initial(), "a\"b", ",c", Parser(FieldBegun, [], "a\"b", false, 0), Parser(FieldBegun, ["a\"b"], "c", false, 0), ',', '"');
    assert "a\"b" + ",c" == "a\"b,c";
    assert EndOfLine(Parser(FieldBegun, ["a\"b"], "c", false, 0)) == Parser(LineCompleted, ["a\"b", "c"], "", false, 0);
  }

  /** `ab"` from the start of a line: the quote may end the field. */
  lemma ScanQuoteAfterText()
    ensures Scan(Initial(), "ab\"", ',', '"') == Parser(FieldMightHaveEnded, [], "ab\"", false, 0)
  {
    var s := "ab\"";
    var p0 := Initial();
    ScanStep(p0, s, ',', '"');
    var p1 := Parser(FieldBegun, [], "a", false, 0);
    assert Step(p0, 'a', ',', '"') == p1;
    assert s[1..] == "b\"";
    ScanStep(p1, s[1..], ',', '"');
    var p2 := Parser(FieldBegun, [], "ab", false, 0);
    assert Step(p1, 'b', ',', '"') == p2;
    assert s[2..] == "\"";
    ScanStep(p2, s[2..], ',', '"');
    assert Step(p2, '"', ',', '"') == Parser(FieldMightHaveEnded, [], "ab\"", false, 0);
    assert s[3..] == [];
  }

  /** `,e` right after the stray quote: the quote is trimmed and `ab` submitted. */
  lemma ScanTrimmedQuote()
    ensures Scan(Parser(FieldMightHaveEnded, [], "ab\"", false, 0), ",e", ',', '"') == Parser(FieldBegun, ["ab"], "e", false, 0)
  {
    var p3 := Parser(FieldMightHaveEnded, [], "ab\"", false, 0);
    var s := ",e";
    ScanStep(p3, s, ',', '"');
    var p4 := Parser(FieldNotBegun, ["ab"], "", false, 0);
    assert Trim(p3.field, 1) == "ab";
    assert Step(p3, ',', ',', '"') == p4;
    assert s[1..] == "e";
    ScanStep(p4, s[1..], ',', '"');
    assert Step(p4, 'e', ',', '"') == Parser(FieldBegun, ["ab"], "e", false, 0);
    assert s[2..] == [];
  }

  /** A stray quote followed only by the delimiter is trimmed: `ab",e` gives `ab` and `e`. */
  lemma StrayQuoteBeforeDelimiter()
    ensures var r := ParseLine(Initial(), "ab\",e", ',', '"');
      r.state == LineCompleted && r.line == ["ab", "e"]
  {
    assert BeginLine(Initial()) == Initial();
    ScanQuoteAfterText();
    ScanTrimmedQuote();
    ScanPieces(Initial(), "ab\"", ",e", Parser(FieldMightHaveEnded, [], "ab\"", false, 0), Parser(FieldBegun, ["ab"], "e", false, 0), ',', '"');
    assert "ab\"" + ",e" == "ab\",e";
    assert EndOfLine(Parser(FieldBegun, ["ab"], "e", false, 0)) == Parser(LineCompleted, ["ab", "e"], "", false, 0);
  }

  /** An open quoted field leaves the line unfinished: `"x` continues on the next line. */
  lemma OpenQuoteContinues()
    ensures ParseLine(Initial(), "\"x", ',', '"').state == FieldContinuesNextLine
  {
    var s1 := "\"x";
    ScanStep(BeginLine(Initial()), s1, ',', '"');
    assert s1[1..] == "x";
    ScanStep(Step(BeginLine(Initial()), '"', ',', '"'), "x", ',', '"');
  }

  /** A quoted field may hold a newline: `"x` newline `y",z` gives `x` newline `y` and `z`. */
  lemma QuotedNewline()
    ensures var r := ParseLine(Initial(), "\"x\ny\",z", ',', '"');
      r.state == LineCompleted && r.line == ["x\ny", "z"]
  {
    var v := "x\ny";
    var cells := [Quoted("", v, ""), Bare("z")];
    assert Render(cells, ',', '"') == "\"x\ny\",z" by {
      NewlineValueUnescaped();
      assert cells[1..] == [Bare("z")];
      assert Render([Bare("z")], ',', '"') == "z";
    }
    assert Values("", cells) == [v, "z"] by {
      assert cells[1..] == [Bare("z")];
      assert UnquotedValue("z") == "z";
      assert CellValue("", Bare("z")) == "z";
      assert [Bare("z")][1..] == [];
      assert Values("", []) == [];
    }
    assert AllWellFormed(cells, ',', '"');
    assert Completes(Bare("z")) by { assert !IsBlank("z"[0]); }
    ParseRendered(Initial(), cells, ',', '"');
  }

  /** `x` newline `y` holds no quote, so it is written as it is. */
  lemma NewlineValueUnescaped()
    ensures Escape("x\ny", '"') == "x\ny"
  {
    var v := "x\ny";
    assert forall i | 0 <= i < |v| :: v[i] != '"' by {
      assert v == ['x', '\n', 'y'];
    }
    EscapeWithoutQuote(v, '"');
  }

  /** The joined line, read as the second physical line, is one record numbered 2. */
  lemma JoinedLineRead()
    ensures ReadLoop(Initial(), 1, ["\"x\ny\",z"], ',', '"').events == [ReadLine(2, ["x\ny", "z"])]
  {
    QuotedNewline();
    assert ["\"x\ny\",z"][1..] == [];
  }

  /** The two physical lines of a quoted field across lines are read as one record. */
  lemma ContinuedRecordRead()
    ensures ReadLoop(Initial(), 0, ["\"x", "y\",z"], ',', '"').events == [ReadLine(2, ["x\ny", "z"])]
  {
    var s1 := "\"x";
    var s2 := "y\",z";
    OpenQuoteContinues();
    MultiLineRecord(Initial(), 0, s1, s2, [], ',', '"');
    assert [s1, s2] + [] == [s1, s2];
    assert s1 + [Newline] + s2 == "\"x\ny\",z";
    assert [s1 + [Newline] + s2] + [] == ["\"x\ny\",z"];
    JoinedLineRead();
  }

  /**
    A quoted field across two lines: `"x` then `y",z` is reported once, after
    line 2, as `x` newline `y` and `z`.
   */
  lemma QuotedFieldAcrossLines()
    ensures StartReader(Initial(), true, Some(["\"x", "y\",z"]), ",", "\"").events
         == [StartDocument, ReadLine(2, ["x\ny", "z"]), EndDocument]
  {
    ContinuedRecordRead();
    ReaderEvents(["\"x", "y\",z"], ',', '"', [ReadLine(2, ["x\ny", "z"])]);
  }

  /** The events of `startReader` with a delegate: the read loop's records between start and end. */
  lemma ReaderEvents(lines: seq<string>, delimiter: char, quote: char, records: seq<Event>)
    requires ReadLoop(Initial(), 0, lines, delimiter, quote).events == records
    ensures StartReader(Initial(), true, Some(lines), [delimiter], [quote]).events
         == [StartDocument] + records + [EndDocument]
  {
  }

  /** Empty input still brackets; without a delegate nothing happens at all. */
  lemma NoLines()
    ensures StartReader(Initial(), true, Some([]), ",", "\"").events == [StartDocument, EndDocument]
    ensures StartReader(Initial(), false, Some(["a"]), ",", "\"").events == []
  {
  }

  /** `a CR LF LF` is the line `a` and a blank line; an LF right after a CR is skipped, even across calls. */
  lemma CrLfThenLf()
    ensures TextFile.AllLines(TextFile.Open([97, TextFile.CR, TextFile.LF, TextFile.LF])) == [[97], []]
  {
    var s: seq<TextFile.byte> := [97, TextFile.CR, TextFile.LF, TextFile.LF];
    TextFile.ReadLinesAreSplitLines(s);
    assert TextFile.LineEnd(s[1..]) == 0;
    assert TextFile.LineEnd(s) == 1;
    assert TextFile.TerminatorLength(s, 1) == 2;
    assert s[..1] == [97] && s[3..] == [TextFile.LF];
    var t: seq<TextFile.byte> := [TextFile.LF];
    assert TextFile.LineEnd(t) == 0 && t[..0] == [] && t[1..] == [];
    assert TextFile.SplitLines(t) == [[]];
    assert TextFile.SplitLines(s) == [[97]] + TextFile.SplitLines(t);
  }
}
