/**
  What the tokenizer makes of a line written field by field. A `Cell` is one
  field as it may appear on a line: bare text, or a quoted value with blanks
  before the opening and after the closing quote. `Render` is the trivial
  writer that joins cells with the delimiter; the theorems below say which
  field values `CSVParser.ParseLine` recovers from its output.
 */
module CSVFields {
  import opened CSVParser
  import opened Seqs

  predicate IsBlank(c: char) {
    c == Space || c == Tab
  }

  predicate AllBlank(s: string) {
    forall i :: 0 <= i < |s| ==> IsBlank(s[i])
  }

  /** Blanks that are not the delimiter: what may surround a quoted value. */
  predicate Padding(s: string, delim: char) {
    forall i :: 0 <= i < |s| ==> IsBlank(s[i]) && s[i] != delim
  }

  datatype Cell =
    | Bare(text: string)
    | Quoted(lead: string, value: string, trail: string)

  /** Every quote of the value doubled. */
  function Escape(v: string, quote: char): (r: string)
    ensures |r| >= |v|
  {
    if v == [] then [] else (if v[0] == quote then [quote, quote] else [v[0]]) + Escape(v[1..], quote)
  }

  /** Text without quotes is written as it is. */
  lemma {:induction false} EscapeWithoutQuote(v: string, quote: char)
    requires forall i :: 0 <= i < |v| ==> v[i] != quote
    ensures Escape(v, quote) == v
    decreases |v|
  {
    if v != [] {
      EscapeWithoutQuote(v[1..], quote);
    }
  }

  function RenderCell(cell: Cell, quote: char): string {
    match cell
    case Bare(t) => t
    case Quoted(l, v, tr) => l + [quote] + Escape(v, quote) + [quote] + tr
  }

  function Render(cells: seq<Cell>, delim: char, quote: char): string
    requires |cells| > 0
  {
    if |cells| == 1 then RenderCell(cells[0], quote)
    else RenderCell(cells[0], quote) + [delim] + Render(cells[1..], delim, quote)
  }

  /** Bare text holds neither delimiter nor quote; padding is blanks other than the delimiter. */
  predicate WellFormed(cell: Cell, delim: char, quote: char) {
    match cell
    case Bare(t) => forall i :: 0 <= i < |t| ==> t[i] != delim && t[i] != quote
    case Quoted(l, _, tr) => Padding(l, delim) && Padding(tr, delim)
  }

  predicate AllWellFormed(cells: seq<Cell>, delim: char, quote: char) {
    forall i :: 0 <= i < |cells| ==> WellFormed(cells[i], delim, quote)
  }

  /** Delimiter and quote differ, and the quote is not a blank. */
  predicate Separable(delim: char, quote: char) {
    delim != quote && !IsBlank(quote)
  }

  /**
    The value of bare text: tabs before the first non-blank character are
    dropped, leading spaces and everything from the first non-blank on are kept.
   */
  function UnquotedValue(t: string): string {
    if t == [] then []
    else if t[0] == Tab then UnquotedValue(t[1..])
    else if t[0] == Space then [Space] + UnquotedValue(t[1..])
    else t
  }

  /** The value a cell stands for; `pending` is what the field buffer already held. */
  function CellValue(pending: string, cell: Cell): string {
    match cell
    case Bare(t) => pending + UnquotedValue(t)
    case Quoted(_, v, _) => v
  }

  function Values(pending: string, cells: seq<Cell>): (vs: seq<string>)
    ensures |vs| == |cells|
    decreases |cells|
  {
    if cells == [] then [] else [CellValue(pending, cells[0])] + Values([], cells[1..])
  }

  /** Whether the end of a line after this cell submits it: bare blanks do not. */
  predicate Completes(cell: Cell) {
    cell.Quoted? || !AllBlank(cell.text)
  }

  /** The parser state right after a cell's text, with `value` the value it stands for. */
  predicate AfterCell(r: Parser, cell: Cell, value: string, quote: char) {
    && Inv(r)
    && match cell
       case Bare(t) =>
         && r.field == value
         && (if AllBlank(t) then r.state == FieldNotBegun else r.state == FieldBegun && !r.quoted)
       case Quoted(_, v, tr) =>
         value == v && r.state == FieldMightHaveEnded && r.field == v + [quote] + tr && r.spaces == |tr|
  }

  lemma {:induction false} ScanUnquotedBegun(p: Parser, t: string, delim: char, quote: char)
    requires p.state == FieldBegun && !p.quoted && Inv(p)
    requires forall i :: 0 <= i < |t| ==> t[i] != delim && t[i] != quote
    ensures var r := Scan(p, t, delim, quote);
      r.state == FieldBegun && !r.quoted && r.line == p.line && r.field == p.field + t
    decreases |t|
  {
    if t != [] {
      var p1 := Step(p, t[0], delim, quote);
      assert p1.state == FieldBegun && !p1.quoted && p1.line == p.line && p1.field == p.field + [t[0]];
      ScanUnquotedBegun(p1, t[1..], delim, quote);
      assert p.field + [t[0]] + t[1..] == p.field + t;
    }
  }

  lemma BlankHead(t: string)
    requires t != [] && IsBlank(t[0])
    ensures AllBlank(t) == AllBlank(t[1..])
  {
    assert forall i :: 0 < i < |t| ==> t[i] == t[1..][i - 1];
  }

  lemma {:induction false} ScanBare(p: Parser, t: string, delim: char, quote: char)
    requires p.state == FieldNotBegun && Inv(p) && Separable(delim, quote)
    requires forall i :: 0 <= i < |t| ==> t[i] != delim && t[i] != quote
    ensures var r := Scan(p, t, delim, quote);
      r.line == p.line && AfterCell(r, Bare(t), p.field + UnquotedValue(t), quote)
    decreases |t|, 1
  {
    if t == [] {
    } else if IsBlank(t[0]) {
      ScanBareBlank(p, t, delim, quote);
    } else {
      var p1 := Step(p, t[0], delim, quote);
      assert Scan(p, t, delim, quote) == Scan(p1, t[1..], delim, quote);
      assert p1.state == FieldBegun && !p1.quoted && p1.line == p.line && p1.field == p.field + [t[0]];
      ScanUnquotedBegun(p1, t[1..], delim, quote);
      assert p.field + [t[0]] + t[1..] == p.field + t;
      assert UnquotedValue(t) == t;
      assert !AllBlank(t);
    }
  }

  /** A leading blank of a bare cell: a tab is skipped, a space is kept. */
  lemma {:induction false} ScanBareBlank(p: Parser, t: string, delim: char, quote: char)
    requires p.state == FieldNotBegun && Inv(p) && Separable(delim, quote)
    requires forall i :: 0 <= i < |t| ==> t[i] != delim && t[i] != quote
    requires t != [] && IsBlank(t[0])
    ensures var r := Scan(p, t, delim, quote);
      r.line == p.line && AfterCell(r, Bare(t), p.field + UnquotedValue(t), quote)
    decreases |t|, 0
  {
    var p1 := Step(p, t[0], delim, quote);
    var v := if t[0] == Tab then [] else [Space];
    assert p1.state == FieldNotBegun && p1.line == p.line && p1.field == p.field + v && Inv(p1);
    assert Scan(p, t, delim, quote) == Scan(p1, t[1..], delim, quote);
    BlankHead(t);
    assert UnquotedValue(t) == v + UnquotedValue(t[1..]);
    assert p1.field + UnquotedValue(t[1..]) == p.field + UnquotedValue(t);
    ScanBare(p1, t[1..], delim, quote);
  }

  lemma {:induction false} ScanLead(p: Parser, l: string, delim: char, quote: char)
    requires p.state == FieldNotBegun && Inv(p) && Padding(l, delim)
    ensures var r := Scan(p, l, delim, quote);
      r.state == FieldNotBegun && r.line == p.line
    decreases |l|
  {
    if l != [] {
      ScanLead(Step(p, l[0], delim, quote), l[1..], delim, quote);
    }
  }

  lemma {:induction false} ScanEscaped(p: Parser, v: string, delim: char, quote: char)
    requires p.state == FieldBegun && p.quoted && p.spaces == 0 && Inv(p) && Separable(delim, quote)
    ensures Scan(p, Escape(v, quote), delim, quote) == p.(field := p.field + v)
    decreases |v|
  {
    if v == [] {
      assert p.field + v == p.field;
    } else {
      var head := if v[0] == quote then [quote, quote] else [v[0]];
      var p1 := p.(field := p.field + [v[0]]);
      ScanAppend(p, head, Escape(v[1..], quote), delim, quote);
      if v[0] == quote {
        var m := Step(p, quote, delim, quote);
        assert Scan(p, head, delim, quote) == Scan(Step(m, quote, delim, quote), [], delim, quote);
      } else {
        assert Scan(p, head, delim, quote) == Scan(Step(p, v[0], delim, quote), [], delim, quote);
      }
      ScanEscaped(p1, v[1..], delim, quote);
      assert p.field + [v[0]] + v[1..] == p.field + v;
    }
  }

  lemma {:induction false} ScanTrail(p: Parser, tr: string, delim: char, quote: char)
    requires p.state == FieldMightHaveEnded && Inv(p) && Padding(tr, delim)
    ensures Scan(p, tr, delim, quote) == p.(field := p.field + tr, spaces := p.spaces + |tr|)
    decreases |tr|
  {
    if tr == [] {
      assert p.field + tr == p.field;
    } else {
      ScanTrail(Step(p, tr[0], delim, quote), tr[1..], delim, quote);
      assert p.field + [tr[0]] + tr[1..] == p.field + tr;
    }
  }

  lemma ScanQuoted(p: Parser, l: string, v: string, tr: string, delim: char, quote: char)
    requires p.state == FieldNotBegun && Inv(p) && Separable(delim, quote)
    requires Padding(l, delim) && Padding(tr, delim)
    ensures var r := Scan(p, RenderCell(Quoted(l, v, tr), quote), delim, quote);
      r.line == p.line && AfterCell(r, Quoted(l, v, tr), v, quote)
  {
    var e := Escape(v, quote);
    var s := l + [quote] + e + [quote] + tr;
    ScanAppend(p, l + [quote] + e + [quote], tr, delim, quote);
    ScanAppend(p, l + [quote] + e, [quote], delim, quote);
    ScanAppend(p, l + [quote], e, delim, quote);
    ScanAppend(p, l, [quote], delim, quote);
    ScanLead(p, l, delim, quote);
    var a := Scan(p, l, delim, quote);
    var b := Step(a, quote, delim, quote);
    assert Scan(a, [quote], delim, quote) == b;
    assert b.state == FieldBegun && b.quoted && b.field == [] && b.spaces == 0 && b.line == p.line;
    ScanEscaped(b, v, delim, quote);
    var c := b.(field := v);
    assert Scan(b, e, delim, quote) == c;
    var d := Step(c, quote, delim, quote);
    assert Scan(c, [quote], delim, quote) == d;
    assert d.state == FieldMightHaveEnded && d.field == v + [quote];
    ScanTrail(d, tr, delim, quote);
  }

  /** A cell's text takes the parser from `FieldNotBegun` to the state `AfterCell` describes. */
  lemma ScanCell(p: Parser, cell: Cell, delim: char, quote: char)
    requires p.state == FieldNotBegun && Inv(p) && Separable(delim, quote) && WellFormed(cell, delim, quote)
    ensures var r := Scan(p, RenderCell(cell, quote), delim, quote);
      r.line == p.line && AfterCell(r, cell, CellValue(p.field, cell), quote)
  {
    match cell
    case Bare(t) => ScanBare(p, t, delim, quote);
    case Quoted(l, v, tr) => ScanQuoted(p, l, v, tr, delim, quote);
  }

  /** The delimiter after a cell submits exactly the cell's value. */
  lemma DelimiterAfterCell(r: Parser, cell: Cell, value: string, delim: char, quote: char)
    requires AfterCell(r, cell, value, quote) && Separable(delim, quote)
    ensures var n := Step(r, delim, delim, quote);
      n.state == FieldNotBegun && n.field == [] && n.line == r.line + [value] && Inv(n)
  {
    if cell.Quoted? {
      assert Trim(r.field, r.spaces + 1) == cell.value;
    }
  }

  /** The end of the line after a cell submits its value if it `Completes`, and keeps it pending otherwise. */
  lemma EndAfterCell(r: Parser, cell: Cell, value: string, quote: char)
    requires AfterCell(r, cell, value, quote)
    ensures var n := EndOfLine(r);
      n.state == LineCompleted && !n.quoted && n.spaces == 0 &&
      if Completes(cell) then n.line == r.line + [value] && n.field == []
      else n.line == r.line && n.field == value
  {
    if cell.Quoted? {
      assert Trim(r.field, r.spaces + 1) == cell.value;
    }
  }

  /** The first cell and the delimiter after it: one value submitted, and the parser back between fields. */
  lemma ScanFirstCell(p: Parser, cells: seq<Cell>, delim: char, quote: char)
    requires p.state == FieldNotBegun && Inv(p) && Separable(delim, quote)
    requires |cells| > 1 && WellFormed(cells[0], delim, quote)
    ensures var n := Scan(p, RenderCell(cells[0], quote) + [delim], delim, quote);
      && n.state == FieldNotBegun && n.field == [] && Inv(n)
      && n.line == p.line + [CellValue(p.field, cells[0])]
      && Scan(p, Render(cells, delim, quote), delim, quote) == Scan(n, Render(cells[1..], delim, quote), delim, quote)
  {
    var first := RenderCell(cells[0], quote);
    ScanCell(p, cells[0], delim, quote);
    var a := Scan(p, first, delim, quote);
    ScanAppend(p, first + [delim], Render(cells[1..], delim, quote), delim, quote);
    ScanAppend(p, first, [delim], delim, quote);
    DelimiterAfterCell(a, cells[0], CellValue(p.field, cells[0]), delim, quote);
    assert Scan(a, [delim], delim, quote) == Step(a, delim, delim, quote);
  }

  lemma WellFormedTail(cells: seq<Cell>, delim: char, quote: char)
    requires |cells| > 0 && AllWellFormed(cells, delim, quote)
    ensures AllWellFormed(cells[1..], delim, quote)
  {
    forall i | 0 <= i < |cells| - 1 ensures WellFormed(cells[1..][i], delim, quote) {
      assert cells[1..][i] == cells[i + 1];
    }
  }

  /** The values of a line are the first cell's value followed by the values of the rest. */
  lemma ValuesSplit(pending: string, cells: seq<Cell>)
    requires |cells| > 1
    ensures var vs := Values(pending, cells);
      && vs[..|cells| - 1] == [CellValue(pending, cells[0])] + Values([], cells[1..])[..|cells| - 2]
      && Values([], cells[1..])[|cells| - 2] == vs[|cells| - 1]
  {
    assert Values(pending, cells) == [CellValue(pending, cells[0])] + Values([], cells[1..]);
  }

  lemma {:induction false} ScanRendered(p: Parser, cells: seq<Cell>, delim: char, quote: char)
    requires p.state == FieldNotBegun && Inv(p) && Separable(delim, quote)
    requires |cells| > 0 && AllWellFormed(cells, delim, quote)
    ensures var r := Scan(p, Render(cells, delim, quote), delim, quote);
      var vs := Values(p.field, cells);
      r.line == p.line + vs[..|cells| - 1] && AfterCell(r, cells[|cells| - 1], vs[|cells| - 1], quote)
    decreases |cells|
  {
    if |cells| == 1 {
      ScanCell(p, cells[0], delim, quote);
    } else {
      assert WellFormed(cells[0], delim, quote);
      ScanFirstCell(p, cells, delim, quote);
      var n := Scan(p, RenderCell(cells[0], quote) + [delim], delim, quote);
      WellFormedTail(cells, delim, quote);
      ScanRendered(n, cells[1..], delim, quote);
      var r := Scan(n, Render(cells[1..], delim, quote), delim, quote);
      ValuesSplit(p.field, cells);
      AppendAssoc(p.line, [CellValue(p.field, cells[0])], Values([], cells[1..])[..|cells| - 2], Values(p.field, cells)[..|cells| - 1]);
      assert cells[1..][|cells| - 2] == cells[|cells| - 1];
    }
  }

  /**
    The round trip of a written line. From `FieldNotBegun`, a line of
    well-formed cells yields the cells' values: bare text verbatim apart from
    leading tabs, quoted values with doubled quotes undone and the padding
    around the quotes discarded. A final bare cell of blanks is not submitted;
    it stays in the field buffer (so an empty line gives no field at all).
    Whatever the buffer held before prefixes the first bare value.
   */
  lemma ParseRendered(p: Parser, cells: seq<Cell>, delim: char, quote: char)
    requires p.state == FieldNotBegun && Separable(delim, quote)
    requires |cells| > 0 && AllWellFormed(cells, delim, quote)
    ensures var r := ParseLine(p, Render(cells, delim, quote), delim, quote);
      var vs := Values(p.field, cells);
      && r.state == LineCompleted && !r.quoted && r.spaces == 0
      && (Completes(cells[|cells| - 1]) ==> r.line == p.line + vs && r.field == [])
      && (!Completes(cells[|cells| - 1]) ==> r.line == p.line + vs[..|cells| - 1] && r.field == vs[|cells| - 1])
  {
    var b := BeginLine(p);
    assert b.field == p.field && b.line == p.line && b.state == FieldNotBegun && Inv(b);
    var line := Render(cells, delim, quote);
    ScanRendered(b, cells, delim, quote);
    var m := Scan(b, line, delim, quote);
    var vs := Values(p.field, cells);
    var last := cells[|cells| - 1];
    assert m.line == p.line + vs[..|cells| - 1];
    EndAfterCell(m, last, vs[|cells| - 1], quote);
    var r := EndOfLine(m);
    assert ParseLine(p, line, delim, quote) == r;
    if Completes(last) {
      AppendLast(p.line, vs);
    }
  }

  /**
    Stray quotes in an unquoted field. A quote followed by ordinary text, with
    or without blanks in between, stays in the field; a quote followed by
    nothing but blanks before the delimiter is trimmed together with those
    blanks. Neither is an error.
   */
  lemma StrayQuoteKept(p: Parser, tr: string, c: char, delim: char, quote: char)
    requires p.state == FieldBegun && !p.quoted && Inv(p) && Separable(delim, quote) && Padding(tr, delim)
    requires !IsBlank(c) && c != delim && c != quote
    ensures var r := Scan(p, [quote] + tr + [c], delim, quote);
      r.state == FieldBegun && !r.quoted && r.line == p.line && r.field == p.field + [quote] + tr + [c]
  {
    var a := Step(p, quote, delim, quote);
    ScanAppend(p, [quote] + tr, [c], delim, quote);
    ScanAppend(p, [quote], tr, delim, quote);
    assert Scan(p, [quote], delim, quote) == a;
    ScanTrail(a, tr, delim, quote);
    var m := Scan(a, tr, delim, quote);
    assert Scan(m, [c], delim, quote) == Step(m, c, delim, quote);
  }

  lemma StrayQuoteTrimmed(p: Parser, tr: string, delim: char, quote: char)
    requires p.state == FieldBegun && !p.quoted && Inv(p) && Separable(delim, quote) && Padding(tr, delim)
    ensures var r := Scan(p, [quote] + tr, delim, quote);
      && Step(r, delim, delim, quote).line == p.line + [p.field]
      && EndOfLine(r).line == p.line + [p.field]
  {
    var a := Step(p, quote, delim, quote);
    ScanAppend(p, [quote], tr, delim, quote);
    assert Scan(p, [quote], delim, quote) == a;
    ScanTrail(a, tr, delim, quote);
    var r := Scan(a, tr, delim, quote);
    assert r.field == p.field + [quote] + tr && r.spaces == |tr|;
    assert Trim(r.field, r.spaces + 1) == p.field;
  }
}
