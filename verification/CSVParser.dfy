/**
  The record tokenizer of `CSVParser.parse`: a five-state machine that reads one
  line of Unicode scalars at a time and accumulates the fields of a record.
  It is a lenient variant of the libcsv algorithm: a quote inside an unquoted
  field is data, and a quoted field may continue onto the next line.

  Characters are Dafny `char`s, i.e. Unicode scalar values, exactly the units
  the source iterates over (`line.unicodeScalars`).
 */
module CSVParser {

  /** Where the automaton is within the current field. */
  datatype ParserState =
    | FieldNotBegun           // between fields, or at the start of a record
    | FieldBegun              // inside a field
    | FieldMightHaveEnded     // just after a quote: a close, an escape, or a stray quote
    | LineCompleted           // the record is complete and ready for the delegate
    | FieldContinuesNextLine  // a quoted field is still open at the end of the line

  /**
    The accumulators of the parser object: `parsedLine` (the fields of the
    record so far), `parsedField` (the field being built), `quoted` (whether
    it opened with a quote) and `spaces` (how many characters at its end may
    have to be trimmed once a closing quote is confirmed).
   */
  datatype Parser = Parser(state: ParserState, line: seq<string>, field: string, quoted: bool, spaces: nat)

  const Tab: char := '\t'
  const Space: char := ' '
  const Newline: char := '\n'

  /** The values the parser object is created with. */
  function Initial(): (p: Parser)
    ensures p.state == FieldNotBegun && p.line == [] && p.field == [] && !p.quoted
    ensures Inv(p) && CanParse(p)
  {
    Parser(FieldNotBegun, [], [], false, 0)
  }

  /** The states the per-character switch has a case for. */
  predicate Scanning(p: Parser) {
    p.state == FieldNotBegun || p.state == FieldBegun || p.state == FieldMightHaveEnded
  }

  /**
    The trim bound: `spaces` never exceeds the field, and after a quote there is
    at least the quote itself in front of the counted characters.
   */
  predicate Inv(p: Parser) {
    && p.spaces <= |p.field|
    && (p.state == FieldMightHaveEnded ==> p.spaces < |p.field|)
  }

  /** `r` keeps every field `p` had already submitted, in order. */
  predicate Extends(p: Parser, r: Parser) {
    |p.line| <= |r.line| && r.line[..|p.line|] == p.line
  }

  /** Removes the last `n` characters of a field. */
  function Trim(field: string, n: nat): (r: string)
    requires n <= |field|
    ensures |r| == |field| - n && field == r + field[|r|..]
  {
    field[..|field| - n]
  }

  /** SUBMIT_FIELD: append `value` to the record and clear the field accumulators. */
  function Submit(p: Parser, value: string): (r: Parser)
    ensures r.line == p.line + [value] && r.field == [] && !r.quoted && r.spaces == 0
    ensures r.state == p.state
  {
    p.(line := p.line + [value], field := [], quoted := false, spaces := 0)
  }

  /**
    One iteration of the per-scalar loop of `parse`, with the conditions checked
    in the source's order. The `default` case (a state the switch does not
    handle) leaves everything unchanged.
   */
  function Step(p: Parser, c: char, delim: char, quote: char): (r: Parser)
    requires p.state == FieldMightHaveEnded ==> p.spaces < |p.field|
    ensures Inv(p) ==> Inv(r)
    ensures Scanning(p) ==> Scanning(r)
    ensures !Scanning(p) ==> r == p
    ensures Extends(p, r) && |r.line| <= |p.line| + 1
    ensures |r.line| == |p.line| + 1 ==> c == delim
  {
    match p.state
    case FieldNotBegun =>
      if c == Tab && c != delim then
        p
      else if c == Space && c != delim then
        p.(field := p.field + [c], spaces := p.spaces + 1)
      else if c == delim then
        Submit(p, p.field)
      else if c == quote then
        p.(field := [], quoted := true, spaces := 0, state := FieldBegun)
      else
        p.(field := p.field + [c], quoted := false, spaces := 0, state := FieldBegun)
    case FieldBegun =>
      if c == quote then
        if p.quoted then p.(field := p.field + [c], state := FieldMightHaveEnded)
        else p.(field := p.field + [c], state := FieldMightHaveEnded, spaces := 0)
      else if c == delim then
        if p.quoted then p.(field := p.field + [c])
        else Submit(p, p.field).(state := FieldNotBegun)
      else if !p.quoted && (c == Space || c == Tab) then
        p.(field := p.field + [c], spaces := p.spaces + 1)
      else
        p.(field := p.field + [c], spaces := 0)
    case FieldMightHaveEnded =>
      if c == delim then
        Submit(p, Trim(p.field, p.spaces + 1)).(state := FieldNotBegun)
      else if c == Space || c == Tab then
        p.(field := p.field + [c], spaces := p.spaces + 1)
      else if c == quote then
        p.(state := FieldBegun)
      else
        p.(field := p.field + [c], quoted := false, spaces := 0, state := FieldBegun)
    case _ =>
      p
  }

  /** The loop of `parse`: `Step` folded over the scalars of a line, left to right. */
  function Scan(p: Parser, s: string, delim: char, quote: char): (r: Parser)
    requires Inv(p)
    ensures Inv(r)
    ensures Scanning(p) ==> Scanning(r)
    ensures !Scanning(p) ==> r == p
    ensures Extends(p, r)
    decreases |s|
  {
    if s == [] then p else Scan(Step(p, s[0], delim, quote), s[1..], delim, quote)
  }

  /**
    The start of `parse`: `spaces` is reset, and a quoted field left open by
    the previous line absorbs exactly one newline before the scan resumes.
   */
  function BeginLine(p: Parser): (r: Parser)
    ensures r.spaces == 0 && r.line == p.line && r.quoted == p.quoted
    ensures p.state == FieldContinuesNextLine ==> r.state == FieldBegun && r.field == p.field + [Newline]
    ensures p.state != FieldContinuesNextLine ==> r.state == p.state && r.field == p.field
  {
    var p0 := p.(spaces := 0);
    if p0.state == FieldContinuesNextLine then
      p0.(field := p0.field + [Newline], state := FieldBegun)
    else
      p0
  }

  /**
    The end-of-line resolution of `parse`. On a quoted field still open the
    line continues; otherwise the pending field is submitted (trimming a
    closing quote and what follows it) and the record is complete. In
    `FieldNotBegun` the record completes WITHOUT submitting the pending field.
   */
  function EndOfLine(p: Parser): (r: Parser)
    requires Inv(p)
    ensures Scanning(p) ==> r.state == LineCompleted || r.state == FieldContinuesNextLine
    ensures r.state == FieldContinuesNextLine && Scanning(p) ==> p.state == FieldBegun && p.quoted && r == p.(state := FieldContinuesNextLine)
    ensures p.state == FieldNotBegun ==> r.line == p.line && r.field == p.field
    ensures Extends(p, r) && |r.line| <= |p.line| + 1
    ensures Inv(r)
  {
    match p.state
    case FieldBegun =>
      if p.quoted then p.(state := FieldContinuesNextLine)
      else Submit(p, p.field).(state := LineCompleted)
    case FieldMightHaveEnded =>
      if |p.field| != 0 then Submit(p, Trim(p.field, p.spaces + 1)).(state := LineCompleted)
      else p
    case FieldNotBegun =>
      p.(state := LineCompleted, quoted := false, spaces := 0)
    case _ =>
      p
  }

  /**
    What `parse` needs of the state it is entered in: the trim in
    `FieldMightHaveEnded` must find at least the quote in the field, or Swift's
    `index(_:offsetBy:)` traps. Every state the driver can leave the parser in
    satisfies it (see `CSVReader.ReadLoop`).
   */
  predicate CanParse(p: Parser) {
    p.state == FieldMightHaveEnded ==> |p.field| > 0
  }

  /**
    `parse(_:)`: one line through the automaton. Whatever state it starts in,
    it ends in `LineCompleted` or `FieldContinuesNextLine`: the trims stay in
    range, the `isEmpty` guard of the end-of-line resolution always holds, and
    the diagnostic `default`/`else` branches are never the ones that decide.
   */
  function ParseLine(p: Parser, s: string, delim: char, quote: char): (r: Parser)
    requires CanParse(p)
    ensures r.state == LineCompleted || r.state == FieldContinuesNextLine
    ensures r.state == FieldContinuesNextLine ==> r.quoted
    ensures Inv(r) && CanParse(r)
    ensures Extends(p, r)
  {
    EndOfLine(Scan(BeginLine(p), s, delim, quote))
  }

  /** Scanning a concatenation is scanning its parts in turn. */
  lemma {:induction false} ScanAppend(p: Parser, a: string, b: string, delim: char, quote: char)
    requires Inv(p)
    ensures Scan(p, a + b, delim, quote) == Scan(Scan(p, a, delim, quote), b, delim, quote)
    decreases |a|
  {
    if a == [] {
      assert a + b == b;
    } else {
      assert (a + b)[0] == a[0];
      assert (a + b)[1..] == a[1..] + b;
      ScanAppend(Step(p, a[0], delim, quote), a[1..], b, delim, quote);
    }
  }

  /**
    Delimiters. Outside a quoted field a delimiter submits the field (after
    trimming a closing quote and the blanks after it) and returns to
    `FieldNotBegun`; inside one it is data. This holds for a tab or space
    delimiter too: the delimiter test comes before, or is excluded from, the
    whitespace tests.
   */
  lemma DelimiterStep(p: Parser, delim: char, quote: char)
    requires Scanning(p) && Inv(p) && delim != quote
    ensures var r := Step(p, delim, delim, quote);
      if p.state == FieldBegun && p.quoted then
        r == p.(field := p.field + [delim])
      else
        && r.state == FieldNotBegun && r.field == [] && !r.quoted
        && r.line == p.line + [if p.state == FieldMightHaveEnded then Trim(p.field, p.spaces + 1) else p.field]
  {
  }

  /**
    A quoted field open at the end of a line joins the next line with exactly
    one newline: parsing the two lines in turn is parsing them as one line with
    a newline between them.
   */
  lemma ContinuedLineJoins(p: Parser, s1: string, s2: string, delim: char, quote: char)
    requires CanParse(p)
    requires delim != Newline && quote != Newline
    requires ParseLine(p, s1, delim, quote).state == FieldContinuesNextLine
    ensures ParseLine(ParseLine(p, s1, delim, quote), s2, delim, quote) == ParseLine(p, s1 + [Newline] + s2, delim, quote)
  {
    var b := BeginLine(p);
    var m := Scan(b, s1, delim, quote);
    assert m.state == FieldBegun && m.quoted;
    ScanAppend(b, s1 + [Newline], s2, delim, quote);
    ScanAppend(b, s1, [Newline], delim, quote);
    assert Scan(m, [Newline], delim, quote) == Step(m, Newline, delim, quote);
  }
}
