# CSV reader: a Dafny model

This project models the reading half of a small Swift CSV library:

- `StreamReader.nextLine()` (CSV/TextFile.swift) splits a byte stream into lines. A line ends at CR, LF or CRLF; the terminator is removed. A blank line is `""`, and the end of the file is `nil`.
- `CSVParser.parse(_:)` (CSV/CSVParser.swift) is a five-state automaton: `field_NOT_BEGUN`, `field_BEGUN`, `field_MIGHT_HAVE_ENDED`, `line_COMPLETED` and `field_CONTINUES_NEXT_LINE`.
  - It reads one line, one Unicode scalar at a time, and builds the record in `parsedLine`, `parsedField`, `quoted` and `spaces`.
  - A quoted field may hold the delimiter, doubled quotes and line breaks.
  - Blanks around a quoted value are dropped.
- `CSVParser.startReader(_:quote:)` is the driver. It pulls lines, counts them, parses each one, and reports start-of-document, each completed record (with the line count at that moment) and end-of-document to its delegate.

Modules:

- `Wrappers`: the `Option` type.
- `Seqs`: three generic sequence facts.
- `CSVParser`: the automaton.
  - `Step` is one iteration of the per-scalar switch.
  - `Scan` folds it over a line.
  - `BeginLine` and `EndOfLine` are the code before and after the loop.
  - `ParseLine` is all of `parse`.
- `CSVFields`: a trivial writer (`Cell`, `Render`). Its theorems state which field values `ParseLine` recovers from a written line.
- `CSVReader`: `startReader` as a pure function. The delegate callbacks become a list of `Event`s.
  - `ExpectedRecords` is the reference for what a written document reports, row by row, with the text a row leaves pending carried into the next.
- `TextFile`: `nextLine` over an immutable byte sequence with a cursor. `SplitLines` is an independent reference definition of the lines of a byte sequence.
- `TextFileAsWritten`: `nextLine` exactly as the code is written; see Findings.
- `Examples`: concrete lines and documents with their parsed records.

Behaviour the model makes explicit (all of it follows from the code):

- The end of a line in `field_NOT_BEGUN` completes the record without submitting the pending field:
  - an empty line gives a record with no fields;
  - `,` gives one empty field, not two;
  - `a,` gives just `a`.
- Blanks left in `parsedField` at the end of such a line are not cleared by the driver, which resets only the record. They prefix the first unquoted field of the next record: `a,  ` then `b` gives `a`, then `  b`. An opening quote on the next line discards them: `a,  ` then `"b"` gives `a`, then `b`.
- A quote inside an unquoted field is data when text follows it, with or without blanks in between (`a"b`, `ab" cd`). It is trimmed away with the blanks after it when the delimiter or the end of the line follows (`ab",e` gives `ab`).
- Tabs before an unquoted field are skipped; leading spaces are kept.
- A quoted field left open at the end of a line absorbs one newline and continues on the next line. The record is reported once, numbered with the second line.
- The `ERROR` break of the driver and the `PARSER STATE` diagnostics of `parse` are never reached from any state the driver can leave the parser in.

## Model

| member | source | states |
|---|---|---|
| `CSVParser.Initial` | CSV/CSVParser.swift:53-58 | The parser starts between fields with no record, no field, unquoted; that state meets the trim bound and can be parsed |
| `CSVParser.Step` | CSV/CSVParser.swift:185-315 | One scalar of the switch keeps the trim bound (`spaces` within the field, and strictly less after a quote), so the `index(offsetBy: -(spaces+1))` trims stay in range. It stays among the three handled states, or changes nothing in any other state. It never drops a submitted field and submits at most one, and only on the delimiter |
| `CSVParser.Scan` | CSV/CSVParser.swift:164-316 | The loop over a line's scalars keeps the trim bound, stays among the handled states (or is the identity outside them), and only appends to the record |
| `CSVParser.BeginLine` | CSV/CSVParser.swift:156-162 | `spaces` is reset. A field that continues from the previous line gets exactly one newline and the state returns to `field_BEGUN`; otherwise state and field are unchanged |
| `CSVParser.EndOfLine` | CSV/CSVParser.swift:318-360 | After the loop the line is complete or continues. It continues only from an open quoted field, and then nothing else changes. In `field_NOT_BEGUN` the record and the pending field are left as they are. At most one field is submitted and the trim bound holds |
| `CSVParser.ParseLine` | CSV/CSVParser.swift:152-363 | From any parseable state `parse` returns `line_COMPLETED` or `field_CONTINUES_NEXT_LINE`, and continues only inside a quoted field. Fields already submitted are kept, and the resulting state is again parseable |
| `CSVParser.ScanAppend` | CSV/CSVParser.swift:164-316 | Scanning a concatenation is scanning its two parts in turn |
| `CSVParser.DelimiterStep` | CSV/CSVParser.swift:201-291 | A delimiter inside a quoted field is appended as data. Anywhere else it submits the field (minus closing quote and trailing blanks after a quote) and returns to `field_NOT_BEGUN`. This holds for a tab or space delimiter too |
| `CSVParser.ContinuedLineJoins` | CSV/CSVParser.swift:158-162 | Parsing a line that ends inside a quoted field and then the next line equals parsing the two joined by one newline |
| `CSVFields.ScanUnquotedBegun` | CSV/CSVParser.swift:264-276 | Inside an unquoted field, text without delimiter or quote is appended verbatim and the field stays open |
| `CSVFields.ScanBare` | CSV/CSVParser.swift:187-228 | Bare text from `field_NOT_BEGUN` leaves its value in the field buffer: leading tabs dropped, everything else kept. The state is `field_NOT_BEGUN` if the text is all blanks and an open unquoted field otherwise |
| `CSVFields.ScanBareBlank` | CSV/CSVParser.swift:188-199 | A leading tab of a field is skipped, a leading space is kept, and the rest is read as before |
| `CSVFields.ScanLead` | CSV/CSVParser.swift:194-199 | Blanks before a field keep the parser in `field_NOT_BEGUN` without submitting anything |
| `CSVFields.ScanEscaped` | CSV/CSVParser.swift:299-303 | Inside a quoted field, a value written with every quote doubled is read back as exactly that value |
| `CSVFields.ScanTrail` | CSV/CSVParser.swift:293-297 | Blanks after a closing quote are buffered and counted in `spaces` |
| `CSVFields.ScanQuoted` | CSV/CSVParser.swift:211-219 | A quoted cell (padding, quote, escaped value, quote, padding) ends in `field_MIGHT_HAVE_ENDED`, with the value, the closing quote and the trailing padding buffered and the padding counted |
| `CSVFields.ScanCell` | CSV/CSVParser.swift:185-315 | Any well-formed cell takes the parser from `field_NOT_BEGUN` to the state that stands for the cell's value |
| `CSVFields.DelimiterAfterCell` | CSV/CSVParser.swift:280-291 | The delimiter after a cell submits exactly the cell's value and resets the field |
| `CSVFields.EndAfterCell` | CSV/CSVParser.swift:318-356 | The end of the line after a cell completes the record. It submits the cell's value unless the cell is bare blanks, which stay in the field buffer |
| `CSVFields.ScanFirstCell` | CSV/CSVParser.swift:201-209 | A cell and the delimiter after it submit one value and return the parser to `field_NOT_BEGUN`, where the rest of the line is read |
| `CSVFields.ScanRendered` | CSV/CSVParser.swift:164-316 | A written line of well-formed cells submits the values of all cells but the last, and leaves the last one in the state that stands for it |
| `CSVFields.ParseRendered` | CSV/CSVParser.swift:152-363 | Round trip of a written line: `parse` completes the record with the cells' values, with doubled quotes undone and padding around quotes dropped, and leaves the parser unquoted with `spaces` at 0. A final all-blank bare cell is not submitted and stays pending. Earlier pending text prefixes the first bare value |
| `CSVFields.StrayQuoteKept` | CSV/CSVParser.swift:238-311 | A quote inside an unquoted field followed by text, directly or after blanks, is kept as data together with the blanks, and the field stays open and unquoted |
| `CSVFields.StrayQuoteTrimmed` | CSV/CSVParser.swift:280-291 | A stray quote followed only by blanks is trimmed off with them, whether a delimiter or the end of the line comes next |
| `CSVReader.ReadLoop` | CSV/CSVParser.swift:100-121 | Every line is read and counted (the `ERROR` break is never taken). Records are reported with strictly increasing line counts within the lines read. The parser ends at rest, in `field_NOT_BEGUN` exactly when the last line completed a record, and then with an empty record |
| `CSVReader.StartReader` | CSV/CSVParser.swift:87-128 | Without a delegate nothing is reported. With one, exactly one start event comes first and one end event last, with records in between; an unopenable file gives just the two. `lineCount` is the number of lines read |
| `CSVReader.ReadFile` | CSV/CSVParser.swift:98-101 | On a file, the events are bracketed, and the run is `startReader` on the texts of the file's reference lines (CR, LF, CRLF split), up to the first line that fails to decode. So at most one line per reference line is read, and all are when decoding never fails |
| `CSVReader.MultiLineRecord` | CSV/CSVParser.swift:103-114 | Reading two physical lines of one quoted field is reading their join as one line, except that both are counted |
| `CSVReader.ReadRenderedRow` | CSV/CSVParser.swift:105-111 | The first line of a written document is reported as its row's record, and the driver's reset leaves the parser holding what that row left pending |
| `CSVReader.ReadRenderedLines` | CSV/CSVParser.swift:100-121 | Reading written lines, from any pending field, reports one record per line, in order, numbered by line, each the record `ExpectedRecords` assigns it: blank lines, trailing delimiters and blanks carried into the next line included |
| `CSVReader.ReadRenderedDocument` | CSV/CSVParser.swift:87-128 | Round trip of a whole written document through `startReader`: start event, then each row's expected record numbered by its line, then end event |
| `CSVReader.CompleteRowsReadBack` | CSV/CSVParser.swift:318-333 | When every row ends in a cell that completes the record, nothing carries over and each expected record is exactly its row's values |
| `CSVReader.ReadCompleteDocument` | CSV/CSVParser.swift:87-128 | A document of such rows reads back through `startReader` as exactly its rows' values, in order, between start and end |
| `TextFile.ScanLine` | CSV/TextFile.swift:167-202 | The byte loop moves the cursor forward and collects only non-terminator bytes. It collects at most one byte per byte passed, never drops what was collected, and sets end of file only at the end of the bytes |
| `TextFile.NextLine` | CSV/TextFile.swift:137-222 | A returned line holds no CR or LF and the cursor advances past it. `nil` sets end of file, and after end of file every call returns `nil` with nothing changed. A blank line `""` is returned only before end of file |
| `TextFile.AllLines` | CSV/TextFile.swift:134-136 | Every line read until the first `nil` is free of line terminators |
| `TextFile.DecodedLines` | CSV/TextFile.swift:208-219 | The driver gets the text of each line read, in order: `""` for a blank line and the decoding of any other line, up to the first line that fails to decode (a `nil` line); all lines when decoding never fails |
| `TextFile.ScanLineFindsLineEnd` | CSV/TextFile.swift:175-202 | Without a pending CR, one scan collects exactly the bytes up to the first terminator, stops just after it and remembers whether it was a CR |
| `TextFile.ScanFromPending` | CSV/TextFile.swift:184-188 | An LF right after a CR that ended the previous line is skipped even when it starts the next call |
| `TextFile.NextLineFollowsSplit` | CSV/TextFile.swift:137-222 | One call returns `nil` exactly when no reference line is pending. Otherwise it returns the first pending reference line and leaves the rest pending |
| `TextFile.AllLinesFollowSplit` | CSV/TextFile.swift:134-136 | From any reader state, the lines read are the reference lines of the pending bytes |
| `TextFile.ReadLinesAreSplitLines` | CSV/TextFile.swift:134-136 | Read from the start, a file gives exactly its reference lines, splitting on CR, LF and CRLF |
| `TextFile.UnterminatedLastLine` | CSV/TextFile.swift:160-164 | A last line without a terminator is returned, and the call after it returns `nil` |
| `TextFile.SplitLinesPreserveContent` | CSV/TextFile.swift:195-199 | The reference lines, concatenated, are the input minus its CR and LF bytes |
| `TextFile.ContentPreserved` | CSV/TextFile.swift:195-199 | The lines read from a file, concatenated, are its bytes minus CR and LF: nothing is lost, reordered or invented |
| `TextFileAsWritten.ScanBuffer` | CSV/TextFile.swift:171-202 | A pass over the buffer that does not end the line leaves `crWasSeen` false |
| `TextFileAsWritten.PassIgnoresData` | CSV/TextFile.swift:147-165 | Whether a pass ends the line depends only on `crWasSeen`, not on the bytes already collected |
| `TextFileAsWritten.LaterPassesRepeat` | CSV/TextFile.swift:147-165 | Once a pass fails to end the line, every later pass fails too, so the `while !atEOF` loop never ends |
| `TextFileAsWritten.NextLineAsWritten` | CSV/TextFile.swift:137-222 | After end of file the as-written call returns `nil` and changes nothing |
| `TextFileAsWritten.AsWrittenRepeatsFirstLine` | CSV/TextFile.swift:155-171 | On `a LF b LF` the as-written reader returns `a` twice; the corrected reader returns `a` then `b` |
| `TextFileAsWritten.AsWrittenHangsOnUnterminatedLine` | CSV/TextFile.swift:147-203 | On `a` without a terminator the as-written reader never returns; the corrected reader returns `a` |
| `Examples.EscapedQuotes` | CSV/CSVParser.swift:299-303 | `"a""b",c` gives `a"b` and `c` |
| `Examples.ConsecutiveDelimiters` | CSV/CSVParser.swift:201-209 | `a,,b` gives `a`, an empty field and `b` |
| `Examples.TabsAroundUnquotedField` | CSV/CSVParser.swift:188-192 | tab `a` tab `,b` gives `a` tab and `b` |
| `Examples.EmptyAndTrailingDelimiter` | CSV/CSVParser.swift:350-356 | An empty line gives no fields, `,` gives one empty field and `a,` gives `a` |
| `Examples.TrailingBlanksPending` | CSV/CSVParser.swift:194-199 | `a,  ` gives `a` and leaves two spaces in the field buffer |
| `Examples.PendingPrefixesField` | CSV/CSVParser.swift:221-228 | Pending blanks prefix the next unquoted field: `b` gives `  b` |
| `Examples.LeadingSpacesCarryOver` | CSV/CSVParser.swift:100-121 | The read loop on `a,  ` then `b` reports `a` at line 1 and `  b` at line 2, because the driver clears the record but not the field buffer |
| `Examples.QuoteDiscardsCarriedBlanks` | CSV/CSVParser.swift:211-219 | The read loop on `a,  ` then `"b"` reports `a` at line 1 and `b` at line 2: the opening quote discards the carried blanks |
| `Examples.StrayQuoteInText` | CSV/CSVParser.swift:238-244 | `a"b,c` gives `a"b` and `c` |
| `Examples.StrayQuoteBeforeDelimiter` | CSV/CSVParser.swift:280-291 | `ab",e` gives `ab` and `e` |
| `Examples.OpenQuoteContinues` | CSV/CSVParser.swift:318-323 | `"x` leaves the line unfinished, continuing in a quoted field |
| `Examples.QuotedNewline` | CSV/CSVParser.swift:158-162 | `"x` newline `y",z` as one line gives `x` newline `y` and `z` |
| `Examples.JoinedLineRead` | CSV/CSVParser.swift:103-111 | The joined line, read as the second line, is one record numbered 2 |
| `Examples.ContinuedRecordRead` | CSV/CSVParser.swift:100-121 | The two lines `"x` and `y",z` are read as one record numbered 2 |
| `Examples.QuotedFieldAcrossLines` | CSV/CSVParser.swift:87-128 | `startReader` on `"x` and `y",z` reports start, one record `x` newline `y`, `z` at line 2, and end |
| `Examples.NoLines` | CSV/CSVParser.swift:94-96 | An empty file still gives start and end; without a delegate nothing is reported |
| `Examples.CrLfThenLf` | CSV/TextFile.swift:175-194 | `a CR LF LF` reads as `a` and one blank line |

## Left out

- File I/O: opening the file (`TextFile`, `TextFile.reader()`, `StreamReader.init?`), `readData(ofLength:)`, `close()`, `deinit` and `rewind()`. The file is its byte sequence, and a file that cannot be opened is `None`.
- The 4096-byte buffer refills. Only `crWasSeen` carries state from one refill to the next, and it is modelled, so the reader works on the whole byte sequence.
- `nextLine` after `close()`: the handle is `nil`, so the scan is skipped and `lineData` is not even cleared; a call returns the last line again if one was collected, `""` if not and end of file was not reached, and `nil` otherwise. The driver closes the reader only after its loop, so this never reaches the parser.
- Text decoding (`String(bytes:encoding:)`): it is the `decode` parameter of `TextFile.DecodedLines` and `CSVReader.ReadFile`, so the driver's lines are strings of Unicode scalars.
- Swift's `Character` (grapheme cluster) indexing in the trims: the model removes `spaces + 1` scalars. The two differ only when the removed scalars (the closing quote and the blanks after it) do not each stand alone as a `Character`. For example, a prepended concatenation mark such as U+0600 just before the closing quote joins the quote into one `Character`, and Swift then removes that mark too. A combining mark after a quote or blank makes no difference: it resets `spaces` (CSV/CSVParser.swift:304-311), so no trim reaches it.
- The delegate object: its three callbacks become `Event`s, and a released weak delegate is `hasDelegate == false`.
- The `print` diagnostics: the model proves that their branches are never reached.
- The stored `self.delimiter` string, which is assigned but never read.
- The writer, the test target and the app delegate (CSV/AppDelegate.swift): they are not part of the reader.
- `CSVParser.ParseLine`: it requires that the parser not be entered in `field_MIGHT_HAVE_ENDED` with an empty field, because the trim would trap in Swift. `Initial` and every state `ReadLoop` leaves behind meet this.
- `CSVParser.Step`: it requires that in `field_MIGHT_HAVE_ENDED` the field be longer than `spaces`, for the same reason. `Scan` keeps this bound.
- `CSVReader.StartReader`: it requires non-empty delimiter and quote strings, because the source force-unwraps their first scalars.
- `TextFileAsWritten.NextLineAsWritten`: its contract states only the end-of-file case. The as-written reader is modelled to exhibit its defect, and `AsWrittenRepeatsFirstLine` and `AsWrittenHangsOnUnterminatedLine` pin its behaviour down on concrete inputs. It scans the buffer at most twice and reports a hang when the second pass does not end the line; `LaterPassesRepeat` proves that every later pass repeats the second one.
- `TextFileAsWritten.ScanBuffer`: its contract states only the `crWasSeen` fact that `LaterPassesRepeat` needs; the bytes it collects are pinned down by the concrete lemmas.

## Findings

| source | as written | input that shows it | evidently intended | confidence | as-written member | corrected member |
|---|---|---|---|---|---|---|
| CSV/TextFile.swift:155-171 | `beginByte` is only ever reset to 0 and never advanced. The buffer is refilled only once, and every call scans it again from its first byte | `a LF b LF`: the first two calls both return `a` | each call continues after the terminator of the previous line, so `a` then `b` | not executed | `TextFileAsWritten.AsWrittenRepeatsFirstLine` | `TextFile.ReadLinesAreSplitLines` |
| CSV/TextFile.swift:147-203 | a buffer in which the scan from its first byte finds no line terminator is rescanned forever, because `atEOL` never becomes true and no refill happens | `a` (no terminator): the first call never returns | the last, unterminated line is returned, and the next call returns `nil` | not executed | `TextFileAsWritten.AsWrittenHangsOnUnterminatedLine` | `TextFile.UnterminatedLastLine` |
