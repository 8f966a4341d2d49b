/**
  `StreamReader.nextLine()` as the code is written. `beginByte` is only ever
  reset to 0, so the buffer is refilled only while it is empty (i.e. once,
  from the first chunk of the file) and every call scans it again from its
  first byte. A call therefore returns the first line of the buffer again,
  and a buffer with no line terminator is scanned forever.
 */
module TextFileAsWritten {
  import opened Wrappers
  import opened TextFile

  /** The unread file, the buffer (always scanned from index 0), `crWasSeen` and `atEOF`. */
  datatype RawReader = RawReader(file: seq<byte>, buffer: seq<byte>, crWasSeen: bool, atEOF: bool)

  function OpenRaw(bytes: seq<byte>): RawReader {
    RawReader(bytes, [], false, false)
  }

  /** What one pass of the `for` loop over the buffer leaves behind. */
  datatype Pass = Pass(data: seq<byte>, crWasSeen: bool, atEOL: bool)

  /** One pass of the `for` loop over the buffer, from index `i`. */
  function ScanBuffer(buffer: seq<byte>, i: nat, cr: bool, data: seq<byte>): (p: Pass)
    requires i <= |buffer|
    ensures !p.atEOL && i < |buffer| ==> !p.crWasSeen
    decreases |buffer| - i
  {
    if i == |buffer| then Pass(data, cr, false)
    else if buffer[i] == CR then Pass(data, true, true)
    else if buffer[i] == LF then
      if cr then ScanBuffer(buffer, i + 1, false, data) else Pass(data, cr, true)
    else ScanBuffer(buffer, i + 1, false, data + [buffer[i]])
  }

  /** Whether a pass ends the line depends on `crWasSeen` only, not on what was collected before. */
  lemma {:induction false} PassIgnoresData(buffer: seq<byte>, i: nat, cr: bool, d1: seq<byte>, d2: seq<byte>)
    requires i <= |buffer|
    ensures ScanBuffer(buffer, i, cr, d1).atEOL == ScanBuffer(buffer, i, cr, d2).atEOL
    ensures ScanBuffer(buffer, i, cr, d1).crWasSeen == ScanBuffer(buffer, i, cr, d2).crWasSeen
    decreases |buffer| - i
  {
    if i < |buffer| && buffer[i] != CR && !(buffer[i] == LF && !cr) {
      if buffer[i] == LF {
        PassIgnoresData(buffer, i + 1, false, d1, d2);
      } else {
        PassIgnoresData(buffer, i + 1, false, d1 + [buffer[i]], d2 + [buffer[i]]);
      }
    }
  }

  /**
    A second pass that does not end the line starts and ends with `crWasSeen`
    false, so every later pass is the same pass again: the loop never ends.
   */
  lemma LaterPassesRepeat(buffer: seq<byte>, d1: seq<byte>, d2: seq<byte>)
    requires |buffer| > 0 && !ScanBuffer(buffer, 0, false, d1).atEOL
    ensures var p := ScanBuffer(buffer, 0, false, d2); !p.atEOL && !p.crWasSeen
  {
    PassIgnoresData(buffer, 0, false, d1, d2);
  }

  /** The outcome of a call: a result and the reader after it, or a loop that never ends. */
  datatype Outcome = Returned(line: Option<seq<byte>>, next: RawReader) | Hangs

  function NextLineAsWritten(r: RawReader, bufferSize: nat): (o: Outcome)
    requires bufferSize > 0
    ensures r.atEOF ==> o == Returned(None, r)
  {
    if r.atEOF then Returned(None, r)
    else
      var refill := |r.buffer| == 0;
      var n := if |r.file| < bufferSize then |r.file| else bufferSize;
      var buffer := if refill then r.file[..n] else r.buffer;
      var file := if refill then r.file[n..] else r.file;
      if buffer == [] then
        Returned(None, RawReader(file, buffer, r.crWasSeen, true))
      else
        var first := ScanBuffer(buffer, 0, r.crWasSeen, []);
        var last := if first.atEOL then first else ScanBuffer(buffer, 0, first.crWasSeen, first.data);
        if !last.atEOL then Hangs
        else Returned(Some(last.data), RawReader(file, buffer, last.crWasSeen, false))
  }

  const Sample: seq<byte> := [97, LF, 98, LF]  // "a\nb\n"

  /**
    The as-written reader returns the first line of `a LF b LF` on both of
    its first two calls, while the reader with an advancing cursor returns
    `a` and then `b`.
   */
  lemma AsWrittenRepeatsFirstLine()
    ensures var o1 := NextLineAsWritten(OpenRaw(Sample), 4096);
      && o1.Returned? && o1.line == Some([97])
      && var o2 := NextLineAsWritten(o1.next, 4096);
         o2.Returned? && o2.line == Some([97])
    ensures AllLines(Open(Sample)) == [[97], [98]]
  {
    assert Sample[..4] == Sample;
    assert ScanBuffer(Sample, 1, false, [97]) == Pass([97], false, true);
    assert ScanBuffer(Sample, 0, false, []) == Pass([97], false, true);
    var r1 := RawReader([], Sample, false, false);
    assert NextLineAsWritten(OpenRaw(Sample), 4096) == Returned(Some([97]), r1);
    assert NextLineAsWritten(r1, 4096) == Returned(Some([97]), r1);
    ReadLinesAreSplitLines(Sample);
    assert LineEnd(Sample) == 1;
    assert Sample[..1] == [97];
    assert Sample[2..] == [98, LF];
    assert LineEnd([98, LF]) == 1;
    assert [98, LF][..1] == [98];
    assert SplitLines([98, LF]) == [[98]];
  }

  /** An unterminated last line (`a` alone) hangs the as-written reader; the corrected one returns it. */
  lemma AsWrittenHangsOnUnterminatedLine()
    ensures NextLineAsWritten(OpenRaw([97]), 4096) == Hangs
    ensures AllLines(Open([97])) == [[97]]
  {
    var one: seq<byte> := [97];
    assert one[..1] == one;
    assert ScanBuffer(one, 1, false, one) == Pass(one, false, false);
    assert ScanBuffer(one, 0, false, []) == Pass(one, false, false);
    ReadLinesAreSplitLines(one);
    assert LineEnd(one) == 1;
  }
}
