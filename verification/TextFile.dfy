/**
  The line segmenter `StreamReader.nextLine()`: bytes are split into lines on
  CR, LF or CRLF, terminators removed. The stream is one immutable byte
  sequence read through an explicit cursor `pos`; the 4096-byte refills of
  the source are not modelled, since `crWasSeen` carries the only state that
  crosses a refill.

  The source keeps a `beginByte` for this cursor but never advances it: it is
  only ever reset to 0, and every call rescans the buffer from its start.
  This module models the documented contract ("the next line") with the
  cursor advanced past each terminator, as `beginByte` evidently intends;
  `TextFileAsWritten` models the code as written.
 */
module TextFile {
  import opened Wrappers
  import opened Seqs

  type byte = b: int | 0 <= b < 256

  const CR: byte := 13
  const LF: byte := 10

  predicate IsTerminator(b: byte) {
    b == CR || b == LF
  }

  predicate NoTerminator(s: seq<byte>) {
    forall i :: 0 <= i < |s| ==> !IsTerminator(s[i])
  }

  /** The reader's state: the stream, the cursor, `crWasSeen` and `atEOF`. */
  datatype StreamReader = StreamReader(bytes: seq<byte>, pos: nat, crWasSeen: bool, atEOF: bool)

  predicate Valid(r: StreamReader) {
    r.pos <= |r.bytes|
  }

  function Open(bytes: seq<byte>): (r: StreamReader)
    ensures Valid(r) && r.bytes == bytes && r.pos == 0 && !r.crWasSeen && !r.atEOF
  {
    StreamReader(bytes, 0, false, false)
  }

  /** Where the scan of one call stopped and what it collected in `lineData`. */
  datatype LineScan = LineScan(pos: nat, crWasSeen: bool, data: seq<byte>, atEOF: bool)

  /**
    The read loop of `nextLine`, byte by byte from `pos`. A CR ends the line
    and is remembered in `crWasSeen`; an LF ends the line unless it directly
    follows such a CR, in which case it is skipped; any other byte is
    collected. Running out of bytes sets `atEOF`.
   */
  function ScanLine(bytes: seq<byte>, pos: nat, cr: bool, data: seq<byte>): (s: LineScan)
    requires pos <= |bytes| && NoTerminator(data)
    ensures pos <= s.pos <= |bytes|
    ensures NoTerminator(s.data)
    ensures |data| <= |s.data| && s.data[..|data|] == data
    ensures |s.data| - |data| <= s.pos - pos
    ensures s.atEOF ==> s.pos == |bytes|
    ensures !s.atEOF ==> pos < s.pos
    decreases |bytes| - pos
  {
    if pos == |bytes| then
      LineScan(pos, cr, data, true)
    else if bytes[pos] == CR then
      LineScan(pos + 1, true, data, false)
    else if bytes[pos] == LF then
      if cr then ScanLine(bytes, pos + 1, false, data)
      else LineScan(pos + 1, cr, data, false)
    else
      ScanLine(bytes, pos + 1, false, data + [bytes[pos]])
  }

  /**
    `nextLine()`: the next line without its terminator, or `None` at end of
    file. Nothing collected means a blank line `Some([])` before end of file
    and `None` at it; once `atEOF` is set every call returns `None`. The bytes
    are returned undecoded (see `DecodedLines`).
   */
  function NextLine(r: StreamReader): (res: (Option<seq<byte>>, StreamReader))
    requires Valid(r)
    ensures Valid(res.1) && res.1.bytes == r.bytes
    ensures res.0.Some? ==> NoTerminator(res.0.value)
    ensures r.atEOF ==> res == (None, r)
    ensures res.0.None? ==> res.1.atEOF
    ensures res.0 == Some([]) ==> !res.1.atEOF
    ensures res.0.Some? ==> r.pos < res.1.pos
  {
    if r.atEOF then
      (None, r)
    else
      var s := ScanLine(r.bytes, r.pos, r.crWasSeen, []);
      var next := r.(pos := s.pos, crWasSeen := s.crWasSeen, atEOF := s.atEOF);
      if s.data == [] then
        if !s.atEOF then (Some([]), next) else (None, next)
      else
        (Some(s.data), next)
  }

  /** Every line `nextLine` returns from `r` on, up to the first `None`. */
  function AllLines(r: StreamReader): (ls: seq<seq<byte>>)
    requires Valid(r)
    ensures forall i :: 0 <= i < |ls| ==> NoTerminator(ls[i])
    decreases |r.bytes| - r.pos
  {
    var (line, next) := NextLine(r);
    match line
    case None => []
    case Some(l) => [l] + AllLines(next)
  }

  /** The text of one line: a blank line is `""` without decoding, any other line goes through `decode`. */
  function DecodeText(l: seq<byte>, decode: seq<byte> -> Option<string>): Option<string> {
    if l == [] then Some("") else decode(l)
  }

  /**
    `ts` is the text of `ls` up to its first line that fails to decode: each
    text is the decoding of the line at its index, and the line after the last
    text, if there is one, does not decode.
   */
  predicate DecodingsOf(ts: seq<string>, ls: seq<seq<byte>>, decode: seq<byte> -> Option<string>) {
    && |ts| <= |ls|
    && (forall i :: 0 <= i < |ts| ==> DecodeText(ls[i], decode) == Some(ts[i]))
    && (|ts| < |ls| ==> DecodeText(ls[|ts|], decode).None?)
  }

  /** The texts of a sequence of lines are determined by the lines. */
  lemma DecodingsUnique(ts: seq<string>, us: seq<string>, ls: seq<seq<byte>>, decode: seq<byte> -> Option<string>)
    requires DecodingsOf(ts, ls, decode) && DecodingsOf(us, ls, decode)
    ensures ts == us
  {
  }

  /**
    The lines the driver receives from `nextLine`: a failed decoding
    (Swift's `String(bytes:encoding:)` returning `nil`) is a `nil` line, which
    ends the caller's loop just like end of file.
   */
  function DecodedLines(r: StreamReader, decode: seq<byte> -> Option<string>): (ts: seq<string>)
    requires Valid(r)
    ensures DecodingsOf(ts, AllLines(r), decode)
    ensures (forall b :: decode(b).Some?) ==> |ts| == |AllLines(r)|
    decreases |r.bytes| - r.pos
  {
    var (line, next) := NextLine(r);
    match line
    case None => []
    case Some(l) =>
      match DecodeText(l, decode)
      case None => []
      case Some(t) => [t] + DecodedLines(next, decode)
  }

  // ---------------------------------------------------------------------------
  // The reference: how a byte sequence divides into lines.

  /** The length of the line at the start of `s`: up to the first CR or LF. */
  function LineEnd(s: seq<byte>): (i: nat)
    ensures i <= |s| && NoTerminator(s[..i])
    ensures i < |s| ==> IsTerminator(s[i])
    decreases |s|
  {
    if s == [] || IsTerminator(s[0]) then 0
    else
      var j := LineEnd(s[1..]);
      assert s[..j + 1] == [s[0]] + s[1..][..j];
      1 + j
  }

  /** A terminator is CRLF, or else one CR or one LF. */
  function TerminatorLength(s: seq<byte>, i: nat): (n: nat)
    requires i < |s|
    ensures 1 <= n && i + n <= |s|
  {
    if s[i] == CR && i + 1 < |s| && s[i + 1] == LF then 2 else 1
  }

  /**
    The lines of `s`: the runs before each terminator, plus the run after the
    last terminator if it is not empty.
   */
  function SplitLines(s: seq<byte>): seq<seq<byte>>
    decreases |s|
  {
    if s == [] then []
    else
      var i := LineEnd(s);
      if i == |s| then [s]
      else [s[..i]] + SplitLines(s[i + TerminatorLength(s, i)..])
  }

  /** The bytes of `s` other than CR and LF, in order. */
  function Strip(s: seq<byte>): (r: seq<byte>)
    decreases |s|
  {
    if s == [] then [] else (if IsTerminator(s[0]) then [] else [s[0]]) + Strip(s[1..])
  }

  function Flatten(ls: seq<seq<byte>>): seq<byte>
    decreases |ls|
  {
    if ls == [] then [] else ls[0] + Flatten(ls[1..])
  }

  /** Where the pending bytes start: after an LF that completes the CRLF of the previous line. */
  function PendingStart(r: StreamReader): (start: nat)
    requires Valid(r)
    ensures r.pos <= start <= |r.bytes|
  {
    if r.crWasSeen && r.pos < |r.bytes| && r.bytes[r.pos] == LF then r.pos + 1 else r.pos
  }

  /** The bytes that still belong to lines: none after end of file. */
  function Pending(r: StreamReader): seq<byte>
    requires Valid(r)
  {
    if r.atEOF then [] else r.bytes[PendingStart(r)..]
  }

  /** Without a preceding CR, the scan collects up to the first terminator and stops just after it. */
  lemma {:induction false} ScanLineFindsLineEnd(bytes: seq<byte>, pos: nat, data: seq<byte>)
    requires pos <= |bytes| && NoTerminator(data)
    ensures var s := bytes[pos..];
      var i := LineEnd(s);
      var sc := ScanLine(bytes, pos, false, data);
      && sc.data == data + s[..i]
      && (i == |s| ==> sc.atEOF)
      && (i < |s| ==> !sc.atEOF && sc.pos == pos + i + 1 && sc.crWasSeen == (s[i] == CR))
    decreases |bytes| - pos
  {
    var s := bytes[pos..];
    if pos < |bytes| && !IsTerminator(bytes[pos]) {
      assert NoTerminator(data + [bytes[pos]]);
      ScanLineFindsLineEnd(bytes, pos + 1, data + [bytes[pos]]);
      assert s[1..] == bytes[pos + 1..];
      var j := LineEnd(s[1..]);
      assert LineEnd(s) == 1 + j;
      PrefixCons(s, j);
      AppendAssoc(data, [bytes[pos]], s[1..][..j], s[..1 + j]);
    }
  }

  /** After a CR, the scan of the next call is the scan of the pending bytes. */
  lemma ScanFromPending(r: StreamReader)
    requires Valid(r)
    ensures var sc := ScanLine(r.bytes, r.pos, r.crWasSeen, []);
      var o := ScanLine(r.bytes, PendingStart(r), false, []);
      && sc.data == o.data && sc.atEOF == o.atEOF
      && (!o.atEOF ==> sc.pos == o.pos && sc.crWasSeen == o.crWasSeen)
  {
  }

  /** The reference split of a line followed by a terminator. */
  lemma SplitLinesAtTerminator(s: seq<byte>, i: nat, rest: seq<byte>)
    requires s != [] && i == LineEnd(s) && i < |s| && rest == s[i + TerminatorLength(s, i)..]
    ensures SplitLines(s) == [s[..i]] + SplitLines(rest)
  {
  }

  /** The state after a call that stopped on the terminator at `s[i]`, `s` the pending bytes. */
  lemma PendingAfterTerminator(r: StreamReader, next: StreamReader, s: seq<byte>, i: nat)
    requires Valid(r) && Valid(next) && next.bytes == r.bytes && !next.atEOF
    requires s == r.bytes[PendingStart(r)..] && i < |s|
    requires next.pos == PendingStart(r) + i + 1 && next.crWasSeen == (s[i] == CR)
    ensures Pending(next) == s[i + TerminatorLength(s, i)..]
  {
    var k := PendingStart(r);
    assert |s| == |r.bytes| - k && next.pos == k + i + 1;
    if i + 1 < |s| {
      assert r.bytes[next.pos] == s[i + 1];
    }
    if s[i] == CR && i + 1 < |s| && s[i + 1] == LF {
      assert PendingStart(next) == next.pos + 1;
      assert r.bytes[next.pos + 1..] == s[i + 2..];
    } else {
      assert PendingStart(next) == next.pos;
      assert r.bytes[next.pos..] == s[i + 1..];
    }
  }

  /** The scan of a call from `r`, described by the pending bytes. */
  lemma ScanOfPending(r: StreamReader)
    requires Valid(r) && !r.atEOF
    ensures var s := Pending(r);
      var i := LineEnd(s);
      var sc := ScanLine(r.bytes, r.pos, r.crWasSeen, []);
      && sc.data == s[..i]
      && (i == |s| ==> sc.atEOF)
      && (i < |s| ==> !sc.atEOF && sc.pos == PendingStart(r) + i + 1 && sc.crWasSeen == (s[i] == CR))
  {
    ScanFromPending(r);
    ScanLineFindsLineEnd(r.bytes, PendingStart(r), []);
    assert [] + r.bytes[PendingStart(r)..][..LineEnd(Pending(r))] == Pending(r)[..LineEnd(Pending(r))];
  }

  /** One call of `nextLine` returns the first reference line of the pending bytes and moves past it. */
  lemma NextLineFollowsSplit(r: StreamReader)
    requires Valid(r)
    ensures var res := NextLine(r);
      var ls := SplitLines(Pending(r));
      && (ls == [] <==> res.0.None?)
      && (ls != [] ==> res.0 == Some(ls[0]) && SplitLines(Pending(res.1)) == ls[1..])
  {
    if !r.atEOF {
      var s := Pending(r);
      ScanOfPending(r);
      var sc := ScanLine(r.bytes, r.pos, r.crWasSeen, []);
      var i := LineEnd(s);
      var next := r.(pos := sc.pos, crWasSeen := sc.crWasSeen, atEOF := sc.atEOF);
      assert NextLine(r).1 == next;
      if s == [] {
      } else if i == |s| {
        assert s[..i] == s;
      } else {
        SplitLinesAtTerminator(s, i, s[i + TerminatorLength(s, i)..]);
        PendingAfterTerminator(r, next, s, i);
      }
    }
  }

  /** Every line `nextLine` will return, in order, is the reference split of the pending bytes. */
  lemma {:induction false} AllLinesFollowSplit(r: StreamReader)
    requires Valid(r)
    ensures AllLines(r) == SplitLines(Pending(r))
    decreases |r.bytes| - r.pos
  {
    NextLineFollowsSplit(r);
    var res := NextLine(r);
    if res.0.Some? {
      AllLinesFollowSplit(res.1);
    }
  }

  /** Read from the start, the stream gives exactly its reference lines. */
  lemma ReadLinesAreSplitLines(bytes: seq<byte>)
    ensures AllLines(Open(bytes)) == SplitLines(bytes)
  {
    AllLinesFollowSplit(Open(bytes));
  }

  lemma {:induction false} LineEndWithoutTerminator(s: seq<byte>)
    requires NoTerminator(s)
    ensures LineEnd(s) == |s|
    decreases |s|
  {
    if s != [] {
      assert NoTerminator(s[1..]) by {
        assert forall i :: 0 <= i < |s| - 1 ==> s[1..][i] == s[i + 1];
      }
      LineEndWithoutTerminator(s[1..]);
    }
  }

  /** A last line without a terminator is still returned, and the call after it returns `None`. */
  lemma UnterminatedLastLine(r: StreamReader)
    requires Valid(r) && Pending(r) != [] && NoTerminator(Pending(r))
    ensures var (line, next) := NextLine(r);
      line == Some(Pending(r)) && NextLine(next).0 == None
  {
    var s := Pending(r);
    LineEndWithoutTerminator(s);
    assert SplitLines(s) == [s] by { assert s[..|s|] == s; }
    NextLineFollowsSplit(r);
    NextLineFollowsSplit(NextLine(r).1);
  }

  lemma {:induction false} StripAppend(a: seq<byte>, b: seq<byte>)
    ensures Strip(a + b) == Strip(a) + Strip(b)
    decreases |a|
  {
    if a == [] {
      assert a + b == b;
    } else {
      assert (a + b)[1..] == a[1..] + b;
      StripAppend(a[1..], b);
    }
  }

  lemma {:induction false} StripNoTerminator(s: seq<byte>)
    requires NoTerminator(s)
    ensures Strip(s) == s
    decreases |s|
  {
    if s != [] {
      StripNoTerminator(s[1..]);
    }
  }

  /** A terminator of one or two bytes strips to nothing. */
  lemma StripTerminators(t: seq<byte>)
    requires 1 <= |t| <= 2 && forall i :: 0 <= i < |t| ==> IsTerminator(t[i])
    ensures Strip(t) == []
  {
    assert Strip(t) == Strip(t[1..]);
    if |t| == 2 {
      assert Strip(t[1..]) == Strip(t[1..][1..]);
    }
  }

  /** A terminator contributes nothing to the stripped bytes. */
  lemma StripDropsTerminator(s: seq<byte>, i: nat, n: nat)
    requires i < |s| && n == TerminatorLength(s, i) && IsTerminator(s[i])
    ensures Strip(s[i..]) == Strip(s[i + n..])
  {
    var term := s[i..i + n];
    assert s[i..] == term + s[i + n..];
    StripAppend(term, s[i + n..]);
    assert term[0] == s[i];
    if n == 2 {
      assert term[1] == s[i + 1];
    }
    StripTerminators(term);
  }

  /** Stripping a line, its terminator and the rest. */
  lemma StripAtTerminator(s: seq<byte>, i: nat, n: nat)
    requires i < |s| && n == TerminatorLength(s, i) && NoTerminator(s[..i]) && IsTerminator(s[i])
    ensures Strip(s) == s[..i] + Strip(s[i + n..])
  {
    assert s == s[..i] + s[i..];
    StripAppend(s[..i], s[i..]);
    StripNoTerminator(s[..i]);
    StripDropsTerminator(s, i, n);
  }

  /** The reference lines, concatenated, are the input without its CR and LF bytes. */
  lemma {:induction false} SplitLinesPreserveContent(s: seq<byte>)
    ensures Flatten(SplitLines(s)) == Strip(s)
    decreases |s|
  {
    if s != [] {
      var i := LineEnd(s);
      if i == |s| {
        assert s[..i] == s;
        StripNoTerminator(s);
      } else {
        var n := TerminatorLength(s, i);
        var rest := s[i + n..];
        SplitLinesPreserveContent(rest);
        StripAtTerminator(s, i, n);
        SplitLinesAtTerminator(s, i, rest);
        var ls := SplitLines(s);
        assert ls == [s[..i]] + SplitLines(rest);
        assert Flatten(ls) == s[..i] + Flatten(SplitLines(rest));
      }
    }
  }

  /** Content preservation: all lines read from the start, concatenated, are the input minus CR and LF. */
  lemma ContentPreserved(bytes: seq<byte>)
    ensures Flatten(AllLines(Open(bytes))) == Strip(bytes)
  {
    ReadLinesAreSplitLines(bytes);
    SplitLinesPreserveContent(bytes);
  }
}
