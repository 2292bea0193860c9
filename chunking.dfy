/** src/main.go: how one filled read buffer is cut into complete records,
    and how far the file position is moved back so that the partial record
    at the end of the buffer is read again by the next read. The buffer is
    an array; the file itself, `Read` and `Seek` are not modelled. */
module Chunking {
  import opened Consts
  import opened Search

  /** The size of the buffer main allocates (1 MiB), kept as documentation:
      no member uses it. `ScanBuffer` compares the bytes read with the
      array's length instead, so a buffer of any length may be used. */
  const BufferSize: nat := 1 * 1024 * 1024

  /** A carved record: the line `buf[start..end)`; its newline is at end. */
  datatype Span = Span(start: nat, end: nat)

  datatype Option<T> = None | Some(value: T)

  /** What one turn of main's read loop does with the `bytesRead` bytes a
      read delivered: stop on zero bytes, otherwise the index of the last
      newline, the records carved before it, and the relative seek, which
      is issued only when the buffer was filled. */
  datatype BufferStep =
    | EndOfInput
    | Carved(lastNewLine: int, lines: seq<Span>, rewind: Option<int>)

  // ---------------------------------------------------------------------
  // lastIndexOf and lineIdxs

  method LastIndexOf(b: array<byte>, maxIdx: int, delym: byte) returns (r: int)
    requires maxIdx <= b.Length
    ensures r == LastIndexBefore(b[..], maxIdx, delym)
  {
    var i := maxIdx - 1;
    while i >= 0
      invariant i < maxIdx
      invariant forall j :: i < j < maxIdx && 0 <= j ==> b[j] != delym
      decreases i
    {
      if b[i] == delym {
        LastIndexBeforeIs(b[..], maxIdx, delym, i);
        return i;
      }
      i := i - 1;
    }
    LastIndexBeforeNone(b[..], maxIdx, delym);
    return -1;
  }

  method LineIdxs(sourceStartIdx: int, source: array<byte>, delym: byte) returns (start: int, end: int)
    requires 0 <= sourceStartIdx
    ensures start == sourceStartIdx
    ensures end == NextIndexFrom(source[..], sourceStartIdx, delym)
  {
    start := sourceStartIdx;
    end := sourceStartIdx;
    while end < source.Length
      invariant sourceStartIdx <= end
      invariant end <= source.Length || end == sourceStartIdx
      invariant forall j :: sourceStartIdx <= j < end ==> source[j] != delym
      decreases source.Length - end
    {
      if source[end] == delym {
        break;
      }
      end := end + 1;
    }
    if sourceStartIdx < source.Length {
      NextIndexFromIs(source[..], sourceStartIdx, delym, end);
    }
  }

  // ---------------------------------------------------------------------
  // Carving the lines of a buffer

  /** The spans main's inner loop carves from the contents `s`, starting at
      `from`, for as long as the start lies before `lastNewLine`: each span
      runs to the next newline and the next one starts just after it. */
  function Carve(s: seq<byte>, from: nat, lastNewLine: int): seq<Span>
    requires lastNewLine <= |s|
    decreases lastNewLine - from
  {
    if from >= lastNewLine then []
    else
      var end := NextIndexFrom(s, from, NewLine);
      [Span(from, end)] + Carve(s, end + 1, lastNewLine)
  }

  method CarveLines(buf: array<byte>, lastNewLineIdx: int) returns (lines: seq<Span>)
    requires lastNewLineIdx <= buf.Length
    ensures lines == Carve(buf[..], 0, lastNewLineIdx)
  {
    lines := [];
    var bufLastReadIdx := 0;
    while bufLastReadIdx < lastNewLineIdx
      invariant 0 <= bufLastReadIdx
      invariant lines + Carve(buf[..], bufLastReadIdx, lastNewLineIdx) == Carve(buf[..], 0, lastNewLineIdx)
      decreases lastNewLineIdx - bufLastReadIdx
    {
      var lineStart, lineEnd := LineIdxs(bufLastReadIdx, buf, NewLine);
      bufLastReadIdx := lineEnd + 1;
      lines := lines + [Span(lineStart, lineEnd)];
    }
  }

  /** The span is one line of `s`: it ends at a newline and holds none. */
  predicate IsLine(s: seq<byte>, sp: Span) {
    sp.start <= sp.end < |s| && s[sp.end] == NewLine &&
    forall j :: sp.start <= j < sp.end ==> s[j] != NewLine
  }

  predicate SpansWithin(s: seq<byte>, spans: seq<Span>) {
    forall i :: 0 <= i < |spans| ==> spans[i].start <= spans[i].end <= |s|
  }

  /** The carved lines, each followed by its newline, one after another. */
  function Join(s: seq<byte>, spans: seq<Span>): seq<byte>
    requires SpansWithin(s, spans)
  {
    if spans == [] then []
    else s[spans[0].start..spans[0].end] + [NewLine] + Join(s, spans[1..])
  }

  /** The index just past the last carved line (`from` when none was). */
  function CarvedEnd(from: nat, spans: seq<Span>): nat {
    if spans == [] then from else spans[|spans| - 1].end + 1
  }

  /** The first carved span starts at `from`, with the first newline at
      or after it, and the rest are carved from just past that newline. */
  lemma CarveUnfold(s: seq<byte>, from: nat, lastNewLine: int)
    requires lastNewLine < |s| && (lastNewLine >= 0 ==> s[lastNewLine] == NewLine)
    requires from < lastNewLine
    ensures var end := NextIndexFrom(s, from, NewLine);
      && from <= end <= lastNewLine
      && IsLine(s, Span(from, end))
      && Carve(s, from, lastNewLine) == [Span(from, end)] + Carve(s, end + 1, lastNewLine)
  {
    var end := NextIndexFrom(s, from, NewLine);
    assert s[lastNewLine] == NewLine;
    assert end <= lastNewLine;
    assert end < |s| && s[end] == NewLine;
  }

  /** Every carved span is a line of `s` lying between `from` and
      lastNewLine. */
  lemma {:induction false} CarveLinesInRange(s: seq<byte>, from: nat, lastNewLine: int)
    requires lastNewLine < |s| && (lastNewLine >= 0 ==> s[lastNewLine] == NewLine)
    ensures var spans := Carve(s, from, lastNewLine);
      forall i :: 0 <= i < |spans| ==>
        from <= spans[i].start && spans[i].end <= lastNewLine && IsLine(s, spans[i])
    decreases lastNewLine - from
  {
    if from < lastNewLine {
      CarveUnfold(s, from, lastNewLine);
      var end := NextIndexFrom(s, from, NewLine);
      CarveLinesInRange(s, end + 1, lastNewLine);
      var rest := Carve(s, end + 1, lastNewLine);
      var spans := [Span(from, end)] + rest;
      assert forall i :: 0 < i < |spans| ==> spans[i] == rest[i - 1];
    }
  }

  /** The carved spans are consecutive: the first starts at `from` and each
      next one starts just past the previous one's newline. */
  lemma {:induction false} CarveConsecutive(s: seq<byte>, from: nat, lastNewLine: int)
    requires lastNewLine < |s| && (lastNewLine >= 0 ==> s[lastNewLine] == NewLine)
    ensures var spans := Carve(s, from, lastNewLine);
      && (|spans| > 0 ==> spans[0].start == from)
      && (forall i :: 0 < i < |spans| ==> spans[i].start == spans[i - 1].end + 1)
    decreases lastNewLine - from
  {
    if from < lastNewLine {
      CarveUnfold(s, from, lastNewLine);
      var end := NextIndexFrom(s, from, NewLine);
      CarveConsecutive(s, end + 1, lastNewLine);
      var rest := Carve(s, end + 1, lastNewLine);
      var spans := [Span(from, end)] + rest;
      assert forall i :: 0 < i < |spans| ==> spans[i] == rest[i - 1];
    }
  }

  /** Carving stops just past lastNewLine, or at lastNewLine itself when
      the line ending there is empty (it is not carved). */
  lemma {:induction false} CarveStops(s: seq<byte>, from: nat, lastNewLine: int)
    requires lastNewLine < |s| && (lastNewLine >= 0 ==> s[lastNewLine] == NewLine)
    requires from <= lastNewLine + 1
    ensures var reached := CarvedEnd(from, Carve(s, from, lastNewLine));
      reached == lastNewLine + 1 ||
      (reached == lastNewLine && (lastNewLine == from || s[lastNewLine - 1] == NewLine))
    decreases lastNewLine - from
  {
    if from < lastNewLine {
      CarveUnfold(s, from, lastNewLine);
      var end := NextIndexFrom(s, from, NewLine);
      CarveStops(s, end + 1, lastNewLine);
      var rest := Carve(s, end + 1, lastNewLine);
      assert CarvedEnd(from, [Span(from, end)] + rest) == CarvedEnd(end + 1, rest);
    }
  }

  /** The carved lines with their newlines are exactly the bytes from
      `from` up to the point carving reached. */
  lemma {:induction false} CarveJoin(s: seq<byte>, from: nat, lastNewLine: int)
    requires lastNewLine < |s| && (lastNewLine >= 0 ==> s[lastNewLine] == NewLine)
    requires from <= lastNewLine + 1
    ensures JoinsUpTo(s, from, Carve(s, from, lastNewLine))
    decreases lastNewLine - from
  {
    if from < lastNewLine {
      CarveUnfold(s, from, lastNewLine);
      var end := NextIndexFrom(s, from, NewLine);
      var rest := Carve(s, end + 1, lastNewLine);
      CarveJoin(s, end + 1, lastNewLine);
      JoinStep(s, Span(from, end), rest);
      assert JoinsUpTo(s, from, [Span(from, end)] + rest);
    } else {
      assert Carve(s, from, lastNewLine) == [];
      assert s[from..from] == [];
    }
  }

  /** `spans` lie within `s` and, joined with their newlines, are exactly
      the bytes from `from` up to where they end. */
  predicate JoinsUpTo(s: seq<byte>, from: nat, spans: seq<Span>) {
    && SpansWithin(s, spans)
    && from <= CarvedEnd(from, spans) <= |s|
    && Join(s, spans) == s[from..CarvedEnd(from, spans)]
  }

  /** A line followed by spans that join up from just past its newline
      joins up from the line's start. */
  lemma JoinStep(s: seq<byte>, sp: Span, rest: seq<Span>)
    requires sp.start <= sp.end < |s| && s[sp.end] == NewLine
    requires JoinsUpTo(s, sp.end + 1, rest)
    ensures JoinsUpTo(s, sp.start, [sp] + rest)
  {
    var spans := [sp] + rest;
    assert spans[1..] == rest;
    assert forall i :: 0 < i < |spans| ==> spans[i] == rest[i - 1];
    var reached := CarvedEnd(sp.end + 1, rest);
    assert CarvedEnd(sp.start, spans) == reached;
    assert Join(s, spans) == s[sp.start..sp.end] + [NewLine] + s[sp.end + 1..reached];
    assert s[sp.start..reached] == s[sp.start..sp.end] + [s[sp.end]] + s[sp.end + 1..reached];
  }

  /** All of the above for the carving main does, from index 0. */
  lemma CarveSound(s: seq<byte>, lastNewLine: int)
    requires -1 <= lastNewLine < |s| && (lastNewLine >= 0 ==> s[lastNewLine] == NewLine)
    ensures var spans := Carve(s, 0, lastNewLine);
      && (forall i :: 0 <= i < |spans| ==> spans[i].end <= lastNewLine && IsLine(s, spans[i]))
      && (|spans| > 0 ==> spans[0].start == 0)
      && (forall i :: 0 < i < |spans| ==> spans[i].start == spans[i - 1].end + 1)
      && Join(s, spans) == s[..CarvedEnd(0, spans)]
      && (CarvedEnd(0, spans) == lastNewLine + 1 ||
          (CarvedEnd(0, spans) == lastNewLine && (lastNewLine == 0 || s[lastNewLine - 1] == NewLine)))
  {
    CarveLinesInRange(s, 0, lastNewLine);
    CarveConsecutive(s, 0, lastNewLine);
    CarveStops(s, 0, lastNewLine);
    CarveJoin(s, 0, lastNewLine);
  }

  /** If the byte before the last newline is not itself a newline (no empty
      line ends there), the carved lines with their newlines reproduce the
      buffer exactly up to and including the last newline. */
  lemma CarveReassembles(s: seq<byte>, lastNewLine: int)
    requires 0 < lastNewLine < |s| && s[lastNewLine] == NewLine && s[lastNewLine - 1] != NewLine
    ensures var spans := Carve(s, 0, lastNewLine);
      SpansWithin(s, spans) && Join(s, spans) == s[..lastNewLine + 1]
  {
    CarveSound(s, lastNewLine);
  }

  // ---------------------------------------------------------------------
  // One turn of main's read loop

  method ScanBuffer(buf: array<byte>, bytesRead: int) returns (step: BufferStep)
    requires 0 <= bytesRead <= buf.Length
    ensures step == EndOfInput <==> bytesRead == 0
    ensures step.Carved? ==>
      && step.lastNewLine == LastIndexBefore(buf[..], bytesRead, NewLine)
      && step.lines == Carve(buf[..], 0, step.lastNewLine)
      && (forall i :: 0 <= i < |step.lines| ==>
            step.lines[i].end <= step.lastNewLine && IsLine(buf[..], step.lines[i]))
      && Join(buf[..], step.lines) == buf[..CarvedEnd(0, step.lines)]
      && (step.rewind.Some? <==> bytesRead == buf.Length)
      && (step.rewind.Some? ==>
            step.rewind.value <= 0 && bytesRead + step.rewind.value == step.lastNewLine + 1)
  {
    if bytesRead == 0 {
      return EndOfInput;
    }
    var lastNewLineIdx := LastIndexOf(buf, bytesRead, NewLine);
    var rewind := None;
    if bytesRead == buf.Length {
      rewind := Some(lastNewLineIdx - bytesRead + 1);
    }
    var lines := CarveLines(buf, lastNewLineIdx);
    CarveSound(buf[..], lastNewLineIdx);
    step := Carved(lastNewLineIdx, lines, rewind);
  }

  /** The bytes a full read gives back by the rewind are exactly those after
      the last newline: none of them is a newline, and a buffer without any
      newline is rewound whole. */
  lemma RewindIsPartialTail(s: seq<byte>, bytesRead: int)
    requires 0 < bytesRead <= |s|
    ensures var last := LastIndexBefore(s, bytesRead, NewLine);
      var rewind := last - bytesRead + 1;
      rewind <= 0 && -rewind == |s[last + 1..bytesRead]| &&
      NewLine !in s[last + 1..bytesRead] &&
      (NewLine !in s[..bytesRead] <==> rewind == -bytesRead)
  {
    var last := LastIndexBefore(s, bytesRead, NewLine);
    LastIndexBeforeAbsent(s, bytesRead, NewLine);
    var tail := s[last + 1..bytesRead];
    forall j | 0 <= j < |tail| ensures tail[j] != NewLine {
      assert tail[j] == s[last + 1 + j];
    }
    assert NewLine !in tail;
  }
}
