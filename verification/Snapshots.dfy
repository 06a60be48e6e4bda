/** The snapshot file `events.jsonl`: one payload per line (src/store/mod.rs:670-689, 824-847). */
module Snapshots {
  import opened Events
  import opened StoreSpec
  import Wal

  const LF: Byte := 10
  const CR: Byte := 13

  // ---------------------------------------------------------------- lines

  function WriteLines(payloads: seq<Bytes>): Bytes {
    if payloads == [] then [] else payloads[0] + [LF] + WriteLines(payloads[1..])
  }

  /** Position of the first line feed, or the length if there is none. */
  function LineEnd(b: Bytes): (n: nat)
    ensures n <= |b|
    ensures n < |b| ==> b[n] == LF
    ensures forall i :: 0 <= i < n ==> b[i] != LF
  {
    if b == [] || b[0] == LF then 0 else 1 + LineEnd(b[1..])
  }

  function Chomp(line: Bytes): (r: Bytes)
    ensures r <= line
  {
    if line != [] && line[|line| - 1] == CR then line[..|line| - 1] else line
  }

  /** `BufRead::lines`, empty lines skipped: a line ends at a line feed, which takes a carriage
      return before it along; the last line may lack its line feed. */
  function ReadLines(b: Bytes): seq<Bytes>
    decreases |b|
  {
    if b == [] then []
    else
      var n := LineEnd(b);
      if n == |b| then [b]
      else
        var line, rest := Chomp(b[..n]), ReadLines(b[n + 1..]);
        if line == [] then rest else [line] + rest
  }

  /** Having read `done` up to `pos`, what remains is the reading of the rest. */
  ghost predicate ReadSoFar(file: Bytes, pos: nat, done: seq<Bytes>) {
    pos <= |file| && ReadLines(file) == done + ReadLines(file[pos..])
  }

  /** The line a non-empty rest of the file begins with, if it is not the last, empty ones dropped. */
  function FirstLine(b: Bytes): seq<Bytes> {
    var line := Chomp(b[..LineEnd(b)]);
    if line == [] then [] else [line]
  }

  lemma ReadLinesStep(b: Bytes)
    ensures b == [] ==> ReadLines(b) == []
    ensures b != [] && LineEnd(b) == |b| ==> ReadLines(b) == [b]
    ensures LineEnd(b) < |b| ==> ReadLines(b) == FirstLine(b) + ReadLines(b[LineEnd(b) + 1..])
  {
  }

  lemma ReadOn(file: Bytes, pos: nat, done: seq<Bytes>)
    requires ReadSoFar(file, pos, done)
    ensures pos == |file| ==> ReadLines(file) == done
    ensures pos < |file| ==>
              var rest := file[pos..];
              if LineEnd(rest) == |rest| then ReadLines(file) == done + [rest]
              else ReadSoFar(file, pos + LineEnd(rest) + 1, done + FirstLine(rest))
  {
    hide ReadLines, LineEnd, FirstLine;
    var rest := file[pos..];
    ReadLinesStep(rest);
    if LineEnd(rest) < |rest| {
      var next := pos + LineEnd(rest) + 1;
      assert rest[LineEnd(rest) + 1..] == file[next..];
      assert done + (FirstLine(rest) + ReadLines(file[next..])) == (done + FirstLine(rest)) + ReadLines(file[next..]);
    }
  }

  lemma ReadNothingYet(file: Bytes)
    ensures ReadSoFar(file, 0, [])
  {
    assert file[0..] == file;
  }

  method ReadAllLines(file: Bytes) returns (lines: seq<Bytes>)
    ensures lines == ReadLines(file)
  {
    hide ReadLines, ReadSoFar, LineEnd, FirstLine;
    lines := [];
    var pos := 0;
    ReadNothingYet(file);
    while pos < |file|
      invariant pos <= |file| && ReadSoFar(file, pos, lines)
    {
      ReadOn(file, pos, lines);
      var rest := file[pos..];
      var n := LineEnd(rest);
      if n == |rest| {
        return lines + [rest];
      }
      lines := lines + FirstLine(rest);
      pos := pos + n + 1;
    }
    ReadOn(file, pos, lines);
  }

  /** A payload that takes exactly one line. */
  predicate OneLine(p: Bytes) {
    p != [] && LF !in p && p[|p| - 1] != CR
  }

  lemma LineEndAt(p: Bytes, rest: Bytes)
    requires LF !in p
    ensures LineEnd(p + [LF] + rest) == |p|
    ensures (p + [LF] + rest)[..|p|] == p && (p + [LF] + rest)[|p| + 1..] == rest
  {
    var b := p + [LF] + rest;
    assert b[|p|] == LF;
    assert forall i :: 0 <= i < |p| ==> b[i] == p[i];
  }

  /** Writing and reading one more payload without a line feed. */
  lemma ReadFirst(payloads: seq<Bytes>)
    requires payloads != [] && LF !in payloads[0]
    ensures var line, rest := Chomp(payloads[0]), ReadLines(WriteLines(payloads[1..]));
            ReadLines(WriteLines(payloads)) == if line == [] then rest else [line] + rest
  {
    LineEndAt(payloads[0], WriteLines(payloads[1..]));
  }

  /** Every line that is read is non-empty and holds no line feed. */
  lemma {:induction false} LinesAreLines(b: Bytes)
    ensures forall line :: line in ReadLines(b) ==> line != [] && LF !in line
    decreases |b|
  {
    if b != [] {
      var n := LineEnd(b);
      if n < |b| {
        LinesAreLines(b[n + 1..]);
        ChompAddsNothing(b[..n]);
      }
    }
  }

  lemma ChompAddsNothing(line: Bytes)
    requires LF !in line
    ensures LF !in Chomp(line)
  {
  }

  lemma {:induction false} NoMoreLinesThanPayloads(payloads: seq<Bytes>)
    requires forall i :: 0 <= i < |payloads| ==> LF !in payloads[i]
    ensures |ReadLines(WriteLines(payloads))| <= |payloads|
  {
    if payloads != [] {
      NoMoreLinesThanPayloads(payloads[1..]);
      ReadFirst(payloads);
    }
  }

  lemma NothingWritten()
    ensures ReadLines(WriteLines([])) == []
  {
  }

  lemma ChompKeepsOneLine(p: Bytes)
    requires LF !in p
    ensures OneLine(p) <==> Chomp(p) == p && p != []
  {
  }

  lemma {:induction false} OneLineEach(payloads: seq<Bytes>)
    requires forall i :: 0 <= i < |payloads| ==> LF !in payloads[i]
    ensures ReadLines(WriteLines(payloads)) == payloads <==> forall i :: 0 <= i < |payloads| ==> OneLine(payloads[i])
  {
    hide ReadLines, WriteLines, OneLine, Chomp;
    if payloads == [] {
      NothingWritten();
    } else {
      var p, rest := payloads[0], payloads[1..];
      OneLineEach(rest);
      ReadFirst(payloads);
      NoMoreLinesThanPayloads(rest);
      ChompKeepsOneLine(p);
      var read := ReadLines(WriteLines(payloads));
      assert payloads == [p] + rest;
      assert Chomp(p) != [] ==> read[0] == Chomp(p) && read[1..] == ReadLines(WriteLines(rest));
      assert (forall i :: 0 <= i < |payloads| ==> OneLine(payloads[i])) <==>
             OneLine(p) && forall i :: 0 <= i < |rest| ==> OneLine(rest[i]) by {
        assert forall i :: 0 <= i < |rest| ==> rest[i] == payloads[i + 1];
        assert forall i :: 0 < i < |payloads| ==> payloads[i] == rest[i - 1];
      }
    }
  }

  /** A snapshot reads back as written if and only if every payload takes exactly one line: it is
      not empty, holds no line feed and does not end in a carriage return. */
  lemma SnapshotReadsBackIff(payloads: seq<Bytes>)
    ensures ReadLines(WriteLines(payloads)) == payloads <==> forall i :: 0 <= i < |payloads| ==> OneLine(payloads[i])
  {
    if ReadLines(WriteLines(payloads)) == payloads {
      LinesAreLines(WriteLines(payloads));
      assert forall i :: 0 <= i < |payloads| ==> payloads[i] in payloads;
      OneLineEach(payloads);
    } else if forall i :: 0 <= i < |payloads| ==> OneLine(payloads[i]) {
      OneLineEach(payloads);
    }
  }

  // ---------------------------------------------------------------- events

  function Payloads(events: seq<Event>): seq<Bytes> {
    seq(|events|, i requires 0 <= i < |events| => events[i].raw)
  }

  /** The events of the lines that parse; the others are reported and skipped. */
  function ParseAll(parse: Wal.Parser, lines: seq<Bytes>): seq<Event> {
    if lines == [] then []
    else
      var n := |lines| - 1;
      ParseAll(parse, lines[..n]) + if parse(lines[n]).Some? then [parse(lines[n]).value] else []
  }

  function ReadSnapshot(parse: Wal.Parser, file: Bytes): seq<Event> {
    ParseAll(parse, ReadLines(file))
  }

  /** Parsing keeps the bytes it was given as the payload. */
  ghost predicate KeepsPayload(parse: Wal.Parser) {
    forall data :: parse(data).Some? ==> parse(data).value.raw == data
  }

  lemma {:induction false} ParseAllBack(parse: Wal.Parser, events: seq<Event>)
    requires forall i :: 0 <= i < |events| ==> parse(events[i].raw) == Some(events[i])
    ensures ParseAll(parse, Payloads(events)) == events
  {
    if events != [] {
      var n := |events| - 1;
      ParseAllBack(parse, events[..n]);
      assert Payloads(events)[..n] == Payloads(events[..n]);
      assert events == events[..n] + [events[n]];
    }
  }

  /** A snapshot of events whose payloads take one line each and parse is read back whole. */
  lemma SnapshotReadsBack(parse: Wal.Parser, events: seq<Event>)
    requires forall i :: 0 <= i < |events| ==> OneLine(events[i].raw) && parse(events[i].raw) == Some(events[i])
    ensures ReadSnapshot(parse, WriteLines(Payloads(events))) == events
  {
    SnapshotReadsBackIff(Payloads(events));
    ParseAllBack(parse, events);
  }

  lemma {:induction false} ParsedFromSome(parse: Wal.Parser, lines: seq<Bytes>, e: Event)
    requires e in ParseAll(parse, lines)
    ensures exists line :: line in lines && parse(line) == Some(e)
  {
    var n := |lines| - 1;
    if e in ParseAll(parse, lines[..n]) {
      ParsedFromSome(parse, lines[..n], e);
      var line :| line in lines[..n] && parse(line) == Some(e);
      assert line in lines;
    }
  }

  /** No file whatever yields an event whose payload holds a line feed. */
  lemma LineFeedIsNeverReadBack(parse: Wal.Parser, file: Bytes, e: Event)
    requires KeepsPayload(parse) && LF in e.raw
    ensures e !in ReadSnapshot(parse, file)
  {
    if e in ReadSnapshot(parse, file) {
      ParsedFromSome(parse, ReadLines(file), e);
      LinesAreLines(file);
    }
  }
}
