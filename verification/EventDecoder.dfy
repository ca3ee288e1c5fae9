/** The witness of compositor events: it copies exactly the lines that name one monitor
    (crates/app/src/hyprland_events.rs). */
module EventDecoder {
  import opened Results
  import opened Bytes
  import opened Sequences
  import opened Sinks

  const MAX_LINE := 64 * 1024
  const MONITOR_ADDED: seq<Byte> := [109, 111, 110, 105, 116, 111, 114, 97, 100, 100, 101, 100, 62, 62]
  const MONITOR_REMOVED: seq<Byte> := [109, 111, 110, 105, 116, 111, 114, 114, 101, 109, 111, 118, 101, 100, 62, 62]

  datatype Error = Output | LineTooLong | PartialLine | Poisoned

  /** The two event lines that are reported. */
  datatype Targets = Targets(added: seq<Byte>, removed: seq<Byte>)

  function TargetsFor(name: seq<Byte>): Targets {
    Targets(MONITOR_ADDED + name, MONITOR_REMOVED + name)
  }

  /** What a complete line contributes to the output. */
  function Evidence(t: Targets, line: seq<Byte>): seq<Byte> {
    if line == t.added then t.added + [LF]
    else if line == t.removed then t.removed + [LF]
    else []
  }

  /** The decoder with its destination: `written` has at most `room` bytes. */
  datatype State = State(line: seq<Byte>, poisoned: bool, written: seq<Byte>)

  datatype Fed = Fed(state: State, error: Option<Error>)

  function FeedInput(t: Targets, line: seq<Byte>, input: seq<Byte>, written: seq<Byte>, room: nat): Fed
    decreases |input|, 1
  {
    if input == [] then Fed(State(line, false, written), None)
    else
      var n := LineEnd(input);
      if |line| + n > MAX_LINE then Fed(State([], true, written), Some(LineTooLong))
      else if n == |input| then Fed(State(line + input, false, written), None)
      else FeedAfter(t, line + input[..n], input[n + 1..], written, room)
  }

  /** A complete line: its evidence is written, and the rest of the input follows. */
  function FeedAfter(t: Targets, line: seq<Byte>, rest: seq<Byte>, written: seq<Byte>, room: nat): Fed
    decreases |rest|, 2
  {
    var output := written + Evidence(t, line);
    if |output| > room then Fed(State([], true, Fit(output, room)), Some(Output))
    else FeedInput(t, [], rest, output, room)
  }

  function Feed(t: Targets, s: State, input: seq<Byte>, room: nat): Fed {
    if s.poisoned then Fed(s, Some(Poisoned)) else FeedInput(t, s.line, input, s.written, room)
  }

  function Finish(s: State): (State, Option<Error>) {
    if s.poisoned then (s, Some(Poisoned))
    else if s.line == [] then (s, None)
    else (State([], true, s.written), Some(PartialLine))
  }

  class EventLineDecoder {
    const targets: Targets
    var line: seq<Byte>
    var poisoned: bool

    constructor (name: seq<Byte>)
      ensures targets == TargetsFor(name) && line == [] && !poisoned
    {
      targets := TargetsFor(name);
      line, poisoned := [], false;
    }

    function Snapshot(output: Sink<Byte>): State
      reads this, output
    {
      State(line, poisoned, output.data)
    }

    method FeedBytes(chunk: seq<Byte>, output: Sink<Byte>) returns (error: Option<Error>)
      requires output.Valid()
      modifies this, output
      ensures output.Valid()
      ensures Fed(Snapshot(output), error) == Feed(targets, old(Snapshot(output)), chunk, output.room)
    {
      if poisoned {
        return Some(Poisoned);
      }
      var input := chunk;
      ghost var goal := FeedInput(targets, line, chunk, output.data, output.room);
      while input != []
        invariant !poisoned && output.Valid()
        invariant FeedInput(targets, line, input, output.data, output.room) == goal
        decreases |input|
      {
        var n := LineEnd(input);
        ghost var fed := FeedInput(targets, line, input, output.data, output.room);
        if |line| + n > MAX_LINE {
          line, poisoned := [], true;
          return Some(LineTooLong);
        }
        line := line + input[..n];
        if n == |input| {
          assert input[..n] == input;
          return None;
        }
        assert fed == FeedAfter(targets, line, input[n + 1..], output.data, output.room);
        var failed := EmitLine(output);
        if failed {
          line, poisoned := [], true;
          return Some(Output);
        }
        line := [];
        input := input[n + 1..];
      }
      error := None;
    }

    /** Writes the evidence and a line feed in two steps, each of which may fail. */
    method EmitLine(output: Sink<Byte>) returns (failed: bool)
      requires output.Valid()
      modifies output
      ensures output.Valid()
      ensures output.data == Fit(old(output.data) + Evidence(targets, line), output.room)
      ensures failed <==> |old(output.data)| + |Evidence(targets, line)| > output.room
    {
      var evidence :=
        if line == targets.added then Some(targets.added)
        else if line == targets.removed then Some(targets.removed)
        else None;
      if evidence.None? {
        assert output.data + [] == output.data;
        return false;
      }
      FitInParts(output.data, evidence.value, [LF], output.room);
      var ok := output.Write(evidence.value);
      if ok {
        ok := output.Write([LF]);
      }
      failed := !ok;
    }

    method FinishStream(output: Sink<Byte>) returns (error: Option<Error>)
      modifies this
      ensures (Snapshot(output), error) == Finish(old(Snapshot(output)))
    {
      if poisoned {
        return Some(Poisoned);
      }
      if line == [] {
        return None;
      }
      line, poisoned := [], true;
      error := Some(PartialLine);
    }
  }

  // ----- the whole input at once -----

  /** An input cut at its line feeds: the complete lines before the first one, complete or
      not, that is too long; whether there is such a long line; and else the unfinished end. */
  datatype Scanned = Clean(lines: seq<seq<Byte>>, last: seq<Byte>) | Broken(lines: seq<seq<Byte>>)

  function Scan(bytes: seq<Byte>): Scanned
    decreases |bytes|
  {
    var n := LineEnd(bytes);
    if n > MAX_LINE then Broken([])
    else if n == |bytes| then Clean([], bytes)
    else Before([bytes[..n]], Scan(bytes[n + 1..]))
  }

  function Before(lines: seq<seq<Byte>>, rest: Scanned): Scanned {
    match rest
    case Clean(more, last) => Clean(lines + more, last)
    case Broken(more) => Broken(lines + more)
  }

  function Report(t: Targets, lines: seq<seq<Byte>>): seq<Byte> {
    if lines == [] then [] else Evidence(t, lines[0]) + Report(t, lines[1..])
  }

  /** What is left after all of `bytes`: the report of its lines as far as it fits, poisoned
      if it does not fit or a line is too long, and otherwise the unfinished last line. */
  function Watch(t: Targets, bytes: seq<Byte>, written: seq<Byte>, room: nat): State {
    Settle(t, Scan(bytes), written, room)
  }

  function Settle(t: Targets, scanned: Scanned, written: seq<Byte>, room: nat): State {
    SettleReport(scanned, written + Report(t, scanned.lines), room)
  }

  function SettleReport(scanned: Scanned, report: seq<Byte>, room: nat): State {
    if |report| > room then State([], true, Fit(report, room))
    else
      match scanned
      case Broken(_) => State([], true, report)
      case Clean(_, last) => State(last, false, report)
  }

  lemma BeforeTwice(a: seq<seq<Byte>>, b: seq<seq<Byte>>, rest: Scanned)
    ensures Before(a, Before(b, rest)) == Before(a + b, rest)
    ensures Before([], rest) == rest
  {
    assert a + (b + rest.lines) == a + b + rest.lines && [] + rest.lines == rest.lines;
  }

  /** Reporting some lines and then the rest is reporting them all. */
  lemma SettleInParts(t: Targets, lines: seq<seq<Byte>>, rest: Scanned, written: seq<Byte>, room: nat)
    ensures Settle(t, Before(lines, rest), written, room)
         == if |written + Report(t, lines)| > room then State([], true, Fit(written + Report(t, lines), room))
            else Settle(t, rest, written + Report(t, lines), room)
  {
    var part, more := written + Report(t, lines), Report(t, rest.lines);
    ReportOfConcat(t, lines, rest.lines);
    assert Before(lines, rest).lines == lines + rest.lines;
    Regroup(written, Report(t, lines), more);
    SettlePart(lines, rest, part, part + more, room);
  }

  lemma SettlePart(lines: seq<seq<Byte>>, rest: Scanned, part: seq<Byte>, whole: seq<Byte>, room: nat)
    requires part <= whole
    ensures SettleReport(Before(lines, rest), whole, room) == SettleReport(rest, whole, room)
    ensures |part| > room ==> SettleReport(rest, whole, room) == State([], true, Fit(part, room))
  {
  }

  lemma {:induction false} FeedWatches(t: Targets, line: seq<Byte>, input: seq<Byte>, written: seq<Byte>, room: nat)
    requires LF !in line && |line| <= MAX_LINE && |written| <= room
    ensures FeedInput(t, line, input, written, room).state == Watch(t, line + input, written, room)
    ensures FeedInput(t, line, input, written, room).error.None? <==> !Watch(t, line + input, written, room).poisoned
    decreases |input|
  {
    var n := LineEnd(input);
    LineEndOfConcat(line, input);
    if |line| + n > MAX_LINE || n == |input| {
      assert written + [] == written;
      assert input == [] ==> line + input == line;
    } else {
      var whole, rest := line + input[..n], input[n + 1..];
      var bytes, output := line + input, written + Evidence(t, whole);
      assert bytes[..LineEnd(bytes)] == whole && bytes[LineEnd(bytes) + 1..] == rest;
      SettleInParts(t, [whole], Scan(rest), written, room);
      assert Report(t, [whole]) == Evidence(t, whole) by { assert [whole][1..] == []; }
      if |output| <= room {
        FeedWatches(t, [], rest, output, room);
        assert [] + rest == rest;
      }
    }
  }

  lemma {:induction false} ScanLine(bytes: seq<Byte>)
    requires LineEnd(bytes) < |bytes|
    ensures LineEnd(bytes) > MAX_LINE ==> Scan(bytes) == Broken([])
    ensures LineEnd(bytes) <= MAX_LINE ==>
              Scan(bytes) == Before([bytes[..LineEnd(bytes)]], Scan(bytes[LineEnd(bytes) + 1..]))
  {
  }

  /** Scanning `a + b` continues where `a` ends, and stays broken once `a` is. */
  lemma {:induction false} ScanConcat(a: seq<Byte>, b: seq<Byte>)
    ensures Scan(a).Clean? ==> LF !in Scan(a).last && |Scan(a).last| <= MAX_LINE
    ensures Scan(a + b) == if Scan(a).Broken? then Scan(a) else Before(Scan(a).lines, Scan(Scan(a).last + b))
    decreases |a|
  {
    var n := LineEnd(a);
    LineEndOfConcat(a, b);
    if n == |a| {
      assert a[..n] == a;
      BeforeTwice([], [], Scan(a + b));
    } else {
      assert a[n] in a;
      var whole, rest := a[..n], a[n + 1..];
      assert (a + b)[..n] == whole && (a + b)[n + 1..] == rest + b;
      ScanLine(a);
      ScanLine(a + b);
      if n <= MAX_LINE {
        ScanConcat(rest, b);
        if Scan(rest).Clean? {
          BeforeTwice([whole], Scan(rest).lines, Scan(Scan(rest).last + b));
        }
      }
    }
  }

  lemma ReportStep(t: Targets, line: seq<Byte>, lines: seq<seq<Byte>>)
    ensures Report(t, [line] + lines) == Evidence(t, line) + Report(t, lines)
  {
  }

  lemma {:induction false} ReportOfConcat(t: Targets, a: seq<seq<Byte>>, b: seq<seq<Byte>>)
    ensures Report(t, a + b) == Report(t, a) + Report(t, b)
  {
    if a == [] {
      assert a + b == b;
    } else {
      var line, rest := a[0], a[1..];
      ReportOfConcat(t, rest, b);
      assert a == [line] + rest;
      Regroup([line], rest, b);
      ReportStep(t, line, rest);
      ReportStep(t, line, rest + b);
      Regroup(Evidence(t, line), Report(t, rest), Report(t, b));
    }
  }

  function Receive(t: Targets, chunks: seq<seq<Byte>>, room: nat): State {
    if chunks == [] then State([], false, [])
    else Feed(t, Receive(t, chunks[..|chunks| - 1], room), chunks[|chunks| - 1], room).state
  }

  lemma WatchMore(t: Targets, a: seq<Byte>, b: seq<Byte>, room: nat)
    ensures var s := Watch(t, a, [], room);
            Watch(t, a + b, [], room) == if s.poisoned then s else Watch(t, s.line + b, s.written, room)
  {
    ScanConcat(a, b);
    var scanned := Scan(a);
    if scanned.Clean? {
      SettleInParts(t, scanned.lines, Scan(scanned.last + b), [], room);
    }
  }

  /** The written bytes, the poisoned flag and the buffered line depend only on the bytes
      received, not on how they were cut; also when the destination fills up. */
  lemma {:induction false} ReceiveWatches(t: Targets, chunks: seq<seq<Byte>>, room: nat)
    ensures Receive(t, chunks, room) == Watch(t, Flatten(chunks), [], room)
    ensures |Receive(t, chunks, room).written| <= room
    decreases |chunks|
  {
    if chunks == [] {
      assert LineEnd([]) == 0 && [] + Report(t, []) == [];
    } else {
      var front, last := chunks[..|chunks| - 1], chunks[|chunks| - 1];
      ReceiveWatches(t, front, room);
      FlattenLast(chunks);
      WatchMore(t, Flatten(front), last, room);
      var s := Receive(t, front, room);
      if !s.poisoned {
        ScanConcat(Flatten(front), last);
        FeedWatches(t, s.line, last, s.written, room);
      }
    }
  }

  /** With room for everything, the output is the report of the lines before the first long
      one, and only a long line poisons. */
  lemma EverythingFits(t: Targets, chunks: seq<seq<Byte>>, room: nat)
    requires |Report(t, Scan(Flatten(chunks)).lines)| <= room
    ensures Receive(t, chunks, room).written == Report(t, Scan(Flatten(chunks)).lines)
    ensures Receive(t, chunks, room).poisoned <==> Scan(Flatten(chunks)).Broken?
  {
    ReceiveWatches(t, chunks, room);
    var report := Report(t, Scan(Flatten(chunks)).lines);
    assert [] + report == report;
  }

  /** Finishing is clean exactly when everything fitted, no line was too long and no partial line is
      left; a partial line is told from an earlier failure. */
  lemma FinishTells(t: Targets, chunks: seq<seq<Byte>>, room: nat)
    ensures
      var scanned := Scan(Flatten(chunks));
      var error := Finish(Receive(t, chunks, room)).1;
      if |Report(t, scanned.lines)| > room || scanned.Broken? then error == Some(Poisoned)
      else if scanned.last != [] then error == Some(PartialLine)
      else error == None
  {
    ReceiveWatches(t, chunks, room);
    var report := Report(t, Scan(Flatten(chunks)).lines);
    assert [] + report == report;
  }

  /** The lines and the rest, with line feeds between them, are the input, and no line holds a line
      feed or is longer than 64 KiB. */
  ghost predicate IsCut(bytes: seq<Byte>, lines: seq<seq<Byte>>, last: seq<Byte>) {
    && bytes == Flatten(Terminated(lines)) + last && LF !in last && |last| <= 65536
    && forall l :: l in lines ==> LF !in l && |l| <= 65536
  }

  lemma CutOneMore(line: seq<Byte>, rest: seq<Byte>, lines: seq<seq<Byte>>, last: seq<Byte>)
    requires IsCut(rest, lines, last) && LF !in line && |line| <= 65536
    ensures IsCut(line + [LF] + rest, [line] + lines, last)
  {
    assert ([line] + lines)[1..] == lines;
    var text := [line + [LF]] + Terminated(lines);
    assert Terminated([line] + lines) == text && text[1..] == Terminated(lines);
    Regroup(line + [LF], Flatten(Terminated(lines)), last);
  }

  lemma NothingCut(bytes: seq<Byte>)
    requires LF !in bytes && |bytes| <= 65536
    ensures IsCut(bytes, [], bytes)
  {
    assert Terminated([]) == [] && Flatten<Byte>([]) + bytes == bytes;
  }

  lemma {:induction false} CleanLine(bytes: seq<Byte>, line: seq<Byte>, rest: seq<Byte>)
    requires Scan(bytes).Clean? && LineEnd(bytes) < |bytes|
    requires line == bytes[..LineEnd(bytes)] && rest == bytes[LineEnd(bytes) + 1..]
    ensures Scan(rest).Clean? && |line| <= MAX_LINE
    ensures Scan(bytes).lines == [line] + Scan(rest).lines && Scan(bytes).last == Scan(rest).last
  {
    ScanLine(bytes);
  }

  lemma {:induction false} LineApart(bytes: seq<Byte>, line: seq<Byte>, rest: seq<Byte>)
    requires LineEnd(bytes) < |bytes|
    requires line == bytes[..LineEnd(bytes)] && rest == bytes[LineEnd(bytes) + 1..]
    ensures LF !in line && bytes == line + [LF] + rest
  {
  }

  lemma {:induction false} CleanEnd(bytes: seq<Byte>)
    requires Scan(bytes).Clean? && LineEnd(bytes) == |bytes|
    ensures Scan(bytes) == Clean([], bytes) && LF !in bytes && |bytes| <= MAX_LINE
  {
    assert bytes[..|bytes|] == bytes;
  }

  ghost predicate ScansAsCut(bytes: seq<Byte>) {
    Scan(bytes).Clean? ==> IsCut(bytes, Scan(bytes).lines, Scan(bytes).last)
  }

  /** The cut loses nothing. */
  lemma {:induction false} ScanIsCut(bytes: seq<Byte>)
    ensures ScansAsCut(bytes)
    decreases |bytes|
  {
    if Scan(bytes).Clean? {
      if LineEnd(bytes) == |bytes| {
        CleanEnd(bytes);
        NothingCut(bytes);
      } else {
        var line, rest := bytes[..LineEnd(bytes)], bytes[LineEnd(bytes) + 1..];
        CleanLine(bytes, line, rest);
        LineApart(bytes, line, rest);
        ScanIsCut(rest);
        CutOneMore(line, rest, Scan(rest).lines, Scan(rest).last);
      }
    }
  }

  /** The two reported lines are the ASCII names of the events and the name of the monitor. */
  lemma TargetsAreNamed(name: seq<Byte>)
    ensures IsAscii(TargetsFor(name).added, "monitoradded>>", name)
    ensures IsAscii(TargetsFor(name).removed, "monitorremoved>>", name)
  {
    AddedIsNamed();
    RemovedIsNamed();
  }

  lemma AddedIsNamed()
    ensures |MONITOR_ADDED| == |"monitoradded>>"|
    ensures forall i :: 0 <= i < |"monitoradded>>"| ==> MONITOR_ADDED[i] as int == "monitoradded>>"[i] as int
  {
  }

  lemma RemovedIsNamed()
    ensures |MONITOR_REMOVED| == |"monitorremoved>>"|
    ensures forall i :: 0 <= i < |"monitorremoved>>"| ==> MONITOR_REMOVED[i] as int == "monitorremoved>>"[i] as int
  {
  }

  predicate IsAscii(line: seq<Byte>, event: string, name: seq<Byte>) {
    && |line| == |event| + |name| && line[|event|..] == name
    && forall i :: 0 <= i < |event| ==> line[i] as int == event[i] as int
  }

  /** The report holds each matching line, in order, and nothing else. */
  lemma {:induction false} ReportIsMatchingLines(t: Targets, lines: seq<seq<Byte>>)
    ensures Report(t, lines) == Flatten(Terminated(Matching(t, lines)))
  {
    if lines != [] {
      ReportIsMatchingLines(t, lines[1..]);
      if lines[0] == t.added || lines[0] == t.removed {
        var rest := Matching(t, lines[1..]);
        assert ([lines[0]] + rest)[1..] == rest;
      }
    }
  }

  function Matching(t: Targets, lines: seq<seq<Byte>>): (r: seq<seq<Byte>>)
    ensures forall l :: l in r <==> l in lines && (l == t.added || l == t.removed)
  {
    if lines == [] then []
    else
      assert lines == [lines[0]] + lines[1..];
      if lines[0] == t.added || lines[0] == t.removed then [lines[0]] + Matching(t, lines[1..])
      else Matching(t, lines[1..])
  }

  function Terminated(lines: seq<seq<Byte>>): seq<seq<Byte>> {
    if lines == [] then [] else [lines[0] + [LF]] + Terminated(lines[1..])
  }
}
