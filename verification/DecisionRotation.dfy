/** Which clock readings keep the decision log whole, and what every log keeps without any. */
module DecisionRotation {
  import opened Bytes
  import opened Codec
  import opened DecisionLedger

  // ---------------------------------------------------------------- readings and names

  function Names(segments: seq<Segment>): seq<int> {
    seq(|segments|, i requires 0 <= i < |segments| => segments[i].name)
  }

  /** The clock readings at which batches settle; a rotation takes one of them as its name. */
  function Readings(events: seq<Event>): seq<int> {
    if events == [] then []
    else
      var front, e := Readings(events[..|events| - 1]), events[|events| - 1];
      if e.BatchSettles? then front + [e.now] else front
  }

  /** No two readings are equal, and none is the name of a file already there. */
  ghost predicate FreshReadings(names: seq<int>, readings: seq<int>) {
    && (forall i :: 0 <= i < |readings| ==> readings[i] !in names)
    && (forall i, j :: 0 <= i < j < |readings| ==> readings[i] != readings[j])
  }

  lemma FreshSnoc(names: seq<int>, front: seq<int>, last: int)
    ensures FreshReadings(names, front + [last]) <==> FreshReadings(names, front) && last !in names && last !in front
  {
    var all := front + [last];
    if FreshReadings(names, all) {
      forall i | 0 <= i < |front| ensures front[i] !in names && front[i] != last {
        assert all[i] == front[i] && all[|front|] == last;
      }
      forall i, j | 0 <= i < j < |front| ensures front[i] != front[j] {
        assert all[i] == front[i] && all[j] == front[j];
      }
      assert all[|front|] == last;
    }
  }

  lemma {:induction false} WithoutNames(segments: seq<Segment>, name: int, k: nat)
    requires k < |Without(segments, name)|
    ensures Without(segments, name)[k].name in Names(segments)
  {
    var front, last := segments[..|segments| - 1], segments[|segments| - 1];
    assert Names(segments) == Names(front) + [last.name];
    if k < |Without(front, name)| {
      WithoutNames(front, name, k);
    }
  }

  /** A file of a run has its name from the start or from a reading. */
  ghost predicate NamesFrom(segments: seq<Segment>, names: seq<int>, readings: seq<int>) {
    forall k :: 0 <= k < |segments| ==> segments[k].name in names || segments[k].name in readings
  }

  lemma RotateNames(d: Disk, name: int, names: seq<int>, readings: seq<int>)
    requires d.active.Some? && NamesFrom(d.segments, names, readings)
    ensures NamesFrom(Rotate(d, name).segments, names, readings + [name])
  {
    var rest := Without(d.segments, name);
    forall k | 0 <= k < |rest| ensures rest[k].name in names || rest[k].name in readings + [name] {
      WithoutNames(d.segments, name, k);
      var i :| 0 <= i < |d.segments| && Names(d.segments)[i] == rest[k].name;
      assert d.segments[i].name == rest[k].name;
    }
  }

  lemma StepNames(s: State, o: Options, e: Event, names: seq<int>, readings: seq<int>)
    requires NamesFrom(s.disk.segments, names, readings)
    ensures NamesFrom(Step(s, o, e).disk.segments, names, if e.BatchSettles? then readings + [e.now] else readings)
  {
    if e.BatchSettles? {
      assert forall x :: x in readings ==> x in readings + [e.now];
      if s.disk.active.Some? { RotateNames(s.disk, e.now, names, readings); }
    }
  }

  lemma {:induction false} RunNames(disk: Disk, o: Options, events: seq<Event>)
    ensures NamesFrom(Run(Opened(disk), o, events).disk.segments, Names(disk.segments), Readings(events))
  {
    if events == [] {
      assert forall k :: 0 <= k < |disk.segments| ==> disk.segments[k].name == Names(disk.segments)[k];
    } else {
      var front := events[..|events| - 1];
      RunNames(disk, o, front);
      StepNames(Run(Opened(disk), o, front), o, events[|events| - 1], Names(disk.segments), Readings(front));
    }
  }

  /** Fresh readings replace nothing, whatever is recorded, flushed or fails. */
  lemma {:induction false} FreshReadingsReplaceNothing(disk: Disk, o: Options, events: seq<Event>)
    requires FreshReadings(Names(disk.segments), Readings(events))
    ensures RenamesReplaceNothing(Opened(disk), o, events)
  {
    if events != [] {
      var front, e := events[..|events| - 1], events[|events| - 1];
      if e.BatchSettles? {
        FreshSnoc(Names(disk.segments), Readings(front), e.now);
      }
      FreshReadingsReplaceNothing(disk, o, front);
      RunNames(disk, o, front);
      RenamesUpTo(Opened(disk), o, events);
    }
  }

  // ---------------------------------------------------------------- what fresh readings give

  /**
   * With fresh readings, in every schedule and under every failure, the files hold a beginning of what was
   * recorded: nothing twice, skipped or out of order.
   */
  lemma FilesArePrefix(disk: Disk, o: Options, events: seq<Event>)
    requires FreshReadings(Names(disk.segments), Readings(events))
    ensures Contents(Run(Opened(disk), o, events).disk) <= Contents(disk) + Flatten(Recorded(events))
  {
    FreshReadingsReplaceNothing(disk, o, events);
    DiskIsPrefix(disk, o, events);
  }

  /** With fresh readings, when a flush resolves, the files begin with everything recorded before it was called. */
  lemma FlushIsDurable(disk: Disk, o: Options, before: seq<Event>, after: seq<Event>)
    requires FreshReadings(Names(disk.segments), Readings(before + [Flushes] + after))
    requires var called := Run(Opened(disk), o, before + [Flushes]);
             Resolved(Run(called, o, after), |called.batches|)
    ensures Contents(disk) + Flatten(Recorded(before))
         <= Contents(Run(Run(Opened(disk), o, before + [Flushes]), o, after).disk)
  {
    FreshReadingsReplaceNothing(disk, o, before + [Flushes] + after);
    ResolvedFlushIsDurable(disk, o, before, after);
  }

  // ---------------------------------------------------------------- no weaker condition on the readings will do

  /** Records one row and writes it at once and without a fault. */
  function WriteRow(row: bytes, at: int): seq<Event> { [Records(row), BatchSettles(at, NoFault)] }

  function WriteRows(row: bytes, readings: seq<int>): seq<Event> {
    if readings == [] then []
    else WriteRows(row, readings[..|readings| - 1]) + WriteRow(row, readings[|readings| - 1])
  }

  lemma RunSnoc(s: State, o: Options, events: seq<Event>, e: Event)
    ensures Run(s, o, events + [e]) == Step(Run(s, o, events), o, e)
    ensures Readings(events + [e]) == if e.BatchSettles? then Readings(events) + [e.now] else Readings(events)
    ensures Recorded(events + [e]) == if e.Records? then Recorded(events) + [e.row] else Recorded(events)
  {
    assert (events + [e])[..|events|] == events;
  }

  /** What writing one more row adds to a schedule. */
  lemma RunWriteRow(s: State, o: Options, events: seq<Event>, row: bytes, at: int)
    ensures events + WriteRow(row, at) == (events + [Records(row)]) + [BatchSettles(at, NoFault)]
    ensures Run(s, o, events + [Records(row)]) == Step(Run(s, o, events), o, Records(row))
    ensures Run(s, o, events + WriteRow(row, at)) == Step(Step(Run(s, o, events), o, Records(row)), o,
                                                          BatchSettles(at, NoFault))
    ensures Readings(events + WriteRow(row, at)) == Readings(events) + [at]
    ensures Recorded(events + WriteRow(row, at)) == Recorded(events) + [row]
  {
    assert events + WriteRow(row, at) == (events + [Records(row)]) + [BatchSettles(at, NoFault)];
    RunSnoc(s, o, events, Records(row));
    RunSnoc(s, o, events + [Records(row)], BatchSettles(at, NoFault));
  }

  lemma {:induction false} ReadingsOfRows(row: bytes, readings: seq<int>)
    ensures Readings(WriteRows(row, readings)) == readings
  {
    if readings != [] {
      var front, last := readings[..|readings| - 1], readings[|readings| - 1];
      ReadingsOfRows(row, front);
      RunWriteRow(Opened(Disk(None, [])), Options(1, 1), WriteRows(row, front), row, last);
      assert readings == front + [last];
    }
  }

  /** Every file holds the row, and the limits are one row and one byte, so that every batch rotates. */
  function RowDisk(names: seq<int>, row: bytes): Disk {
    Disk(Some(row), seq(|names|, i requires 0 <= i < |names| => Segment(names[i], row)))
  }

  /** Nothing is waiting, and the active file holds the row. */
  ghost predicate Steady(s: State, row: bytes) {
    && s.pending == [] && !s.scheduled && s.failedAt.None? && s.settled == |s.batches| && s.disk.active == Some(row)
  }

  predicate HasRow(segments: seq<Segment>, name: int, row: bytes) { Segment(name, row) in segments }

  lemma {:induction false} WithoutKeeps(segments: seq<Segment>, name: int, s: Segment)
    requires s in segments && s.name != name
    ensures s in Without(segments, name)
  {
    var front, last := segments[..|segments| - 1], segments[|segments| - 1];
    assert segments == front + [last];
    if s in front {
      WithoutKeeps(front, name, s);
    }
  }

  lemma RotateKeepsRow(d: Disk, name: int, other: int, row: bytes)
    requires d.active == Some(row) && (other == name || HasRow(d.segments, other, row))
    ensures HasRow(Rotate(d, name).segments, other, row)
  {
    if other != name {
      WithoutKeeps(d.segments, name, Segment(other, row));
    } else {
      var k := |Without(d.segments, name)|;
      assert Rotate(d, name).segments[k] == Segment(name, row);
    }
  }

  /** Recording a row queues it as a batch of its own. */
  lemma SteadyRecords(s: State, row: bytes)
    requires row != [] && Steady(s, row)
    ensures Step(s, Options(1, 1), Records(row)) == s.(batches := s.batches + [row])
  {
    assert [] + [row] == [row] && Flatten([row]) == row;
  }

  /** Writing it renames the active file and starts a new one with the same text. */
  lemma SteadyWrites(s: State, row: bytes, at: int)
    requires row != [] && Steady(s, row)
    ensures var t := Step(Step(s, Options(1, 1), Records(row)), Options(1, 1), BatchSettles(at, NoFault));
            && Steady(t, row) && t.disk.segments == Rotate(s.disk, at).segments && |t.batches| == |s.batches| + 1
  {
    SteadyRecords(s, row);
    assert [] + row == row;
  }

  lemma {:induction false} RowsRun(names: seq<int>, readings: seq<int>, row: bytes, name: int)
    requires row != []
    ensures var s := Run(Opened(RowDisk(names, row)), Options(1, 1), WriteRows(row, readings));
            && Steady(s, row) && |s.batches| == |readings|
            && (name in names || name in readings ==> HasRow(s.disk.segments, name, row))
  {
    var start := Opened(RowDisk(names, row));
    if readings == [] {
      assert forall i :: 0 <= i < |names| ==> start.disk.segments[i] == Segment(names[i], row);
    } else {
      var front, last := readings[..|readings| - 1], readings[|readings| - 1];
      var s := Run(start, Options(1, 1), WriteRows(row, front));
      RowsRun(names, front, row, name);
      RunWriteRow(start, Options(1, 1), WriteRows(row, front), row, last);
      SteadyWrites(s, row, last);
      assert readings == front + [last];
      if name in names || name in readings {
        RotateKeepsRow(s.disk, last, name, row);
      }
    }
  }

  /** The write that takes a name again replaces that file's text. */
  lemma RowReplaced(names: seq<int>, front: seq<int>, last: int, row: bytes)
    requires row != [] && (last in names || last in front)
    ensures !RenamesReplaceNothing(Opened(RowDisk(names, row)), Options(1, 1),
                                   WriteRows(row, front) + WriteRow(row, last))
  {
    var start, o, events := Opened(RowDisk(names, row)), Options(1, 1), WriteRows(row, front);
    var s := Run(start, o, events);
    RowsRun(names, front, row, last);
    RunWriteRow(start, o, events, row, last);
    SteadyRecords(s, row);
    var all := events + WriteRow(row, last);
    assert all[..|all| - 1] == events + [Records(row)] && all[|all| - 1] == BatchSettles(last, NoFault);
    RenamesUpTo(start, o, all);
    var k :| 0 <= k < |s.disk.segments| && s.disk.segments[k] == Segment(last, row);
    assert !NoTextUnder(s.disk.segments, last);
  }

  lemma {:induction false} StaleReadingsReplace(names: seq<int>, readings: seq<int>, row: bytes)
    requires row != [] && !FreshReadings(names, readings)
    ensures !RenamesReplaceNothing(Opened(RowDisk(names, row)), Options(1, 1), WriteRows(row, readings))
  {
    var front, last := readings[..|readings| - 1], readings[|readings| - 1];
    assert readings == front + [last];
    FreshSnoc(names, front, last);
    if last in names || last in front {
      RowReplaced(names, front, last, row);
    } else {
      StaleReadingsReplace(names, front, row);
      var start, o := Opened(RowDisk(names, row)), Options(1, 1);
      var events, all := WriteRows(row, front), WriteRows(row, readings);
      assert all[..|events|] == events;
      if RenamesReplaceNothing(start, o, all) {
        RenamesPrefix(start, o, all, |events|);
      }
    }
  }

  /** On every disk with these names, in every schedule with these readings, no rename replaces text. */
  ghost predicate AlwaysWhole(names: seq<int>, readings: seq<int>) {
    forall disk: Disk, o: Options, events: seq<Event> :: Names(disk.segments) == names && Readings(events) == readings ==>
      RenamesReplaceNothing(Opened(disk), o, events)
  }

  /**
   * The condition on the clock is exact: given the names on disk, a log is safe with its readings if and only if
   * they are fresh.
   */
  lemma FreshReadingsExactly(names: seq<int>, readings: seq<int>)
    ensures AlwaysWhole(names, readings) <==> FreshReadings(names, readings)
  {
    if FreshReadings(names, readings) {
      forall disk: Disk, o: Options, events: seq<Event> | Names(disk.segments) == names && Readings(events) == readings
        ensures RenamesReplaceNothing(Opened(disk), o, events)
      {
        FreshReadingsReplaceNothing(disk, o, events);
      }
    } else {
      var row: bytes := [10];
      StaleReadingsReplace(names, readings, row);
      ReadingsOfRows(row, readings);
      assert Names(RowDisk(names, row).segments) == names;
    }
  }

  lemma {:induction false} RunQueue(disk: Disk, o: Options, events: seq<Event>)
    ensures QueueKept(Run(Opened(disk), o, events), Recorded(events))
  {
    if events != [] {
      RunQueue(disk, o, events[..|events| - 1]);
      StepKeepsQueue(Run(Opened(disk), o, events[..|events| - 1]), o, events[|events| - 1],
                     Recorded(events[..|events| - 1]));
    }
  }

  /**
   * Two rotations within one millisecond: every write resolves, and of the three rows the log should hold one
   * is gone.
   */
  lemma SameMillisecondLosesRows(row: bytes, at: int)
    requires row != []
    ensures var start, events := RowDisk([], row), WriteRows(row, [at, at]);
            var end := Run(Opened(start), Options(1, 1), events);
            && Resolved(end, 2) && |end.batches| == 2
            && |Contents(end.disk)| < |Contents(start) + Flatten(Recorded(events))|
  {
    var start, readings := Opened(RowDisk([], row)), [at, at];
    var events := WriteRows(row, readings);
    var end := Run(start, Options(1, 1), events);
    RowsRun([], readings, row, at);
    assert readings[1] == readings[0];
    StaleReadingsReplace([], readings, row);
    RunMissing(start.disk, Options(1, 1), events);
    assert end.batches[..end.settled] == end.batches;
    RunQueue(start.disk, Options(1, 1), events);
    assert Flatten(end.batches) + Flatten([]) == Flatten(end.batches);
  }

  // ---------------------------------------------------------------- without any condition

  predicate Piece(text: bytes, from: nat, to: nat, piece: bytes) { from <= to <= |text| && text[from..to] == piece }

  /** The files are pieces of the text, one after another and all before its position end. */
  ghost predicate OrderedPieces(segments: seq<Segment>, text: bytes, end: nat)
    decreases |segments|
  {
    segments == [] ||
    exists from: nat, to: nat {:trigger Piece(text, from, to, segments[|segments| - 1].text)} ::
      && Piece(text, from, to, segments[|segments| - 1].text) && to <= end
      && OrderedPieces(segments[..|segments| - 1], text, from)
  }

  /** The active file is the piece between two positions, and the renamed ones come before it. */
  ghost predicate DiskPieces(d: Disk, text: bytes, from: nat, to: nat) {
    Piece(text, from, to, ActiveText(d)) && OrderedPieces(d.segments, text, from)
  }

  /** The renamed files and then the active one are ordered pieces of the text. */
  ghost predicate InPieces(d: Disk, text: bytes) {
    exists from: nat, to: nat :: DiskPieces(d, text, from, to)
  }

  lemma PieceOfMore(text: bytes, more: bytes, from: nat, to: nat, piece: bytes)
    requires Piece(text, from, to, piece)
    ensures Piece(text + more, from, to, piece)
  {
  }

  lemma {:induction false} PiecesOfMore(segments: seq<Segment>, text: bytes, more: bytes, end: nat)
    requires OrderedPieces(segments, text, end)
    ensures OrderedPieces(segments, text + more, end)
    decreases |segments|
  {
    if segments != [] {
      var last := segments[|segments| - 1].text;
      var from: nat, to: nat :| && Piece(text, from, to, last) && to <= end
                                && OrderedPieces(segments[..|segments| - 1], text, from);
      PieceOfMore(text, more, from, to, last);
      PiecesOfMore(segments[..|segments| - 1], text, more, from);
    }
  }

  lemma PiecesLater(segments: seq<Segment>, text: bytes, end: nat, later: nat)
    requires OrderedPieces(segments, text, end) && end <= later
    ensures OrderedPieces(segments, text, later)
  {
    if segments != [] {
      var last := segments[|segments| - 1].text;
      var from: nat, to: nat :| && Piece(text, from, to, last) && to <= end
                                && OrderedPieces(segments[..|segments| - 1], text, from);
      assert Piece(text, from, to, last) && to <= later;
    }
  }

  lemma PieceAppended(segments: seq<Segment>, s: Segment, text: bytes, from: nat, to: nat)
    requires OrderedPieces(segments, text, from) && Piece(text, from, to, s.text)
    ensures OrderedPieces(segments + [s], text, to)
  {
    assert (segments + [s])[..|segments|] == segments;
    assert Piece(text, from, to, (segments + [s])[|segments|].text);
  }

  lemma {:induction false} PiecesWithout(segments: seq<Segment>, name: int, text: bytes, end: nat)
    requires OrderedPieces(segments, text, end)
    ensures OrderedPieces(Without(segments, name), text, end)
    decreases |segments|
  {
    if segments != [] {
      var front, last := segments[..|segments| - 1], segments[|segments| - 1];
      var from: nat, to: nat :| Piece(text, from, to, last.text) && to <= end && OrderedPieces(front, text, from);
      PiecesWithout(front, name, text, from);
      if last.name == name {
        PiecesLater(Without(front, name), text, from, end);
      } else {
        PieceAppended(Without(front, name), last, text, from, to);
        PiecesLater(Without(segments, name), text, to, end);
      }
    }
  }

  lemma {:induction false} PiecesOfOwnText(segments: seq<Segment>)
    ensures OrderedPieces(segments, SegmentTexts(segments), |SegmentTexts(segments)|)
  {
    if segments != [] {
      var front, last := segments[..|segments| - 1], segments[|segments| - 1];
      PiecesOfOwnText(front);
      PiecesOfMore(front, SegmentTexts(front), last.text, |SegmentTexts(front)|);
      assert segments == front + [last];
      PieceAppended(front, last, SegmentTexts(segments), |SegmentTexts(front)|, |SegmentTexts(segments)|);
    }
  }

  /**
   * The renamed files and then the active one are ordered pieces; without a failure the active one ends where
   * writing has got to.
   */
  ghost predicate PiecesAt(s: State, base: bytes, from: nat, to: nat) {
    && s.settled <= |s.batches|
    && DiskPieces(s.disk, base + Flatten(s.batches), from, to)
    && (s.failedAt.None? ==> to == |base| + |Flatten(s.batches[..s.settled])|)
  }

  lemma BatchPiece(base: bytes, batches: seq<bytes>, k: nat)
    requires k < |batches|
    ensures var at := |base| + |Flatten(batches[..k])|;
            Piece(base + Flatten(batches), at, at + |batches[k]|, batches[k])
    ensures |Flatten(batches[..k + 1])| == |Flatten(batches[..k])| + |batches[k]|
  {
    WrittenGrows(batches, k);
    FlattenCut(batches, k + 1);
    var rest := Flatten(batches)[|Flatten(batches[..k + 1])|..];
    assert base + Flatten(batches) == (base + Flatten(batches[..k])) + batches[k] + rest;
  }

  lemma PieceGrows(text: bytes, from: nat, to: nat, a: bytes, more: nat, b: bytes, part: bytes)
    requires Piece(text, from, to, a) && Piece(text, to, more, b) && part <= b
    ensures Piece(text, from, to + |part|, a + part)
  {
    assert text[from..to + |part|] == text[from..to] + text[to..more][..|part|];
  }

  lemma RotatePieces(d: Disk, name: int, text: bytes, from: nat, to: nat)
    requires d.active.Some? && Piece(text, from, to, ActiveText(d)) && OrderedPieces(d.segments, text, from)
    ensures Piece(text, to, to, ActiveText(Rotate(d, name))) && OrderedPieces(Rotate(d, name).segments, text, to)
  {
    PiecesWithout(d.segments, name, text, from);
    PieceAppended(Without(d.segments, name), Segment(name, d.active.value), text, from, to);
  }

  /** A batch adds part of its text to the active file, after renaming it or not. */
  lemma WriteBatchPieces(d: Disk, text: bytes, rotateBytes: nat, now: int, fault: Fault,
                         all: bytes, from: nat, to: nat, more: nat) returns (start: nat, end: nat)
    requires DiskPieces(d, all, from, to) && Piece(all, to, more, text)
    ensures var (e, ok) := WriteBatch(d, text, rotateBytes, now, fault);
            DiskPieces(e, all, start, end) && (ok ==> end == to + |text|)
  {
    var renames := Renames(d, rotateBytes, fault);
    var e := if renames then Rotate(d, now) else d;
    start := if renames then to else from;
    if renames { RotatePieces(d, now, all, from, to); }
    var part := if fault.StatFails? || (Rotates(d, rotateBytes) && fault.RenameFails?) || fault.OpenFails? then []
                else if fault.AppendFails? && fault.written <= |text| then text[..fault.written] else text;
    end := to + |part|;
    PieceGrows(all, start, to, ActiveText(e), more, text, part);
    assert ActiveText(e) + [] == ActiveText(e);
  }

  lemma SettleKeepsPieces(s: State, o: Options, now: int, fault: Fault, base: bytes, from: nat, to: nat)
    returns (start: nat, end: nat)
    requires PiecesAt(s, base, from, to) && s.settled < |s.batches| && s.failedAt.None?
    ensures PiecesAt(Settle(s, o, now, fault), base, start, end)
  {
    var k, all := s.settled, base + Flatten(s.batches);
    BatchPiece(base, s.batches, k);
    start, end := WriteBatchPieces(s.disk, s.batches[k], o.rotateBytes, now, fault, all, from, to, to + |s.batches[k]|);
    var t := Settle(s, o, now, fault);
    assert DiskPieces(t.disk, base + Flatten(t.batches), start, end);
  }

  lemma QueueGrows(s: State, o: Options, e: Event, base: bytes, from: nat, to: nat)
    requires PiecesAt(s, base, from, to) && !e.BatchSettles?
    ensures PiecesAt(Step(s, o, e), base, from, to)
  {
    var t := Step(s, o, e);
    assert t.batches[..s.settled] == s.batches[..s.settled];
    if t.batches != s.batches {
      var text := t.batches[|s.batches|];
      FlattenSnoc(s.batches, text);
      assert base + Flatten(t.batches) == (base + Flatten(s.batches)) + text;
      PieceOfMore(base + Flatten(s.batches), text, from, to, ActiveText(s.disk));
      PiecesOfMore(s.disk.segments, base + Flatten(s.batches), text, from);
    }
  }

  lemma StepKeepsPieces(s: State, o: Options, e: Event, base: bytes, from: nat, to: nat) returns (start: nat, end: nat)
    requires PiecesAt(s, base, from, to)
    ensures PiecesAt(Step(s, o, e), base, start, end)
  {
    start, end := from, to;
    if !e.BatchSettles? {
      QueueGrows(s, o, e, base, from, to);
    } else if s.settled < |s.batches| {
      if s.failedAt.None? {
        start, end := SettleKeepsPieces(s, o, e.now, e.fault, base, from, to);
      } else {
        assert Step(s, o, e) == s.(settled := s.settled + 1);
      }
    }
  }

  lemma {:induction false} RunKeepsPieces(disk: Disk, o: Options, events: seq<Event>) returns (from: nat, to: nat)
    ensures PiecesAt(Run(Opened(disk), o, events), Contents(disk), from, to)
  {
    if events == [] {
      from, to := |SegmentTexts(disk.segments)|, |Contents(disk)|;
      PiecesOfOwnText(disk.segments);
      PiecesOfMore(disk.segments, SegmentTexts(disk.segments), ActiveText(disk), from);
      assert Contents(disk) + Flatten([]) == Contents(disk);
    } else {
      from, to := RunKeepsPieces(disk, o, events[..|events| - 1]);
      from, to := StepKeepsPieces(Run(Opened(disk), o, events[..|events| - 1]), o, events[|events| - 1], Contents(disk),
                                  from, to);
    }
  }

  /**
   * In every schedule, with every failure and whatever names rotations take, each file is a piece of what was on
   * disk and recorded since, and the pieces come in order without overlap: only whole files can be missing.
   */
  lemma FilesAreOrderedPieces(disk: Disk, o: Options, events: seq<Event>)
    ensures InPieces(Run(Opened(disk), o, events).disk, Contents(disk) + Flatten(Recorded(events)))
  {
    var s := Run(Opened(disk), o, events);
    var from, to := RunKeepsPieces(disk, o, events);
    RunQueue(disk, o, events);
    var written, waiting := Contents(disk) + Flatten(s.batches), Flatten(s.pending);
    PieceOfMore(written, waiting, from, to, ActiveText(s.disk));
    PiecesOfMore(s.disk.segments, written, waiting, from);
    var text := Contents(disk) + Flatten(Recorded(events));
    assert text == written + waiting;
    assert DiskPieces(s.disk, text, from, to);
  }
}
