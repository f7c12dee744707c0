/** The append-only decision log's write queue: buffered rows, a chain of batches, rotated files. */
module DecisionLedger {
  import opened Bytes
  import opened Codec

  // ---------------------------------------------------------------- the files

  datatype Segment = Segment(name: int, text: bytes)

  /** The active file, if it exists, and the files it was renamed to, in the order of renaming. */
  datatype Disk = Disk(active: Option<bytes>, segments: seq<Segment>)

  function SegmentTexts(segments: seq<Segment>): bytes {
    if segments == [] then [] else SegmentTexts(segments[..|segments| - 1]) + segments[|segments| - 1].text
  }

  function ActiveText(d: Disk): bytes { if d.active.Some? then d.active.value else [] }

  /** Everything the log holds, oldest file first. */
  function Contents(d: Disk): bytes { SegmentTexts(d.segments) + ActiveText(d) }

  function Without(segments: seq<Segment>, name: int): seq<Segment> {
    if segments == [] then []
    else
      var front := Without(segments[..|segments| - 1], name);
      if segments[|segments| - 1].name == name then front else front + [segments[|segments| - 1]]
  }

  /** rename: the active file takes the name, replacing a file that already has it. */
  function Rotate(d: Disk, name: int): Disk
    requires d.active.Some?
  {
    Disk(None, Without(d.segments, name) + [Segment(name, d.active.value)])
  }

  predicate NoTextUnder(segments: seq<Segment>, name: int) {
    forall i :: 0 <= i < |segments| && segments[i].name == name ==> segments[i].text == []
  }

  /** Which file operation of a batch fails; a failed append may leave part of the text behind. */
  datatype Fault = NoFault | StatFails | RenameFails | OpenFails | AppendFails(written: nat) | SyncFails

  predicate Rotates(d: Disk, rotateBytes: nat) { d.active.Some? && |d.active.value| >= rotateBytes }

  /** The batch gets as far as renaming the active file. */
  predicate Renames(d: Disk, rotateBytes: nat, fault: Fault) {
    Rotates(d, rotateBytes) && !fault.StatFails? && !fault.RenameFails?
  }

  /** One batch: rotate a full file, open, append, sync. */
  function WriteBatch(d: Disk, text: bytes, rotateBytes: nat, now: int, fault: Fault): (Disk, bool) {
    if fault.StatFails? || (Rotates(d, rotateBytes) && fault.RenameFails?) then (d, false)
    else
      var e := if Rotates(d, rotateBytes) then Rotate(d, now) else d;
      if fault.OpenFails? then (e, false)
      else if fault.AppendFails? && fault.written <= |text| then
        (e.(active := Some(ActiveText(e) + text[..fault.written])), false)
      else (e.(active := Some(ActiveText(e) + text)), !fault.SyncFails? && !fault.AppendFails?)
  }

  lemma SegmentTextsAppended(segments: seq<Segment>, s: Segment)
    ensures SegmentTexts(segments + [s]) == SegmentTexts(segments) + s.text
  {
    assert (segments + [s])[..|segments|] == segments;
  }

  lemma {:induction false} WithoutLoses(segments: seq<Segment>, name: int)
    ensures |SegmentTexts(Without(segments, name))| <= |SegmentTexts(segments)|
    ensures |SegmentTexts(Without(segments, name))| == |SegmentTexts(segments)|
       <==> NoTextUnder(segments, name)
  {
    if segments != [] {
      var front, last := segments[..|segments| - 1], segments[|segments| - 1];
      WithoutLoses(front, name);
      assert forall i :: 0 <= i < |front| ==> segments[i] == front[i];
      if last.name != name {
        SegmentTextsAppended(Without(front, name), last);
      }
    }
  }

  lemma {:induction false} WithoutEmpties(segments: seq<Segment>, name: int)
    requires NoTextUnder(segments, name)
    ensures SegmentTexts(Without(segments, name)) == SegmentTexts(segments)
  {
    if segments != [] {
      var front, last := segments[..|segments| - 1], segments[|segments| - 1];
      WithoutEmpties(front, name);
      if last.name != name {
        SegmentTextsAppended(Without(front, name), last);
      }
    }
  }

  /** Rotation keeps the log's text exactly when no file with text already has the new name. */
  lemma RotateKeepsText(d: Disk, name: int)
    requires d.active.Some?
    ensures Contents(Rotate(d, name)) == Contents(d)
       <==> NoTextUnder(d.segments, name)
    ensures !NoTextUnder(d.segments, name) ==> |Contents(Rotate(d, name))| < |Contents(d)|
  {
    SegmentTextsAppended(Without(d.segments, name), Segment(name, d.active.value));
    WithoutLoses(d.segments, name);
    if NoTextUnder(d.segments, name) {
      WithoutEmpties(d.segments, name);
    }
  }

  /** A batch succeeds exactly when nothing goes wrong that it gets to: a rename fails only where one is due. */
  lemma BatchReports(d: Disk, text: bytes, rotateBytes: nat, now: int, fault: Fault)
    ensures WriteBatch(d, text, rotateBytes, now, fault).1
       <==> fault == NoFault || (fault == RenameFails && !(d.active.Some? && |d.active.value| >= rotateBytes))
  {
  }

  /** A batch that succeeds appends to the active file, or to a new one when the active file had reached its limit. */
  lemma RotatesAtLimit(d: Disk, text: bytes, rotateBytes: nat, now: int, fault: Fault)
    requires WriteBatch(d, text, rotateBytes, now, fault).1
    ensures var e := WriteBatch(d, text, rotateBytes, now, fault).0;
            if d.active.Some? && |d.active.value| >= rotateBytes
            then && e.active == Some(text) && e.segments != []
                 && e.segments[|e.segments| - 1] == Segment(now, d.active.value)
            else e.active == Some(ActiveText(d) + text) && e.segments == d.segments
    ensures var e := WriteBatch(d, text, rotateBytes, now, fault).0;
            && e.active.Some? && |text| <= |e.active.value|
            && |e.active.value| < (if rotateBytes < 1 then 1 else rotateBytes) + |text|
  {
    assert [] + text == text;
  }

  // ---------------------------------------------------------------- the queue

  /**
   * pending, scheduled and the writer chain: the batches handed to it so far, how many have settled, and the
   * first that failed. A microtask is queued for every flush that was scheduled.
   */
  datatype State = State(
    pending: seq<bytes>, scheduled: bool, microtasks: nat,
    batches: seq<bytes>, settled: nat, failedAt: Option<nat>, disk: Disk)

  datatype Options = Options(maxBufferedRows: nat, rotateBytes: nat)

  datatype Event =
    | Records(row: bytes)
    | Flushes
    | MicrotaskRuns
    | BatchSettles(now: int, fault: Fault)

  /** What an awaited flush waits for: the batch queued last, counted from one; none for zero. */
  type Ticket = nat

  function Flush(s: State): State {
    if s.pending == [] then s.(scheduled := false)
    else s.(pending := [], scheduled := false, batches := s.batches + [Flatten(s.pending)])
  }

  function Record(s: State, row: bytes, o: Options): State {
    var t := s.(pending := s.pending + [row]);
    if |t.pending| >= o.maxBufferedRows then Flush(t)
    else if t.scheduled then t
    else t.(scheduled := true, microtasks := t.microtasks + 1)
  }

  /** The next link of the chain: a batch after a failed one is skipped and fails too. */
  function Settle(s: State, o: Options, now: int, fault: Fault): State
    requires s.settled < |s.batches|
  {
    if s.failedAt.Some? then s.(settled := s.settled + 1)
    else
      var (disk, ok) := WriteBatch(s.disk, s.batches[s.settled], o.rotateBytes, now, fault);
      s.(settled := s.settled + 1, disk := disk, failedAt := if ok then None else Some(s.settled))
  }

  function Step(s: State, o: Options, e: Event): State {
    match e
    case Records(row) => Record(s, row, o)
    case Flushes => Flush(s)
    case MicrotaskRuns => if s.microtasks > 0 then Flush(s.(microtasks := s.microtasks - 1)) else s
    case BatchSettles(now, fault) => if s.settled < |s.batches| then Settle(s, o, now, fault) else s
  }

  function Run(s: State, o: Options, events: seq<Event>): State {
    if events == [] then s else Step(Run(s, o, events[..|events| - 1]), o, events[|events| - 1])
  }

  function Opened(disk: Disk): State { State([], false, 0, [], 0, None, disk) }

  predicate Resolved(s: State, t: Ticket) { t <= s.settled && (s.failedAt.Some? ==> t <= s.failedAt.value) }

  predicate Rejected(s: State, t: Ticket) { t <= s.settled && s.failedAt.Some? && s.failedAt.value < t }

  /** The ledger as it runs. */
  class FileDecisionLedger {
    const options: Options
    var pending: seq<bytes>
    var scheduled: bool
    var microtasks: nat
    var batches: seq<bytes>
    var settled: nat
    var failedAt: Option<nat>
    var disk: Disk

    constructor (options: Options, disk: Disk)
      ensures View() == Opened(disk) && this.options == options
    {
      this.options := options;
      pending, scheduled, microtasks, batches, settled, failedAt := [], false, 0, [], 0, None;
      this.disk := disk;
    }

    function View(): State
      reads this
    {
      State(pending, scheduled, microtasks, batches, settled, failedAt, disk)
    }

    method FlushPending() returns (ticket: Ticket)
      modifies this
      ensures View() == Step(old(View()), options, Flushes)
      ensures ticket == |batches|
    {
      var lines := pending;
      pending := [];
      scheduled := false;
      if |lines| == 0 { return |batches|; }
      var text := ConcatBytes(lines);
      batches := batches + [text];
      return |batches|;
    }

    method ScheduleFlush()
      modifies this`scheduled, this`microtasks
      ensures scheduled
      ensures microtasks == if old(scheduled) then old(microtasks) else old(microtasks) + 1
    {
      if scheduled { return; }
      scheduled := true;
      microtasks := microtasks + 1;
    }

    method RecordRow(row: bytes)
      modifies this
      ensures View() == Step(old(View()), options, Records(row))
    {
      pending := pending + [row];
      if |pending| >= options.maxBufferedRows {
        var _ := FlushPending();
      } else {
        ScheduleFlush();
      }
    }

    method RunMicrotask()
      requires microtasks > 0
      modifies this
      ensures View() == Step(old(View()), options, MicrotaskRuns)
    {
      microtasks := microtasks - 1;
      var _ := FlushPending();
    }

    method RunBatch(now: int, fault: Fault)
      requires settled < |batches|
      modifies this
      ensures View() == Step(old(View()), options, BatchSettles(now, fault))
    {
      var k := settled;
      settled := settled + 1;
      if failedAt.Some? { return; }
      failedAt := Some(k);
      if fault.StatFails? { return; }
      if disk.active.Some? && |disk.active.value| >= options.rotateBytes {
        if fault.RenameFails? { return; }
        disk := Rotate(disk, now);
      }
      if fault.OpenFails? { return; }
      var text := ActiveText(disk);
      if fault.AppendFails? && fault.written <= |batches[k]| {
        disk := disk.(active := Some(text + batches[k][..fault.written]));
        return;
      }
      disk := disk.(active := Some(text + batches[k]));
      if fault.SyncFails? || fault.AppendFails? { return; }
      failedAt := None;
    }
  }

  // ---------------------------------------------------------------- what every schedule keeps

  function Recorded(events: seq<Event>): seq<bytes> {
    if events == [] then []
    else
      var front, e := Recorded(events[..|events| - 1]), events[|events| - 1];
      if e.Records? then front + [e.row] else front
  }

  /** If this step renames the active file, no file with text has the name it takes. */
  predicate RenameReplacesNothing(s: State, o: Options, e: Event) {
    e.BatchSettles? && s.settled < |s.batches| && s.failedAt.None? && Renames(s.disk, o.rotateBytes, e.fault) ==>
      NoTextUnder(s.disk.segments, e.now)
  }

  ghost predicate RenamesReplaceNothing(s: State, o: Options, events: seq<Event>) {
    forall i :: 0 <= i < |events| ==> RenameReplacesNothing(Run(s, o, events[..i]), o, events[i])
  }

  /** How many batches have been written whole. */
  function Written(s: State): nat { if s.failedAt.Some? then s.failedAt.value else s.settled }

  /** Batches and pending rows are what was recorded, in order; and a pending row has its flush on the way. */
  ghost predicate QueueKept(s: State, rows: seq<bytes>) {
    && Flatten(s.batches) + Flatten(s.pending) == Flatten(rows)
    && (s.pending != [] ==> s.scheduled) && (s.scheduled ==> s.microtasks > 0)
  }

  /** The files hold the batches written whole; after a failure, perhaps a beginning of the failed one. */
  ghost predicate DiskKept(s: State, base: bytes) {
    && s.settled <= |s.batches|
    && (s.failedAt.Some? ==> s.failedAt.value < s.settled)
    && (s.failedAt.None? ==> Contents(s.disk) == base + Flatten(s.batches[..s.settled]))
    && (s.failedAt.Some? ==>
          exists part :: part <= s.batches[s.failedAt.value]
                      && Contents(s.disk) == base + Flatten(s.batches[..s.failedAt.value]) + part)
  }

  lemma FlushKeepsQueue(s: State, rows: seq<bytes>)
    requires Flatten(s.batches) + Flatten(s.pending) == Flatten(rows) && (s.scheduled ==> s.microtasks > 0)
    ensures QueueKept(Flush(s), rows) && Flatten(Flush(s).batches) == Flatten(rows)
  {
    FlattenSnoc(s.batches, Flatten(s.pending));
  }

  lemma StepKeepsQueue(s: State, o: Options, e: Event, rows: seq<bytes>)
    requires QueueKept(s, rows)
    ensures QueueKept(Step(s, o, e), if e.Records? then rows + [e.row] else rows)
  {
    match e
    case Records(row) =>
      FlattenSnoc(s.pending, row);
      FlattenSnoc(rows, row);
      assert Flatten(s.batches) + (Flatten(s.pending) + row) == (Flatten(s.batches) + Flatten(s.pending)) + row;
      if |s.pending| + 1 >= o.maxBufferedRows {
        FlushKeepsQueue(s.(pending := s.pending + [row]), rows + [row]);
      }
    case Flushes => FlushKeepsQueue(s, rows);
    case MicrotaskRuns =>
      if s.microtasks > 0 {
        assert Flush(s.(microtasks := s.microtasks - 1)).pending == [];
        FlattenSnoc(s.batches, Flatten(s.pending));
      }
    case BatchSettles(now, fault) =>
  }

  lemma ActiveGrows(d: Disk, part: bytes)
    ensures Contents(d.(active := Some(ActiveText(d) + part))) == Contents(d) + part
    ensures part == [] ==> Contents(d) == Contents(d) + part
  {
  }

  /** A batch adds its text at the end, a beginning of it, or nothing; a rename that replaces no text loses nothing. */
  lemma WriteBatchAppends(d: Disk, text: bytes, rotateBytes: nat, now: int, fault: Fault) returns (part: bytes)
    requires Renames(d, rotateBytes, fault) ==> NoTextUnder(d.segments, now)
    ensures part <= text
    ensures var (e, ok) := WriteBatch(d, text, rotateBytes, now, fault);
            Contents(e) == Contents(d) + part && (ok ==> part == text)
  {
    if Renames(d, rotateBytes, fault) { RotateKeepsText(d, now); }
    var e := if Renames(d, rotateBytes, fault) then Rotate(d, now) else d;
    part := if fault.StatFails? || (Rotates(d, rotateBytes) && fault.RenameFails?) || fault.OpenFails? then []
            else if fault.AppendFails? && fault.written <= |text| then text[..fault.written] else text;
    ActiveGrows(e, part);
  }

  lemma WrittenGrows(batches: seq<bytes>, k: nat)
    requires k < |batches|
    ensures Flatten(batches[..k + 1]) == Flatten(batches[..k]) + batches[k]
  {
    FlattenSnoc(batches[..k], batches[k]);
    assert batches[..k + 1] == batches[..k] + [batches[k]];
  }

  /** After a batch that appended a part of its text, all of it when it succeeded. */
  lemma KeptAfterBatch(s: State, t: State, base: bytes, part: bytes)
    requires s.failedAt.None? && s.settled < |s.batches| && t.batches == s.batches && t.settled == s.settled + 1
    requires t.failedAt in {None, Some(s.settled)} && part <= s.batches[s.settled]
    requires t.failedAt.None? ==> part == s.batches[s.settled]
    requires Contents(t.disk) == base + Flatten(s.batches[..s.settled]) + part
    ensures DiskKept(t, base)
  {
    WrittenGrows(s.batches, s.settled);
    assert base + Flatten(s.batches[..s.settled]) + part == base + (Flatten(s.batches[..s.settled]) + part);
  }

  lemma SettleKeepsDisk(s: State, o: Options, now: int, fault: Fault, base: bytes)
    requires DiskKept(s, base) && s.settled < |s.batches| && RenameReplacesNothing(s, o, BatchSettles(now, fault))
    ensures DiskKept(Settle(s, o, now, fault), base)
  {
    if s.failedAt.None? {
      var part := WriteBatchAppends(s.disk, s.batches[s.settled], o.rotateBytes, now, fault);
      KeptAfterBatch(s, Settle(s, o, now, fault), base, part);
    }
  }

  lemma StepKeepsDisk(s: State, o: Options, e: Event, base: bytes)
    requires DiskKept(s, base) && RenameReplacesNothing(s, o, e)
    ensures DiskKept(Step(s, o, e), base)
  {
    if e.BatchSettles? {
      if s.settled < |s.batches| { SettleKeepsDisk(s, o, e.now, e.fault, base); }
    } else {
      var t := Step(s, o, e);
      assert t.batches[..s.settled] == s.batches[..s.settled];
      if s.failedAt.Some? {
        assert t.batches[..s.failedAt.value] == s.batches[..s.failedAt.value];
        assert t.batches[s.failedAt.value] == s.batches[s.failedAt.value];
      }
    }
  }

  /** In every schedule of records, flushes, background flushes, writes and failures. */
  lemma {:induction false} RunKeeps(disk: Disk, o: Options, events: seq<Event>)
    requires RenamesReplaceNothing(Opened(disk), o, events)
    ensures QueueKept(Run(Opened(disk), o, events), Recorded(events))
    ensures DiskKept(Run(Opened(disk), o, events), Contents(disk))
  {
    if events == [] {
      assert Contents(disk) == Contents(disk) + Flatten([]);
    } else {
      var front := events[..|events| - 1];
      forall i | 0 <= i < |front| ensures RenameReplacesNothing(Run(Opened(disk), o, front[..i]), o, front[i]) {
        assert front[..i] == events[..i];
      }
      RunKeeps(disk, o, front);
      StepKeepsQueue(Run(Opened(disk), o, front), o, events[|events| - 1], Recorded(front));
      StepKeepsDisk(Run(Opened(disk), o, front), o, events[|events| - 1], Contents(disk));
    }
  }

  lemma {:induction false} FlattenCut(parts: seq<bytes>, i: nat)
    requires i <= |parts|
    ensures Flatten(parts[..i]) <= Flatten(parts)
    decreases |parts| - i
  {
    if i < |parts| {
      FlattenSnoc(parts[..i], parts[i]);
      assert parts[..i + 1] == parts[..i] + [parts[i]];
      FlattenCut(parts, i + 1);
    } else {
      assert parts[..i] == parts;
    }
  }

  lemma DiskWithinBatches(s: State, base: bytes)
    requires DiskKept(s, base)
    ensures Contents(s.disk) <= base + Flatten(s.batches)
  {
    if s.failedAt.None? {
      FlattenCut(s.batches, s.settled);
    } else {
      var k := s.failedAt.value;
      var part :| part <= s.batches[k] && Contents(s.disk) == base + Flatten(s.batches[..k]) + part;
      FlattenCut(s.batches, k + 1);
      FlattenSnoc(s.batches[..k], s.batches[k]);
      assert s.batches[..k + 1] == s.batches[..k] + [s.batches[k]];
      assert Contents(s.disk) == base + (Flatten(s.batches[..k]) + part);
    }
  }

  /**
   * A row is handed over at once exactly when it fills the buffer; until then it waits, with one flush on its way for
   * all that wait.
   */
  lemma FlushesAtLimit(s: State, o: Options, row: bytes)
    ensures var t := Step(s, o, Records(row));
            if |s.pending| + 1 >= o.maxBufferedRows
            then && t.pending == [] && t.batches == s.batches + [Flatten(s.pending + [row])]
                 && !t.scheduled && t.microtasks == s.microtasks
            else && t.pending == s.pending + [row] && t.batches == s.batches
                 && t.scheduled && t.microtasks == s.microtasks + (if s.scheduled then 0 else 1)
  {
  }

  /** A flush, called or queued, hands over everything that waits as one batch, and no batch when nothing waits. */
  lemma FlushHandsOver(s: State, o: Options, e: Event)
    requires e.Flushes? || (e.MicrotaskRuns? && s.microtasks > 0)
    ensures var t := Step(s, o, e);
            && t.pending == [] && !t.scheduled
            && t.batches == s.batches + (if s.pending == [] then [] else [Flatten(s.pending)])
            && t.microtasks == s.microtasks - (if e.MicrotaskRuns? then 1 else 0)
            && t.disk == s.disk && t.settled == s.settled && t.failedAt == s.failedAt
  {
  }

  /** So the buffer never holds as many rows as its limit. */
  lemma {:induction false} PendingBounded(disk: Disk, o: Options, events: seq<Event>)
    ensures |Run(Opened(disk), o, events).pending| < (if o.maxBufferedRows < 1 then 1 else o.maxBufferedRows)
  {
    if events != [] {
      var front, e := events[..|events| - 1], events[|events| - 1];
      PendingBounded(disk, o, front);
      if e.Records? { FlushesAtLimit(Run(Opened(disk), o, front), o, e.row); }
    }
  }

  /** Whatever fails, the files hold a beginning of what was recorded: nothing twice, skipped or out of order. */
  lemma DiskIsPrefix(disk: Disk, o: Options, events: seq<Event>)
    requires RenamesReplaceNothing(Opened(disk), o, events)
    ensures Contents(Run(Opened(disk), o, events).disk) <= Contents(disk) + Flatten(Recorded(events))
  {
    var s := Run(Opened(disk), o, events);
    RunKeeps(disk, o, events);
    DiskWithinBatches(s, Contents(disk));
    assert Flatten(s.batches) <= Flatten(Recorded(events));
  }

  // ---------------------------------------------------------------- what a flush promises

  /** Later steps only add batches, settle more of them and keep the first failure. */
  ghost predicate Later(s: State, t: State) {
    && s.batches <= t.batches && s.settled <= t.settled
    && (s.failedAt.Some? ==> t.failedAt == s.failedAt)
    && (s.failedAt.None? && t.failedAt.Some? ==> s.settled <= t.failedAt.value)
  }

  lemma {:induction false} RunIsLater(s: State, o: Options, events: seq<Event>)
    ensures Later(s, Run(s, o, events))
  {
    if events != [] {
      RunIsLater(s, o, events[..|events| - 1]);
    }
  }

  lemma {:induction false} RunJoin(s: State, o: Options, first: seq<Event>, second: seq<Event>)
    ensures Run(s, o, first + second) == Run(Run(s, o, first), o, second)
  {
    if second == [] {
      assert first + second == first;
    } else {
      RunJoin(s, o, first, second[..|second| - 1]);
      assert (first + second)[..|first + second| - 1] == first + second[..|second| - 1];
    }
  }

  lemma RenamesPrefix(s: State, o: Options, events: seq<Event>, k: nat)
    requires RenamesReplaceNothing(s, o, events) && k <= |events|
    ensures RenamesReplaceNothing(s, o, events[..k])
  {
    forall i | 0 <= i < k ensures RenameReplacesNothing(Run(s, o, events[..k][..i]), o, events[..k][i]) {
      assert events[..k][..i] == events[..i];
    }
  }

  lemma WrittenIsOnDisk(s: State, base: bytes, t: Ticket)
    requires DiskKept(s, base) && Resolved(s, t)
    ensures t <= |s.batches| && base + Flatten(s.batches[..t]) <= Contents(s.disk)
  {
    FlattenCut(s.batches[..Written(s)], t);
    assert s.batches[..Written(s)][..t] == s.batches[..t];
  }

  /**
   * When a flush called after some events resolves at any later point, the files begin with everything recorded
   * before that call, once and in order.
   */
  lemma ResolvedFlushIsDurable(disk: Disk, o: Options, before: seq<Event>, after: seq<Event>)
    requires RenamesReplaceNothing(Opened(disk), o, before + [Flushes] + after)
    requires var called := Run(Opened(disk), o, before + [Flushes]);
             Resolved(Run(called, o, after), |called.batches|)
    ensures Contents(disk) + Flatten(Recorded(before))
         <= Contents(Run(Run(Opened(disk), o, before + [Flushes]), o, after).disk)
  {
    var upTo, whole := before + [Flushes], before + [Flushes] + after;
    var called := Run(Opened(disk), o, upTo);
    var end := Run(called, o, after);
    assert whole[..|upTo|] == upTo && upTo[..|before|] == before;
    RenamesPrefix(Opened(disk), o, whole, |upTo|);
    RenamesPrefix(Opened(disk), o, upTo, |before|);
    RunKeeps(disk, o, before);
    FlushKeepsQueue(Run(Opened(disk), o, before), Recorded(before));
    RunJoin(Opened(disk), o, upTo, after);
    RunKeeps(disk, o, whole);
    RunIsLater(called, o, after);
    WrittenIsOnDisk(end, Contents(disk), |called.batches|);
    assert end.batches[..|called.batches|] == called.batches;
  }

  ghost predicate InRange(s: State) {
    s.settled <= |s.batches| && (s.failedAt.Some? ==> s.failedAt.value < s.settled)
  }

  lemma {:induction false} RunInRange(s: State, o: Options, events: seq<Event>)
    requires InRange(s)
    ensures InRange(Run(s, o, events))
  {
    if events != [] {
      RunInRange(s, o, events[..|events| - 1]);
    }
  }

  /**
   * A flush that waits for a batch settles when that batch does, and then in one way: rejected if a batch up to it
   * failed.
   */
  lemma SettlesOneWay(s: State, t: Ticket)
    ensures Resolved(s, t) || Rejected(s, t) <==> t <= s.settled
    ensures Rejected(s, t) <==> t <= s.settled && !Resolved(s, t)
    ensures Rejected(s, t) ==> s.failedAt.Some? && s.failedAt.value < t
  {
  }

  /** Once a write has failed, no flush called later ever resolves; when its batch settles, it rejects. */
  lemma FailureIsFinal(disk: Disk, o: Options, before: seq<Event>, between: seq<Event>, after: seq<Event>)
    requires Run(Opened(disk), o, before).failedAt.Some?
    ensures var called := Run(Run(Opened(disk), o, before), o, between + [Flushes]);
            var (end, ticket) := (Run(called, o, after), |called.batches|);
            !Resolved(end, ticket) && (end.settled >= ticket ==> Rejected(end, ticket))
  {
    var s := Run(Opened(disk), o, before);
    RunInRange(Opened(disk), o, before);
    RunIsLater(s, o, between + [Flushes]);
    RunIsLater(Run(s, o, between + [Flushes]), o, after);
  }

  // ---------------------------------------------------------------- renames and what they cost

  lemma WriteBatchLength(d: Disk, text: bytes, rotateBytes: nat, now: int, fault: Fault)
    requires WriteBatch(d, text, rotateBytes, now, fault).1
    ensures var e := WriteBatch(d, text, rotateBytes, now, fault).0;
            && |Contents(e)| <= |Contents(d)| + |text|
            && (Renames(d, rotateBytes, fault) && !NoTextUnder(d.segments, now) ==>
                |Contents(e)| < |Contents(d)| + |text|)
  {
    if Rotates(d, rotateBytes) { RotateKeepsText(d, now); }
  }

  /** How much of the text written is missing from the files. */
  function Missing(s: State, base: nat): int
    requires s.settled <= |s.batches|
  {
    base + |Flatten(s.batches[..s.settled])| - |Contents(s.disk)|
  }

  lemma StepMissing(s: State, o: Options, e: Event, base: nat)
    requires s.settled <= |s.batches| && s.failedAt.None? && Step(s, o, e).failedAt.None?
    ensures var t := Step(s, o, e);
            && t.settled <= |t.batches| && Missing(t, base) >= Missing(s, base)
            && (!RenameReplacesNothing(s, o, e) ==> Missing(t, base) > Missing(s, base))
  {
    if e.BatchSettles? && s.settled < |s.batches| {
      WriteBatchLength(s.disk, s.batches[s.settled], o.rotateBytes, e.now, e.fault);
      WrittenGrows(s.batches, s.settled);
    } else {
      assert Step(s, o, e).batches[..s.settled] == s.batches[..s.settled];
    }
  }

  lemma RenamesUpTo(s: State, o: Options, events: seq<Event>)
    requires events != []
    ensures var front, e := events[..|events| - 1], events[|events| - 1];
            RenamesReplaceNothing(s, o, events)
            <==> RenamesReplaceNothing(s, o, front) && RenameReplacesNothing(Run(s, o, front), o, e)
  {
    var front := events[..|events| - 1];
    if RenamesReplaceNothing(s, o, events) {
      RenamesPrefix(s, o, events, |front|);
      assert RenameReplacesNothing(Run(s, o, events[..|front|]), o, events[|front|]);
    }
    if RenamesReplaceNothing(s, o, front) && RenameReplacesNothing(Run(s, o, front), o, events[|front|]) {
      forall i | 0 <= i < |events| ensures RenameReplacesNothing(Run(s, o, events[..i]), o, events[i]) {
        if i == |front| {
          assert events[..i] == front;
        } else {
          assert RenameReplacesNothing(Run(s, o, front[..i]), o, front[i]);
          assert front[..i] == events[..i];
        }
      }
    }
  }

  /** Replaced text never comes back: after it the files hold less than was written. */
  lemma {:induction false} RunMissing(disk: Disk, o: Options, events: seq<Event>)
    requires Run(Opened(disk), o, events).failedAt.None?
    ensures var s, base := Run(Opened(disk), o, events), |Contents(disk)|;
            && s.settled <= |s.batches| && Missing(s, base) >= 0
            && (!RenamesReplaceNothing(Opened(disk), o, events) ==> Missing(s, base) > 0)
  {
    if events != [] {
      RunMissing(disk, o, events[..|events| - 1]);
      RenamesUpTo(Opened(disk), o, events);
      StepMissing(Run(Opened(disk), o, events[..|events| - 1]), o, events[|events| - 1], |Contents(disk)|);
    }
  }

  /** While no write has failed, the files hold exactly what was written if and only if no rename replaced text. */
  lemma LosslessExactly(disk: Disk, o: Options, events: seq<Event>)
    requires Run(Opened(disk), o, events).failedAt.None?
    ensures var s := Run(Opened(disk), o, events);
            && s.settled <= |s.batches|
            && (Contents(s.disk) == Contents(disk) + Flatten(s.batches[..s.settled])
                <==> RenamesReplaceNothing(Opened(disk), o, events))
  {
    RunMissing(disk, o, events);
    if RenamesReplaceNothing(Opened(disk), o, events) {
      RunKeeps(disk, o, events);
    }
  }
}
