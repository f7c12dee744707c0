/**
 * The payment hook and its decision log as one system. An approved payment records its row and awaits a flush
 * before it signs, so a signed payment's row is in the files; after a failed write nothing more is signed.
 */
module SigningLog {
  import opened Bytes
  import opened Codec
  import Budget
  import DecisionLedger
  import DecisionRotation

  /** The row an approved payment recorded, and how many events of the log came before it. */
  datatype Decision = Decision(row: bytes, at: nat)

  /** The budget with its hooks, everything the log has gone through, and the decisions of the approved hooks. */
  datatype State = State(budget: Budget.State, log: seq<DecisionLedger.Event>, decisions: map<nat, Decision>)

  /** A tick of a hook, or anything else that happens to the log: other rows, background flushes, writes. */
  datatype Event =
    | Begins(now: int, wrapper: Budget.Wrapper, micro: nat, quote: Budget.Quote)
    | ApprovalReturns(now: int, id: nat, approved: bool, aborted: bool, row: bytes)
    | FlushReturns(now: int, id: nat, aborted: bool, ledgerWrites: bool)
    | LogMoves(e: DecisionLedger.Event)

  /** The log's file state and options at the start of the process. */
  datatype Setup = Setup(disk: DecisionLedger.Disk, options: DecisionLedger.Options)

  function LogState(u: Setup, log: seq<DecisionLedger.Event>): DecisionLedger.State {
    DecisionLedger.Run(DecisionLedger.Opened(u.disk), u.options, log)
  }

  /** What the flush of a decision waits for. */
  function TicketOf(u: Setup, log: seq<DecisionLedger.Event>, d: Decision): DecisionLedger.Ticket
    requires d.at + 2 <= |log|
  {
    |LogState(u, log[..d.at + 2]).batches|
  }

  /** The hook's flush has resolved or been rejected. */
  predicate Returned(u: Setup, s: State, id: nat) {
    id in s.decisions && s.decisions[id].at + 2 <= |s.log| &&
    var t := TicketOf(u, s.log, s.decisions[id]);
    DecisionLedger.Resolved(LogState(u, s.log), t) || DecisionLedger.Rejected(LogState(u, s.log), t)
  }

  predicate Durable(u: Setup, s: State, id: nat) {
    id in s.decisions && s.decisions[id].at + 2 <= |s.log| &&
    DecisionLedger.Resolved(LogState(u, s.log), TicketOf(u, s.log, s.decisions[id]))
  }

  /** The budget's part of an event, if any. */
  function BudgetPart(u: Setup, s: State, e: Event): Option<Budget.Event> {
    match e
    case Begins(now, w, micro, quote) => Some(Budget.Event.Begins(now, w, micro, quote))
    case ApprovalReturns(now, id, approved, aborted, _) => Some(Budget.Event.ApprovalReturns(now, id, approved, aborted))
    case FlushReturns(now, id, aborted, ledgerWrites) =>
      if Returned(u, s, id) then Some(Budget.LogReturns(now, id, Durable(u, s, id), aborted, ledgerWrites)) else None
    case LogMoves(_) => None
  }

  /** The approval lets the payment go on to record its decision. */
  predicate Approves(s: State, e: Event) {
    e.ApprovalReturns? && Budget.Waiting(s.budget, e.id, Budget.AwaitingApproval) && e.approved && !e.aborted
  }

  function Step(u: Setup, s: State, e: Event): State {
    var part := BudgetPart(u, s, e);
    var t := if part.Some? then s.(budget := Budget.Step(s.budget, part.value)) else s;
    if Approves(s, e) then
      t.(log := s.log + [DecisionLedger.Records(e.row), DecisionLedger.Flushes],
         decisions := s.decisions[e.id := Decision(e.row, |s.log|)])
    else if e.LogMoves? then t.(log := s.log + [e.e])
    else t
  }

  function Started(replayed: seq<Budget.Entry>): State { State(Budget.Started(replayed), [], map[]) }

  function Run(u: Setup, s: State, events: seq<Event>): State {
    if events == [] then s else Step(u, Run(u, s, events[..|events| - 1]), events[|events| - 1])
  }

  // ---------------------------------------------------------------- the budget is the one of Budget

  function BudgetEvents(u: Setup, s: State, events: seq<Event>): seq<Budget.Event> {
    if events == [] then []
    else
      var front, e := events[..|events| - 1], events[|events| - 1];
      var part := BudgetPart(u, Run(u, s, front), e);
      BudgetEvents(u, s, front) + (if part.Some? then [part.value] else [])
  }

  /** With `durable` decided by the log, the budget runs as in Budget, so all that is proved there holds here. */
  lemma {:induction false} BudgetRefines(u: Setup, replayed: seq<Budget.Entry>, events: seq<Event>)
    ensures Run(u, Started(replayed), events).budget
         == Budget.Run(Budget.Started(replayed), BudgetEvents(u, Started(replayed), events))
  {
    if events != [] {
      var front, e := events[..|events| - 1], events[|events| - 1];
      BudgetRefines(u, replayed, front);
      var part, sofar := BudgetPart(u, Run(u, Started(replayed), front), e), BudgetEvents(u, Started(replayed), front);
      if part.Some? {
        assert (sofar + [part.value])[..|sofar|] == sofar;
      } else {
        assert sofar + [] == sofar;
      }
    }
  }

  // ---------------------------------------------------------------- a signed payment's row is durable

  /** The decision's row and flush stand in the log where it says. */
  predicate Logged(log: seq<DecisionLedger.Event>, d: Decision) {
    && d.at + 2 <= |log| && log[d.at] == DecisionLedger.Records(d.row) && log[d.at + 1] == DecisionLedger.Flushes
  }

  /** An approved hook has a logged decision, and one that signs has had its flush resolved. */
  ghost predicate Linked(u: Setup, s: State) {
    && (forall id :: id in s.decisions ==> Logged(s.log, s.decisions[id]))
    && (forall id :: 0 <= id < |s.budget.attempts| && s.budget.attempts[id].stage == Budget.AwaitingLog ==>
        id in s.decisions)
    && (forall id :: 0 <= id < |s.budget.attempts| && s.budget.attempts[id].stage == Budget.Signing ==> Durable(u, s, id))
  }

  /** What was resolved stays resolved as the log goes on. */
  lemma ResolvedStays(u: Setup, log: seq<DecisionLedger.Event>, more: seq<DecisionLedger.Event>, d: Decision)
    requires Logged(log, d)
    ensures Logged(log + more, d) && TicketOf(u, log + more, d) == TicketOf(u, log, d)
    ensures DecisionLedger.Resolved(LogState(u, log), TicketOf(u, log, d))
        ==> DecisionLedger.Resolved(LogState(u, log + more), TicketOf(u, log, d))
  {
    assert (log + more)[..d.at + 2] == log[..d.at + 2];
    DecisionLedger.RunJoin(DecisionLedger.Opened(u.disk), u.options, log, more);
    DecisionLedger.RunIsLater(LogState(u, log), u.options, more);
  }

  lemma LogGrows(u: Setup, s: State, more: seq<DecisionLedger.Event>)
    requires Linked(u, s)
    ensures Linked(u, s.(log := s.log + more))
  {
    forall id | id in s.decisions ensures Logged(s.log + more, s.decisions[id]) {
      ResolvedStays(u, s.log, more, s.decisions[id]);
    }
    var t := s.(log := s.log + more);
    forall id | 0 <= id < |s.budget.attempts| && s.budget.attempts[id].stage == Budget.Signing ensures Durable(u, t, id) {
      assert Durable(u, s, id);
      ResolvedStays(u, s.log, more, s.decisions[id]);
    }
  }

  /** A decision just logged is that of a hook that does not sign yet. */
  lemma DecisionAdded(u: Setup, s: State, id: nat, d: Decision)
    requires Linked(u, s) && Logged(s.log, d) && Budget.Waiting(s.budget, id, Budget.AwaitingApproval)
    ensures Linked(u, s.(decisions := s.decisions[id := d]))
  {
    var t := s.(decisions := s.decisions[id := d]);
    forall k | 0 <= k < |s.budget.attempts| && s.budget.attempts[k].stage == Budget.Signing ensures Durable(u, t, k) {
      assert k != id && Durable(u, s, k);
    }
  }

  /** A hook may move on to the log once its decision is logged, and to signing once its flush has resolved. */
  lemma BudgetMoves(u: Setup, s: State, e: Budget.Event)
    requires Linked(u, s)
    requires e.ApprovalReturns? && e.approved && !e.aborted && Budget.Waiting(s.budget, e.id, Budget.AwaitingApproval)
         ==> e.id in s.decisions
    requires e.LogReturns? && e.durable ==> Durable(u, s, e.id)
    ensures Linked(u, s.(budget := Budget.Step(s.budget, e)))
  {
    var t := s.(budget := Budget.Step(s.budget, e));
    forall k | 0 <= k < |t.budget.attempts| && t.budget.attempts[k].stage == Budget.Signing ensures Durable(u, t, k) {
      if k < |s.budget.attempts| && s.budget.attempts[k].stage == Budget.Signing { assert Durable(u, s, k); }
    }
  }

  lemma StepKeepsLinked(u: Setup, s: State, e: Event)
    requires Linked(u, s)
    ensures Linked(u, Step(u, s, e))
  {
    var part := BudgetPart(u, s, e);
    if Approves(s, e) {
      var rows := [DecisionLedger.Records(e.row), DecisionLedger.Flushes];
      var d := Decision(e.row, |s.log|);
      LogGrows(u, s, rows);
      var t := s.(log := s.log + rows);
      DecisionAdded(u, t, e.id, d);
      BudgetMoves(u, t.(decisions := s.decisions[e.id := d]), part.value);
    } else if e.LogMoves? {
      LogGrows(u, s, [e.e]);
    } else if part.Some? {
      BudgetMoves(u, s, part.value);
    }
  }

  lemma {:induction false} RunKeepsLinked(u: Setup, replayed: seq<Budget.Entry>, events: seq<Event>)
    ensures Linked(u, Run(u, Started(replayed), events))
  {
    if events != [] {
      RunKeepsLinked(u, replayed, events[..|events| - 1]);
      StepKeepsLinked(u, Run(u, Started(replayed), events[..|events| - 1]), events[|events| - 1]);
    }
  }

  /**
   * An approval, and nothing else of the hooks, writes to the log: its row, and then a flush; other things happen
   * to it too.
   */
  lemma LogExactly(u: Setup, s: State, e: Event)
    ensures var t := Step(u, s, e);
            if e.ApprovalReturns? && e.id < |s.budget.attempts|
               && s.budget.attempts[e.id].stage == Budget.AwaitingApproval && e.approved && !e.aborted
            then && t.log == s.log + [DecisionLedger.Records(e.row), DecisionLedger.Flushes]
                 && t.decisions == s.decisions[e.id := Decision(e.row, |s.log|)]
                 && t.budget.attempts[e.id].stage == Budget.AwaitingLog
            else t.decisions == s.decisions && t.log == (if e.LogMoves? then s.log + [e.e] else s.log)
  {
  }

  /**
   * A hook that awaits its flush goes on exactly when the batch it waits for has settled: to signing when no batch up
   * to that one failed, nothing was aborted and the spend was written, and out otherwise.
   */
  lemma FlushDecides(u: Setup, s: State, now: int, id: nat, aborted: bool, ledgerWrites: bool)
    requires Linked(u, s) && id < |s.budget.attempts| && s.budget.attempts[id].stage == Budget.AwaitingLog
    ensures id in s.decisions && s.decisions[id].at + 2 <= |s.log|
    ensures var t, log := TicketOf(u, s.log, s.decisions[id]), LogState(u, s.log);
            Step(u, s, FlushReturns(now, id, aborted, ledgerWrites)).budget.attempts[id].stage
            == if log.settled < t then Budget.AwaitingLog
               else if (log.failedAt.Some? && log.failedAt.value < t) || aborted || !ledgerWrites then Budget.Dropped
               else Budget.Signing
  {
    assert Logged(s.log, s.decisions[id]);
  }

  /** The files begin with everything recorded up to the decision's row. */
  predicate RowOnDisk(u: Setup, log: seq<DecisionLedger.Event>, d: Decision) {
    d.at <= |log| &&
    DecisionLedger.Contents(u.disk) + Flatten(DecisionLedger.Recorded(log[..d.at]) + [d.row])
      <= DecisionLedger.Contents(LogState(u, log).disk)
  }

  /** The log is what came before the decision's flush, the flush, and what came after. */
  lemma LogSplits(log: seq<DecisionLedger.Event>, d: Decision)
    returns (before: seq<DecisionLedger.Event>, after: seq<DecisionLedger.Event>)
    requires Logged(log, d)
    ensures log == before + [DecisionLedger.Flushes] + after && log[..d.at + 2] == before + [DecisionLedger.Flushes]
    ensures DecisionLedger.Recorded(before) == DecisionLedger.Recorded(log[..d.at]) + [d.row]
  {
    before, after := log[..d.at + 1], log[d.at + 2..];
    assert before[..d.at] == log[..d.at];
  }

  lemma FlushedIsOnDisk(u: Setup, before: seq<DecisionLedger.Event>, after: seq<DecisionLedger.Event>)
    requires var log := before + [DecisionLedger.Flushes] + after;
             && DecisionLedger.Resolved(LogState(u, log), |LogState(u, before + [DecisionLedger.Flushes]).batches|)
             && DecisionRotation.FreshReadings(DecisionRotation.Names(u.disk.segments), DecisionRotation.Readings(log))
    ensures DecisionLedger.Contents(u.disk) + Flatten(DecisionLedger.Recorded(before))
         <= DecisionLedger.Contents(LogState(u, before + [DecisionLedger.Flushes] + after).disk)
  {
    DecisionLedger.RunJoin(DecisionLedger.Opened(u.disk), u.options, before + [DecisionLedger.Flushes], after);
    DecisionRotation.FlushIsDurable(u.disk, u.options, before, after);
  }

  lemma DurableIsOnDisk(u: Setup, log: seq<DecisionLedger.Event>, d: Decision)
    requires Logged(log, d) && DecisionLedger.Resolved(LogState(u, log), TicketOf(u, log, d))
    requires DecisionRotation.FreshReadings(DecisionRotation.Names(u.disk.segments), DecisionRotation.Readings(log))
    ensures RowOnDisk(u, log, d)
  {
    var before, after := LogSplits(log, d);
    FlushedIsOnDisk(u, before, after);
  }

  /**
   * With fresh readings, in every schedule of payments and of the log, under every failure, each payment that signs
   * has its decision row in the files, after everything recorded before it.
   */
  lemma SignedIsOnDisk(u: Setup, replayed: seq<Budget.Entry>, events: seq<Event>, id: nat)
    requires var s := Run(u, Started(replayed), events);
             && Budget.Waiting(s.budget, id, Budget.Signing)
             && DecisionRotation.FreshReadings(DecisionRotation.Names(u.disk.segments), DecisionRotation.Readings(s.log))
    ensures var s := Run(u, Started(replayed), events);
            id in s.decisions && Logged(s.log, s.decisions[id]) && RowOnDisk(u, s.log, s.decisions[id])
  {
    var s := Run(u, Started(replayed), events);
    RunKeepsLinked(u, replayed, events);
    assert Durable(u, s, id);
    DurableIsOnDisk(u, s.log, s.decisions[id]);
  }

  /** A write of the log had failed by the time the decision was recorded. */
  predicate FailedBefore(u: Setup, log: seq<DecisionLedger.Event>, d: Decision) {
    d.at <= |log| && LogState(u, log[..d.at]).failedAt.Some?
  }

  lemma FailedNeverResolves(u: Setup, log: seq<DecisionLedger.Event>, d: Decision)
    requires Logged(log, d) && FailedBefore(u, log, d)
    ensures !DecisionLedger.Resolved(LogState(u, log), TicketOf(u, log, d))
  {
    var before, row, after := log[..d.at], [DecisionLedger.Records(d.row)], log[d.at + 2..];
    var upTo := before + (row + [DecisionLedger.Flushes]);
    assert upTo == log[..d.at + 2] && upTo + after == log;
    DecisionLedger.RunJoin(DecisionLedger.Opened(u.disk), u.options, before, row + [DecisionLedger.Flushes]);
    DecisionLedger.RunJoin(DecisionLedger.Opened(u.disk), u.options, upTo, after);
    DecisionLedger.FailureIsFinal(u.disk, u.options, before, row, after);
  }

  /** Once a write of the log has failed, no payment approved later ever signs. */
  lemma FailsClosed(u: Setup, replayed: seq<Budget.Entry>, events: seq<Event>, id: nat)
    requires var s := Run(u, Started(replayed), events);
             id in s.decisions && FailedBefore(u, s.log, s.decisions[id])
    ensures !Budget.Waiting(Run(u, Started(replayed), events).budget, id, Budget.Signing)
  {
    var s := Run(u, Started(replayed), events);
    RunKeepsLinked(u, replayed, events);
    if Budget.Waiting(s.budget, id, Budget.Signing) {
      assert Durable(u, s, id);
      FailedNeverResolves(u, s.log, s.decisions[id]);
    }
  }
}
