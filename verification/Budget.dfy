/** The buyer wrapper's hourly budget: many payments in flight over one spend ledger. */
module Budget {
  import opened Bytes

  const HOUR_MS: int := 3_600_000

  /** One spend ledger row. */
  datatype Entry = Entry(scope: string, micro: nat, at: int)

  /** Where a payment's hook is suspended, or how it ended. */
  datatype Stage = AwaitingApproval | AwaitingLog | Signing | Dropped

  /** A payment's hook: its scope and amount, the clock reading of its check, and its stage. */
  datatype Attempt = Attempt(scope: string, micro: nat, begun: int, stage: Stage)

  /** What one createBuyerFetch call fixes: its scope, its price ceiling and its optional hourly cap. */
  datatype Wrapper = Wrapper(scope: string, maxPrice: nat, hourly: Option<nat>)

  /** What the caller's own quote for the payment came to: none was asked for, it failed, or an amount. */
  datatype Quote = NoQuote | Unavailable | Quoted(micro: nat)

  /** The shared ledger and reservations, and the hooks suspended over them. */
  datatype State = State(ledger: seq<Entry>, inFlight: map<string, nat>, attempts: seq<Attempt>)

  /** One uninterrupted tick of some hook, at the time its clock reads. */
  datatype Event =
    | Begins(now: int, wrapper: Wrapper, micro: nat, quote: Quote)
    | ApprovalReturns(now: int, id: nat, approved: bool, aborted: bool)
    | LogReturns(now: int, id: nat, durable: bool, aborted: bool, ledgerWrites: bool)

  // ---------------------------------------------------------------- sums

  /** The scope's recorded amounts dated at or after a time. */
  function RecordedSince(ledger: seq<Entry>, scope: string, since: int): nat {
    if ledger == [] then 0
    else
      var e := ledger[|ledger| - 1];
      RecordedSince(ledger[..|ledger| - 1], scope, since) +
      (if e.scope == scope && e.at >= since then e.micro else 0)
  }

  predicate InFlight(stage: Stage) { stage.AwaitingApproval? || stage.AwaitingLog? }

  /** What one attempt holds of a scope, or has signed for in it. */
  function Amount(a: Attempt, scope: string, signed: bool): nat {
    if a.scope == scope && (if signed then a.stage.Signing? else InFlight(a.stage)) then a.micro else 0
  }

  function Total(attempts: seq<Attempt>, scope: string, signed: bool): nat {
    if attempts == [] then 0
    else Total(attempts[..|attempts| - 1], scope, signed) + Amount(attempts[|attempts| - 1], scope, signed)
  }

  function Held(inFlight: map<string, nat>, scope: string): nat {
    if scope in inFlight then inFlight[scope] else 0
  }

  // ---------------------------------------------------------------- ticks

  function Reserve(inFlight: map<string, nat>, scope: string, micro: nat): map<string, nat> {
    inFlight[scope := Held(inFlight, scope) + micro]
  }

  /** The finally block: the key goes away when nothing is left. */
  function Release(inFlight: map<string, nat>, scope: string, micro: nat): map<string, nat> {
    var left := Held(inFlight, scope) - micro;
    if left > 0 then inFlight[scope := left] else inFlight - {scope}
  }

  predicate Admitted(s: State, w: Wrapper, micro: nat, quote: Quote, now: int) {
    && micro <= w.maxPrice && micro <= MAX_SAFE && (quote.NoQuote? || quote == Quoted(micro))
    && (w.hourly.Some? ==>
          RecordedSince(s.ledger, w.scope, now - HOUR_MS) + Held(s.inFlight, w.scope) + micro <= w.hourly.value)
  }

  function End(s: State, id: nat, stage: Stage): State
    requires id < |s.attempts|
  {
    var a := s.attempts[id];
    s.(attempts := s.attempts[id := a.(stage := stage)], inFlight := Release(s.inFlight, a.scope, a.micro))
  }

  predicate Waiting(s: State, id: nat, stage: Stage) { id < |s.attempts| && s.attempts[id].stage == stage }

  function Step(s: State, e: Event): State {
    match e
    case Begins(now, w, micro, quote) =>
      if !Admitted(s, w, micro, quote, now) then s
      else s.(inFlight := Reserve(s.inFlight, w.scope, micro),
              attempts := s.attempts + [Attempt(w.scope, micro, now, AwaitingApproval)])
    case ApprovalReturns(_, id, approved, aborted) =>
      if !Waiting(s, id, AwaitingApproval) then s
      else if !approved || aborted then End(s, id, Dropped)
      else s.(attempts := s.attempts[id := s.attempts[id].(stage := AwaitingLog)])
    case LogReturns(now, id, durable, aborted, ledgerWrites) =>
      if !Waiting(s, id, AwaitingLog) then s
      else if !durable || aborted || !ledgerWrites then End(s, id, Dropped)
      else
        var a := s.attempts[id];
        End(s.(ledger := s.ledger + [Entry(a.scope, a.micro, now)]), id, Signing)
  }

  function Run(s: State, events: seq<Event>): State {
    if events == [] then s else Step(Run(s, events[..|events| - 1]), events[|events| - 1])
  }

  /** The hook as it runs: a shared ledger and map, updated tick by tick. */
  class BuyerBudget {
    var ledger: seq<Entry>
    var inFlight: map<string, nat>
    var attempts: seq<Attempt>

    constructor (replayed: seq<Entry>)
      ensures View() == State(replayed, map[], [])
    {
      ledger, inFlight, attempts := replayed, map[], [];
    }

    function View(): State
      reads this
    {
      State(ledger, inFlight, attempts)
    }

    method SpentMicro(scope: string, windowMs: int, now: int) returns (total: nat)
      ensures total == RecordedSince(ledger, scope, now - windowMs)
    {
      total := 0;
      for i := 0 to |ledger|
        invariant total == RecordedSince(ledger[..i], scope, now - windowMs)
      {
        assert ledger[..i + 1][..i] == ledger[..i];
        var e := ledger[i];
        if e.scope == scope && now - e.at <= windowMs {
          total := total + e.micro;
        }
      }
      assert ledger[..|ledger|] == ledger;
    }

    method Begin(w: Wrapper, micro: nat, quote: Quote, now: int) returns (reserved: bool)
      modifies this
      ensures View() == Step(old(View()), Begins(now, w, micro, quote))
      ensures reserved == old(Admitted(View(), w, micro, quote, now))
    {
      if micro > w.maxPrice || micro > MAX_SAFE { return false; }
      if quote.Unavailable? || (quote.Quoted? && quote.micro != micro) { return false; }
      if w.hourly.Some? {
        var spent := SpentMicro(w.scope, HOUR_MS, now);
        if spent + Held(inFlight, w.scope) + micro > w.hourly.value { return false; }
      }
      inFlight := inFlight[w.scope := Held(inFlight, w.scope) + micro];
      attempts := attempts + [Attempt(w.scope, micro, now, AwaitingApproval)];
      return true;
    }

    method Finally(id: nat, stage: Stage)
      requires id < |attempts|
      modifies this`inFlight, this`attempts
      ensures View() == End(old(View()), id, stage)
    {
      var a := attempts[id];
      attempts := attempts[id := a.(stage := stage)];
      var left := Held(inFlight, a.scope) - a.micro;
      if left > 0 {
        inFlight := inFlight[a.scope := left];
      } else {
        inFlight := inFlight - {a.scope};
      }
    }

    method ResumeAfterApproval(id: nat, approved: bool, aborted: bool, now: int)
      requires Waiting(View(), id, AwaitingApproval)
      modifies this
      ensures View() == Step(old(View()), ApprovalReturns(now, id, approved, aborted))
    {
      if !approved || aborted {
        Finally(id, Dropped);
      } else {
        attempts := attempts[id := attempts[id].(stage := AwaitingLog)];
      }
    }

    method ResumeAfterLog(id: nat, durable: bool, aborted: bool, ledgerWrites: bool, now: int)
      requires Waiting(View(), id, AwaitingLog)
      modifies this
      ensures View() == Step(old(View()), LogReturns(now, id, durable, aborted, ledgerWrites))
    {
      if !durable || aborted || !ledgerWrites {
        Finally(id, Dropped);
      } else {
        var a := attempts[id];
        ledger := ledger + [Entry(a.scope, a.micro, now)];
        Finally(id, Signing);
      }
    }
  }

  // ---------------------------------------------------------------- reservations are the amounts in flight

  lemma {:induction false} TotalAfterUpdate(attempts: seq<Attempt>, id: nat, a: Attempt, scope: string, signed: bool)
    requires id < |attempts|
    ensures Total(attempts[id := a], scope, signed) + Amount(attempts[id], scope, signed)
         == Total(attempts, scope, signed) + Amount(a, scope, signed)
  {
    var front := attempts[..|attempts| - 1];
    if id == |front| {
      assert attempts[id := a][..id] == front;
    } else {
      TotalAfterUpdate(front, id, a, scope, signed);
      assert attempts[id := a][..|front|] == front[id := a];
    }
  }

  lemma TotalAppended(attempts: seq<Attempt>, a: Attempt, scope: string, signed: bool)
    ensures Total(attempts + [a], scope, signed) == Total(attempts, scope, signed) + Amount(a, scope, signed)
  {
    assert (attempts + [a])[..|attempts|] == attempts;
  }

  ghost predicate ReservationsExact(s: State) {
    forall scope :: Held(s.inFlight, scope) == Total(s.attempts, scope, false)
  }

  lemma TotalAtLeast(attempts: seq<Attempt>, id: nat)
    requires id < |attempts| && InFlight(attempts[id].stage)
    ensures Total(attempts, attempts[id].scope, false) >= attempts[id].micro
  {
    TotalAfterUpdate(attempts, id, attempts[id].(stage := Dropped), attempts[id].scope, false);
  }

  /** Ending an attempt gives back exactly what it held, and nothing another scope holds. */
  lemma EndGivesBack(s: State, id: nat, stage: Stage)
    requires ReservationsExact(s) && id < |s.attempts| && InFlight(s.attempts[id].stage) && !InFlight(stage)
    ensures ReservationsExact(End(s, id, stage))
    ensures forall scope :: Held(End(s, id, stage).inFlight, scope) + Amount(s.attempts[id], scope, false)
                         == Held(s.inFlight, scope)
  {
    var a, t := s.attempts[id], End(s, id, stage);
    TotalAtLeast(s.attempts, id);
    assert Held(s.inFlight, a.scope) >= a.micro;
    forall scope
      ensures Held(t.inFlight, scope) + Amount(a, scope, false) == Held(s.inFlight, scope)
      ensures Held(t.inFlight, scope) == Total(t.attempts, scope, false)
    {
      TotalAfterUpdate(s.attempts, id, a.(stage := stage), scope, false);
    }
  }

  /** Every tick of every hook keeps the reservations equal to the sum of the amounts in flight. */
  lemma StepKeepsReservationsExact(s: State, e: Event)
    requires ReservationsExact(s)
    ensures ReservationsExact(Step(s, e))
  {
    var t := Step(s, e);
    match e
    case Begins(now, w, micro, quote) =>
      forall scope ensures Held(t.inFlight, scope) == Total(t.attempts, scope, false) {
        TotalAppended(s.attempts, Attempt(w.scope, micro, now, AwaitingApproval), scope, false);
      }
    case ApprovalReturns(_, id, approved, aborted) =>
      if Waiting(s, id, AwaitingApproval) {
        if !approved || aborted {
          EndGivesBack(s, id, Dropped);
        } else {
          forall scope ensures Total(t.attempts, scope, false) == Total(s.attempts, scope, false) {
            TotalAfterUpdate(s.attempts, id, s.attempts[id].(stage := AwaitingLog), scope, false);
          }
        }
      }
    case LogReturns(now, id, durable, aborted, ledgerWrites) =>
      if Waiting(s, id, AwaitingLog) {
        if !durable || aborted || !ledgerWrites {
          EndGivesBack(s, id, Dropped);
        } else {
          EndGivesBack(s.(ledger := s.ledger + [Entry(s.attempts[id].scope, s.attempts[id].micro, now)]), id, Signing);
        }
      }
  }

  // ---------------------------------------------------------------- the cap

  lemma {:induction false} LaterSinceIsLess(ledger: seq<Entry>, scope: string, since: int, later: int)
    requires since <= later
    ensures RecordedSince(ledger, scope, later) <= RecordedSince(ledger, scope, since)
  {
    if ledger != [] {
      LaterSinceIsLess(ledger[..|ledger| - 1], scope, since, later);
    }
  }

  ghost predicate WithinCap(s: State, scope: string, cap: nat, now: int) {
    RecordedSince(s.ledger, scope, now - HOUR_MS) + Held(s.inFlight, scope) <= cap
  }

  /** A hook that begins in the scope has a cap no larger than the common one. */
  predicate CapAtMost(e: Event, scope: string, cap: nat) {
    e.Begins? && e.wrapper.scope == scope ==> e.wrapper.hourly.Some? && e.wrapper.hourly.value <= cap
  }

  /** Recording moves an amount from the reservations to the ledger, so the two together do not grow. */
  lemma CommitKeepsCap(s: State, id: nat, scope: string, cap: nat, now: int)
    requires ReservationsExact(s) && WithinCap(s, scope, cap, now) && Waiting(s, id, AwaitingLog)
    ensures WithinCap(End(s.(ledger := s.ledger + [Entry(s.attempts[id].scope, s.attempts[id].micro, now)]), id, Signing),
                      scope, cap, now)
  {
    var e := Entry(s.attempts[id].scope, s.attempts[id].micro, now);
    var committed := End(s.(ledger := s.ledger + [e]), id, Signing);
    assert Held(committed.inFlight, scope) + Amount(s.attempts[id], scope, false) == Held(s.inFlight, scope) by {
      EndGivesBack(s.(ledger := s.ledger + [e]), id, Signing);
    }
    assert (s.ledger + [e])[..|s.ledger|] == s.ledger;
  }

  lemma StepKeepsCap(s: State, e: Event, scope: string, cap: nat, before: int)
    requires ReservationsExact(s) && WithinCap(s, scope, cap, before) && before <= e.now && CapAtMost(e, scope, cap)
    ensures WithinCap(Step(s, e), scope, cap, e.now)
  {
    LaterSinceIsLess(s.ledger, scope, before - HOUR_MS, e.now - HOUR_MS);
    match e
    case Begins(now, w, micro, quote) =>
    case ApprovalReturns(now, id, approved, aborted) =>
      if Waiting(s, id, AwaitingApproval) && (!approved || aborted) {
        EndGivesBack(s, id, Dropped);
        assert Held(Step(s, e).inFlight, scope) <= Held(s.inFlight, scope);
      }
    case LogReturns(now, id, durable, aborted, ledgerWrites) =>
      if Waiting(s, id, AwaitingLog) {
        if !durable || aborted || !ledgerWrites {
          EndGivesBack(s, id, Dropped);
          assert Held(Step(s, e).inFlight, scope) <= Held(s.inFlight, scope);
        } else {
          CommitKeepsCap(s, id, scope, cap, now);
        }
      }
  }

  ghost predicate ClockForward(start: int, events: seq<Event>) {
    && (forall i :: 0 <= i < |events| ==> start <= events[i].now)
    && (forall i, j :: 0 <= i < j < |events| ==> events[i].now <= events[j].now)
  }

  function LastNow(start: int, events: seq<Event>): int {
    if events == [] then start else events[|events| - 1].now
  }

  /** A process start: the replayed ledger and nothing in flight. */
  function Started(replayed: seq<Entry>): State { State(replayed, map[], []) }

  /**
   * Over every interleaving of every wrapper's hooks, with a clock that does not step back and wrappers of
   * the scope capped at most at cap: reservations are the amounts in flight, and recorded plus reserved stays
   * within the cap.
   */
  lemma {:induction false} BudgetHolds(replayed: seq<Entry>, events: seq<Event>, scope: string, cap: nat, start: int)
    requires WithinCap(Started(replayed), scope, cap, start) && ClockForward(start, events)
    requires forall i :: 0 <= i < |events| ==> CapAtMost(events[i], scope, cap)
    ensures ReservationsExact(Run(Started(replayed), events))
    ensures WithinCap(Run(Started(replayed), events), scope, cap, LastNow(start, events))
  {
    if events != [] {
      var front, last := events[..|events| - 1], events[|events| - 1];
      BudgetHolds(replayed, front, scope, cap, start);
      StepKeepsReservationsExact(Run(Started(replayed), front), last);
      StepKeepsCap(Run(Started(replayed), front), last, scope, cap, LastNow(start, front));
    }
  }

  // ---------------------------------------------------------------- conservation

  /** Everything the scope has ever recorded. */
  function Recorded(ledger: seq<Entry>, scope: string): nat {
    if ledger == [] then 0
    else
      var e := ledger[|ledger| - 1];
      Recorded(ledger[..|ledger| - 1], scope) + (if e.scope == scope then e.micro else 0)
  }

  lemma RecordedAppended(ledger: seq<Entry>, e: Entry, scope: string)
    ensures Recorded(ledger + [e], scope) == Recorded(ledger, scope) + (if e.scope == scope then e.micro else 0)
  {
    assert (ledger + [e])[..|ledger|] == ledger;
  }

  lemma StepSigns(s: State, e: Event, scope: string)
    ensures Recorded(Step(s, e).ledger, scope) + Total(s.attempts, scope, true)
         == Recorded(s.ledger, scope) + Total(Step(s, e).attempts, scope, true)
  {
    match e
    case Begins(now, w, micro, quote) =>
      TotalAppended(s.attempts, Attempt(w.scope, micro, now, AwaitingApproval), scope, true);
    case ApprovalReturns(_, id, _, _) =>
      if id < |s.attempts| {
        TotalAfterUpdate(s.attempts, id, Step(s, e).attempts[id], scope, true);
      }
    case LogReturns(now, id, _, _, _) =>
      if id < |s.attempts| {
        var a := s.attempts[id];
        RecordedAppended(s.ledger, Entry(a.scope, a.micro, now), scope);
        TotalAfterUpdate(s.attempts, id, Step(s, e).attempts[id], scope, true);
      }
  }

  /** Whatever fails or aborts, what the ledger gains is what was approved for signing, to the unit. */
  lemma {:induction false} SignedIsRecorded(replayed: seq<Entry>, events: seq<Event>, scope: string)
    ensures Recorded(Run(Started(replayed), events).ledger, scope)
         == Recorded(replayed, scope) + Total(Run(Started(replayed), events).attempts, scope, true)
  {
    if events != [] {
      SignedIsRecorded(replayed, events[..|events| - 1], scope);
      StepSigns(Run(Started(replayed), events[..|events| - 1]), events[|events| - 1], scope);
    }
  }
}
