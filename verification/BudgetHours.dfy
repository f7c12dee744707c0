/** The cap on every hour, wherever it starts, and exactly which clocks keep it. */
module BudgetHours {
  import opened Bytes
  import opened Budget

  // ---------------------------------------------------------------- one hour

  /** The scope's recorded amounts dated within an interval, both ends included. */
  function RecordedWithin(ledger: seq<Entry>, scope: string, since: int, until: int): nat {
    if ledger == [] then 0
    else
      var e := ledger[|ledger| - 1];
      RecordedWithin(ledger[..|ledger| - 1], scope, since, until) +
      (if e.scope == scope && since <= e.at <= until then e.micro else 0)
  }

  function HourFrom(ledger: seq<Entry>, scope: string, since: int): nat {
    RecordedWithin(ledger, scope, since, since + HOUR_MS)
  }

  ghost predicate EveryHourWithin(ledger: seq<Entry>, scope: string, cap: nat) {
    forall since :: HourFrom(ledger, scope, since) <= cap
  }

  /** What an attempt holds, if its check was made no later than a time. */
  function AmountBy(a: Attempt, scope: string, until: int): nat {
    if a.begun <= until then Amount(a, scope, false) else 0
  }

  function HeldBy(attempts: seq<Attempt>, scope: string, until: int): nat {
    if attempts == [] then 0
    else HeldBy(attempts[..|attempts| - 1], scope, until) + AmountBy(attempts[|attempts| - 1], scope, until)
  }

  lemma {:induction false} WithinIsLess(ledger: seq<Entry>, scope: string, since: int, until: int)
    ensures RecordedWithin(ledger, scope, since, until) <= RecordedSince(ledger, scope, since)
  {
    if ledger != [] {
      WithinIsLess(ledger[..|ledger| - 1], scope, since, until);
    }
  }

  lemma WithinRowAppended(ledger: seq<Entry>, e: Entry, scope: string, since: int, until: int)
    ensures RecordedWithin(ledger + [e], scope, since, until)
         == RecordedWithin(ledger, scope, since, until)
            + (if e.scope == scope && since <= e.at <= until then e.micro else 0)
  {
    assert (ledger + [e])[..|ledger|] == ledger;
  }

  lemma {:induction false} HeldByIsLess(attempts: seq<Attempt>, scope: string, until: int)
    ensures HeldBy(attempts, scope, until) <= Total(attempts, scope, false)
  {
    if attempts != [] {
      HeldByIsLess(attempts[..|attempts| - 1], scope, until);
    }
  }

  lemma HeldByAppended(attempts: seq<Attempt>, a: Attempt, scope: string, until: int)
    ensures HeldBy(attempts + [a], scope, until) == HeldBy(attempts, scope, until) + AmountBy(a, scope, until)
  {
    assert (attempts + [a])[..|attempts|] == attempts;
  }

  lemma {:induction false} HeldByAfterUpdate(attempts: seq<Attempt>, id: nat, a: Attempt, scope: string, until: int)
    requires id < |attempts|
    ensures HeldBy(attempts[id := a], scope, until) + AmountBy(attempts[id], scope, until)
         == HeldBy(attempts, scope, until) + AmountBy(a, scope, until)
  {
    var front := attempts[..|attempts| - 1];
    if id == |front| {
      assert attempts[id := a][..id] == front;
    } else {
      HeldByAfterUpdate(front, id, a, scope, until);
      assert attempts[id := a][..|front|] == front[id := a];
    }
  }

  // ---------------------------------------------------------------- the invariant of one hour

  /** Recorded in the hour, and in flight since no later than its end. */
  ghost predicate HourKept(s: State, scope: string, cap: nat, since: int) {
    HourFrom(s.ledger, scope, since) + HeldBy(s.attempts, scope, since + HOUR_MS) <= cap
  }

  /** The step records a payment. */
  predicate Commits(s: State, e: Event) {
    e.LogReturns? && Waiting(s, e.id, AwaitingLog) && e.durable && !e.aborted && e.ledgerWrites
  }

  /** The payment's commit reads the clock no earlier than its own check did. */
  predicate CommitInOrder(s: State, e: Event) { Commits(s, e) ==> s.attempts[e.id].begun <= e.now }

  ghost predicate CommitsInOrder(s: State, events: seq<Event>) {
    forall i :: 0 <= i < |events| ==> CommitInOrder(Run(s, events[..i]), events[i])
  }

  lemma BeginKeepsHour(s: State, e: Event, scope: string, cap: nat, since: int)
    requires e.Begins? && ReservationsExact(s) && HourKept(s, scope, cap, since) && CapAtMost(e, scope, cap)
    ensures HourKept(Step(s, e), scope, cap, since)
  {
    var a := Attempt(e.wrapper.scope, e.micro, e.now, AwaitingApproval);
    HeldByAppended(s.attempts, a, scope, since + HOUR_MS);
    if AmountBy(a, scope, since + HOUR_MS) > 0 {
      HeldByIsLess(s.attempts, scope, since + HOUR_MS);
      WithinIsLess(s.ledger, scope, since, since + HOUR_MS);
      LaterSinceIsLess(s.ledger, scope, e.now - HOUR_MS, since);
    }
  }

  /** A commit in order moves an amount that the hour already held, or one that falls outside it. */
  lemma CommitKeepsHour(s: State, e: Event, scope: string, cap: nat, since: int)
    requires HourKept(s, scope, cap, since) && Commits(s, e) && CommitInOrder(s, e)
    ensures HourKept(Step(s, e), scope, cap, since)
  {
    var a := s.attempts[e.id];
    HeldByAfterUpdate(s.attempts, e.id, a.(stage := Signing), scope, since + HOUR_MS);
    WithinRowAppended(s.ledger, Entry(a.scope, a.micro, e.now), scope, since, since + HOUR_MS);
  }

  lemma StepKeepsHour(s: State, e: Event, scope: string, cap: nat, since: int)
    requires ReservationsExact(s) && HourKept(s, scope, cap, since)
    requires CapAtMost(e, scope, cap) && CommitInOrder(s, e)
    ensures HourKept(Step(s, e), scope, cap, since)
  {
    if e.Begins? {
      BeginKeepsHour(s, e, scope, cap, since);
    } else if Commits(s, e) {
      CommitKeepsHour(s, e, scope, cap, since);
    } else if e.id < |s.attempts| {
      assert Step(s, e).ledger == s.ledger;
      HeldByAfterUpdate(s.attempts, e.id, Step(s, e).attempts[e.id], scope, since + HOUR_MS);
    }
  }

  /** Every hook that begins in the scope has a cap no larger than the common one. */
  ghost predicate CapsAtMost(events: seq<Event>, scope: string, cap: nat) {
    forall i :: 0 <= i < |events| ==> CapAtMost(events[i], scope, cap)
  }

  lemma CommitsUpTo(s: State, events: seq<Event>)
    requires events != [] && CommitsInOrder(s, events)
    ensures CommitsInOrder(s, events[..|events| - 1])
    ensures CommitInOrder(Run(s, events[..|events| - 1]), events[|events| - 1])
  {
    var front := events[..|events| - 1];
    assert CommitInOrder(Run(s, events[..|front|]), events[|front|]);
    forall i | 0 <= i < |front| ensures CommitInOrder(Run(s, front[..i]), front[i]) {
      assert front[..i] == events[..i];
      assert CommitInOrder(Run(s, events[..i]), events[i]);
    }
  }

  lemma {:induction false} RunKeepsHour(replayed: seq<Entry>, events: seq<Event>, scope: string, cap: nat, since: int)
    requires HourFrom(replayed, scope, since) <= cap && CommitsInOrder(Started(replayed), events)
    requires CapsAtMost(events, scope, cap)
    ensures ReservationsExact(Run(Started(replayed), events))
    ensures HourKept(Run(Started(replayed), events), scope, cap, since)
  {
    if events != [] {
      var front, last := events[..|events| - 1], events[|events| - 1];
      var s := Run(Started(replayed), front);
      CommitsUpTo(Started(replayed), events);
      RunKeepsHour(replayed, front, scope, cap, since);
      StepKeepsReservationsExact(s, last);
      StepKeepsHour(s, last, scope, cap, since);
    }
  }

  /**
   * In every interleaving of every wrapper's hooks, with wrappers of the scope capped at most at cap, the amounts
   * recorded in any one hour stay within the cap, wherever it starts, as long as no payment's commit reads the
   * clock earlier than its own check. Nothing else is asked of the clocks.
   */
  lemma AnyHourWithinCap(replayed: seq<Entry>, events: seq<Event>, scope: string, cap: nat)
    requires EveryHourWithin(replayed, scope, cap) && CommitsInOrder(Started(replayed), events)
    requires CapsAtMost(events, scope, cap)
    ensures EveryHourWithin(Run(Started(replayed), events).ledger, scope, cap)
    ensures forall since, until :: until == since + 3_600_000 ==>
                                     RecordedWithin(Run(Started(replayed), events).ledger, scope, since, until) <= cap
  {
    var end := Run(Started(replayed), events);
    forall since ensures HourFrom(end.ledger, scope, since) <= cap {
      assert HourFrom(replayed, scope, since) <= cap;
      RunKeepsHour(replayed, events, scope, cap, since);
    }
    forall since, until | until == since + 3_600_000 ensures RecordedWithin(end.ledger, scope, since, until) <= cap {
      assert HourFrom(end.ledger, scope, since) <= cap;
    }
  }

  /** A clock that never steps back keeps every commit in order. */
  lemma {:induction false} ForwardClockInOrder(replayed: seq<Entry>, events: seq<Event>, start: int)
    requires ClockForward(start, events)
    ensures CommitsInOrder(Started(replayed), events)
    ensures forall k :: 0 <= k < |Run(Started(replayed), events).attempts| ==>
              Run(Started(replayed), events).attempts[k].begun <= LastNow(start, events)
  {
    if events != [] {
      var front, last := events[..|events| - 1], events[|events| - 1];
      var s := Run(Started(replayed), front);
      ForwardClockInOrder(replayed, front, start);
      assert LastNow(start, front) <= last.now;
      assert CommitInOrder(s, last);
      forall i | 0 <= i < |events| ensures CommitInOrder(Run(Started(replayed), events[..i]), events[i]) {
        if i == |front| {
          assert events[..i] == front;
        } else {
          assert CommitInOrder(Run(Started(replayed), front[..i]), front[i]);
          assert front[..i] == events[..i];
        }
      }
    }
  }

  // ---------------------------------------------------------------- one payment

  /** Admits and signs one payment: its check at one reading of the clock, its commit at another. */
  function OnePayment(w: Wrapper, micro: nat, id: nat, begin: int, commit: int): seq<Event> {
    [Begins(begin, w, micro, NoQuote), ApprovalReturns(begin, id, true, false), LogReturns(commit, id, true, false, true)]
  }

  lemma RunJoin(s: State, first: seq<Event>, second: seq<Event>)
    ensures Run(s, first + second) == Run(Run(s, first), second)
  {
    if second == [] {
      assert first + second == first;
    } else {
      RunJoin(s, first, second[..|second| - 1]);
      assert (first + second)[..|first + second| - 1] == first + second[..|second| - 1];
    }
  }

  lemma OnePaymentRuns(s: State, w: Wrapper, micro: nat, begin: int, commit: int)
    ensures var events := OnePayment(w, micro, |s.attempts|, begin, commit);
            && Run(s, events[..0]) == s && Run(s, events[..1]) == Step(s, events[0])
            && Run(s, events[..2]) == Step(Step(s, events[0]), events[1])
            && Run(s, events) == Step(Step(Step(s, events[0]), events[1]), events[2])
  {
    var events := OnePayment(w, micro, |s.attempts|, begin, commit);
    assert events[..0] == [] && events[..1][..0] == [] && events[..2][..1] == events[..1];
  }

  lemma OnePaymentRecords(s: State, w: Wrapper, micro: nat, begin: int, commit: int)
    requires s.inFlight == map[] && Admitted(s, w, micro, NoQuote, begin)
    ensures var t := Run(s, OnePayment(w, micro, |s.attempts|, begin, commit));
            t.ledger == s.ledger + [Entry(w.scope, micro, commit)] && t.inFlight == map[]
            && |t.attempts| == |s.attempts| + 1
  {
    OnePaymentRuns(s, w, micro, begin, commit);
  }

  lemma OnePaymentInOrder(s: State, w: Wrapper, micro: nat, begin: int, commit: int)
    requires begin <= commit && forall k :: 0 <= k < |s.attempts| ==> !InFlight(s.attempts[k].stage)
    ensures CommitsInOrder(s, OnePayment(w, micro, |s.attempts|, begin, commit))
  {
    OnePaymentRuns(s, w, micro, begin, commit);
    var events := OnePayment(w, micro, |s.attempts|, begin, commit);
    forall i | 0 <= i < |events| ensures CommitInOrder(Run(s, events[..i]), events[i]) {
      if i == 2 { assert CommitInOrder(Step(Step(s, events[0]), events[1]), events[2]); }
    }
  }

  /** A ledger within the cap that lets a payment with these readings past the check and into a full hour. */
  function FullHourBefore(scope: string, cap: nat, begin: int, commit: int): seq<Entry> {
    [Entry(scope, cap, if commit < begin - HOUR_MS then commit else begin - HOUR_MS - 1)]
  }

  lemma LateCheckExceeds(scope: string, cap: nat, micro: nat, begin: int, commit: int)
    requires 0 < micro <= cap <= MAX_SAFE && commit < begin
    ensures var full := FullHourBefore(scope, cap, begin, commit);
            && EveryHourWithin(full, scope, cap)
            && HourFrom(Run(Started(full), OnePayment(Wrapper(scope, micro, Some(cap)), micro, 0, begin, commit)).ledger,
                        scope, full[0].at) == cap + micro
  {
    var full, w := FullHourBefore(scope, cap, begin, commit), Wrapper(scope, micro, Some(cap));
    forall since ensures HourFrom(full, scope, since) <= cap {
      WithinRowAppended([], full[0], scope, since, since + HOUR_MS);
      assert [] + [full[0]] == full;
    }
    WithinRowAppended([], full[0], scope, full[0].at, full[0].at + HOUR_MS);
    assert [] + [full[0]] == full && full[..0] == [];
    OnePaymentRecords(Started(full), w, micro, begin, commit);
    WithinRowAppended(full, Entry(scope, micro, commit), scope, full[0].at, full[0].at + HOUR_MS);
  }

  /** Over every ledger within the cap, this one payment leaves every hour within the cap. */
  ghost predicate ReadingsSafe(scope: string, cap: nat, micro: nat, begin: int, commit: int) {
    forall replayed :: EveryHourWithin(replayed, scope, cap) ==>
      var events := OnePayment(Wrapper(scope, micro, Some(cap)), micro, 0, begin, commit);
      EveryHourWithin(Run(Started(replayed), events).ledger, scope, cap)
  }

  /**
   * The condition on the clock is exact: a payment is safe with given readings, whatever was recorded before,
   * if and only if its commit reads the clock no earlier than its check.
   */
  lemma ReadingsSafeExactly(scope: string, cap: nat, micro: nat, begin: int, commit: int)
    requires 0 < micro <= cap <= MAX_SAFE
    ensures ReadingsSafe(scope, cap, micro, begin, commit) <==> begin <= commit
  {
    var w := Wrapper(scope, micro, Some(cap));
    var events := OnePayment(w, micro, 0, begin, commit);
    if begin <= commit {
      forall replayed | EveryHourWithin(replayed, scope, cap)
        ensures EveryHourWithin(Run(Started(replayed), events).ledger, scope, cap)
      {
        OnePaymentInOrder(Started(replayed), w, micro, begin, commit);
        AnyHourWithinCap(replayed, events, scope, cap);
      }
    } else {
      var full := FullHourBefore(scope, cap, begin, commit);
      LateCheckExceeds(scope, cap, micro, begin, commit);
      assert !EveryHourWithin(Run(Started(full), events).ledger, scope, cap);
    }
  }

  // ---------------------------------------------------------------- from an empty ledger

  /** The second payment begins one millisecond after the first leaves its hour, and commits one before. */
  function SteppedBack(w: Wrapper): seq<Event> {
    OnePayment(w, w.maxPrice, 0, 0, 0) + OnePayment(w, w.maxPrice, 1, HOUR_MS + 1, HOUR_MS)
  }

  lemma SteppedBackLedger(w: Wrapper)
    requires w.hourly == Some(w.maxPrice) && w.maxPrice <= MAX_SAFE
    ensures Run(Started([]), SteppedBack(w)).ledger
         == [Entry(w.scope, w.maxPrice, 0)] + [Entry(w.scope, w.maxPrice, HOUR_MS)]
  {
    var first, second := OnePayment(w, w.maxPrice, 0, 0, 0), OnePayment(w, w.maxPrice, 1, HOUR_MS + 1, HOUR_MS);
    OnePaymentRecords(Started([]), w, w.maxPrice, 0, 0);
    var s := Run(Started([]), first);
    assert s.ledger == [Entry(w.scope, w.maxPrice, 0)];
    assert s.ledger[..0] == [];
    OnePaymentRecords(s, w, w.maxPrice, HOUR_MS + 1, HOUR_MS);
    RunJoin(Started([]), first, second);
  }

  /**
   * Two payments from an empty ledger: a clock that steps back by one millisecond between the second one's check
   * and its commit lets twice the cap be recorded within one hour.
   */
  lemma ClockStepBackOverspends(scope: string, cap: nat)
    requires cap <= MAX_SAFE
    ensures var events := SteppedBack(Wrapper(scope, cap, Some(cap)));
            CapsAtMost(events, scope, cap) && HourFrom(Run(Started([]), events).ledger, scope, 0) == 2 * cap
  {
    var w := Wrapper(scope, cap, Some(cap));
    var e, f := Entry(scope, cap, 0), Entry(scope, cap, HOUR_MS);
    SteppedBackLedger(w);
    WithinRowAppended([e], f, scope, 0, HOUR_MS);
    WithinRowAppended([], e, scope, 0, HOUR_MS);
    assert [] + [e] == [e];
  }
}
