/** Which payments the budget lets through, and what every payment that signs has gone through. */
module BudgetAdmission {
  import opened Bytes
  import opened Budget
  import opened BudgetHours

  // ---------------------------------------------------------------- one step

  /** At or under the wrapper's price ceiling, a safe integer, and what the caller was quoted if it asked. */
  predicate Affordable(w: Wrapper, micro: nat, quote: Quote) {
    micro <= w.maxPrice && micro <= 0x1F_FFFF_FFFF_FFFF && quote in {NoQuote, Quoted(micro)}
  }

  /** The sum of the last hour and of the reservations leaves room under the wrapper's cap, if it has one. */
  predicate Fits(s: State, w: Wrapper, micro: nat, now: int) {
    w.hourly.None?
    || RecordedSince(s.ledger, w.scope, now - 3_600_000) + Total(s.attempts, w.scope, false) + micro <= w.hourly.value
  }

  lemma {:induction false} RunReservationsExact(replayed: seq<Entry>, events: seq<Event>)
    ensures ReservationsExact(Run(Started(replayed), events))
  {
    if events != [] {
      RunReservationsExact(replayed, events[..|events| - 1]);
      StepKeepsReservationsExact(Run(Started(replayed), events[..|events| - 1]), events[|events| - 1]);
    }
  }

  /**
   * A payment is let through exactly when it is affordable and fits; it then waits for approval with its amount
   * reserved.
   */
  lemma BeginsExactly(replayed: seq<Entry>, events: seq<Event>, now: int, w: Wrapper, micro: nat, quote: Quote)
    ensures var s := Run(Started(replayed), events);
            var t := Step(s, Begins(now, w, micro, quote));
            && t.ledger == s.ledger
            && (if Affordable(w, micro, quote) && Fits(s, w, micro, now)
                then && t.attempts == s.attempts + [Attempt(w.scope, micro, now, AwaitingApproval)]
                     && (forall scope :: Held(t.inFlight, scope)
                                      == Held(s.inFlight, scope) + (if scope == w.scope then micro else 0))
                else t == s)
  {
    RunReservationsExact(replayed, events);
  }

  /** The event is the approval of this payment. */
  predicate Approves(e: Event, id: nat) { e.ApprovalReturns? && e.id == id && e.approved && !e.aborted }

  /** The event commits this payment: its row is durable, nothing was aborted, and the spend was written. */
  predicate Confirms(e: Event, id: nat) { e.LogReturns? && e.id == id && e.durable && !e.aborted && e.ledgerWrites }

  /** Where one step takes a payment; everything else about it stays, and no payment disappears. */
  lemma StageMoves(s: State, e: Event, id: nat)
    requires id < |s.attempts|
    ensures |s.attempts| <= |Step(s, e).attempts|
    ensures var a := s.attempts[id];
            Step(s, e).attempts[id]
            == a.(stage := if a.stage == AwaitingApproval && e.ApprovalReturns? && e.id == id
                           then (if Approves(e, id) then AwaitingLog else Dropped)
                           else if a.stage == AwaitingLog && e.LogReturns? && e.id == id
                           then (if Confirms(e, id) then Signing else Dropped)
                           else a.stage)
  {
  }

  // ---------------------------------------------------------------- every payment's history

  /** The event is the beginning of this payment, by a wrapper that affords it. */
  predicate BegunBy(a: Attempt, e: Event) {
    e.Begins? && e.wrapper.scope == a.scope && e.micro == a.micro && e.now == a.begun
    && Affordable(e.wrapper, e.micro, e.quote)
  }

  /**
   * Indices of the payment's beginning, approval and commit among the events; the later ones only once it has got
   * there.
   */
  datatype History = History(begun: nat, approved: nat, committed: nat)

  ghost predicate Explains(events: seq<Event>, id: nat, a: Attempt, t: History) {
    && t.begun < |events| && BegunBy(a, events[t.begun])
    && (a.stage in {AwaitingLog, Signing} ==> t.begun < t.approved < |events| && Approves(events[t.approved], id))
    && (a.stage == Signing ==> t.approved < t.committed < |events| && Confirms(events[t.committed], id))
  }

  lemma ExplainsLater(events: seq<Event>, e: Event, id: nat, a: Attempt, t: History)
    requires Explains(events, id, a, t)
    ensures Explains(events + [e], id, a, t)
  {
  }

  /**
   * In every interleaving each payment in flight or signing was begun by a wrapper of its scope that affords it; one
   * past its approval was approved after that, and one that signs was then committed, none of it aborted.
   */
  lemma {:induction false} PaymentHistory(replayed: seq<Entry>, events: seq<Event>, id: nat) returns (t: History)
    requires id < |Run(Started(replayed), events).attempts|
    ensures Explains(events, id, Run(Started(replayed), events).attempts[id], t)
  {
    var n := |events| - 1;
    var front, last := events[..n], events[n];
    var s := Run(Started(replayed), front);
    assert events == front + [last];
    if id < |s.attempts| {
      t := PaymentHistory(replayed, front, id);
      StageMoves(s, last, id);
      ExplainsLater(front, last, id, s.attempts[id], t);
      if Approves(last, id) && s.attempts[id].stage == AwaitingApproval { t := t.(approved := n); }
      if Confirms(last, id) && s.attempts[id].stage == AwaitingLog { t := t.(committed := n); }
    } else {
      t := History(n, 0, 0);
    }
  }

  // ---------------------------------------------------------------- every recorded amount

  /** The row is that of a payment that signs. */
  ghost predicate RowOf(row: Entry, attempts: seq<Attempt>) {
    exists id :: 0 <= id < |attempts| && attempts[id].stage == Signing
                 && attempts[id].scope == row.scope && attempts[id].micro == row.micro
  }

  lemma RowStays(row: Entry, s: State, e: Event)
    requires RowOf(row, s.attempts)
    ensures RowOf(row, Step(s, e).attempts)
  {
    var id :| 0 <= id < |s.attempts| && s.attempts[id].stage == Signing
              && s.attempts[id].scope == row.scope && s.attempts[id].micro == row.micro;
    StageMoves(s, e, id);
  }

  lemma {:induction false} RowsAreSigned(replayed: seq<Entry>, events: seq<Event>)
    ensures var s := Run(Started(replayed), events);
            replayed <= s.ledger && forall r :: |replayed| <= r < |s.ledger| ==> RowOf(s.ledger[r], s.attempts)
  {
    if events != [] {
      var s, last := Run(Started(replayed), events[..|events| - 1]), events[|events| - 1];
      var t := Step(s, last);
      RowsAreSigned(replayed, events[..|events| - 1]);
      forall r | |replayed| <= r < |t.ledger| ensures RowOf(t.ledger[r], t.attempts) {
        if r < |s.ledger| {
          RowStays(s.ledger[r], s, last);
        } else {
          assert t.attempts[last.id].stage == Signing;
        }
      }
    }
  }

  /** The wrapper's own event that paid for a row: the amount is within its price ceiling and as quoted. */
  lemma EveryRowAffordable(replayed: seq<Entry>, events: seq<Event>, r: nat) returns (i: nat)
    requires |replayed| <= r < |Run(Started(replayed), events).ledger|
    ensures i < |events| && events[i].Begins?
    ensures var row, e := Run(Started(replayed), events).ledger[r], events[i];
            && row.scope == e.wrapper.scope && row.micro == e.micro
            && row.micro <= e.wrapper.maxPrice && row.micro <= 0x1F_FFFF_FFFF_FFFF
            && (e.quote == NoQuote || e.quote == Quoted(row.micro))
  {
    var s := Run(Started(replayed), events);
    RowsAreSigned(replayed, events);
    var row := s.ledger[r];
    assert RowOf(row, s.attempts);
    var id :| 0 <= id < |s.attempts| && s.attempts[id].stage == Signing
              && s.attempts[id].scope == row.scope && s.attempts[id].micro == row.micro;
    var t := PaymentHistory(replayed, events, id);
    i := t.begun;
  }

  /** What the check sums is the amount within the hour, as long as no row is dated after it. */
  lemma {:induction false} SinceIsWithin(ledger: seq<Entry>, scope: string, since: int, until: int)
    requires forall i :: 0 <= i < |ledger| ==> ledger[i].at <= until
    ensures RecordedSince(ledger, scope, since) == RecordedWithin(ledger, scope, since, until)
  {
    if ledger != [] {
      SinceIsWithin(ledger[..|ledger| - 1], scope, since, until);
    }
  }
}
