/**
 * Schedules of overlapping calls. Whether every run of a schedule keeps the pin on
 * one branch is decided by its shape alone: no call may complete after another one
 * has completed since it started.
 */
module PinSchedules {
  import opened Bytes
  import opened Codec
  import opened Merkle
  import opened Pow2Test
  import opened Exactness
  import opened Sth
  import opened Equivocation
  import opened Adjudication
  import opened Pinning
  import opened PinRuns
  import opened PinInterleaved
  import opened PinForks
  import opened Premises

  // ---------------------------------------------------------------- schedules

  /** What a schedule of calls looks like from outside: a call starts, or the call with a number completes. */
  datatype Move = Starts | Ends(call: nat)

  function MoveOf(e: Event): Move {
    match e
    case StartCall(_, _, _) => Starts
    case EndCall(i, _) => Ends(i)
  }

  function Shape(events: seq<Event>): (shape: seq<Move>)
    ensures |shape| == |events|
  {
    seq(|events|, i requires 0 <= i < |events| => MoveOf(events[i]))
  }

  /** Every started call that has not completed has now been overtaken. */
  function Overtake(open: seq<Option<bool>>): (r: seq<Option<bool>>)
    ensures |r| == |open|
  {
    seq(|open|, i requires 0 <= i < |open| => if open[i].Some? then Some(true) else None)
  }

  predicate IsOpen(open: seq<Option<bool>>, i: nat) { i < |open| && open[i].Some? }

  function OpenAfter(open: seq<Option<bool>>, m: Move): seq<Option<bool>> {
    match m
    case Starts => open + [Some(false)]
    case Ends(i) => if IsOpen(open, i) then Overtake(open)[i := None] else open
  }

  /**
   * After the first n moves, for each call started: none once it has completed, otherwise whether another has
   * completed since it started.
   */
  function Open(schedule: seq<Move>, n: nat): seq<Option<bool>>
    requires n <= |schedule|
  {
    if n == 0 then [] else OpenAfter(Open(schedule, n - 1), schedule[n - 1])
  }

  /** The move completes a call that another one has overtaken. */
  predicate Late(open: seq<Option<bool>>, m: Move) { m.Ends? && IsOpen(open, m.call) && open[m.call] == Some(true) }

  /** No call completes after another one has completed since it started. */
  ghost predicate Undisturbed(schedule: seq<Move>) {
    forall r :: 0 <= r < |schedule| ==> !Late(Open(schedule, r), schedule[r])
  }

  // ---------------------------------------------------------------- undisturbed schedules are safe

  /** A waiting call is open in the schedule, and holds the current pin unless it has been overtaken. */
  ghost predicate Tied(st: Store, open: seq<Option<bool>>) {
    && |st.calls| == |open|
    && forall i :: 0 <= i < |open| && st.calls[i].Some? ==>
         open[i].Some? && (open[i] == Some(false) ==> st.calls[i].value.from == st.current)
  }

  lemma StartKeepsTied(h: Hasher<Digest>, c: Crypto, trusted: Trusted, st: Store, s: SignedTreeHead, hasFetcher: bool,
                       now: int, open: seq<Option<bool>>)
    requires Inv(h, c, trusted, st) && Tied(st, open)
    ensures Tied(Step(h, c, trusted, st, StartCall(s, hasFetcher, now)), OpenAfter(open, Starts))
  {
    BeginMoves(h, c, trusted, st.pin, s, hasFetcher, now);
    assert st.pin.None? ==> forall i :: 0 <= i < |st.calls| ==> st.calls[i].None?;
  }

  lemma ClosedTied(st: Store, open: seq<Option<bool>>, i: nat, after: Store)
    requires Tied(st, open) && i < |st.calls| && st.calls[i].Some? && after.calls == st.calls[i := None]
    ensures Tied(after, OpenAfter(open, Ends(i)))
  {
  }

  lemma EndKeepsTied(h: Hasher<Digest>, c: Crypto, trusted: Trusted, st: Store, i: nat, answer: Option<seq<string>>,
                     open: seq<Option<bool>>)
    requires Inv(h, c, trusted, st) && Tied(st, open)
    ensures Tied(Step(h, c, trusted, st, EndCall(i, answer)), OpenAfter(open, Ends(i)))
  {
    if i < |st.calls| && st.calls[i].Some? {
      var call := st.calls[i].value;
      EndIs(h, c, trusted, st, i, answer, call, Install(call.w.observed, call.from, PathOf(answer)));
      ClosedTied(st, open, i, Step(h, c, trusted, st, EndCall(i, answer)));
    }
  }

  lemma StepKeepsTied(h: Hasher<Digest>, c: Crypto, trusted: Trusted, st: Store, e: Event, open: seq<Option<bool>>)
    requires Inv(h, c, trusted, st) && Tied(st, open)
    ensures Tied(Step(h, c, trusted, st, e), OpenAfter(open, MoveOf(e)))
  {
    match e
    case StartCall(s, hasFetcher, now) => StartKeepsTied(h, c, trusted, st, s, hasFetcher, now, open);
    case EndCall(i, answer) => EndKeepsTied(h, c, trusted, st, i, answer, open);
  }

  lemma FreshTied(h: Hasher<Digest>, c: Crypto, trusted: Trusted, initial: Option<PinnedHead>, events: seq<Event>)
    requires PinOk(c, trusted, initial)
    ensures Inv(h, c, trusted, StoreAt(h, c, trusted, initial, events, 0))
    ensures Tied(StoreAt(h, c, trusted, initial, events, 0), Open(Shape(events), 0))
  {
    FreshHasInv(h, c, trusted, initial);
  }

  lemma TiedNext(h: Hasher<Digest>, c: Crypto, trusted: Trusted, initial: Option<PinnedHead>, events: seq<Event>,
                 n: nat, k: nat)
    requires n < |events| && k == n + 1
    requires Inv(h, c, trusted, StoreAt(h, c, trusted, initial, events, n))
    requires Tied(StoreAt(h, c, trusted, initial, events, n), Open(Shape(events), n))
    ensures Inv(h, c, trusted, StoreAt(h, c, trusted, initial, events, k))
    ensures Tied(StoreAt(h, c, trusted, initial, events, k), Open(Shape(events), k))
  {
    StoreAtNext(h, c, trusted, initial, events, n);
    StepKeepsInv(h, c, trusted, StoreAt(h, c, trusted, initial, events, n), events[n]);
    StepKeepsTied(h, c, trusted, StoreAt(h, c, trusted, initial, events, n), events[n], Open(Shape(events), n));
  }

  lemma {:induction false} RunTied(h: Hasher<Digest>, c: Crypto, trusted: Trusted, initial: Option<PinnedHead>,
                                   events: seq<Event>, k: nat)
    requires PinOk(c, trusted, initial) && k <= |events|
    ensures Inv(h, c, trusted, StoreAt(h, c, trusted, initial, events, k))
    ensures Tied(StoreAt(h, c, trusted, initial, events, k), Open(Shape(events), k))
  {
    if k == 0 {
      FreshTied(h, c, trusted, initial, events);
    } else {
      var n := k - 1;
      RunTied(h, c, trusted, initial, events, n);
      TiedNext(h, c, trusted, initial, events, n, k);
    }
  }

  lemma EndIsSafe(h: Hasher<Digest>, c: Crypto, trusted: Trusted, st: Store, i: nat, answer: Option<seq<string>>)
    requires Inv(h, c, trusted, st)
    requires i < |st.calls| && st.calls[i].Some? ==> st.calls[i].value.from == st.current
    ensures ForkSafe(h, c, trusted, st, Step(h, c, trusted, st, EndCall(i, answer)))
  {
    if i < |st.calls| && st.calls[i].Some? {
      CompletionKeepsBranch(h, c, trusted, st, i, answer);
    } else {
      SamePinIsSafe(h, c, trusted, st, Step(h, c, trusted, st, EndCall(i, answer)));
    }
  }

  lemma TiedCall(st: Store, open: seq<Option<bool>>, i: nat)
    requires Tied(st, open) && !Late(open, Ends(i)) && i < |st.calls| && st.calls[i].Some?
    ensures st.calls[i].value.from == st.current
  {
    if open[i].value {
      assert Late(open, Ends(i));
    } else {
      assert open[i] == Some(false);
    }
  }

  lemma StepIsSafe(h: Hasher<Digest>, c: Crypto, trusted: Trusted, st: Store, e: Event, open: seq<Option<bool>>)
    requires Inv(h, c, trusted, st) && Tied(st, open) && !Late(open, MoveOf(e))
    ensures ForkSafe(h, c, trusted, st, Step(h, c, trusted, st, e))
  {
    match e
    case StartCall(s, hasFetcher, now) =>
      StartIsSafe(h, c, trusted, st, s, hasFetcher, now);
    case EndCall(i, answer) =>
      if i < |st.calls| && st.calls[i].Some? {
        TiedCall(st, open, i);
        EndIsSafe(h, c, trusted, st, i, answer);
      } else {
        EndIsSafe(h, c, trusted, st, i, answer);
      }
  }

  /** In an undisturbed schedule no step takes the pin across a fork, whatever heads and paths are served. */
  lemma UndisturbedIsSafe(h: Hasher<Digest>, c: Crypto, trusted: Trusted, initial: Option<PinnedHead>,
                          events: seq<Event>, k: nat)
    requires PinOk(c, trusted, initial) && k < |events| && Undisturbed(Shape(events))
    ensures ForkSafe(h, c, trusted, StoreAt(h, c, trusted, initial, events, k),
                     StoreAt(h, c, trusted, initial, events, k + 1))
  {
    RunTied(h, c, trusted, initial, events, k);
    StoreAtNext(h, c, trusted, initial, events, k);
    assert !Late(Open(Shape(events), k), Shape(events)[k]);
    StepIsSafe(h, c, trusted, StoreAt(h, c, trusted, initial, events, k), events[k], Open(Shape(events), k));
  }

  // ---------------------------------------------------------------- disturbed schedules are not

  predicate NotEnded(open: seq<Option<bool>>, n: nat) { n < |open| ==> open[n].Some? }

  /** A call that has not ended had not ended before, and the move was not its completion. */
  lemma NotEndedBefore(open: seq<Option<bool>>, m: Move, n: nat)
    requires NotEnded(OpenAfter(open, m), n)
    ensures NotEnded(open, n) && (m == Ends(n) ==> n >= |open|)
  {
  }

  lemma NotEndedAt(schedule: seq<Move>, n: nat, m: nat, k: nat)
    requires n < m == n + 1 <= |schedule| && NotEnded(Open(schedule, m), k)
    ensures NotEnded(Open(schedule, n), k)
  {
    NotEndedBefore(Open(schedule, n), schedule[n], k);
  }

  lemma {:induction false} OpenGrows(schedule: seq<Move>, q: nat, m: nat)
    requires q <= m <= |schedule|
    ensures |Open(schedule, q)| <= |Open(schedule, m)|
  {
    if q < m {
      OpenGrows(schedule, q, m - 1);
    }
  }

  /** A call that is open at two points is open in between. */
  lemma StillOpen(schedule: seq<Move>, q: nat, n: nat, m: nat, k: nat)
    requires q <= n < m == n + 1 <= |schedule| && IsOpen(Open(schedule, q), k) && IsOpen(Open(schedule, m), k)
    ensures IsOpen(Open(schedule, n), k)
  {
    OpenGrows(schedule, q, n);
    NotEndedBefore(Open(schedule, n), schedule[n], k);
  }

  /** The call that overtook k completed while both were open. */
  lemma {:induction false} FindOvertaker(schedule: seq<Move>, m: nat, k: nat) returns (q: nat, j: nat)
    requires m <= |schedule| && k < |Open(schedule, m)| && Open(schedule, m)[k] == Some(true)
    ensures q < m && schedule[q] == Ends(j) && j != k
    ensures IsOpen(Open(schedule, q), j) && IsOpen(Open(schedule, q), k)
    decreases m
  {
    var open := Open(schedule, m - 1);
    if schedule[m - 1].Ends? && IsOpen(open, schedule[m - 1].call) {
      q, j := m - 1, schedule[m - 1].call;
    } else {
      q, j := FindOvertaker(schedule, m - 1, k);
    }
  }

  /** A head that does not verify. */
  function NoHead(): SignedTreeHead { SignedTreeHead([], [], None, 0, 0, "", "", None) }

  /** Realises a move: call k observes d, call j observes b, every other call a head that does not verify. */
  ghost function EventFor(h: Hasher<Digest>, f: Fork, m: Move, number: nat, k: nat, j: nat): Event
    requires Sized(f)
  {
    match m
    case Starts => StartCall(if number == k then f.d else if number == j then f.b else NoHead(), true, 0)
    case Ends(i) =>
      EndCall(i, if i == k then Some(OwnPath(h, f.listD, f.a.treeSize, f.d.treeSize))
                 else if i == j then Some(OwnPath(h, f.listB, f.a.treeSize, f.b.treeSize)) else None)
  }

  ghost function Realise(h: Hasher<Digest>, f: Fork, schedule: seq<Move>, k: nat, j: nat): (events: seq<Event>)
    requires Sized(f)
    ensures |events| == |schedule|
  {
    seq(|schedule|, m requires 0 <= m < |schedule| => EventFor(h, f, schedule[m], |Open(schedule, m)|, k, j))
  }

  lemma RealisedShape(h: Hasher<Digest>, f: Fork, schedule: seq<Move>, k: nat, j: nat)
    requires Sized(f)
    ensures Shape(Realise(h, f, schedule, k, j)) == schedule
  {
  }

  ghost function RealisedAt(h: Hasher<Digest>, c: Crypto, trusted: Trusted, f: Fork, schedule: seq<Move>, k: nat,
                            j: nat, m: nat): Store
    requires Sized(f) && m <= |schedule|
  {
    StoreAt(h, c, trusted, Some(Observed(c, trusted, f.a)), Realise(h, f, schedule, k, j), m)
  }

  lemma RealisedNext(h: Hasher<Digest>, c: Crypto, trusted: Trusted, f: Fork, schedule: seq<Move>, k: nat, j: nat, m: nat,
                     open: seq<Option<bool>>)
    requires Sized(f) && m < |schedule| && open == Open(schedule, m)
    ensures RealisedAt(h, c, trusted, f, schedule, k, j, m + 1)
         == Step(h, c, trusted, RealisedAt(h, c, trusted, f, schedule, k, j, m),
                 EventFor(h, f, schedule[m], |open|, k, j))
  {
    StoreAtNext(h, c, trusted, Some(Observed(c, trusted, f.a)), Realise(h, f, schedule, k, j), m);
  }

  /** The calls of a realised schedule: k waits, j waits too until it has completed, and no other does. */
  function Waiters(number: nat, k: nat, j: nat, forK: Call, forJ: Call, withJ: bool): (calls: seq<Option<Call>>)
    ensures |calls| == number
  {
    seq(number, i => if i == k then Some(forK) else if i == j && withJ then Some(forJ) else None)
  }

  lemma WaitersNext(number: nat, k: nat, j: nat, forK: Call, forJ: Call, withJ: bool)
    ensures Waiters(number + 1, k, j, forK, forJ, withJ)
         == Waiters(number, k, j, forK, forJ, withJ)
            + [if number == k then Some(forK) else if number == j && withJ then Some(forJ) else None]
  {
  }

  lemma WaitersClose(number: nat, k: nat, j: nat, forK: Call, forJ: Call)
    requires j < number && j != k
    ensures Waiters(number, k, j, forK, forJ, true)[j := None] == Waiters(number, k, j, forK, forJ, false)
  {
  }

  /** A head that does not verify leaves the pin alone and nothing waiting. */
  lemma NoHeadStarts(h: Hasher<Digest>, c: Crypto, trusted: Trusted, st: Store)
    ensures Step(h, c, trusted, st, StartCall(NoHead(), true, 0)) == st.(calls := st.calls + [None])
  {
    assert EncodeSthPreimage(NoHead()).None?;
    VerifySthExact(c, NoHead(), trusted);
  }

  /** The store before the overtaking, and after it. */
  ghost function StoreBefore(c: Crypto, trusted: Trusted, f: Fork, number: nat, k: nat, j: nat): Store {
    Store(Some(Observed(c, trusted, f.a)),
          Waiters(number, k, j, CallFor(c, trusted, f, f.d), CallFor(c, trusted, f, f.b), true),
          [Install(Observed(c, trusted, f.a), 0, [])], 0)
  }

  ghost function StoreAfter(h: Hasher<Digest>, c: Crypto, trusted: Trusted, f: Fork, number: nat, k: nat, j: nat): Store
    requires Sized(f)
  {
    Store(Some(Observed(c, trusted, f.b)),
          Waiters(number, k, j, CallFor(c, trusted, f, f.d), CallFor(c, trusted, f, f.b), false),
          [Install(Observed(c, trusted, f.a), 0, []), Added(h, c, trusted, f, f.b, f.listB)], 1)
  }

  lemma StartBefore(h: Hasher<Digest>, c: Crypto, trusted: Trusted, f: Fork, number: nat, k: nat, j: nat)
    requires Rivals(h, c, trusted, f) && j != k
    ensures Step(h, c, trusted, StoreBefore(c, trusted, f, number, k, j), EventFor(h, f, Starts, number, k, j))
         == StoreBefore(c, trusted, f, number + 1, k, j)
  {
    var st := StoreBefore(c, trusted, f, number, k, j);
    RivalsWait(h, c, trusted, f);
    WaitersNext(number, k, j, CallFor(c, trusted, f, f.d), CallFor(c, trusted, f, f.b), true);
    if number == k {
      StartWaits(h, c, trusted, st, Observed(c, trusted, f.a), f.d);
    } else if number == j {
      StartWaits(h, c, trusted, st, Observed(c, trusted, f.a), f.b);
    } else {
      NoHeadStarts(h, c, trusted, st);
    }
  }

  lemma StartAfter(h: Hasher<Digest>, c: Crypto, trusted: Trusted, f: Fork, number: nat, k: nat, j: nat)
    requires Rivals(h, c, trusted, f) && k < number && j < number
    ensures Step(h, c, trusted, StoreAfter(h, c, trusted, f, number, k, j), EventFor(h, f, Starts, number, k, j))
         == StoreAfter(h, c, trusted, f, number + 1, k, j)
  {
    NoHeadStarts(h, c, trusted, StoreAfter(h, c, trusted, f, number, k, j));
    WaitersNext(number, k, j, CallFor(c, trusted, f, f.d), CallFor(c, trusted, f, f.b), false);
  }

  /** Completing a call that does not wait changes nothing. */
  lemma IdleBefore(h: Hasher<Digest>, c: Crypto, trusted: Trusted, f: Fork, number: nat, k: nat, j: nat, i: nat)
    requires Sized(f)
    requires i >= number || (i != k && i != j)
    ensures Step(h, c, trusted, StoreBefore(c, trusted, f, number, k, j), EventFor(h, f, Ends(i), number, k, j))
         == StoreBefore(c, trusted, f, number, k, j)
  {
  }

  lemma IdleAfter(h: Hasher<Digest>, c: Crypto, trusted: Trusted, f: Fork, number: nat, k: nat, j: nat, i: nat)
    requires Sized(f)
    requires i != k
    ensures Step(h, c, trusted, StoreAfter(h, c, trusted, f, number, k, j), EventFor(h, f, Ends(i), number, k, j))
         == StoreAfter(h, c, trusted, f, number, k, j)
  {
  }

  /** One more move at which neither of the two calls completes. */
  lemma MoveBefore(h: Hasher<Digest>, c: Crypto, trusted: Trusted, f: Fork, open: seq<Option<bool>>, m: Move, k: nat,
                   j: nat)
    requires Rivals(h, c, trusted, f) && j != k && NotEnded(OpenAfter(open, m), k) && NotEnded(OpenAfter(open, m), j)
    ensures Step(h, c, trusted, StoreBefore(c, trusted, f, |open|, k, j), EventFor(h, f, m, |open|, k, j))
         == StoreBefore(c, trusted, f, |OpenAfter(open, m)|, k, j)
  {
    NotEndedBefore(open, m, k);
    NotEndedBefore(open, m, j);
    match m
    case Starts => StartBefore(h, c, trusted, f, |open|, k, j);
    case Ends(i) => IdleBefore(h, c, trusted, f, |open|, k, j, i);
  }

  lemma NotYetOvertaken(h: Hasher<Digest>, c: Crypto, trusted: Trusted, f: Fork, schedule: seq<Move>, n: nat, m: nat,
                        k: nat, j: nat)
    requires Rivals(h, c, trusted, f) && j != k && n < |schedule| && m == n + 1
    requires NotEnded(Open(schedule, m), k) && NotEnded(Open(schedule, m), j)
    requires RealisedAt(h, c, trusted, f, schedule, k, j, n) == StoreBefore(c, trusted, f, |Open(schedule, n)|, k, j)
    ensures RealisedAt(h, c, trusted, f, schedule, k, j, m) == StoreBefore(c, trusted, f, |Open(schedule, m)|, k, j)
  {
    RealisedNext(h, c, trusted, f, schedule, k, j, n, Open(schedule, n));
    MoveBefore(h, c, trusted, f, Open(schedule, n), schedule[n], k, j);
  }

  lemma NothingYet(h: Hasher<Digest>, c: Crypto, trusted: Trusted, f: Fork, schedule: seq<Move>, k: nat, j: nat)
    requires Sized(f)
    ensures RealisedAt(h, c, trusted, f, schedule, k, j, 0) == StoreBefore(c, trusted, f, 0, k, j)
  {
    assert Waiters(0, k, j, CallFor(c, trusted, f, f.d), CallFor(c, trusted, f, f.b), true) == [];
  }

  /** Up to any point at which neither of the two calls has completed, the pin is the common one. */
  lemma {:induction false} BeforeOvertaking(h: Hasher<Digest>, c: Crypto, trusted: Trusted, f: Fork, schedule: seq<Move>,
                                            m: nat, k: nat, j: nat)
    requires Rivals(h, c, trusted, f) && j != k && m <= |schedule|
    requires NotEnded(Open(schedule, m), k) && NotEnded(Open(schedule, m), j)
    ensures RealisedAt(h, c, trusted, f, schedule, k, j, m) == StoreBefore(c, trusted, f, |Open(schedule, m)|, k, j)
  {
    if m == 0 {
      NothingYet(h, c, trusted, f, schedule, k, j);
    } else {
      var n := m - 1;
      NotEndedAt(schedule, n, m, k);
      NotEndedAt(schedule, n, m, j);
      BeforeOvertaking(h, c, trusted, f, schedule, n, k, j);
      NotYetOvertaken(h, c, trusted, f, schedule, n, m, k, j);
    }
  }

  /** The overtaking itself. */
  lemma Overtaking(h: Hasher<Digest>, c: Crypto, trusted: Trusted, f: Fork, number: nat, k: nat, j: nat)
    requires Rivals(h, c, trusted, f) && j != k && k < number && j < number
    ensures Step(h, c, trusted, StoreBefore(c, trusted, f, number, k, j), EventFor(h, f, Ends(j), number, k, j))
         == StoreAfter(h, c, trusted, f, number, k, j)
  {
    var st := StoreBefore(c, trusted, f, number, k, j);
    RivalsWait(h, c, trusted, f);
    RivalAdvances(h, c, trusted, st, j, f, f.b, f.listB);
    WaitersClose(number, k, j, CallFor(c, trusted, f, f.d), CallFor(c, trusted, f, f.b));
  }

  /** One more move after which k is still open. */
  lemma MoveAfter(h: Hasher<Digest>, c: Crypto, trusted: Trusted, f: Fork, open: seq<Option<bool>>, m: Move, k: nat,
                  j: nat)
    requires Rivals(h, c, trusted, f) && k < |open| && j < |open| && IsOpen(open, k) && IsOpen(OpenAfter(open, m), k)
    ensures Step(h, c, trusted, StoreAfter(h, c, trusted, f, |open|, k, j), EventFor(h, f, m, |open|, k, j))
         == StoreAfter(h, c, trusted, f, |OpenAfter(open, m)|, k, j)
  {
    NotEndedBefore(open, m, k);
    match m
    case Starts => StartAfter(h, c, trusted, f, |open|, k, j);
    case Ends(i) => IdleAfter(h, c, trusted, f, |open|, k, j, i);
  }

  lemma JustOvertaken(h: Hasher<Digest>, c: Crypto, trusted: Trusted, f: Fork, schedule: seq<Move>, q: nat, m: nat,
                      k: nat, j: nat)
    requires Rivals(h, c, trusted, f) && j != k && q < |schedule| && schedule[q] == Ends(j) && m == q + 1
    requires IsOpen(Open(schedule, q), j) && IsOpen(Open(schedule, q), k)
    ensures RealisedAt(h, c, trusted, f, schedule, k, j, m) == StoreAfter(h, c, trusted, f, |Open(schedule, m)|, k, j)
  {
    var open := Open(schedule, q);
    BeforeOvertaking(h, c, trusted, f, schedule, q, k, j);
    RealisedNext(h, c, trusted, f, schedule, k, j, q, open);
    Overtaking(h, c, trusted, f, |open|, k, j);
  }

  lemma StillOvertaken(h: Hasher<Digest>, c: Crypto, trusted: Trusted, f: Fork, schedule: seq<Move>, q: nat, n: nat,
                       m: nat, k: nat, j: nat)
    requires Rivals(h, c, trusted, f) && q <= n < |schedule| && m == n + 1
    requires IsOpen(Open(schedule, q), j) && IsOpen(Open(schedule, n), k) && IsOpen(Open(schedule, m), k)
    requires RealisedAt(h, c, trusted, f, schedule, k, j, n) == StoreAfter(h, c, trusted, f, |Open(schedule, n)|, k, j)
    ensures RealisedAt(h, c, trusted, f, schedule, k, j, m) == StoreAfter(h, c, trusted, f, |Open(schedule, m)|, k, j)
  {
    var open := Open(schedule, n);
    OpenGrows(schedule, q, n);
    RealisedNext(h, c, trusted, f, schedule, k, j, n, open);
    MoveAfter(h, c, trusted, f, open, schedule[n], k, j);
  }

  /** From the overtaking on, while k is open, the pin is the overtaker's. */
  lemma {:induction false} AfterOvertaking(h: Hasher<Digest>, c: Crypto, trusted: Trusted, f: Fork, schedule: seq<Move>,
                                           q: nat, m: nat, k: nat, j: nat)
    requires Rivals(h, c, trusted, f) && j != k && q < m <= |schedule| && schedule[q] == Ends(j)
    requires IsOpen(Open(schedule, q), j) && IsOpen(Open(schedule, q), k) && IsOpen(Open(schedule, m), k)
    ensures RealisedAt(h, c, trusted, f, schedule, k, j, m) == StoreAfter(h, c, trusted, f, |Open(schedule, m)|, k, j)
    decreases m
  {
    var n := m - 1;
    if n == q {
      JustOvertaken(h, c, trusted, f, schedule, q, m, k, j);
    } else {
      StillOpen(schedule, q, n, m, k);
      AfterOvertaking(h, c, trusted, f, schedule, q, n, k, j);
      StillOvertaken(h, c, trusted, f, schedule, q, n, m, k, j);
    }
  }

  /** The pins installed by then: the common one and the heads of the two branches. */
  ghost function Branches(h: Hasher<Digest>, c: Crypto, trusted: Trusted, f: Fork): seq<Install>
    requires Sized(f)
  {
    [Install(Observed(c, trusted, f.a), 0, []), Added(h, c, trusted, f, f.b, f.listB),
     Added(h, c, trusted, f, f.d, f.listD)]
  }

  lemma LateStep(h: Hasher<Digest>, c: Crypto, trusted: Trusted, f: Fork, schedule: seq<Move>, q: nat, r: nat, k: nat,
                 j: nat)
    requires Rivals(h, c, trusted, f) && Diverged(f) && j != k && q < r < |schedule|
    requires schedule[q] == Ends(j) && IsOpen(Open(schedule, q), j) && IsOpen(Open(schedule, q), k)
    requires schedule[r] == Ends(k) && IsOpen(Open(schedule, r), k)
    ensures var before := RealisedAt(h, c, trusted, f, schedule, k, j, r);
            var after := RealisedAt(h, c, trusted, f, schedule, k, j, r + 1);
            && Crosses(h, before, after, f.listB[..f.b.treeSize], f.listD[..f.d.treeSize])
            && after.installed == Branches(h, c, trusted, f)
  {
    var open, added := Open(schedule, r), Added(h, c, trusted, f, f.d, f.listD);
    AfterOvertaking(h, c, trusted, f, schedule, q, r, k, j);
    RealisedNext(h, c, trusted, f, schedule, k, j, r, open);
    var before := StoreAfter(h, c, trusted, f, |open|, k, j);
    RivalsWait(h, c, trusted, f);
    RivalAdvances(h, c, trusted, before, k, f, f.d, f.listD);
    RivalPinsCross(h, c, trusted, f, before, Advancing(before, k, added));
    assert before.installed + [added] == Branches(h, c, trusted, f);
  }

  /**
   * Any schedule with a late completion can be filled with heads and paths that take the pin across a given fork
   * there.
   */
  lemma LateCompletionCrosses(h: Hasher<Digest>, c: Crypto, trusted: Trusted, f: Fork, schedule: seq<Move>, r: nat)
    returns (events: seq<Event>)
    requires Rivals(h, c, trusted, f) && Diverged(f)
    requires r < |schedule| && Late(Open(schedule, r), schedule[r])
    ensures Shape(events) == schedule
    ensures var initial := Some(Observed(c, trusted, f.a));
            var before := StoreAt(h, c, trusted, initial, events, r);
            var after := StoreAt(h, c, trusted, initial, events, r + 1);
            && Crosses(h, before, after, f.listB[..f.b.treeSize], f.listD[..f.d.treeSize])
            && after.installed == Branches(h, c, trusted, f)
  {
    var k := schedule[r].call;
    var q, j := FindOvertaker(schedule, r, k);
    events := Realise(h, f, schedule, k, j);
    RealisedShape(h, f, schedule, k, j);
    LateStep(h, c, trusted, f, schedule, q, r, k, j);
  }

  // ---------------------------------------------------------------- a fork without a collision

  /** A digest with one byte that matters. */
  function Mark(n: byte): Digest { [n] + seq(31, _ => 0) }

  /** A hash that tells apart the inputs of the two lists below. */
  function MarkHash(): Hasher<Digest> {
    (x: Input<Digest>) =>
      match x
      case EmptyInput => Mark(0)
      case LeafInput(e) => Mark(if e == [] then 1 else if e == [1] then 2 else if e == [2] then 3 else 9)
      case NodeInput(left, right) => Mark(if right == Mark(2) then 4 else if right == Mark(3) then 5 else 9)
  }

  function MarkInputs(): set<Input<Digest>> {
    {EmptyInput, LeafInput([]), LeafInput([1]), LeafInput([2]), NodeInput(Mark(1), Mark(2)), NodeInput(Mark(1), Mark(3))}
  }

  lemma MarksDiffer(m: byte, n: byte)
    requires Mark(m) == Mark(n)
    ensures m == n
  {
    assert Mark(m)[0] == m && Mark(n)[0] == n;
  }

  /** The number the hash marks an input with. */
  function MarkOf(x: Input<Digest>): byte { MarkHash()(x)[0] }

  lemma MarkInputsApart(x: Input<Digest>, y: Input<Digest>)
    requires x in MarkInputs() && y in MarkInputs() && MarkHash()(x) == MarkHash()(y)
    ensures x == y
  {
    if Mark(2) == Mark(3) { MarksDiffer(2, 3); }
    assert MarkOf(x) == MarkOf(y);
  }

  lemma NoMarkCollision()
    ensures !Collides<Digest>(MarkHash(), MarkInputs())
  {
    forall x, y | x in MarkInputs() && y in MarkInputs() ensures !CollidingPair<Digest>(MarkHash(), x, y) {
      if MarkHash()(x) == MarkHash()(y) { MarkInputsApart(x, y); }
    }
  }

  /** Two lists that share their first entry and differ in their second. */
  function TwoEntries(second: byte): seq<bytes> { [[], [second]] }

  /** The heads after one entry, and after the second of each list. */
  function ForkAfterOne(h: Hasher<Digest>, log: bytes, listB: seq<bytes>, listD: seq<bytes>): Fork
    requires |listB| == 2 == |listD|
  {
    Fork(HeadFor(h, log, listB, 1), HeadFor(h, log, listB, 2), HeadFor(h, log, listD, 2), listB, listD)
  }

  lemma ForkAfterOneRivals(h: Hasher<Digest>, log: bytes, listB: seq<bytes>, listD: seq<bytes>)
    requires 0 < |log| <= MAX_LOG_ID_UTF8 && |listB| == 2 == |listD| && listB[..1] == listD[..1]
    ensures Rivals(h, AcceptAll(), SingleKey(""), ForkAfterOne(h, log, listB, listD))
  {
    assert HeadFor(h, log, listB, 1) == HeadFor(h, log, listD, 1);
    HeadForIsHonest(h, log, listB, 1);
    HeadForIsHonest(h, log, listD, 1);
    HeadForIsHonest(h, log, listB, 2);
    HeadForIsHonest(h, log, listD, 2);
  }

  function SmallFork(): Fork { ForkAfterOne(MarkHash(), [76], TwoEntries(1), TwoEntries(2)) }

  lemma SmallForkDiverges()
    ensures Sized(SmallFork()) && Diverged(SmallFork())
  {
    assert TwoEntries(1)[..2][1] == [1] && TwoEntries(2)[..2][1] == [2];
  }

  lemma SameFirstEntry()
    ensures TwoEntries(1)[..1] == TwoEntries(2)[..1]
  {
  }

  lemma SmallForkRivals()
    ensures Rivals(MarkHash(), AcceptAll(), SingleKey(""), SmallFork())
  {
    SameFirstEntry();
    ForkAfterOneRivals(MarkHash(), [76], TwoEntries(1), TwoEntries(2));
  }

  /** The tree of either list, and the step to it from its first entry, hash only marked inputs. */
  lemma SmallTree(second: byte)
    requires second == 1 || second == 2
    ensures var h, entries := MarkHash(), TwoEntries(second);
            && Mth<Digest>(h, entries, 0, 1) == Mark(1) && Mth<Digest>(h, entries, 1, 2) == Mark(second + 1)
            && TreeHashed<Digest>(h, entries, 0, 2, MarkInputs()) && PrefixesHashed(h, entries, MarkInputs())
            && SubProof<Digest>(h, entries, 1, 0, 2, true) == [Mark(second + 1)]
  {
    var h, entries := MarkHash(), TwoEntries(second);
    assert Split(2) == 1;
    assert entries[0] == [] && entries[1] == [second];
    forall k | 0 <= k <= |entries| ensures TreeHashed<Digest>(h, entries, 0, k, MarkInputs()) {
      assert k == 0 || k == 1 || k == 2;
    }
  }

  /** What a rival call installs is proven from the common pin. */
  lemma StepProven(h: Hasher<Digest>, c: Crypto, trusted: Trusted, f: Fork, s: SignedTreeHead, entries: seq<bytes>)
    requires |entries| <= 0x8000_0000 && 0 <= f.a.treeSize < s.treeSize <= |entries|
    requires HonestHead(h, c, trusted, f.a, f.a.logId, entries) && HonestHead(h, c, trusted, s, f.a.logId, entries)
    ensures FromVerified(c, trusted, Observed(c, trusted, s))
    ensures ProvenStep(h, Observed(c, trusted, f.a), Observed(c, trusted, s), Added(h, c, trusted, f, s, entries).path)
  {
    FirstCallPins(h, c, trusted, s);
    HonestPathAccepted(h, f.a, s, entries);
  }

  lemma TwoStepsFormTree(h: Hasher<Digest>, c: Crypto, trusted: Trusted, a: PinnedHead, forB: Install, forD: Install)
    requires FromVerified(c, trusted, a) && FromVerified(c, trusted, forB.head) && FromVerified(c, trusted, forD.head)
    requires forB.parent == 0 && ProvenStep(h, a, forB.head, forB.path)
    requires forD.parent == 0 && ProvenStep(h, a, forD.head, forD.path)
    ensures PinTree(h, c, trusted, [Install(a, 0, []), forB, forD])
  {
    var root := [Install(a, 0, [])];
    TreeGrows(h, c, trusted, root, forB);
    TreeGrows(h, c, trusted, root + [forB], forD);
    assert root + [forB] + [forD] == [Install(a, 0, []), forB, forD];
  }

  lemma BranchesFormTree(h: Hasher<Digest>, c: Crypto, trusted: Trusted, f: Fork)
    requires Rivals(h, c, trusted, f)
    ensures PinTree(h, c, trusted, Branches(h, c, trusted, f))
  {
    FirstCallPins(h, c, trusted, f.a);
    StepProven(h, c, trusted, f, f.b, f.listB);
    StepProven(h, c, trusted, f, f.d, f.listD);
    TwoStepsFormTree(h, c, trusted, Observed(c, trusted, f.a), Added(h, c, trusted, f, f.b, f.listB),
                     Added(h, c, trusted, f, f.d, f.listD));
  }

  lemma BranchStepsHashed(h: Hasher<Digest>, c: Crypto, trusted: Trusted, f: Fork, a: PinnedHead, forB: Install,
                          forD: Install, inputs: set<Input<Digest>>)
    requires Sized(f) && PinTree(h, c, trusted, Branches(h, c, trusted, f))
    requires Branches(h, c, trusted, f) == [Install(a, 0, []), forB, forD] && forB.parent == 0 && forD.parent == 0
    requires ProvenStep(h, a, forB.head, forB.path) && StepHashed(h, a, forB.head, forB.path, inputs)
    requires ProvenStep(h, a, forD.head, forD.path) && StepHashed(h, a, forD.head, forD.path, inputs)
    ensures TreeStepsHashed(h, c, trusted, Branches(h, c, trusted, f), inputs)
  {
  }

  lemma WholeList(entries: seq<bytes>)
    ensures entries[..|entries|] == entries
  {
  }

  lemma SmallRoot()
    ensures HexToBytes(SmallFork().a.root) == Some(Mark(1))
  {
    var h, one := MarkHash(), TwoEntries(1)[..1];
    assert one == [[]] && MerkleRoot<Digest>(h, one) == Mark(1);
    HexRoundTrip(Mark(1));
  }

  lemma SmallPathHashed(second: byte)
    requires second == 1 || second == 2
    ensures ReconcileHashed<Digest>(MarkHash(), 1, 2, Seeded<Digest>(LooksLikePow2(1), Mark(1), [Mark(second + 1)]),
                                    MarkInputs())
  {
    Pow2TestExact(1);
    var nodes: seq<Digest> := [Mark(1), Mark(second + 1)];
    assert Seeded<Digest>(true, Mark(1), [Mark(second + 1)]) == nodes;
    assert Split(2) == 1 && nodes[..1] == [Mark(1)];
  }

  lemma SmallStepHashed(second: byte, s: SignedTreeHead)
    requires second == 1 || second == 2
    requires s == HeadFor(MarkHash(), [76], TwoEntries(second), 2)
    requires var h, c, trusted, f := MarkHash(), AcceptAll(), SingleKey(""), SmallFork();
             ProvenStep(h, Observed(c, trusted, f.a), Observed(c, trusted, s),
                        Added(h, c, trusted, f, s, TwoEntries(second)).path)
    ensures var h, c, trusted, f := MarkHash(), AcceptAll(), SingleKey(""), SmallFork();
            StepHashed(h, Observed(c, trusted, f.a), Observed(c, trusted, s),
                       Added(h, c, trusted, f, s, TwoEntries(second)).path, MarkInputs())
  {
    SmallTree(second);
    SmallPathHashed(second);
    SmallRoot();
    WholeList(TwoEntries(second));
  }

  /** The inputs of the crossing are all marked, so no collision excuses it. */
  lemma SmallForkHashed(after: Store)
    requires after.installed == Branches(MarkHash(), AcceptAll(), SingleKey(""), SmallFork())
    ensures MoveHashed(MarkHash(), AcceptAll(), SingleKey(""), after, TwoEntries(1), TwoEntries(2), MarkInputs())
  {
    var h, c, trusted, f := MarkHash(), AcceptAll(), SingleKey(""), SmallFork();
    SmallForkRivals();
    BranchesFormTree(h, c, trusted, f);
    StepProven(h, c, trusted, f, f.b, f.listB);
    StepProven(h, c, trusted, f, f.d, f.listD);
    SmallStepHashed(1, f.b);
    SmallStepHashed(2, f.d);
    BranchStepsHashed(h, c, trusted, f, Observed(c, trusted, f.a), Added(h, c, trusted, f, f.b, f.listB),
                      Added(h, c, trusted, f, f.d, f.listD), MarkInputs());
    SmallTree(1);
    SmallTree(2);
  }

  // ---------------------------------------------------------------- safe schedules

  /**
   * Whatever the hash, the signatures, the first pin, the heads and the paths, no step of the schedule crosses a
   * fork.
   */
  ghost predicate SafeSchedule(schedule: seq<Move>) {
    forall h: Hasher<Digest>, c: Crypto, trusted: Trusted, initial: Option<PinnedHead>, events: seq<Event>, k: nat ::
      PinOk(c, trusted, initial) && Shape(events) == schedule && k < |events| ==>
        ForkSafe(h, c, trusted, StoreAt(h, c, trusted, initial, events, k),
                 StoreAt(h, c, trusted, initial, events, k + 1))
  }

  lemma SmallCrossingUnsafe(before: Store, after: Store)
    requires Crosses(MarkHash(), before, after, TwoEntries(1), TwoEntries(2))
    requires after.installed == Branches(MarkHash(), AcceptAll(), SingleKey(""), SmallFork())
    ensures !ForkSafe(MarkHash(), AcceptAll(), SingleKey(""), before, after)
  {
    SmallForkHashed(after);
    NoMarkCollision();
  }

  /** For a fork at the ends of its lists the lists themselves are crossed. */
  lemma WholeListsCross(h: Hasher<Digest>, c: Crypto, trusted: Trusted, f: Fork, schedule: seq<Move>, r: nat)
    returns (events: seq<Event>)
    requires Rivals(h, c, trusted, f) && Diverged(f) && f.b.treeSize == |f.listB| && f.d.treeSize == |f.listD|
    requires r < |schedule| && Late(Open(schedule, r), schedule[r])
    ensures Shape(events) == schedule && PinOk(c, trusted, Some(Observed(c, trusted, f.a)))
    ensures var initial := Some(Observed(c, trusted, f.a));
            var before := StoreAt(h, c, trusted, initial, events, r);
            var after := StoreAt(h, c, trusted, initial, events, r + 1);
            Crosses(h, before, after, f.listB, f.listD) && after.installed == Branches(h, c, trusted, f)
  {
    events := LateCompletionCrosses(h, c, trusted, f, schedule, r);
    WholeList(f.listB);
    WholeList(f.listD);
    FirstCallPins(h, c, trusted, f.a);
  }

  lemma UnsafeAt(schedule: seq<Move>, h: Hasher<Digest>, c: Crypto, trusted: Trusted, initial: Option<PinnedHead>,
                 events: seq<Event>, k: nat)
    requires PinOk(c, trusted, initial) && Shape(events) == schedule && k < |events|
    requires !ForkSafe(h, c, trusted, StoreAt(h, c, trusted, initial, events, k),
                       StoreAt(h, c, trusted, initial, events, k + 1))
    ensures !SafeSchedule(schedule)
  {
  }

  lemma LateIsUnsafe(schedule: seq<Move>, r: nat)
    requires r < |schedule| && Late(Open(schedule, r), schedule[r])
    ensures !SafeSchedule(schedule)
  {
    var h, c, trusted, f := MarkHash(), AcceptAll(), SingleKey(""), SmallFork();
    SmallForkRivals();
    SmallForkDiverges();
    var events := WholeListsCross(h, c, trusted, f, schedule, r);
    var initial := Some(Observed(c, trusted, f.a));
    SmallCrossingUnsafe(StoreAt(h, c, trusted, initial, events, r), StoreAt(h, c, trusted, initial, events, r + 1));
    UnsafeAt(schedule, h, c, trusted, initial, events, r);
  }

  /** A schedule keeps every run on one branch if and only if no call in it completes after being overtaken. */
  lemma UndisturbedExactly(schedule: seq<Move>)
    ensures SafeSchedule(schedule) <==> Undisturbed(schedule)
  {
    if Undisturbed(schedule) {
      forall h: Hasher<Digest>, c: Crypto, trusted: Trusted, initial: Option<PinnedHead>, events: seq<Event>, k: nat |
        PinOk(c, trusted, initial) && Shape(events) == schedule && k < |events|
        ensures ForkSafe(h, c, trusted, StoreAt(h, c, trusted, initial, events, k),
                         StoreAt(h, c, trusted, initial, events, k + 1))
      {
        UndisturbedIsSafe(h, c, trusted, initial, events, k);
      }
    } else {
      var r: nat :| r < |schedule| && Late(Open(schedule, r), schedule[r]);
      LateIsUnsafe(schedule, r);
    }
  }
}
