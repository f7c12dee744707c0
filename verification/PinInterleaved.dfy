/**
 * Overlapping calls of `observe`. The pin is captured before the await and
 * overwritten after it, so a call can complete against a pin that is no longer
 * current. What every interleaving keeps is a tree of installed pins, each edge
 * of which is a proven step. What it does not keep is that the pin grows (here)
 * and that it stays on one branch (PinForks).
 */
module PinInterleaved {
  import opened Bytes
  import opened Merkle
  import opened Sth
  import opened Equivocation
  import opened Adjudication
  import opened Pinning
  import opened PinRuns

  /** A pin the store has held, the earlier pin it was proven from, and the path. */
  datatype Install = Install(head: PinnedHead, parent: nat, path: seq<bytes>)

  /** A call waiting for its fetcher, and which installed pin it captured. */
  datatype Call = Call(w: Started, from: nat)

  /** The store's pin and its calls by their number, with the history of installed pins beside them. */
  datatype Store = Store(pin: Option<PinnedHead>, calls: seq<Option<Call>>, installed: seq<Install>, current: nat)

  datatype Event = StartCall(s: SignedTreeHead, hasFetcher: bool, now: int)
                 | EndCall(call: nat, answer: Option<seq<string>>)

  /** The decoded nodes of an answer, empty when there are none. */
  function PathOf(answer: Option<seq<string>>): seq<bytes> {
    if answer.Some? && DecodePath(answer.value).Some? then DecodePath(answer.value).value else []
  }

  ghost function Step(h: Hasher<Digest>, c: Crypto, trusted: Trusted, st: Store, e: Event): Store {
    match e
    case StartCall(s, hasFetcher, now) =>
      var b := Begin(h, c, trusted, st.pin, s, hasFetcher, now);
      if b.Waiting? then st.(calls := st.calls + [Some(Call(b, st.current))])
      else if st.pin.None? && b.pin.Some? then
        Store(b.pin, st.calls + [None], st.installed + [Install(b.pin.value, 0, [])], |st.installed|)
      else st.(pin := b.pin, calls := st.calls + [None])
    case EndCall(i, answer) =>
      if i >= |st.calls| || st.calls[i].None? || !st.calls[i].value.w.Waiting? then st
      else
        var call := st.calls[i].value;
        var (pin, r) := Finish(h, c, trusted, call.w, answer, st.pin);
        var closed := st.(pin := pin, calls := st.calls[i := None]);
        if r.status != Advanced then closed
        else closed.(installed := st.installed + [Install(call.w.observed, call.from, PathOf(answer))],
                     current := |st.installed|)
  }

  ghost function Run(h: Hasher<Digest>, c: Crypto, trusted: Trusted, st: Store, events: seq<Event>): Store
    decreases |events|
  {
    if events == [] then st else Run(h, c, trusted, Step(h, c, trusted, st, events[0]), events[1..])
  }

  function Fresh(initial: Option<PinnedHead>): Store {
    Store(initial, [], if initial.Some? then [Install(initial.value, 0, [])] else [], 0)
  }

  /** Every installed pin but the first was proven from a pin installed before it. */
  ghost predicate PinTree(h: Hasher<Digest>, c: Crypto, trusted: Trusted, installed: seq<Install>) {
    && (forall i :: 0 <= i < |installed| ==> FromVerified(c, trusted, installed[i].head))
    && (forall i :: 1 <= i < |installed| ==>
          && installed[i].parent < i
          && ProvenStep(h, installed[installed[i].parent].head, installed[i].head, installed[i].path))
  }

  /** Every waiting call captured a pin that was installed. */
  ghost predicate CallsOk(c: Crypto, trusted: Trusted, calls: seq<Option<Call>>, installed: seq<Install>) {
    forall i :: 0 <= i < |calls| && calls[i].Some? ==>
      && WaitingOk(c, trusted, calls[i].value.w)
      && calls[i].value.from < |installed|
      && installed[calls[i].value.from].head == calls[i].value.w.previous
  }

  ghost predicate Inv(h: Hasher<Digest>, c: Crypto, trusted: Trusted, st: Store) {
    && PinTree(h, c, trusted, st.installed)
    && (st.pin.None? ==> st.installed == [])
    && (st.pin.Some? ==> 0 <= st.current == |st.installed| - 1 && st.installed[st.current].head == st.pin.value)
    && CallsOk(c, trusted, st.calls, st.installed)
  }

  lemma CloseKeepsCalls(c: Crypto, trusted: Trusted, st: Store, i: nat)
    requires CallsOk(c, trusted, st.calls, st.installed) && i < |st.calls|
    ensures forall added :: CallsOk(c, trusted, st.calls[i := None], st.installed + added)
    ensures CallsOk(c, trusted, st.calls[i := None], st.installed)
  {
  }

  lemma CallAdded(c: Crypto, trusted: Trusted, calls: seq<Option<Call>>, installed: seq<Install>, call: Option<Call>)
    requires CallsOk(c, trusted, calls, installed)
    requires call.Some? ==> WaitingOk(c, trusted, call.value.w) && call.value.from < |installed|
                            && installed[call.value.from].head == call.value.w.previous
    ensures CallsOk(c, trusted, calls + [call], installed)
  {
  }

  lemma StartKeepsInv(h: Hasher<Digest>, c: Crypto, trusted: Trusted, st: Store, s: SignedTreeHead, hasFetcher: bool,
                      now: int)
    requires Inv(h, c, trusted, st)
    ensures Inv(h, c, trusted, Step(h, c, trusted, st, StartCall(s, hasFetcher, now)))
    ensures st.installed <= Step(h, c, trusted, st, StartCall(s, hasFetcher, now)).installed
  {
    BeginMoves(h, c, trusted, st.pin, s, hasFetcher, now);
    var b := Begin(h, c, trusted, st.pin, s, hasFetcher, now);
    CallAdded(c, trusted, st.calls, st.installed, if b.Waiting? then Some(Call(b, st.current)) else None);
  }

  lemma TreeGrows(h: Hasher<Digest>, c: Crypto, trusted: Trusted, installed: seq<Install>, added: Install)
    requires PinTree(h, c, trusted, installed) && FromVerified(c, trusted, added.head) && added.parent < |installed|
    requires ProvenStep(h, installed[added.parent].head, added.head, added.path)
    ensures PinTree(h, c, trusted, installed + [added])
  {
    var grown := installed + [added];
    forall i | 0 <= i < |grown| ensures FromVerified(c, trusted, grown[i].head) {
      assert i < |installed| ==> grown[i] == installed[i];
    }
    forall i | 1 <= i < |grown|
      ensures grown[i].parent < i && ProvenStep(h, grown[grown[i].parent].head, grown[i].head, grown[i].path)
    {
      assert i < |installed| ==> grown[i] == installed[i];
      assert grown[grown[i].parent] == installed[grown[i].parent];
    }
  }

  /** The store after the call has closed, with the pin as it was. */
  function Closed(st: Store, i: nat): Store
    requires i < |st.calls|
  {
    st.(calls := st.calls[i := None])
  }

  /** The store after the call has closed and installed a pin. */
  function Advancing(st: Store, i: nat, added: Install): Store
    requires i < |st.calls|
  {
    Store(Some(added.head), st.calls[i := None], st.installed + [added], |st.installed|)
  }

  lemma ClosedKeepsInv(h: Hasher<Digest>, c: Crypto, trusted: Trusted, st: Store, i: nat)
    requires Inv(h, c, trusted, st) && i < |st.calls|
    ensures Inv(h, c, trusted, Closed(st, i))
  {
    CloseKeepsCalls(c, trusted, st, i);
  }

  lemma AdvancingKeepsInv(h: Hasher<Digest>, c: Crypto, trusted: Trusted, st: Store, i: nat, added: Install)
    requires Inv(h, c, trusted, st) && i < |st.calls|
    requires FromVerified(c, trusted, added.head) && added.parent < |st.installed|
    requires ProvenStep(h, st.installed[added.parent].head, added.head, added.path)
    ensures Inv(h, c, trusted, Advancing(st, i, added))
  {
    CloseKeepsCalls(c, trusted, st, i);
    TreeGrows(h, c, trusted, st.installed, added);
  }

  lemma EndIs(h: Hasher<Digest>, c: Crypto, trusted: Trusted, st: Store, i: nat, answer: Option<seq<string>>,
              call: Call, added: Install)
    requires i < |st.calls| && st.calls[i] == Some(call) && WaitingOk(c, trusted, call.w)
    requires added == Install(call.w.observed, call.from, PathOf(answer))
    ensures Step(h, c, trusted, st, EndCall(i, answer))
         == if Finish(h, c, trusted, call.w, answer, st.pin).1.status == Advanced then Advancing(st, i, added)
            else Closed(st, i)
  {
    FinishMoves(h, c, trusted, call.w, answer, st.pin);
  }

  /** An advance adds one proven pin to the tree; closing the call changes nothing else. */
  lemma EndKeepsInv(h: Hasher<Digest>, c: Crypto, trusted: Trusted, st: Store, i: nat, answer: Option<seq<string>>)
    requires Inv(h, c, trusted, st) && i < |st.calls| && st.calls[i].Some?
    ensures Inv(h, c, trusted, Step(h, c, trusted, st, EndCall(i, answer)))
    ensures st.installed <= Step(h, c, trusted, st, EndCall(i, answer)).installed
  {
    var call := st.calls[i].value;
    var added := Install(call.w.observed, call.from, PathOf(answer));
    EndIs(h, c, trusted, st, i, answer, call, added);
    AdvancesExactly(h, c, trusted, call.w, answer, st.pin);
    if Finish(h, c, trusted, call.w, answer, st.pin).1.status == Advanced {
      AdvancingKeepsInv(h, c, trusted, st, i, added);
    } else {
      ClosedKeepsInv(h, c, trusted, st, i);
    }
  }

  lemma StepKeepsInv(h: Hasher<Digest>, c: Crypto, trusted: Trusted, st: Store, e: Event)
    requires Inv(h, c, trusted, st)
    ensures Inv(h, c, trusted, Step(h, c, trusted, st, e))
    ensures st.installed <= Step(h, c, trusted, st, e).installed
  {
    match e
    case StartCall(s, hasFetcher, now) =>
      StartKeepsInv(h, c, trusted, st, s, hasFetcher, now);
    case EndCall(i, answer) =>
      if i < |st.calls| && st.calls[i].Some? {
        EndKeepsInv(h, c, trusted, st, i, answer);
      }
  }

  /** From any store with the invariant, every interleaving keeps it and forgets no pin. */
  lemma {:induction false} RunKeepsInv(h: Hasher<Digest>, c: Crypto, trusted: Trusted, st: Store, events: seq<Event>)
    requires Inv(h, c, trusted, st)
    ensures Inv(h, c, trusted, Run(h, c, trusted, st, events))
    ensures st.installed <= Run(h, c, trusted, st, events).installed
    decreases |events|
  {
    if events != [] {
      StepKeepsInv(h, c, trusted, st, events[0]);
      RunKeepsInv(h, c, trusted, Step(h, c, trusted, st, events[0]), events[1..]);
    }
  }

  lemma {:induction false} RunSnoc(h: Hasher<Digest>, c: Crypto, trusted: Trusted, st: Store, events: seq<Event>,
                                   e: Event)
    ensures Run(h, c, trusted, st, events + [e]) == Step(h, c, trusted, Run(h, c, trusted, st, events), e)
    decreases |events|
  {
    if events == [] {
      assert [] + [e] == [e] && [e][1..] == [];
    } else {
      assert (events + [e])[1..] == events[1..] + [e];
      RunSnoc(h, c, trusted, Step(h, c, trusted, st, events[0]), events[1..], e);
    }
  }

  /** The store after the first k events. */
  ghost function StoreAt(h: Hasher<Digest>, c: Crypto, trusted: Trusted, initial: Option<PinnedHead>,
                         events: seq<Event>, k: nat): Store
    requires k <= |events|
  {
    Run(h, c, trusted, Fresh(initial), events[..k])
  }

  lemma StoreAtNext(h: Hasher<Digest>, c: Crypto, trusted: Trusted, initial: Option<PinnedHead>, events: seq<Event>,
                    k: nat)
    requires k < |events|
    ensures StoreAt(h, c, trusted, initial, events, k + 1)
         == Step(h, c, trusted, StoreAt(h, c, trusted, initial, events, k), events[k])
  {
    assert events[..k + 1] == events[..k] + [events[k]];
    RunSnoc(h, c, trusted, Fresh(initial), events[..k], events[k]);
  }

  lemma FreshHasInv(h: Hasher<Digest>, c: Crypto, trusted: Trusted, initial: Option<PinnedHead>)
    requires PinOk(c, trusted, initial)
    ensures Inv(h, c, trusted, Fresh(initial))
  {
  }

  /**
   * From a store as created, empty or with a pin, in every interleaving the pins ever
   * installed form a tree of proven steps under the first, and the current pin is one of them.
   */
  lemma InterleavedPinsFormTree(h: Hasher<Digest>, c: Crypto, trusted: Trusted, initial: Option<PinnedHead>,
                                events: seq<Event>)
    requires PinOk(c, trusted, initial)
    ensures var st := Run(h, c, trusted, Fresh(initial), events);
            && PinTree(h, c, trusted, st.installed)
            && (st.pin.Some? <==> st.installed != [])
            && (st.pin.Some? ==> 0 <= st.current == |st.installed| - 1 && st.installed[st.current].head == st.pin.value)
            && (initial.Some? ==> st.installed != [] && st.installed[0].head == initial.value)
  {
    FreshHasInv(h, c, trusted, initial);
    RunKeepsInv(h, c, trusted, Fresh(initial), events);
  }

  /** j is i or one of the pins i was proven from. */
  predicate Ancestor(installed: seq<Install>, j: nat, i: nat) {
    j == i || (0 < i < |installed| && installed[i].parent < i && Ancestor(installed, j, installed[i].parent))
  }

  /** The first pin is an ancestor of every pin, of the same log and no larger. */
  lemma {:induction false} FirstPinIsRoot(h: Hasher<Digest>, c: Crypto, trusted: Trusted, installed: seq<Install>, i: nat)
    requires PinTree(h, c, trusted, installed) && i < |installed|
    ensures Ancestor(installed, 0, i)
    ensures installed[i].head.logId == installed[0].head.logId
    ensures installed[0].head.treeSize <= installed[i].head.treeSize
  {
    if i > 0 {
      FirstPinIsRoot(h, c, trusted, installed, installed[i].parent);
    }
  }

  ghost predicate TreeStepsHashed(h: Hasher<Digest>, c: Crypto, trusted: Trusted, installed: seq<Install>,
                                  inputs: set<Input<Digest>>)
    requires PinTree(h, c, trusted, installed)
  {
    forall i :: 1 <= i < |installed| ==>
      StepHashed(h, installed[installed[i].parent].head, installed[i].head, installed[i].path, inputs)
  }

  lemma {:induction false} AncestorNoLarger(h: Hasher<Digest>, c: Crypto, trusted: Trusted, installed: seq<Install>,
                                            j: nat, i: nat)
    requires PinTree(h, c, trusted, installed) && i < |installed| && j < |installed| && Ancestor(installed, j, i)
    ensures installed[j].head.treeSize <= installed[i].head.treeSize
    decreases i
  {
    if j != i {
      AncestorNoLarger(h, c, trusted, installed, j, installed[i].parent);
    }
  }

  /**
   * If an installed pin is the head of a list, every non-empty pin it was proven
   * from is the head of a prefix of that list, or a collision is exhibited.
   */
  lemma {:induction false} AncestorsArePrefixes(h: Hasher<Digest>, c: Crypto, trusted: Trusted, installed: seq<Install>,
                                                j: nat, i: nat, entries: seq<bytes>, inputs: set<Input<Digest>>)
    requires PinTree(h, c, trusted, installed) && i < |installed| && j < |installed| && Ancestor(installed, j, i)
    requires TreeStepsHashed(h, c, trusted, installed, inputs) && PrefixesHashed(h, entries, inputs)
    requires 1 <= installed[j].head.treeSize
    requires installed[i].head.treeSize <= |entries|
    requires HeadOf(h, installed[i].head.sth, entries[..installed[i].head.treeSize])
    ensures installed[j].head.treeSize <= installed[i].head.treeSize
    ensures HeadOf(h, installed[j].head.sth, entries[..installed[j].head.treeSize]) || Collides(h, inputs)
    decreases i
  {
    if j != i {
      var k := installed[i].parent;
      AncestorNoLarger(h, c, trusted, installed, j, k);
      StepBack(h, c, trusted, installed[k].head, installed[i].head, installed[i].path, entries, inputs);
      if !Collides(h, inputs) {
        AncestorsArePrefixes(h, c, trusted, installed, j, k, entries, inputs);
      }
    }
  }

  /** A call that completes while its captured pin is still current never shrinks the pin. */
  lemma UndisturbedCallGrows(h: Hasher<Digest>, c: Crypto, trusted: Trusted, st: Store, i: nat,
                             answer: Option<seq<string>>)
    requires Inv(h, c, trusted, st) && i < |st.calls| && st.calls[i].Some? && st.pin == Some(st.calls[i].value.w.previous)
    ensures var now := Step(h, c, trusted, st, EndCall(i, answer)).pin;
            now.Some? && now.value.treeSize >= st.pin.value.treeSize
  {
    FinishMoves(h, c, trusted, st.calls[i].value.w, answer, st.pin);
  }

  lemma EndPin(h: Hasher<Digest>, c: Crypto, trusted: Trusted, st: Store, i: nat, w: Started, answer: Option<seq<string>>)
    requires i < |st.calls| && st.calls[i].Some? && st.calls[i].value.w == w && w.Waiting?
    ensures Step(h, c, trusted, st, EndCall(i, answer)).pin == Finish(h, c, trusted, w, answer, st.pin).0
  {
  }

  lemma FinishShrinksExactly(h: Hasher<Digest>, c: Crypto, trusted: Trusted, w: Started, answer: Option<seq<string>>,
                             pin: PinnedHead)
    requires WaitingOk(c, trusted, w)
    ensures var now := Finish(h, c, trusted, w, answer, Some(pin)).0;
            && now.Some?
            && (now.value.treeSize < pin.treeSize <==>
                  && w.observed.treeSize < pin.treeSize && answer.Some? && DecodePath(answer.value).Some?
                  && ProvenStep(h, w.previous, w.observed, DecodePath(answer.value).value))
  {
    AdvancesExactly(h, c, trusted, w, answer, Some(pin));
    FinishMoves(h, c, trusted, w, answer, Some(pin));
  }

  /**
   * Exactly when a call takes the pin back: it proves its step from the pin it captured, and the store has
   * meanwhile moved past the head it observed. The code compares with the captured pin only.
   */
  lemma PinShrinksExactly(h: Hasher<Digest>, c: Crypto, trusted: Trusted, st: Store, i: nat, answer: Option<seq<string>>)
    requires Inv(h, c, trusted, st) && i < |st.calls| && st.calls[i].Some? && st.pin.Some?
    ensures var w, now := st.calls[i].value.w, Step(h, c, trusted, st, EndCall(i, answer)).pin;
            && now.Some?
            && (now.value.treeSize < st.pin.value.treeSize <==>
                  && w.observed.treeSize < st.pin.value.treeSize
                  && answer.Some? && DecodePath(answer.value).Some?
                  && ProvenStep(h, w.previous, w.observed, DecodePath(answer.value).value))
  {
    var w := st.calls[i].value.w;
    EndPin(h, c, trusted, st, i, w, answer);
    FinishShrinksExactly(h, c, trusted, w, answer, st.pin.value);
  }

  /** A store pinned at p on which two more calls have started, for the heads d and b. */
  ghost function Overlapping(h: Hasher<Digest>, c: Crypto, trusted: Trusted, a: SignedTreeHead, b: SignedTreeHead,
                             d: SignedTreeHead): Store {
    var s1 := Step(h, c, trusted, Fresh(None), StartCall(a, true, 0));
    var s2 := Step(h, c, trusted, s1, StartCall(d, true, 0));
    Step(h, c, trusted, s2, StartCall(b, true, 0))
  }

  function Observed(c: Crypto, trusted: Trusted, s: SignedTreeHead): PinnedHead {
    ToPinned(s, VerifySth(c, s, trusted).keyId, 0)
  }

  lemma StartWaits(h: Hasher<Digest>, c: Crypto, trusted: Trusted, st: Store, p: PinnedHead, s: SignedTreeHead)
    requires st.pin == Some(p) && FromVerified(c, trusted, p)
    requires VerifySth(c, s, trusted).valid && s.logId == p.logId && s.treeSize != p.treeSize
    ensures WaitingOk(c, trusted, Waiting(p, Observed(c, trusted, s)))
    ensures Step(h, c, trusted, st, StartCall(s, true, 0))
         == st.(calls := st.calls + [Some(Call(Waiting(p, Observed(c, trusted, s)), st.current))])
  {
    BeginMoves(h, c, trusted, st.pin, s, true, 0);
  }

  lemma FirstCallPins(h: Hasher<Digest>, c: Crypto, trusted: Trusted, a: SignedTreeHead)
    requires VerifySth(c, a, trusted).valid
    ensures var p := Observed(c, trusted, a);
            && FromVerified(c, trusted, p)
            && Step(h, c, trusted, Fresh(None), StartCall(a, true, 0)) == Store(Some(p), [None], [Install(p, 0, [])], 0)
  {
    BeginMoves(h, c, trusted, None, a, true, 0);
  }

  lemma BothCapture(h: Hasher<Digest>, c: Crypto, trusted: Trusted, a: SignedTreeHead, b: SignedTreeHead,
                    d: SignedTreeHead)
    requires VerifySth(c, a, trusted).valid && VerifySth(c, b, trusted).valid && VerifySth(c, d, trusted).valid
    requires a.logId == b.logId == d.logId && a.treeSize < b.treeSize && a.treeSize < d.treeSize
    ensures var p, forB, forD := Observed(c, trusted, a), Observed(c, trusted, b), Observed(c, trusted, d);
            && WaitingOk(c, trusted, Waiting(p, forB)) && WaitingOk(c, trusted, Waiting(p, forD))
            && Overlapping(h, c, trusted, a, b, d)
               == Store(Some(p), [None, Some(Call(Waiting(p, forD), 0)), Some(Call(Waiting(p, forB), 0))],
                        [Install(p, 0, [])], 0)
  {
    var p := Observed(c, trusted, a);
    FirstCallPins(h, c, trusted, a);
    var s1 := Store(Some(p), [None], [Install(p, 0, [])], 0);
    StartWaits(h, c, trusted, s1, p, d);
    StartWaits(h, c, trusted, s1.(calls := [None] + [Some(Call(Waiting(p, Observed(c, trusted, d)), 0))]), p, b);
  }

  /** With the list's own path a growing call installs the head it observed, whatever the pin is by then. */
  lemma HonestEndAdvances(h: Hasher<Digest>, c: Crypto, trusted: Trusted, st: Store, i: nat, w: Started, from: nat,
                          entries: seq<bytes>)
    requires i < |st.calls| && st.calls[i] == Some(Call(w, from))
    requires WaitingOk(c, trusted, w) && w.previous.treeSize < w.observed.treeSize && |entries| <= 0x8000_0000
    requires HonestHead(h, c, trusted, w.previous.sth, w.previous.logId, entries)
    requires HonestHead(h, c, trusted, w.observed.sth, w.previous.logId, entries)
    ensures 0 <= w.previous.treeSize < w.observed.treeSize <= |entries|
    ensures var path := ConsistencyProof<Digest>(h, entries[..w.observed.treeSize], w.previous.treeSize).value;
            Step(h, c, trusted, st, EndCall(i, Some(OwnPath(h, entries, w.previous.treeSize, w.observed.treeSize))))
            == Advancing(st, i, Install(w.observed, from, path))
  {
    HonestFinishes(h, c, trusted, w, st.pin, w.previous.logId, entries);
    var own := OwnPath(h, entries, w.previous.treeSize, w.observed.treeSize);
    PathToHexDecodes(ConsistencyProof<Digest>(h, entries[..w.observed.treeSize], w.previous.treeSize).value);
    EndIs(h, c, trusted, st, i, Some(own), Call(w, from), Install(w.observed, from, PathOf(Some(own))));
  }

  /**
   * Overlapping calls can take the pin back: two calls capture the same pin, the
   * larger head completes first, and the smaller one then overwrites it. The
   * heads are honest, with the proofs an honest log serves.
   */
  lemma OverlapCanShrinkPin(h: Hasher<Digest>, c: Crypto, trusted: Trusted, a: SignedTreeHead, b: SignedTreeHead,
                            d: SignedTreeHead, entries: seq<bytes>)
    requires HonestHead(h, c, trusted, a, a.logId, entries) && HonestHead(h, c, trusted, b, a.logId, entries)
    requires HonestHead(h, c, trusted, d, a.logId, entries)
    requires a.treeSize < b.treeSize < d.treeSize && |entries| <= 0x8000_0000
    ensures 0 <= a.treeSize
    ensures var larger := Step(h, c, trusted, Overlapping(h, c, trusted, a, b, d),
                               EndCall(1, Some(OwnPath(h, entries, a.treeSize, d.treeSize))));
            var back := Step(h, c, trusted, larger, EndCall(2, Some(OwnPath(h, entries, a.treeSize, b.treeSize))));
            larger.pin == Some(Observed(c, trusted, d)) && back.pin == Some(Observed(c, trusted, b))
  {
    var p, forB, forD := Observed(c, trusted, a), Observed(c, trusted, b), Observed(c, trusted, d);
    var st := Overlapping(h, c, trusted, a, b, d);
    BothCapture(h, c, trusted, a, b, d);
    HonestEndAdvances(h, c, trusted, st, 1, Waiting(p, forD), 0, entries);
    var larger := Step(h, c, trusted, st, EndCall(1, Some(OwnPath(h, entries, a.treeSize, d.treeSize))));
    HonestEndAdvances(h, c, trusted, larger, 2, Waiting(p, forB), 0, entries);
  }
}
