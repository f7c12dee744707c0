/**
 * The pin store: an agent keeps the newest head it has verified and moves it
 * only along proven steps. `observe` is split where a call awaits its
 * consistency fetcher, so that one definition serves sequential and overlapping
 * calls.
 */
module Pinning {
  import opened Bytes
  import opened Codec
  import opened Merkle
  import opened Sth
  import opened Equivocation

  datatype PinStatus = Pinned | Unchanged | Advanced | Lagging | Equivocal | Error

  datatype PinnedHead = PinnedHead(
    logId: bytes, treeSize: int, root: string, timestamp: int, keyId: Option<bytes>, observedAt: int, sth: SignedTreeHead)

  datatype ObserveResult = ObserveResult(
    status: PinStatus, pinned: Option<PinnedHead>, previous: Option<PinnedHead>,
    equivocation: Option<EquivocationResult>, path: Option<seq<string>>)

  /** The optional consistency fetcher: an arbitrary answer per pair of sizes, None for a failed fetch. */
  datatype Fetcher = NoFetcher | Fetcher(fetch: (int, int) -> Option<seq<string>>)

  function ToPinned(s: SignedTreeHead, keyId: Option<bytes>, now: int): PinnedHead {
    PinnedHead(s.logId, s.treeSize, Clean(s.root), s.timestamp, Present(keyId), now, s)
  }

  // ---------------------------------------------------------------- one observation

  /** Where a call stands when it reaches its await: finished, or waiting with the pin it captured. */
  datatype Started = Done(pin: Option<PinnedHead>, result: ObserveResult)
                   | Waiting(previous: PinnedHead, observed: PinnedHead)

  function Older(w: Started): SignedTreeHead
    requires w.Waiting?
  {
    if w.observed.treeSize > w.previous.treeSize then w.previous.sth else w.observed.sth
  }

  function Newer(w: Started): SignedTreeHead
    requires w.Waiting?
  {
    if w.observed.treeSize > w.previous.treeSize then w.observed.sth else w.previous.sth
  }

  /** Everything before the await. */
  ghost function Begin(h: Hasher<Digest>, c: Crypto, trusted: Trusted, pin: Option<PinnedHead>,
                       s: SignedTreeHead, hasFetcher: bool, now: int): Started {
    var res := VerifySth(c, s, trusted);
    if !res.valid then Done(pin, ObserveResult(Error, pin, None, None, None))
    else
      var observed := ToPinned(s, res.keyId, now);
      if pin.None? then Done(Some(observed), ObserveResult(Pinned, Some(observed), None, None, None))
      else
        var previous := pin.value;
        if observed.logId != previous.logId then Done(pin, ObserveResult(Error, pin, None, None, None))
        else if observed.treeSize == previous.treeSize then
          if observed.root == previous.root then Done(pin, ObserveResult(Unchanged, pin, None, None, None))
          else
            var e := CheckEquivocation(h, c, previous.sth, s, trusted, None);
            Done(pin, ObserveResult(Equivocal, pin, pin, Some(e), None))
        else if !hasFetcher then Done(pin, ObserveResult(Error, pin, pin, None, None))
        else Waiting(previous, observed)
  }

  /** Everything after the await: `pin` is the store's pin by then, which only an advance overwrites. */
  ghost function Finish(h: Hasher<Digest>, c: Crypto, trusted: Trusted, w: Started,
                        answer: Option<seq<string>>, pin: Option<PinnedHead>): (Option<PinnedHead>, ObserveResult)
    requires w.Waiting?
  {
    var previous := Some(w.previous);
    if answer.None? then (pin, ObserveResult(Error, previous, previous, None, None))
    else
      var e := CheckEquivocation(h, c, Older(w), Newer(w), trusted, answer);
      if e.equivocation then (pin, ObserveResult(Equivocal, previous, previous, Some(e), answer))
      else if e.consistencyVerified != Some(true) then (pin, ObserveResult(Error, previous, previous, None, answer))
      else if w.observed.treeSize <= w.previous.treeSize then
        (pin, ObserveResult(Lagging, previous, previous, None, answer))
      else (Some(w.observed), ObserveResult(Advanced, Some(w.observed), previous, None, answer))
  }

  /** A whole observation with nothing else running in between. */
  ghost function ObserveOnce(h: Hasher<Digest>, c: Crypto, trusted: Trusted, pin: Option<PinnedHead>,
                         s: SignedTreeHead, fetcher: Fetcher, now: int): (Option<PinnedHead>, ObserveResult) {
    var st := Begin(h, c, trusted, pin, s, fetcher.Fetcher?, now);
    if st.Done? then (st.pin, st.result)
    else Finish(h, c, trusted, st, fetcher.fetch(Older(st).treeSize, Newer(st).treeSize), pin)
  }

  class SthPinStore {
    const h: Hasher<Digest>
    const c: Crypto
    const trusted: Trusted
    var pin: Option<PinnedHead>

    constructor (h: Hasher<Digest>, c: Crypto, trusted: Trusted, initial: Option<PinnedHead>)
      ensures this.h == h && this.c == c && this.trusted == trusted && pin == initial
    {
      this.h := h;
      this.c := c;
      this.trusted := trusted;
      pin := initial;
    }

    /** A sequential call: the fetcher answers before any other call starts. */
    method Observe(s: SignedTreeHead, fetcher: Fetcher, now: int) returns (r: ObserveResult)
      modifies this
      ensures (pin, r) == ObserveOnce(h, c, trusted, old(pin), s, fetcher, now)
    {
      var res := RunVerifySth(c, s, trusted);
      if !res.valid { return ObserveResult(Error, pin, None, None, None); }
      var observed := ToPinned(s, res.keyId, now);
      if pin.None? {
        pin := Some(observed);
        return ObserveResult(Pinned, Some(observed), None, None, None);
      }
      if observed.logId != pin.value.logId { return ObserveResult(Error, pin, None, None, None); }
      var previous := pin.value;
      if observed.treeSize == previous.treeSize {
        if observed.root == previous.root { return ObserveResult(Unchanged, Some(previous), None, None, None); }
        var e := RunCheckEquivocation(h, c, previous.sth, s, trusted, None);
        return ObserveResult(Equivocal, Some(previous), Some(previous), Some(e), None);
      }
      var growing := observed.treeSize > previous.treeSize;
      var older, newer := if growing then previous.sth else s, if growing then s else previous.sth;
      if fetcher.NoFetcher? { return ObserveResult(Error, Some(previous), Some(previous), None, None); }
      var path := fetcher.fetch(older.treeSize, newer.treeSize);
      if path.None? { return ObserveResult(Error, Some(previous), Some(previous), None, None); }
      var e := RunCheckEquivocation(h, c, older, newer, trusted, path);
      if e.equivocation { return ObserveResult(Equivocal, Some(previous), Some(previous), Some(e), path); }
      if e.consistencyVerified != Some(true) { return ObserveResult(Error, Some(previous), Some(previous), None, path); }
      if !growing { return ObserveResult(Lagging, Some(previous), Some(previous), None, path); }
      pin := Some(observed);
      return ObserveResult(Advanced, Some(observed), Some(previous), None, path);
    }
  }

  // ---------------------------------------------------------------- what a move of the pin shows

  /** The record is what toPinned makes of a head that verifies. */
  ghost predicate FromVerified(c: Crypto, trusted: Trusted, p: PinnedHead) {
    && VerifySth(c, p.sth, trusted).valid
    && p == ToPinned(p.sth, VerifySth(c, p.sth, trusted).keyId, p.observedAt)
  }

  /** One log, a larger size, and a consistency path between the two that the verifier accepts. */
  ghost predicate ProvenStep(h: Hasher<Digest>, a: PinnedHead, b: PinnedHead, path: seq<bytes>) {
    a.logId == b.logId && a.treeSize < b.treeSize && PathAccepted(h, a.sth, b.sth, path)
  }

  /** A waiting call holds two verified heads of one log at different sizes. */
  ghost predicate WaitingOk(c: Crypto, trusted: Trusted, w: Started) {
    && w.Waiting? && FromVerified(c, trusted, w.previous) && FromVerified(c, trusted, w.observed)
    && w.previous.logId == w.observed.logId && w.previous.treeSize != w.observed.treeSize
  }

  /** Before the await the pin is set only from nothing. */
  lemma BeginMoves(h: Hasher<Digest>, c: Crypto, trusted: Trusted, pin: Option<PinnedHead>, s: SignedTreeHead,
                   hasFetcher: bool, now: int)
    requires pin.Some? ==> FromVerified(c, trusted, pin.value)
    ensures var st := Begin(h, c, trusted, pin, s, hasFetcher, now);
            && (st.Done? && pin.Some? ==> st.pin == pin)
            && (st.Done? && st.pin.Some? && pin.None? ==> FromVerified(c, trusted, st.pin.value) && st.pin.value.sth == s)
            && (st.Waiting? ==> WaitingOk(c, trusted, st) && pin == Some(st.previous) && st.observed.sth == s)
  {
    VerifySthExact(c, s, trusted);
  }

  /** After the await the pin moves only along a proven step from the captured pin. */
  lemma FinishMoves(h: Hasher<Digest>, c: Crypto, trusted: Trusted, w: Started, answer: Option<seq<string>>,
                    pin: Option<PinnedHead>)
    requires WaitingOk(c, trusted, w)
    ensures var (now, r) := Finish(h, c, trusted, w, answer, pin);
            && (r.status == Advanced ==> now == Some(w.observed) && answer.Some? && DecodePath(answer.value).Some?
                                         && ProvenStep(h, w.previous, w.observed, DecodePath(answer.value).value))
            && (r.status != Advanced ==> now == pin)
            && (r.status == Lagging ==> answer.Some? && DecodePath(answer.value).Some?
                                         && ProvenStep(h, w.observed, w.previous, DecodePath(answer.value).value))
            && r.status != Equivocal
  {
    ConvictsExactly(h, c, Older(w), Newer(w), trusted, answer);
  }

  /** A call advances exactly when it got a path that proves the step from the pin it captured. */
  lemma AdvancesExactly(h: Hasher<Digest>, c: Crypto, trusted: Trusted, w: Started, answer: Option<seq<string>>,
                        pin: Option<PinnedHead>)
    requires WaitingOk(c, trusted, w)
    ensures Finish(h, c, trusted, w, answer, pin).1.status == Advanced
       <==> answer.Some? && DecodePath(answer.value).Some?
            && ProvenStep(h, w.previous, w.observed, DecodePath(answer.value).value)
  {
    FinishMoves(h, c, trusted, w, answer, pin);
    ConvictsExactly(h, c, Older(w), Newer(w), trusted, answer);
  }
}
