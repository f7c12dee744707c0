/** What `observe` answers, in every case: the status, the record it pins, and the proof an equivocation carries. */
module PinAnswers {
  import opened Bytes
  import opened Codec
  import opened Merkle
  import opened Sth
  import opened Equivocation
  import opened Adjudication
  import opened Pinning
  import opened PinRuns
  import opened PinInterleaved
  import opened PinHonest

  /** The pin is the record of a head, field by field, with its root in clean lower-case hex. */
  ghost predicate Records(p: PinnedHead, s: SignedTreeHead, now: int) {
    && p.sth == s && p.logId == s.logId && p.treeSize == s.treeSize && p.timestamp == s.timestamp
    && p.keyId == s.keyId && p.observedAt == now
    && HexToBytes(s.root).Some? && p.root == BytesToHex(HexToBytes(s.root).value)
  }

  /** The head verifies and is of the pinned log. */
  ghost predicate Known(c: Crypto, trusted: Trusted, p: PinnedHead, s: SignedTreeHead) {
    VerifySth(c, s, trusted).valid && s.logId == p.logId
  }

  lemma ToPinnedRecords(c: Crypto, trusted: Trusted, s: SignedTreeHead, now: int)
    requires VerifySth(c, s, trusted).valid
    ensures Records(ToPinned(s, VerifySth(c, s, trusted).keyId, now), s, now)
  {
    ValidRoot(c, s, trusted);
    CleanDecides(s.root, s.root);
  }

  // ---------------------------------------------------------------- before the await

  /** On an empty store a head is pinned exactly when it verifies; nothing else happens. */
  lemma FirstAnswers(h: Hasher<Digest>, c: Crypto, trusted: Trusted, s: SignedTreeHead, fetcher: Fetcher, now: int)
    ensures var (after, r) := ObserveOnce(h, c, trusted, None, s, fetcher, now);
            && (r.status == Pinned <==> VerifySth(c, s, trusted).valid)
            && (r.status != Pinned ==> r.status == Error && after == None)
            && (r.status == Pinned ==> after.Some? && Records(after.value, s, now))
            && r.pinned == after && r.previous == None && r.equivocation == None && r.path == None
  {
    if VerifySth(c, s, trusted).valid {
      ToPinnedRecords(c, trusted, s, now);
    }
  }

  /** With a pin, a call waits exactly for a known head of another size, when it has a fetcher. */
  lemma BeginAnswers(h: Hasher<Digest>, c: Crypto, trusted: Trusted, p: PinnedHead, s: SignedTreeHead, hasFetcher: bool,
                     now: int)
    requires FromVerified(c, trusted, p)
    ensures var st := Begin(h, c, trusted, Some(p), s, hasFetcher, now);
            && (st.Waiting? <==> Known(c, trusted, p, s) && s.treeSize != p.treeSize && hasFetcher)
            && (st.Waiting? ==> st.previous == p && Records(st.observed, s, now))
            && (st.Done? ==>
                  && st.pin == Some(p) && st.result.pinned == Some(p) && st.result.path == None
                  && (st.result.status == Unchanged <==>
                        && Known(c, trusted, p, s) && s.treeSize == p.treeSize
                        && HexToBytes(s.root) == HexToBytes(p.sth.root))
                  && (st.result.status == Equivocal <==>
                        && Known(c, trusted, p, s) && s.treeSize == p.treeSize
                        && HexToBytes(s.root) != HexToBytes(p.sth.root))
                  && st.result.status in {Unchanged, Equivocal, Error}
                  && (st.result.previous
                      == if !Known(c, trusted, p, s) || st.result.status == Unchanged then None else Some(p)))
  {
    if Known(c, trusted, p, s) {
      ToPinnedRecords(c, trusted, s, now);
      ValidRoot(c, s, trusted);
      ValidRoot(c, p.sth, trusted);
      CleanDecides(s.root, p.sth.root);
    }
  }

  /** An equivocation is reported with the conviction of exactly the pinned head and the observed one. */
  lemma EquivocalCarriesProof(h: Hasher<Digest>, c: Crypto, trusted: Trusted, p: PinnedHead, s: SignedTreeHead,
                              hasFetcher: bool, now: int)
    requires FromVerified(c, trusted, p)
    ensures var st := Begin(h, c, trusted, Some(p), s, hasFetcher, now);
            st.Done? ==>
              && (st.result.status == Equivocal <==> st.result.equivocation.Some?)
              && (st.result.equivocation.Some? ==>
                    && st.result.equivocation.value.equivocation
                    && st.result.equivocation.value.proof == Some(Bundle(p.sth, s, p.sth.keyId, s.keyId)))
  {
    BeginAnswers(h, c, trusted, p, s, hasFetcher, now);
    if Known(c, trusted, p, s) && s.treeSize == p.treeSize {
      ConvictsExactly(h, c, p.sth, s, trusted, None);
    }
  }

  // ---------------------------------------------------------------- after it

  /** The path served proves the step between the captured pin and the observed head, from the smaller to the larger. */
  lemma FinishAnswers(h: Hasher<Digest>, c: Crypto, trusted: Trusted, w: Started, answer: Option<seq<string>>,
                      pin: Option<PinnedHead>)
    requires WaitingOk(c, trusted, w)
    ensures var (after, r) := Finish(h, c, trusted, w, answer, pin);
            && (r.status == Advanced <==>
                  w.observed.treeSize > w.previous.treeSize && Proves(h, w.previous.sth, w.observed.sth, answer))
            && (r.status == Lagging <==>
                  w.observed.treeSize < w.previous.treeSize && Proves(h, w.observed.sth, w.previous.sth, answer))
            && r.status in {Advanced, Lagging, Error}
            && after == (if r.status == Advanced then Some(w.observed) else pin)
            && r.pinned == (if r.status == Advanced then Some(w.observed) else Some(w.previous))
            && r.previous == Some(w.previous) && r.equivocation == None && r.path == answer
  {
    FinishMoves(h, c, trusted, w, answer, pin);
    OutcomeExactly(h, c, Older(w), Newer(w), trusted, answer);
  }

  // ---------------------------------------------------------------- a whole call

  /** What the fetcher answers between the sizes of the pin and of the head, smaller first. */
  function Served(fetcher: Fetcher, p: PinnedHead, s: SignedTreeHead): Option<seq<string>> {
    if fetcher.NoFetcher? then None
    else if p.treeSize < s.treeSize then fetcher.fetch(p.treeSize, s.treeSize) else fetcher.fetch(s.treeSize, p.treeSize)
  }

  /** The status of every call on a pinned store, each with its exact condition. */
  lemma StatusExactly(h: Hasher<Digest>, c: Crypto, trusted: Trusted, p: PinnedHead, s: SignedTreeHead, fetcher: Fetcher,
                      now: int)
    requires FromVerified(c, trusted, p)
    ensures var status := ObserveOnce(h, c, trusted, Some(p), s, fetcher, now).1.status;
            var known, served := Known(c, trusted, p, s), Served(fetcher, p, s);
            && (status == Unchanged <==>
                  known && s.treeSize == p.treeSize && HexToBytes(s.root) == HexToBytes(p.sth.root))
            && (status == Equivocal <==>
                  known && s.treeSize == p.treeSize && HexToBytes(s.root) != HexToBytes(p.sth.root))
            && (status == Advanced <==> known && s.treeSize > p.treeSize && Proves(h, p.sth, s, served))
            && (status == Lagging <==> known && s.treeSize < p.treeSize && Proves(h, s, p.sth, served))
            && (status == Error <==>
                  || !known
                  || (s.treeSize > p.treeSize && !Proves(h, p.sth, s, served))
                  || (s.treeSize < p.treeSize && !Proves(h, s, p.sth, served)))
            && status != Pinned
  {
    var st := Begin(h, c, trusted, Some(p), s, fetcher.Fetcher?, now);
    BeginAnswers(h, c, trusted, p, s, fetcher.Fetcher?, now);
    BeginMoves(h, c, trusted, Some(p), s, fetcher.Fetcher?, now);
    if st.Waiting? {
      FinishAnswers(h, c, trusted, st, fetcher.fetch(Older(st).treeSize, Newer(st).treeSize), Some(p));
    }
  }

  /** The rest of the answer, and the pin afterwards. */
  lemma AnswerExactly(h: Hasher<Digest>, c: Crypto, trusted: Trusted, p: PinnedHead, s: SignedTreeHead, fetcher: Fetcher,
                      now: int)
    requires FromVerified(c, trusted, p)
    ensures var (after, r) := ObserveOnce(h, c, trusted, Some(p), s, fetcher, now);
            && after.Some? && (if r.status == Advanced then Records(after.value, s, now) else after.value == p)
            && r.pinned == after
            && r.previous == (if !Known(c, trusted, p, s) || r.status == Unchanged then None else Some(p))
            && r.path == (if Known(c, trusted, p, s) && s.treeSize != p.treeSize then Served(fetcher, p, s) else None)
            && (r.equivocation.Some? <==> r.status == Equivocal)
            && (r.status == Equivocal ==>
                  && r.equivocation.value.equivocation
                  && r.equivocation.value.proof == Some(Bundle(p.sth, s, p.sth.keyId, s.keyId)))
  {
    var st := Begin(h, c, trusted, Some(p), s, fetcher.Fetcher?, now);
    BeginAnswers(h, c, trusted, p, s, fetcher.Fetcher?, now);
    BeginMoves(h, c, trusted, Some(p), s, fetcher.Fetcher?, now);
    EquivocalCarriesProof(h, c, trusted, p, s, fetcher.Fetcher?, now);
    if st.Waiting? {
      FinishAnswers(h, c, trusted, st, fetcher.fetch(Older(st).treeSize, Newer(st).treeSize), Some(p));
    }
  }

  // ---------------------------------------------------------------- a fork is reported

  /**
   * Two different lists of one length: whoever has seen a head of the one and then sees a head of the other, both of
   * one log, is told of an equivocation and given the two heads, or a collision is exhibited.
   */
  lemma ForkAtOneSizeReported(h: Hasher<Digest>, c: Crypto, trusted: Trusted, a: SignedTreeHead, b: SignedTreeHead,
                              fetcher: Fetcher, other: Fetcher, first: int, second: int,
                              listA: seq<bytes>, listB: seq<bytes>, inputs: set<Input<Digest>>)
    requires VerifySth(c, a, trusted).valid && VerifySth(c, b, trusted).valid && a.logId == b.logId
    requires HeadOf(h, a, listA) && HeadOf(h, b, listB) && |listA| == |listB| && listA != listB
    requires TreeHashed<Digest>(h, listA, 0, |listA|, inputs) && TreeHashed<Digest>(h, listB, 0, |listB|, inputs)
    ensures var (pin, r1) := ObserveOnce(h, c, trusted, None, a, fetcher, first);
            var (after, r2) := ObserveOnce(h, c, trusted, pin, b, other, second);
            && r1.status == Pinned && after == pin && pin.Some? && pin.value.sth == a
            && (Collides(h, inputs) ||
                (r2.status == Equivocal && r2.equivocation.Some? && r2.equivocation.value.equivocation
                 && r2.equivocation.value.proof == Some(Bundle(a, b, a.keyId, b.keyId))))
  {
    var pin := ObserveOnce(h, c, trusted, None, a, fetcher, first).0;
    FirstAnswers(h, c, trusted, a, fetcher, first);
    BeginMoves(h, c, trusted, None, a, fetcher.Fetcher?, first);
    StatusExactly(h, c, trusted, pin.value, b, other, second);
    AnswerExactly(h, c, trusted, pin.value, b, other, second);
    if HexToBytes(a.root) == HexToBytes(b.root) {
      RootDeterminesList<Digest>(h, listA, listB, inputs);
    }
  }

  /**
   * However calls overlap, a step answers Equivocal exactly when it starts a call with a verified head of the current
   * pin's log and size and another root.
   */
  lemma OverlapReportsFork(h: Hasher<Digest>, c: Crypto, trusted: Trusted, st: Store, e: Event)
    requires Inv(h, c, trusted, st)
    ensures StatusOf(h, c, trusted, st, e) == Some(Equivocal)
       <==> && e.StartCall? && st.pin.Some? && Known(c, trusted, st.pin.value, e.s)
            && e.s.treeSize == st.pin.value.treeSize && HexToBytes(e.s.root) != HexToBytes(st.pin.value.sth.root)
  {
    match e
    case StartCall(s, hasFetcher, now) =>
      if st.pin.Some? { BeginAnswers(h, c, trusted, st.pin.value, s, hasFetcher, now); }
    case EndCall(i, answer) =>
      if i < |st.calls| && st.calls[i].Some? {
        FinishMoves(h, c, trusted, st.calls[i].value.w, answer, st.pin);
      }
  }
}
