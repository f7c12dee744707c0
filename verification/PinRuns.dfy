/** Whole runs of the pin store, one call after another. */
module PinRuns {
  import opened Bytes
  import opened Codec
  import opened Merkle
  import opened Pow2Test
  import opened Exactness
  import opened Soundness
  import opened Sth
  import opened Equivocation
  import opened Adjudication
  import opened Pinning

  // ---------------------------------------------------------------- one proven step, read backwards

  /** `inputs` covers the trees of all prefixes of the list. */
  ghost predicate PrefixesHashed(h: Hasher<Digest>, entries: seq<bytes>, inputs: set<Input<Digest>>) {
    forall k :: 0 <= k <= |entries| ==> TreeHashed<Digest>(h, entries, 0, k, inputs)
  }

  /** `inputs` covers the run of the consistency verifier behind a proven step from a non-empty tree. */
  ghost predicate StepHashed(h: Hasher<Digest>, a: PinnedHead, b: PinnedHead, path: seq<bytes>,
                             inputs: set<Input<Digest>>)
    requires ProvenStep(h, a, b, path)
  {
    a.treeSize >= 1 ==>
      ReconcileHashed<Digest>(h, a.treeSize, b.treeSize,
                              Seeded<Digest>(LooksLikePow2(a.treeSize), HexToBytes(a.sth.root).value, path), inputs)
  }

  /** If the newer pin is the head of a prefix of a list, so is the older one. */
  lemma StepBack(h: Hasher<Digest>, c: Crypto, trusted: Trusted, a: PinnedHead, b: PinnedHead, path: seq<bytes>,
                 entries: seq<bytes>, inputs: set<Input<Digest>>)
    requires FromVerified(c, trusted, a) && FromVerified(c, trusted, b)
    requires ProvenStep(h, a, b, path) && StepHashed(h, a, b, path, inputs)
    requires 1 <= a.treeSize && b.treeSize <= |entries| && HeadOf(h, b.sth, entries[..b.treeSize])
    requires PrefixesHashed(h, entries, inputs)
    ensures HeadOf(h, a.sth, entries[..a.treeSize]) || Collides(h, inputs)
  {
    var m: nat, n: nat := a.treeSize, b.treeSize;
    var list := entries[..n];
    TreeHashedLocal<Digest>(h, entries, list, 0, n, inputs);
    ConsistencySound(h, list, m, HexToBytes(a.sth.root).value, path, inputs);
    assert list[..m] == entries[..m];
  }

  // ---------------------------------------------------------------- sequential runs

  datatype Observation = Observation(s: SignedTreeHead, fetcher: Fetcher, now: int)

  ghost function Next(h: Hasher<Digest>, c: Crypto, trusted: Trusted, pin: Option<PinnedHead>,
                      o: Observation): Option<PinnedHead> {
    ObserveOnce(h, c, trusted, pin, o.s, o.fetcher, o.now).0
  }

  ghost function RunPin(h: Hasher<Digest>, c: Crypto, trusted: Trusted, pin: Option<PinnedHead>,
                        obs: seq<Observation>): Option<PinnedHead>
    decreases |obs|
  {
    if obs == [] then pin else RunPin(h, c, trusted, Next(h, c, trusted, pin, obs[0]), obs[1..])
  }

  /** The status the i-th call of a run answers with. */
  ghost function StatusAt(h: Hasher<Digest>, c: Crypto, trusted: Trusted, pin: Option<PinnedHead>, obs: seq<Observation>,
                          i: nat): PinStatus
    requires i < |obs|
  {
    ObserveOnce(h, c, trusted, RunPin(h, c, trusted, pin, obs[..i]), obs[i].s, obs[i].fetcher, obs[i].now).1.status
  }

  /** A store is empty or holds the record of a verified head. */
  ghost predicate PinOk(c: Crypto, trusted: Trusted, pin: Option<PinnedHead>) {
    pin.Some? ==> FromVerified(c, trusted, pin.value)
  }

  /**
   * What one observation may do to a pin: set the first one, leave it as it is, or
   * replace it along a step whose consistency path the verifier accepts.
   */
  lemma ObserveMoves(h: Hasher<Digest>, c: Crypto, trusted: Trusted, pin: Option<PinnedHead>, o: Observation)
    requires PinOk(c, trusted, pin)
    ensures var (now, r) := ObserveOnce(h, c, trusted, pin, o.s, o.fetcher, o.now);
            && PinOk(c, trusted, now) && (pin.Some? ==> now.Some?)
            && (pin.Some? && r.status != Advanced ==> now == pin)
            && (r.status == Advanced ==>
                  && pin.Some? && now.value.sth == o.s && r.path.Some? && DecodePath(r.path.value).Some?
                  && ProvenStep(h, pin.value, now.value, DecodePath(r.path.value).value))
  {
    BeginMoves(h, c, trusted, pin, o.s, o.fetcher.Fetcher?, o.now);
    var st := Begin(h, c, trusted, pin, o.s, o.fetcher.Fetcher?, o.now);
    if st.Waiting? {
      FinishMoves(h, c, trusted, st, o.fetcher.fetch(Older(st).treeSize, Newer(st).treeSize), pin);
    }
  }

  /** `inputs` covers every accepted consistency path of the run. */
  ghost predicate RunHashed(h: Hasher<Digest>, c: Crypto, trusted: Trusted, pin: Option<PinnedHead>,
                            obs: seq<Observation>, inputs: set<Input<Digest>>)
    requires PinOk(c, trusted, pin)
    decreases |obs|
  {
    obs == [] ||
    var (now, r) := ObserveOnce(h, c, trusted, pin, obs[0].s, obs[0].fetcher, obs[0].now);
    ObserveMoves(h, c, trusted, pin, obs[0]);
    && (r.status == Advanced ==> StepHashed(h, pin.value, now.value, DecodePath(r.path.value).value, inputs))
    && RunHashed(h, c, trusted, now, obs[1..], inputs)
  }

  /** The later pin keeps the earlier one's log and is no smaller. */
  ghost predicate Grown(earlier: Option<PinnedHead>, later: Option<PinnedHead>) {
    earlier.Some? ==>
      later.Some? && later.value.logId == earlier.value.logId && later.value.treeSize >= earlier.value.treeSize
  }

  lemma {:induction false} RunGrows(h: Hasher<Digest>, c: Crypto, trusted: Trusted, pin: Option<PinnedHead>,
                                    obs: seq<Observation>)
    requires PinOk(c, trusted, pin)
    ensures PinOk(c, trusted, RunPin(h, c, trusted, pin, obs)) && Grown(pin, RunPin(h, c, trusted, pin, obs))
    decreases |obs|
  {
    if obs != [] {
      ObserveMoves(h, c, trusted, pin, obs[0]);
      RunGrows(h, c, trusted, Next(h, c, trusted, pin, obs[0]), obs[1..]);
    }
  }

  lemma CutTail<T>(s: seq<T>, i: nat)
    requires 1 <= i <= |s|
    ensures s[..i] != [] && s[..i][0] == s[0] && s[..i][1..] == s[1..][..i - 1] && s[1..][i - 1..] == s[i..]
  {
  }

  /** A run can be cut anywhere: the rest of it runs from the pin reached there. */
  lemma {:induction false} RunCut(h: Hasher<Digest>, c: Crypto, trusted: Trusted, pin: Option<PinnedHead>,
                                  obs: seq<Observation>, i: nat)
    requires i <= |obs|
    ensures RunPin(h, c, trusted, RunPin(h, c, trusted, pin, obs[..i]), obs[i..]) == RunPin(h, c, trusted, pin, obs)
    decreases i
  {
    if i == 0 {
      assert obs[i..] == obs;
    } else {
      CutTail(obs, i);
      RunCut(h, c, trusted, Next(h, c, trusted, pin, obs[0]), obs[1..], i - 1);
    }
  }

  lemma {:induction false} RunHashedCut(h: Hasher<Digest>, c: Crypto, trusted: Trusted, pin: Option<PinnedHead>,
                                        obs: seq<Observation>, i: nat, inputs: set<Input<Digest>>)
    requires PinOk(c, trusted, pin) && i <= |obs| && RunHashed(h, c, trusted, pin, obs, inputs)
    ensures var mid := RunPin(h, c, trusted, pin, obs[..i]);
            PinOk(c, trusted, mid) && RunHashed(h, c, trusted, mid, obs[i..], inputs)
    decreases i
  {
    if i == 0 {
      assert obs[i..] == obs;
    } else {
      CutTail(obs, i);
      ObserveMoves(h, c, trusted, pin, obs[0]);
      RunHashedCut(h, c, trusted, Next(h, c, trusted, pin, obs[0]), obs[1..], i - 1, inputs);
    }
  }

  /**
   * Whether a store starts empty or with a pin, between any two points of a run the log is fixed and the size never
   * falls.
   */
  lemma RunMonotone(h: Hasher<Digest>, c: Crypto, trusted: Trusted, pin: Option<PinnedHead>, obs: seq<Observation>,
                    i: nat, j: nat)
    requires PinOk(c, trusted, pin) && i <= j <= |obs|
    ensures PinOk(c, trusted, RunPin(h, c, trusted, pin, obs[..j]))
    ensures Grown(RunPin(h, c, trusted, pin, obs[..i]), RunPin(h, c, trusted, pin, obs[..j]))
  {
    var upTo := obs[..j];
    assert upTo[..i] == obs[..i];
    RunGrows(h, c, trusted, pin, obs[..i]);
    RunCut(h, c, trusted, pin, upTo, i);
    RunGrows(h, c, trusted, RunPin(h, c, trusted, pin, upTo[..i]), upTo[i..]);
  }

  /**
   * Pin safety: if the pin a run ends with is the head of a list, then the pin it
   * started from, when of size one or more, is the head of a prefix of that list,
   * whatever was observed and served in between, or a collision is exhibited.
   */
  lemma {:induction false} PinSafety(h: Hasher<Digest>, c: Crypto, trusted: Trusted, p: PinnedHead, obs: seq<Observation>,
                                     entries: seq<bytes>, inputs: set<Input<Digest>>)
    requires FromVerified(c, trusted, p) && p.treeSize >= 1
    requires var q := RunPin(h, c, trusted, Some(p), obs); q.Some? && HeadOf(h, q.value.sth, entries)
    requires RunHashed(h, c, trusted, Some(p), obs, inputs) && PrefixesHashed(h, entries, inputs)
    ensures p.treeSize <= |entries|
    ensures HeadOf(h, p.sth, entries[..p.treeSize]) || Collides(h, inputs)
    decreases |obs|
  {
    RunGrows(h, c, trusted, Some(p), obs);
    if obs == [] {
      assert entries[..p.treeSize] == entries;
    } else {
      ObserveMoves(h, c, trusted, Some(p), obs[0]);
      var (now, r) := ObserveOnce(h, c, trusted, Some(p), obs[0].s, obs[0].fetcher, obs[0].now);
      PinSafety(h, c, trusted, now.value, obs[1..], entries, inputs);
      if r.status == Advanced && !Collides(h, inputs) {
        StepBack(h, c, trusted, p, now.value, DecodePath(r.path.value).value, entries, inputs);
      }
    }
  }

  /** Pin safety for every pin a run passes through, from an empty store or a pinned one. */
  lemma EveryEarlierPinSafe(h: Hasher<Digest>, c: Crypto, trusted: Trusted, pin: Option<PinnedHead>,
                            obs: seq<Observation>, i: nat, entries: seq<bytes>, inputs: set<Input<Digest>>)
    requires PinOk(c, trusted, pin) && i <= |obs|
    requires var q := RunPin(h, c, trusted, pin, obs); q.Some? && HeadOf(h, q.value.sth, entries)
    requires RunHashed(h, c, trusted, pin, obs, inputs) && PrefixesHashed(h, entries, inputs)
    ensures var mid := RunPin(h, c, trusted, pin, obs[..i]);
            mid.Some? ==>
              && mid.value.treeSize <= |entries|
              && (mid.value.treeSize >= 1 ==>
                    HeadOf(h, mid.value.sth, entries[..mid.value.treeSize]) || Collides(h, inputs))
  {
    RunCut(h, c, trusted, pin, obs, i);
    RunHashedCut(h, c, trusted, pin, obs, i, inputs);
    var mid := RunPin(h, c, trusted, pin, obs[..i]);
    RunGrows(h, c, trusted, mid, obs[i..]);
    if mid.Some? && mid.value.treeSize >= 1 {
      PinSafety(h, c, trusted, mid.value, obs[i..], entries, inputs);
    }
  }

  /**
   * Why size one: a pin of size 0 advances on the empty path, and on no other, to any
   * verified head of its log, so its own root is never checked. It is the head of the
   * empty prefix exactly when that root is the empty root.
   */
  lemma ZeroPinAdvancesExactly(h: Hasher<Digest>, c: Crypto, trusted: Trusted, p: PinnedHead, o: Observation)
    requires FromVerified(c, trusted, p) && p.treeSize == 0
    requires VerifySth(c, o.s, trusted).valid && o.s.logId == p.logId && o.s.treeSize >= 1
    ensures var (now, r) := ObserveOnce(h, c, trusted, Some(p), o.s, o.fetcher, o.now);
            && (r.status == Advanced <==> o.fetcher.Fetcher? && o.fetcher.fetch(0, o.s.treeSize) == Some([]))
            && (r.status == Advanced ==> now.Some? && now.value.sth == o.s)
    ensures HeadOf(h, p.sth, []) <==> HexToBytes(p.sth.root) == Some(EmptyRoot<Digest>(h))
  {
    ObserveMoves(h, c, trusted, Some(p), o);
    BeginMoves(h, c, trusted, Some(p), o.s, o.fetcher.Fetcher?, o.now);
    var st := Begin(h, c, trusted, Some(p), o.s, o.fetcher.Fetcher?, o.now);
    if st.Waiting? {
      var answer := o.fetcher.fetch(0, o.s.treeSize);
      AdvancesExactly(h, c, trusted, st, answer, Some(p));
      ValidRoot(c, p.sth, trusted);
      ValidRoot(c, o.s, trusted);
      if answer.Some? && DecodePath(answer.value).Some? {
        var path := DecodePath(answer.value).value;
        FromSizeZero(h, HexToBytes(p.sth.root).value, o.s.treeSize, HexToBytes(o.s.root).value, path);
        assert |path| == |answer.value|;
      }
    }
  }

  /** A head of a list and of another list's prefix: the one list is that prefix, without a collision. */
  lemma HeadOfPrefix(h: Hasher<Digest>, s: SignedTreeHead, pinned: seq<bytes>, other: seq<bytes>,
                     inputs: set<Input<Digest>>)
    requires HeadOf(h, s, pinned) && |pinned| <= |other| && HeadOf(h, s, other[..|pinned|])
    requires PrefixesHashed(h, other, inputs) && TreeHashed<Digest>(h, pinned, 0, |pinned|, inputs)
    ensures pinned <= other || Collides(h, inputs)
  {
    var prefix := other[..|pinned|];
    TreeHashedLocal<Digest>(h, other, prefix, 0, |pinned|, inputs);
    RootDeterminesList<Digest>(h, pinned, prefix, inputs);
  }

  /**
   * In a call that runs alone, a head of a list that does not extend the pinned list never moves the pin, whatever
   * path is served.
   */
  lemma ForkNeverMovesPin(h: Hasher<Digest>, c: Crypto, trusted: Trusted, p: PinnedHead, o: Observation,
                          pinned: seq<bytes>, other: seq<bytes>, inputs: set<Input<Digest>>)
    requires FromVerified(c, trusted, p) && HeadOf(h, p.sth, pinned) && |pinned| >= 1
    requires HeadOf(h, o.s, other) && !(pinned <= other)
    requires RunHashed(h, c, trusted, Some(p), [o], inputs)
    requires PrefixesHashed(h, other, inputs) && TreeHashed<Digest>(h, pinned, 0, |pinned|, inputs)
    ensures Next(h, c, trusted, Some(p), o) == Some(p) || Collides(h, inputs)
  {
    ObserveMoves(h, c, trusted, Some(p), o);
    var (pin, r) := ObserveOnce(h, c, trusted, Some(p), o.s, o.fetcher, o.now);
    if r.status == Advanced && !Collides(h, inputs) {
      assert other[..|other|] == other;
      StepBack(h, c, trusted, p, pin.value, DecodePath(r.path.value).value, other, inputs);
      HeadOfPrefix(h, p.sth, pinned, other, inputs);
    }
  }

  // ---------------------------------------------------------------- an honest log

  /** The fetcher serves the list's own consistency proofs. */
  ghost predicate ServesProofs(h: Hasher<Digest>, f: Fetcher, entries: seq<bytes>) {
    f.Fetcher? && forall m: nat, n: nat :: m < n <= |entries| ==> f.fetch(m, n) == Some(OwnPath(h, entries, m, n))
  }

  /** A verified head of log `logId` over a prefix of the list. */
  ghost predicate HonestHead(h: Hasher<Digest>, c: Crypto, trusted: Trusted, s: SignedTreeHead, logId: bytes,
                             entries: seq<bytes>) {
    && VerifySth(c, s, trusted).valid && s.logId == logId
    && s.treeSize <= |entries| && HeadOf(h, s, entries[..s.treeSize])
  }

  /** The pin is the record of a verified head of a prefix of the list, or there is none yet. */
  ghost predicate HonestPin(h: Hasher<Digest>, c: Crypto, trusted: Trusted, pin: Option<PinnedHead>, logId: bytes,
                            entries: seq<bytes>) {
    PinOk(c, trusted, pin) && (pin.Some? ==> HonestHead(h, c, trusted, pin.value.sth, logId, entries))
  }

  /** Before the await, an honest head is pinned, found unchanged, or waits for a path between two honest heads. */
  lemma HonestStarts(h: Hasher<Digest>, c: Crypto, trusted: Trusted, pin: Option<PinnedHead>, s: SignedTreeHead, now: int,
                     logId: bytes, entries: seq<bytes>)
    requires HonestPin(h, c, trusted, pin, logId, entries) && HonestHead(h, c, trusted, s, logId, entries)
    ensures var st := Begin(h, c, trusted, pin, s, true, now);
            && (st.Waiting? <==> pin.Some? && s.treeSize != pin.value.treeSize)
            && (st.Done? ==> st.result.status == if pin.None? then Pinned else Unchanged)
            && (st.Done? && pin.None? ==> HonestPin(h, c, trusted, st.pin, logId, entries) && st.pin.Some?
                                          && st.pin.value.treeSize == s.treeSize)
  {
    BeginMoves(h, c, trusted, pin, s, true, now);
    VerifySthExact(c, s, trusted);
    if pin.Some? {
      ValidRoot(c, s, trusted);
      ValidRoot(c, pin.value.sth, trusted);
      if s.treeSize == pin.value.treeSize {
        CleanDecides(s.root, pin.value.sth.root);
      }
    }
  }

  /** After it, the list's own path advances a call whose head is larger; any other lags. */
  lemma HonestFinishes(h: Hasher<Digest>, c: Crypto, trusted: Trusted, w: Started, pin: Option<PinnedHead>, logId: bytes,
                       entries: seq<bytes>)
    requires WaitingOk(c, trusted, w) && |entries| <= 0x8000_0000
    requires HonestHead(h, c, trusted, w.previous.sth, logId, entries)
    requires HonestHead(h, c, trusted, w.observed.sth, logId, entries)
    ensures 0 <= Older(w).treeSize < Newer(w).treeSize <= |entries|
    ensures var (now, r) := Finish(h, c, trusted, w, Some(OwnPath(h, entries, Older(w).treeSize, Newer(w).treeSize)),
                                   pin);
            if w.previous.treeSize < w.observed.treeSize then now == Some(w.observed) && r.status == Advanced
            else now == pin && r.status == Lagging
  {
    ValidRoot(c, Older(w), trusted);
    var path := ConsistencyProof<Digest>(h, entries[..Newer(w).treeSize], Older(w).treeSize).value;
    HonestPathAccepted(h, Older(w), Newer(w), entries);
    PathToHexDecodes(path);
    ConvictsExactly(h, c, Older(w), Newer(w), trusted, Some(PathToHex(path)));
  }

  /**
   * An honest log is never accused and always followed: each observation is
   * pinned, unchanged, advanced or lagging, and the pin becomes the larger head.
   */
  lemma HonestLogFollowed(h: Hasher<Digest>, c: Crypto, trusted: Trusted, pin: Option<PinnedHead>, o: Observation,
                          logId: bytes, entries: seq<bytes>)
    requires |entries| <= 0x8000_0000 && HonestPin(h, c, trusted, pin, logId, entries)
    requires HonestHead(h, c, trusted, o.s, logId, entries) && ServesProofs(h, o.fetcher, entries)
    ensures var (now, r) := ObserveOnce(h, c, trusted, pin, o.s, o.fetcher, o.now);
            && r.status in {Pinned, Unchanged, Advanced, Lagging}
            && now.Some? && HonestPin(h, c, trusted, now, logId, entries)
            && now.value.treeSize
               == if pin.None? || pin.value.treeSize < o.s.treeSize then o.s.treeSize else pin.value.treeSize
  {
    var st := Begin(h, c, trusted, pin, o.s, true, o.now);
    BeginMoves(h, c, trusted, pin, o.s, true, o.now);
    HonestStarts(h, c, trusted, pin, o.s, o.now, logId, entries);
    if st.Waiting? {
      HonestFinishes(h, c, trusted, st, pin, logId, entries);
      var m: nat, n: nat := Older(st).treeSize, Newer(st).treeSize;
      assert o.fetcher.fetch(m, n) == Some(OwnPath(h, entries, m, n));
    }
  }

  /** Largest size among the pin and the observed heads. */
  function LargestSize(size: int, obs: seq<Observation>): int
    decreases |obs|
  {
    if obs == [] then size
    else LargestSize(if size < obs[0].s.treeSize then obs[0].s.treeSize else size, obs[1..])
  }

  /** The size of a pin; less than any size when there is none. */
  function SizeOf(pin: Option<PinnedHead>): int { if pin.Some? then pin.value.treeSize else -1 }

  /** Heads of the list's prefixes, each with a fetcher that serves the list's own proofs. */
  ghost predicate HonestObservations(h: Hasher<Digest>, c: Crypto, trusted: Trusted, obs: seq<Observation>, logId: bytes,
                                     entries: seq<bytes>) {
    forall i :: 0 <= i < |obs| ==>
      HonestHead(h, c, trusted, obs[i].s, logId, entries) && ServesProofs(h, obs[i].fetcher, entries)
  }

  lemma {:induction false} HonestRunEnds(h: Hasher<Digest>, c: Crypto, trusted: Trusted, pin: Option<PinnedHead>,
                                         obs: seq<Observation>, logId: bytes, entries: seq<bytes>)
    requires |entries| <= 0x8000_0000 && HonestPin(h, c, trusted, pin, logId, entries)
    requires HonestObservations(h, c, trusted, obs, logId, entries)
    ensures var q := RunPin(h, c, trusted, pin, obs);
            HonestPin(h, c, trusted, q, logId, entries) && SizeOf(q) == LargestSize(SizeOf(pin), obs)
    decreases |obs|
  {
    if obs != [] {
      HonestLogFollowed(h, c, trusted, pin, obs[0], logId, entries);
      HonestRunEnds(h, c, trusted, Next(h, c, trusted, pin, obs[0]), obs[1..], logId, entries);
    }
  }

  /**
   * Over a whole run on an honest log, from an empty store or a pinned one, every call is
   * pinned, unchanged, advanced or lagging, and the pin ends at the largest size seen.
   */
  lemma HonestRunFollowed(h: Hasher<Digest>, c: Crypto, trusted: Trusted, pin: Option<PinnedHead>, obs: seq<Observation>,
                          logId: bytes, entries: seq<bytes>)
    requires |entries| <= 0x8000_0000 && HonestPin(h, c, trusted, pin, logId, entries)
    requires HonestObservations(h, c, trusted, obs, logId, entries)
    ensures var q := RunPin(h, c, trusted, pin, obs);
            HonestPin(h, c, trusted, q, logId, entries) && SizeOf(q) == LargestSize(SizeOf(pin), obs)
    ensures forall i :: 0 <= i < |obs| ==> StatusAt(h, c, trusted, pin, obs, i) in {Pinned, Unchanged, Advanced, Lagging}
  {
    HonestRunEnds(h, c, trusted, pin, obs, logId, entries);
    forall i | 0 <= i < |obs|
      ensures StatusAt(h, c, trusted, pin, obs, i) in {Pinned, Unchanged, Advanced, Lagging}
    {
      HonestRunEnds(h, c, trusted, pin, obs[..i], logId, entries);
      HonestLogFollowed(h, c, trusted, RunPin(h, c, trusted, pin, obs[..i]), obs[i], logId, entries);
    }
  }
}
