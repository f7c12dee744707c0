/** An honest log under overlapping calls: it is never accused, and every pin is a head of its list. */
module PinHonest {
  import opened Bytes
  import opened Merkle
  import opened Sth
  import opened Adjudication
  import opened Pinning
  import opened PinRuns
  import opened PinInterleaved

  /** What a step answers a caller: nothing when its call now waits, or when no call completes. */
  ghost function StatusOf(h: Hasher<Digest>, c: Crypto, trusted: Trusted, st: Store, e: Event): Option<PinStatus> {
    match e
    case StartCall(s, hasFetcher, now) =>
      var b := Begin(h, c, trusted, st.pin, s, hasFetcher, now);
      if b.Done? then Some(b.result.status) else None
    case EndCall(i, answer) =>
      if i < |st.calls| && st.calls[i].Some? && st.calls[i].value.w.Waiting? then
        Some(Finish(h, c, trusted, st.calls[i].value.w, answer, st.pin).1.status)
      else None
  }

  predicate Benign(status: Option<PinStatus>) { status.Some? ==> status.value in {Pinned, Unchanged, Advanced, Lagging} }

  /** A head of the list is observed, or a waiting call is served the list's own path. */
  ghost predicate HonestEvent(h: Hasher<Digest>, c: Crypto, trusted: Trusted, st: Store, e: Event, logId: bytes,
                              entries: seq<bytes>) {
    match e
    case StartCall(s, hasFetcher, _) => HonestHead(h, c, trusted, s, logId, entries) && hasFetcher
    case EndCall(i, answer) =>
      i < |st.calls| && st.calls[i].Some? && st.calls[i].value.w.Waiting? ==>
        var m, n := Older(st.calls[i].value.w).treeSize, Newer(st.calls[i].value.w).treeSize;
        0 <= m < n <= |entries| ==> answer == Some(OwnPath(h, entries, m, n))
  }

  ghost predicate HonestRun(h: Hasher<Digest>, c: Crypto, trusted: Trusted, initial: Option<PinnedHead>,
                            events: seq<Event>, logId: bytes, entries: seq<bytes>) {
    forall k :: 0 <= k < |events| ==>
      HonestEvent(h, c, trusted, StoreAt(h, c, trusted, initial, events, k), events[k], logId, entries)
  }

  /** Every installed pin, and every head a call waits to install, is a head of the list. */
  ghost predicate HonestStore(h: Hasher<Digest>, c: Crypto, trusted: Trusted, st: Store, logId: bytes,
                              entries: seq<bytes>) {
    && Inv(h, c, trusted, st)
    && (forall i :: 0 <= i < |st.installed| ==> HonestHead(h, c, trusted, st.installed[i].head.sth, logId, entries))
    && (forall i :: 0 <= i < |st.calls| && st.calls[i].Some? ==>
          HonestHead(h, c, trusted, st.calls[i].value.w.observed.sth, logId, entries))
  }

  lemma StoreHasHonestPin(h: Hasher<Digest>, c: Crypto, trusted: Trusted, st: Store, logId: bytes, entries: seq<bytes>)
    requires HonestStore(h, c, trusted, st, logId, entries)
    ensures HonestPin(h, c, trusted, st.pin, logId, entries)
  {
  }

  lemma HonestStartFollowed(h: Hasher<Digest>, c: Crypto, trusted: Trusted, st: Store, s: SignedTreeHead, now: int,
                            logId: bytes, entries: seq<bytes>)
    requires HonestStore(h, c, trusted, st, logId, entries) && HonestHead(h, c, trusted, s, logId, entries)
    ensures HonestStore(h, c, trusted, Step(h, c, trusted, st, StartCall(s, true, now)), logId, entries)
    ensures Benign(StatusOf(h, c, trusted, st, StartCall(s, true, now)))
  {
    StoreHasHonestPin(h, c, trusted, st, logId, entries);
    StartKeepsInv(h, c, trusted, st, s, true, now);
    BeginMoves(h, c, trusted, st.pin, s, true, now);
    HonestStarts(h, c, trusted, st.pin, s, now, logId, entries);
  }

  /** Closing a call, with or without installing the head it waited for, leaves only honest heads. */
  lemma HonestAfterEnd(h: Hasher<Digest>, c: Crypto, trusted: Trusted, st: Store, i: nat, added: Install, after: Store,
                       logId: bytes, entries: seq<bytes>)
    requires HonestStore(h, c, trusted, st, logId, entries) && i < |st.calls|
    requires HonestHead(h, c, trusted, added.head.sth, logId, entries)
    requires (after == Closed(st, i) || after == Advancing(st, i, added)) && Inv(h, c, trusted, after)
    ensures HonestStore(h, c, trusted, after, logId, entries)
  {
  }

  /** A served call advances when its head is larger than the pin it captured, and lags otherwise. */
  lemma HonestEndStatus(h: Hasher<Digest>, c: Crypto, trusted: Trusted, st: Store, i: nat, answer: Option<seq<string>>,
                        call: Call, logId: bytes, entries: seq<bytes>)
    requires HonestStore(h, c, trusted, st, logId, entries) && |entries| <= 0x8000_0000
    requires i < |st.calls| && st.calls[i] == Some(call)
             && HonestEvent(h, c, trusted, st, EndCall(i, answer), logId, entries)
    ensures StatusOf(h, c, trusted, st, EndCall(i, answer))
         == Some(if call.w.previous.treeSize < call.w.observed.treeSize then Advanced else Lagging)
  {
    assert st.installed[call.from].head == call.w.previous;
    HonestFinishes(h, c, trusted, call.w, st.pin, logId, entries);
  }

  lemma HonestEndFollowed(h: Hasher<Digest>, c: Crypto, trusted: Trusted, st: Store, i: nat, answer: Option<seq<string>>,
                          logId: bytes, entries: seq<bytes>)
    requires HonestStore(h, c, trusted, st, logId, entries) && i < |st.calls| && st.calls[i].Some?
    ensures HonestStore(h, c, trusted, Step(h, c, trusted, st, EndCall(i, answer)), logId, entries)
  {
    var call := st.calls[i].value;
    var added := Install(call.w.observed, call.from, PathOf(answer));
    EndKeepsInv(h, c, trusted, st, i, answer);
    EndIs(h, c, trusted, st, i, answer, call, added);
    HonestAfterEnd(h, c, trusted, st, i, added, Step(h, c, trusted, st, EndCall(i, answer)), logId, entries);
  }

  lemma HonestStepFollowed(h: Hasher<Digest>, c: Crypto, trusted: Trusted, st: Store, e: Event, logId: bytes,
                           entries: seq<bytes>)
    requires HonestStore(h, c, trusted, st, logId, entries) && |entries| <= 0x8000_0000
    requires HonestEvent(h, c, trusted, st, e, logId, entries)
    ensures HonestStore(h, c, trusted, Step(h, c, trusted, st, e), logId, entries)
    ensures Benign(StatusOf(h, c, trusted, st, e))
  {
    match e
    case StartCall(s, hasFetcher, now) => HonestStartFollowed(h, c, trusted, st, s, now, logId, entries);
    case EndCall(i, answer) =>
      if i < |st.calls| && st.calls[i].Some? {
        HonestEndStatus(h, c, trusted, st, i, answer, st.calls[i].value, logId, entries);
        HonestEndFollowed(h, c, trusted, st, i, answer, logId, entries);
      }
  }

  lemma HonestStoreNext(h: Hasher<Digest>, c: Crypto, trusted: Trusted, initial: Option<PinnedHead>, events: seq<Event>,
                        n: nat, k: nat, logId: bytes, entries: seq<bytes>)
    requires |entries| <= 0x8000_0000 && n < |events| && k == n + 1
    requires HonestEvent(h, c, trusted, StoreAt(h, c, trusted, initial, events, n), events[n], logId, entries)
    requires HonestStore(h, c, trusted, StoreAt(h, c, trusted, initial, events, n), logId, entries)
    ensures HonestStore(h, c, trusted, StoreAt(h, c, trusted, initial, events, k), logId, entries)
  {
    StoreAtNext(h, c, trusted, initial, events, n);
    HonestStepFollowed(h, c, trusted, StoreAt(h, c, trusted, initial, events, n), events[n], logId, entries);
  }

  lemma {:induction false} HonestStoreAt(h: Hasher<Digest>, c: Crypto, trusted: Trusted, initial: Option<PinnedHead>,
                                         events: seq<Event>, k: nat, logId: bytes, entries: seq<bytes>)
    requires HonestPin(h, c, trusted, initial, logId, entries) && |entries| <= 0x8000_0000
    requires HonestRun(h, c, trusted, initial, events, logId, entries) && k <= |events|
    ensures HonestStore(h, c, trusted, StoreAt(h, c, trusted, initial, events, k), logId, entries)
  {
    if k == 0 {
      FreshHasInv(h, c, trusted, initial);
    } else {
      HonestStoreAt(h, c, trusted, initial, events, k - 1, logId, entries);
      HonestStoreNext(h, c, trusted, initial, events, k - 1, k, logId, entries);
    }
  }

  /**
   * However the calls overlap, on an honest log up to 2^31 entries every call ends pinned, unchanged, advanced or
   * lagging, and every pin ever installed is a verified head of a prefix of the list.
   */
  lemma HonestScheduleFollowed(h: Hasher<Digest>, c: Crypto, trusted: Trusted, initial: Option<PinnedHead>,
                               events: seq<Event>, k: nat, logId: bytes, entries: seq<bytes>)
    requires HonestPin(h, c, trusted, initial, logId, entries) && |entries| <= 0x8000_0000
    requires HonestRun(h, c, trusted, initial, events, logId, entries) && k <= |events|
    ensures var st := StoreAt(h, c, trusted, initial, events, k);
            && HonestPin(h, c, trusted, st.pin, logId, entries)
            && (forall i :: 0 <= i < |st.installed| ==>
                  HonestPin(h, c, trusted, Some(st.installed[i].head), logId, entries))
            && (k < |events| ==> Benign(StatusOf(h, c, trusted, st, events[k])))
  {
    var st := StoreAt(h, c, trusted, initial, events, k);
    HonestStoreAt(h, c, trusted, initial, events, k, logId, entries);
    StoreHasHonestPin(h, c, trusted, st, logId, entries);
    if k < |events| {
      HonestStepFollowed(h, c, trusted, st, events[k], logId, entries);
    }
  }
}
