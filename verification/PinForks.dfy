/**
 * Fork safety under overlapping calls. A call compares with the pin it captured,
 * so a call completed by another one's side can replace the pin along a different
 * branch. PinSchedules says which schedules of calls are safe.
 */
module PinForks {
  import opened Bytes
  import opened Merkle
  import opened Sth
  import opened Equivocation
  import opened Adjudication
  import opened Pinning
  import opened PinRuns
  import opened PinInterleaved

  // ---------------------------------------------------------------- one move of the pin

  /** `inputs` covers the lists of the pin before and after, and every proven step between installed pins. */
  ghost predicate MoveHashed(h: Hasher<Digest>, c: Crypto, trusted: Trusted, after: Store, pinned: seq<bytes>,
                             other: seq<bytes>, inputs: set<Input<Digest>>) {
    && TreeHashed<Digest>(h, pinned, 0, |pinned|, inputs) && PrefixesHashed(h, other, inputs)
    && PinTree(h, c, trusted, after.installed) && TreeStepsHashed(h, c, trusted, after.installed, inputs)
  }

  /** The pin before was the head of one list, and the pin after is the head of a list that does not extend it. */
  ghost predicate Crosses(h: Hasher<Digest>, before: Store, after: Store, pinned: seq<bytes>, other: seq<bytes>) {
    && before.pin.Some? && HeadOf(h, before.pin.value.sth, pinned) && pinned != []
    && after.pin.Some? && HeadOf(h, after.pin.value.sth, other) && !(pinned <= other)
  }

  /** Whatever lists the two pins are the heads of, the step does not cross, unless hashed inputs collide. */
  ghost predicate ForkSafe(h: Hasher<Digest>, c: Crypto, trusted: Trusted, before: Store, after: Store) {
    forall pinned, other, inputs ::
      Crosses(h, before, after, pinned, other) && MoveHashed(h, c, trusted, after, pinned, other, inputs) ==>
        Collides(h, inputs)
  }

  lemma {:induction false} AncestorIsEarlier(h: Hasher<Digest>, c: Crypto, trusted: Trusted, installed: seq<Install>,
                                             j: nat, i: nat)
    requires PinTree(h, c, trusted, installed) && i < |installed| && Ancestor(installed, j, i)
    ensures j <= i
    decreases i
  {
    if j != i {
      AncestorIsEarlier(h, c, trusted, installed, j, installed[i].parent);
    }
  }

  /** The current pin is the latest installed, so it is an ancestor of a captured pin only by being that pin. */
  lemma OnlyCurrentIsAncestor(h: Hasher<Digest>, c: Crypto, trusted: Trusted, st: Store, from: nat)
    requires Inv(h, c, trusted, st) && st.pin.Some? && from < |st.installed|
    ensures Ancestor(st.installed, st.current, from) <==> from == st.current
  {
    if Ancestor(st.installed, st.current, from) {
      AncestorIsEarlier(h, c, trusted, st.installed, st.current, from);
    }
  }

  lemma {:induction false} AncestorInGrown(installed: seq<Install>, added: Install, j: nat, i: nat)
    requires i < |installed| && Ancestor(installed, j, i)
    ensures Ancestor(installed + [added], j, i)
    decreases i
  {
    if j != i {
      AncestorInGrown(installed, added, j, installed[i].parent);
    }
  }

  lemma SamePinIsSafe(h: Hasher<Digest>, c: Crypto, trusted: Trusted, before: Store, after: Store)
    requires before.pin == after.pin
    ensures ForkSafe(h, c, trusted, before, after)
  {
    forall pinned, other, inputs |
      Crosses(h, before, after, pinned, other) && MoveHashed(h, c, trusted, after, pinned, other, inputs)
      ensures Collides(h, inputs)
    {
      RootDeterminesList<Digest>(h, pinned, other, inputs);
    }
  }

  lemma PinVerified(h: Hasher<Digest>, c: Crypto, trusted: Trusted, st: Store)
    requires Inv(h, c, trusted, st) && st.pin.Some?
    ensures FromVerified(c, trusted, st.pin.value) && st.pin.value.treeSize == st.pin.value.sth.treeSize
  {
  }

  /** If such a call advances to a head of `other`, the current pin is the head of a prefix of it. */
  lemma AdvanceKeepsPrefix(h: Hasher<Digest>, c: Crypto, trusted: Trusted, st: Store, i: nat, added: Install,
                           other: seq<bytes>, inputs: set<Input<Digest>>)
    requires Inv(h, c, trusted, st) && st.pin.Some? && i < |st.calls| && added.parent < |st.installed|
    requires Ancestor(st.installed, st.current, added.parent)
    requires var grown := Advancing(st, i, added).installed;
             PinTree(h, c, trusted, grown) && TreeStepsHashed(h, c, trusted, grown, inputs)
    requires PrefixesHashed(h, other, inputs) && HeadOf(h, added.head.sth, other)
    requires 1 <= st.pin.value.treeSize
    ensures st.pin.value.treeSize <= |other|
    ensures HeadOf(h, st.pin.value.sth, other[..st.pin.value.treeSize]) || Collides(h, inputs)
  {
    var grown, n := st.installed + [added], |st.installed|;
    AncestorInGrown(st.installed, added, st.current, added.parent);
    assert grown[n] == added && grown[st.current] == st.installed[st.current];
    assert other[..|other|] == other;
    AncestorsArePrefixes(h, c, trusted, grown, st.current, n, other, inputs);
  }

  lemma AdvanceIsSafe(h: Hasher<Digest>, c: Crypto, trusted: Trusted, st: Store, i: nat, added: Install,
                      pinned: seq<bytes>, other: seq<bytes>, inputs: set<Input<Digest>>)
    requires Inv(h, c, trusted, st) && st.pin.Some? && i < |st.calls| && added.parent < |st.installed|
    requires Ancestor(st.installed, st.current, added.parent)
    requires var after := Advancing(st, i, added);
             Crosses(h, st, after, pinned, other) && MoveHashed(h, c, trusted, after, pinned, other, inputs)
    ensures Collides(h, inputs)
  {
    PinVerified(h, c, trusted, st);
    AdvanceKeepsPrefix(h, c, trusted, st, i, added, other, inputs);
    if !Collides(h, inputs) {
      HeadOfPrefix(h, st.pin.value.sth, pinned, other, inputs);
    }
  }

  /**
   * A completion whose captured pin was proven from the current one, in particular one whose captured pin is
   * still current, never takes the pin across a fork, whatever path is served.
   */
  lemma CompletionKeepsBranch(h: Hasher<Digest>, c: Crypto, trusted: Trusted, st: Store, i: nat,
                              answer: Option<seq<string>>)
    requires Inv(h, c, trusted, st) && st.pin.Some? && i < |st.calls| && st.calls[i].Some?
    requires Ancestor(st.installed, st.current, st.calls[i].value.from)
    ensures ForkSafe(h, c, trusted, st, Step(h, c, trusted, st, EndCall(i, answer)))
  {
    var call := st.calls[i].value;
    var added := Install(call.w.observed, call.from, PathOf(answer));
    var after := Step(h, c, trusted, st, EndCall(i, answer));
    EndIs(h, c, trusted, st, i, answer, call, added);
    if after == Closed(st, i) {
      SamePinIsSafe(h, c, trusted, st, after);
    } else {
      forall pinned, other, inputs |
        Crosses(h, st, after, pinned, other) && MoveHashed(h, c, trusted, after, pinned, other, inputs)
        ensures Collides(h, inputs)
      {
        AdvanceIsSafe(h, c, trusted, st, i, added, pinned, other, inputs);
      }
    }
  }

  lemma StartIsSafe(h: Hasher<Digest>, c: Crypto, trusted: Trusted, st: Store, s: SignedTreeHead, hasFetcher: bool,
                    now: int)
    requires Inv(h, c, trusted, st)
    ensures ForkSafe(h, c, trusted, st, Step(h, c, trusted, st, StartCall(s, hasFetcher, now)))
  {
    BeginMoves(h, c, trusted, st.pin, s, hasFetcher, now);
    if st.pin.Some? {
      SamePinIsSafe(h, c, trusted, st, Step(h, c, trusted, st, StartCall(s, hasFetcher, now)));
    }
  }

  // ---------------------------------------------------------------- two rival branches

  /** A head both lists begin with, and a larger head of each. */
  datatype Fork = Fork(a: SignedTreeHead, b: SignedTreeHead, d: SignedTreeHead, listB: seq<bytes>, listD: seq<bytes>)

  predicate Sized(f: Fork) {
    0 <= f.a.treeSize < f.b.treeSize <= |f.listB| && f.a.treeSize < f.d.treeSize <= |f.listD|
  }

  ghost predicate Rivals(h: Hasher<Digest>, c: Crypto, trusted: Trusted, f: Fork) {
    && |f.listB| <= 0x8000_0000 && |f.listD| <= 0x8000_0000
    && Sized(f)
    && HonestHead(h, c, trusted, f.a, f.a.logId, f.listB) && HonestHead(h, c, trusted, f.b, f.a.logId, f.listB)
    && HonestHead(h, c, trusted, f.a, f.a.logId, f.listD) && HonestHead(h, c, trusted, f.d, f.a.logId, f.listD)
  }

  /** A call that captured the common pin, waiting to move it to a head. */
  function CallFor(c: Crypto, trusted: Trusted, f: Fork, s: SignedTreeHead): Call {
    Call(Waiting(Observed(c, trusted, f.a), Observed(c, trusted, s)), 0)
  }

  lemma RivalsWait(h: Hasher<Digest>, c: Crypto, trusted: Trusted, f: Fork)
    requires Rivals(h, c, trusted, f)
    ensures FromVerified(c, trusted, Observed(c, trusted, f.a))
    ensures WaitingOk(c, trusted, CallFor(c, trusted, f, f.b).w) && WaitingOk(c, trusted, CallFor(c, trusted, f, f.d).w)
  {
    FirstCallPins(h, c, trusted, f.a);
    BothCapture(h, c, trusted, f.a, f.b, f.d);
  }

  /** The head of a branch as installed by such a call. */
  ghost function Added(h: Hasher<Digest>, c: Crypto, trusted: Trusted, f: Fork, s: SignedTreeHead,
                       entries: seq<bytes>): Install
    requires 0 <= f.a.treeSize < s.treeSize <= |entries|
  {
    Install(Observed(c, trusted, s), 0, ConsistencyProof<Digest>(h, entries[..s.treeSize], f.a.treeSize).value)
  }

  /** Each branch's own path takes a call that captured the common pin to the head of that branch. */
  lemma RivalAdvances(h: Hasher<Digest>, c: Crypto, trusted: Trusted, st: Store, i: nat, f: Fork, s: SignedTreeHead,
                      entries: seq<bytes>)
    requires |entries| <= 0x8000_0000 && 0 <= f.a.treeSize < s.treeSize <= |entries|
    requires HonestHead(h, c, trusted, f.a, f.a.logId, entries) && HonestHead(h, c, trusted, s, f.a.logId, entries)
    requires WaitingOk(c, trusted, CallFor(c, trusted, f, s).w)
    requires i < |st.calls| && st.calls[i] == Some(CallFor(c, trusted, f, s))
    ensures Step(h, c, trusted, st, EndCall(i, Some(OwnPath(h, entries, f.a.treeSize, s.treeSize))))
         == Advancing(st, i, Added(h, c, trusted, f, s, entries))
  {
    HonestEndAdvances(h, c, trusted, st, i, CallFor(c, trusted, f, s).w, 0, entries);
  }

  /** The branches of the two heads. */
  ghost predicate Diverged(f: Fork)
    requires Sized(f)
  {
    !(f.listB[..f.b.treeSize] <= f.listD[..f.d.treeSize])
  }

  /** Being the heads of diverged branches, the two pins cross. */
  lemma RivalPinsCross(h: Hasher<Digest>, c: Crypto, trusted: Trusted, f: Fork, before: Store, after: Store)
    requires Rivals(h, c, trusted, f) && Diverged(f)
    requires before.pin == Some(Observed(c, trusted, f.b)) && after.pin == Some(Observed(c, trusted, f.d))
    ensures Crosses(h, before, after, f.listB[..f.b.treeSize], f.listD[..f.d.treeSize])
  {
  }

  /**
   * Overlapping calls can take the pin across a fork: two calls capture one pin, each is served the proof to a
   * head of its own list, and the store's pin goes from one list's head to the other's, which no path links.
   */
  lemma OverlapCanCrossFork(h: Hasher<Digest>, c: Crypto, trusted: Trusted, f: Fork)
    requires Rivals(h, c, trusted, f) && Diverged(f)
    ensures var before := Step(h, c, trusted, Overlapping(h, c, trusted, f.a, f.b, f.d),
                               EndCall(2, Some(OwnPath(h, f.listB, f.a.treeSize, f.b.treeSize))));
            var after := Step(h, c, trusted, before, EndCall(1, Some(OwnPath(h, f.listD, f.a.treeSize, f.d.treeSize))));
            && before.pin == Some(Observed(c, trusted, f.b)) && after.pin == Some(Observed(c, trusted, f.d))
            && Crosses(h, before, after, f.listB[..f.b.treeSize], f.listD[..f.d.treeSize])
  {
    RivalsWait(h, c, trusted, f);
    BothCapture(h, c, trusted, f.a, f.b, f.d);
    var st := Overlapping(h, c, trusted, f.a, f.b, f.d);
    RivalAdvances(h, c, trusted, st, 2, f, f.b, f.listB);
    var before := Step(h, c, trusted, st, EndCall(2, Some(OwnPath(h, f.listB, f.a.treeSize, f.b.treeSize))));
    RivalAdvances(h, c, trusted, before, 1, f, f.d, f.listD);
    RivalPinsCross(h, c, trusted, f, before,
                   Step(h, c, trusted, before, EndCall(1, Some(OwnPath(h, f.listD, f.a.treeSize, f.d.treeSize)))));
  }
}
