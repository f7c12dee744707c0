/** What a verdict on two heads says about consistency, in whatever order they are given. */
module Adjudication {
  import opened Bytes
  import opened Codec
  import opened Merkle
  import opened Soundness
  import opened Depth
  import opened Sth
  import opened Equivocation

  // ---------------------------------------------------------------- paths as hex

  function PathToHex(path: seq<Digest>): seq<string> {
    seq(|path|, i requires 0 <= i < |path| => BytesToHex(path[i]))
  }

  lemma PathToHexDecodes(path: seq<Digest>)
    ensures DecodePath(PathToHex(path)) == Some(path)
  {
    forall i | 0 <= i < |path| ensures HexToBytes(PathToHex(path)[i]) == Some(path[i]) {
      HexRoundTrip(path[i]);
    }
    assert DecodePath(PathToHex(path)).value == path;
  }

  /** The path the list itself gives between two of its sizes. */
  function OwnPath(h: Hasher<Digest>, entries: seq<bytes>, m: int, n: int): seq<string>
    requires 0 <= m < n <= |entries|
  {
    PathToHex(ConsistencyProof<Digest>(h, entries[..n], m).value)
  }

  /** A path decodes to exactly the bytes its nodes spell, and not at all when one node is not hex. */
  lemma DecodesExactly(path: seq<string>, nodes: seq<bytes>)
    ensures DecodePath(path) == Some(nodes)
       <==> |nodes| == |path| && forall i :: 0 <= i < |path| ==> HexToBytes(path[i]) == Some(nodes[i])
  {
    if |nodes| == |path| && forall i :: 0 <= i < |path| ==> HexToBytes(path[i]) == Some(nodes[i]) {
      assert DecodePath(path).value == nodes;
    }
  }

  /** The list's own proof between two of its heads is accepted up to 2^31 entries. */
  lemma HonestPathAccepted(h: Hasher<Digest>, a: SignedTreeHead, b: SignedTreeHead, entries: seq<bytes>)
    requires 0 <= a.treeSize < b.treeSize <= |entries| <= 0x8000_0000
    requires HeadOf(h, a, entries[..a.treeSize]) && HeadOf(h, b, entries[..b.treeSize])
    ensures PathAccepted(h, a, b, ConsistencyProof<Digest>(h, entries[..b.treeSize], a.treeSize).value)
  {
    var m: nat, list := a.treeSize, entries[..b.treeSize];
    assert list[..m] == entries[..m];
    if m >= 1 {
      ConsistencyWithinLimit(h, list, m);
    }
  }

  // ---------------------------------------------------------------- when a verdict calls two heads consistent

  /** Two verified heads of one log at different sizes. */
  ghost predicate Comparable(c: Crypto, a: SignedTreeHead, b: SignedTreeHead, trusted: Trusted) {
    && VerifySth(c, a, trusted).valid && VerifySth(c, b, trusted).valid
    && a.logId == b.logId && a.treeSize != b.treeSize
  }

  /** The answer decodes to a path that the verifier accepts from the older head to the newer. */
  ghost predicate Proves(h: Hasher<Digest>, older: SignedTreeHead, newer: SignedTreeHead, answer: Option<seq<string>>) {
    answer.Some? && DecodePath(answer.value).Some? && PathAccepted(h, older, newer, DecodePath(answer.value).value)
  }

  /** The path leads from the head of smaller size to the other one. */
  ghost predicate Links(h: Hasher<Digest>, a: SignedTreeHead, b: SignedTreeHead, path: Option<seq<string>>) {
    (a.treeSize < b.treeSize && Proves(h, a, b, path)) || (b.treeSize < a.treeSize && Proves(h, b, a, path))
  }

  lemma JudgeVerified(h: Hasher<Digest>, a: SignedTreeHead, b: SignedTreeHead, resA: SthResult, resB: SthResult,
                      path: Option<seq<string>>)
    requires resA.valid && resB.valid && Present(resA.keyId) == a.keyId && Present(resB.keyId) == b.keyId
    ensures Judge(h, a, b, resA, resB, path)
         == CompareHeads(h, a, b, a.keyId, b.keyId, path,
                         EquivocationResult(false, NotAttributable, [], false, None, None))
  {
  }

  lemma VerifiedHeads(h: Hasher<Digest>, c: Crypto, a: SignedTreeHead, b: SignedTreeHead, trusted: Trusted,
                      path: Option<seq<string>>)
    requires VerifySth(c, a, trusted).valid && VerifySth(c, b, trusted).valid
    ensures CheckEquivocation(h, c, a, b, trusted, path)
         == CompareHeads(h, a, b, a.keyId, b.keyId, path,
                         EquivocationResult(false, NotAttributable, [], false, None, None))
  {
    ValidRoot(c, a, trusted);
    ValidRoot(c, b, trusted);
    JudgeVerified(h, a, b, VerifySth(c, a, trusted), VerifySth(c, b, trusted), path);
  }

  /**
   * The outcome for consistency: proven exactly when the heads are comparable and the path leads from the smaller
   * to the larger, refuted exactly when such a path decodes and does not, and open in every other case.
   */
  lemma OutcomeExactly(h: Hasher<Digest>, c: Crypto, a: SignedTreeHead, b: SignedTreeHead, trusted: Trusted,
                       path: Option<seq<string>>)
    ensures var outcome := CheckEquivocation(h, c, a, b, trusted, path).consistencyVerified;
            && (outcome == Some(true) <==> Comparable(c, a, b, trusted) && Links(h, a, b, path))
            && (outcome == Some(false) <==> && Comparable(c, a, b, trusted) && path.Some? && DecodePath(path.value).Some?
                                            && !Links(h, a, b, path))
            && (outcome == None <==> !Comparable(c, a, b, trusted) || path.None? || DecodePath(path.value).None?)
  {
    if VerifySth(c, a, trusted).valid && VerifySth(c, b, trusted).valid {
      VerifiedHeads(h, c, a, b, trusted, path);
    }
  }

  lemma ReasonOfVerified(h: Hasher<Digest>, a: SignedTreeHead, b: SignedTreeHead, path: Option<seq<string>>,
                         before: EquivocationResult)
    requires HexToBytes(a.root).Some? && HexToBytes(b.root).Some?
    ensures var v := CompareHeads(h, a, b, a.keyId, b.keyId, path, before);
            && v.reason != NotAttributable
            && (v.reason == DifferentLogs <==> a.logId != b.logId)
            && (v.reason == SameRoot <==>
                  a.logId == b.logId && a.treeSize == b.treeSize && HexToBytes(a.root) == HexToBytes(b.root))
            && (v.reason == DifferentRoots <==>
                  a.logId == b.logId && a.treeSize == b.treeSize && HexToBytes(a.root) != HexToBytes(b.root))
            && (v.reason == NoPathSupplied <==> a.logId == b.logId && a.treeSize != b.treeSize && path.None?)
            && (v.reason == PathUndecodable <==>
                  a.logId == b.logId && a.treeSize != b.treeSize && path.Some? && DecodePath(path.value).None?)
            && (v.crossKey <==> a.keyId.Some? && b.keyId.Some? && a.keyId != b.keyId)
  {
    CleanDecides(a.root, b.root);
  }

  lemma ReasonOfOutcome(h: Hasher<Digest>, a: SignedTreeHead, b: SignedTreeHead, path: Option<seq<string>>,
                        before: EquivocationResult)
    requires before.consistencyVerified.None?
    ensures var v := CompareHeads(h, a, b, a.keyId, b.keyId, path, before);
            && (v.reason == PathVerifies <==> v.consistencyVerified == Some(true))
            && (v.reason == PathDoesNotVerify <==> v.consistencyVerified == Some(false))
  {
  }

  /** Why the verdict is what it is: each reason has its own condition. */
  lemma ReasonsExactly(h: Hasher<Digest>, c: Crypto, a: SignedTreeHead, b: SignedTreeHead, trusted: Trusted,
                       path: Option<seq<string>>)
    ensures var v := CheckEquivocation(h, c, a, b, trusted, path);
            var both := VerifySth(c, a, trusted).valid && VerifySth(c, b, trusted).valid;
            && (v.reason == NotAttributable <==> !both)
            && (v.reason == DifferentLogs <==> both && a.logId != b.logId)
            && (v.reason == SameRoot <==> && both && a.logId == b.logId && a.treeSize == b.treeSize
                                          && HexToBytes(a.root) == HexToBytes(b.root))
            && (v.reason == DifferentRoots <==> Contradict(c, a, b, trusted))
            && (v.reason == NoPathSupplied <==> Comparable(c, a, b, trusted) && path.None?)
            && (v.reason == PathUndecodable <==>
                  Comparable(c, a, b, trusted) && path.Some? && DecodePath(path.value).None?)
            && (v.reason == PathVerifies <==> v.consistencyVerified == Some(true))
            && (v.reason == PathDoesNotVerify <==> v.consistencyVerified == Some(false))
            && (v.crossKey <==> both && a.keyId.Some? && b.keyId.Some? && a.keyId != b.keyId)
  {
    if VerifySth(c, a, trusted).valid && VerifySth(c, b, trusted).valid {
      var before := EquivocationResult(false, NotAttributable, [], false, None, None);
      VerifiedHeads(h, c, a, b, trusted, path);
      ValidRoot(c, a, trusted);
      ValidRoot(c, b, trusted);
      ReasonOfVerified(h, a, b, path, before);
      ReasonOfOutcome(h, a, b, path, before);
    }
  }

  lemma TagsKeep(errors: seq<SthError>)
    ensures forall e :: FromA(e) in TagA(errors) <==> e in errors
    ensures forall e :: FromB(e) in TagB(errors) <==> e in errors
  {
    forall e | e in errors ensures FromA(e) in TagA(errors) && FromB(e) in TagB(errors) {
      var i :| 0 <= i < |errors| && errors[i] == e;
      assert TagA(errors)[i] == FromA(e) && TagB(errors)[i] == FromB(e);
    }
  }

  /** The errors reported when a head does not verify. */
  function HeadErrors(resA: SthResult, resB: SthResult): seq<EqError> {
    (if resA.valid then [] else TagA(resA.errors)) + (if resB.valid then [] else TagB(resB.errors))
  }

  lemma HeadErrorsAre(resA: SthResult, resB: SthResult)
    ensures var errors := HeadErrors(resA, resB);
            && (forall e :: FromA(e) in errors <==> !resA.valid && e in resA.errors)
            && (forall e :: FromB(e) in errors <==> !resB.valid && e in resB.errors)
            && MalformedPath !in errors && PathFails !in errors
  {
    TagsKeep(resA.errors);
    TagsKeep(resB.errors);
  }

  lemma ErrorsOfVerified(h: Hasher<Digest>, a: SignedTreeHead, b: SignedTreeHead, path: Option<seq<string>>,
                         before: EquivocationResult)
    requires before.errors == [] && before.reason == NotAttributable
    ensures var v := CompareHeads(h, a, b, a.keyId, b.keyId, path, before);
            v.errors == if v.reason == PathUndecodable then [MalformedPath]
                        else if v.reason == PathDoesNotVerify then [PathFails] else []
  {
  }

  lemma ErrorsOfUnverified(h: Hasher<Digest>, a: SignedTreeHead, b: SignedTreeHead, resA: SthResult, resB: SthResult,
                           path: Option<seq<string>>)
    requires !resA.valid || !resB.valid
    ensures var v := Judge(h, a, b, resA, resB, path); v.errors == HeadErrors(resA, resB) && v.reason == NotAttributable
  {
  }

  /** Every error is one head's own, under that head's tag, or says that the path failed or could not be decoded. */
  lemma ErrorsExactly(h: Hasher<Digest>, c: Crypto, a: SignedTreeHead, b: SignedTreeHead, trusted: Trusted,
                      path: Option<seq<string>>)
    ensures var v := CheckEquivocation(h, c, a, b, trusted, path);
            var resA, resB := VerifySth(c, a, trusted), VerifySth(c, b, trusted);
            && (forall e :: FromA(e) in v.errors <==> !resA.valid && e in resA.errors)
            && (forall e :: FromB(e) in v.errors <==> !resB.valid && e in resB.errors)
            && (MalformedPath in v.errors <==> v.reason == PathUndecodable)
            && (PathFails in v.errors <==> v.reason == PathDoesNotVerify)
  {
    var resA, resB := VerifySth(c, a, trusted), VerifySth(c, b, trusted);
    if resA.valid && resB.valid {
      VerifiedHeads(h, c, a, b, trusted, path);
      ErrorsOfVerified(h, a, b, path, EquivocationResult(false, NotAttributable, [], false, None, None));
    } else {
      ErrorsOfUnverified(h, a, b, resA, resB, path);
      HeadErrorsAre(resA, resB);
    }
  }

  /** Exchanging the heads changes nothing but the order in the bundle. */
  lemma VerdictSymmetric(h: Hasher<Digest>, c: Crypto, a: SignedTreeHead, b: SignedTreeHead, trusted: Trusted,
                         path: Option<seq<string>>)
    ensures var v, w := CheckEquivocation(h, c, a, b, trusted, path), CheckEquivocation(h, c, b, a, trusted, path);
            && v.consistencyVerified == w.consistencyVerified && v.reason == w.reason
            && v.equivocation == w.equivocation && v.crossKey == w.crossKey
            && (v.proof.Some? ==> w.proof == Some(Bundle(b, a, v.proof.value.keyIdB, v.proof.value.keyIdA)))
  {
    ReasonsExactly(h, c, a, b, trusted, path);
    ReasonsExactly(h, c, b, a, trusted, path);
    OutcomeExactly(h, c, a, b, trusted, path);
    OutcomeExactly(h, c, b, a, trusted, path);
    ConvictsExactly(h, c, a, b, trusted, path);
    ConvictsExactly(h, c, b, a, trusted, path);
  }

  // ---------------------------------------------------------------- and what that shows

  /** For two heads of one list, up to 2^31 entries, the list's own path is found to verify in either order. */
  lemma HonestPathVerifies(h: Hasher<Digest>, c: Crypto, a: SignedTreeHead, b: SignedTreeHead, trusted: Trusted,
                           entries: seq<bytes>)
    requires VerifySth(c, a, trusted).valid && VerifySth(c, b, trusted).valid && a.logId == b.logId
    requires 0 <= a.treeSize < b.treeSize <= |entries| <= 0x8000_0000
    requires HeadOf(h, a, entries[..a.treeSize]) && HeadOf(h, b, entries[..b.treeSize])
    ensures var path := Some(OwnPath(h, entries, a.treeSize, b.treeSize));
            && CheckEquivocation(h, c, a, b, trusted, path).consistencyVerified == Some(true)
            && CheckEquivocation(h, c, b, a, trusted, path).consistencyVerified == Some(true)
  {
    var path := OwnPath(h, entries, a.treeSize, b.treeSize);
    HonestPathAccepted(h, a, b, entries);
    PathToHexDecodes(ConsistencyProof<Digest>(h, entries[..b.treeSize], a.treeSize).value);
    OutcomeExactly(h, c, a, b, trusted, Some(path));
    OutcomeExactly(h, c, b, a, trusted, Some(path));
  }

  /** `inputs` covers the list and the run of the verifier on the decoded path from the older head. */
  ghost predicate VerdictHashed(h: Hasher<Digest>, older: SignedTreeHead, entries: seq<bytes>, nodes: seq<Digest>,
                                inputs: set<Input<Digest>>) {
    && 1 <= older.treeSize <= |entries| && HexToBytes(older.root).Some? && |HexToBytes(older.root).value| == 32
    && ConsistencyHashed(h, entries, older.treeSize, HexToBytes(older.root).value, nodes, inputs)
  }

  /**
   * If two heads are found consistent and the larger is the head of a list, the smaller, when of size one or more,
   * is the head of a prefix of that list, or a collision is exhibited; whichever head was given first.
   */
  lemma ConsistentMeansPrefix(h: Hasher<Digest>, c: Crypto, older: SignedTreeHead, newer: SignedTreeHead,
                              trusted: Trusted, path: seq<string>, nodes: seq<Digest>, entries: seq<bytes>,
                              inputs: set<Input<Digest>>)
    requires || CheckEquivocation(h, c, older, newer, trusted, Some(path)).consistencyVerified == Some(true)
             || CheckEquivocation(h, c, newer, older, trusted, Some(path)).consistencyVerified == Some(true)
    requires older.treeSize < newer.treeSize && HeadOf(h, newer, entries) && DecodePath(path) == Some(nodes)
    requires VerdictHashed(h, older, entries, nodes, inputs)
    ensures HeadOf(h, older, entries[..older.treeSize]) || Collides(h, inputs)
  {
    OutcomeExactly(h, c, older, newer, trusted, Some(path));
    OutcomeExactly(h, c, newer, older, trusted, Some(path));
    ConsistencySound(h, entries, older.treeSize, HexToBytes(older.root).value, nodes, inputs);
  }
}
