/** Equivocation: two correctly signed heads that cannot describe one append-only log. */
module Equivocation {
  import opened Bytes
  import opened Codec
  import opened Merkle
  import opened Sth
  import opened Verifiers

  datatype Reason = NotAttributable | DifferentLogs | SameRoot | DifferentRoots | NoPathSupplied
                  | PathUndecodable | PathVerifies | PathDoesNotVerify

  datatype EqError = FromA(e: SthError) | FromB(e: SthError) | MalformedPath | PathFails

  /** The portable proof: both envelopes and the key ids that signed them. */
  datatype Bundle = Bundle(sthA: SignedTreeHead, sthB: SignedTreeHead, keyIdA: Option<bytes>, keyIdB: Option<bytes>)

  datatype EquivocationResult = EquivocationResult(
    equivocation: bool, reason: Reason, errors: seq<EqError>, crossKey: bool,
    consistencyVerified: Option<bool>, proof: Option<Bundle>)

  /** A key id that JavaScript counts as present. */
  function Present(keyId: Option<bytes>): Option<bytes> {
    if keyId.Some? && keyId.value != [] then keyId else None
  }

  /** The decoded path; None if any node is not hex. */
  function DecodePath(path: seq<string>): Option<seq<bytes>> {
    if forall i :: 0 <= i < |path| ==> HexToBytes(path[i]).Some?
    then Some(seq(|path|, i requires 0 <= i < |path| && HexToBytes(path[i]).Some? => HexToBytes(path[i]).value))
    else None
  }

  method RunDecodePath(path: seq<string>) returns (r: Option<seq<bytes>>)
    ensures r == DecodePath(path)
  {
    var out: seq<bytes> := [];
    for i := 0 to |path|
      invariant |out| == i
      invariant forall j :: 0 <= j < i ==> HexToBytes(path[j]) == Some(out[j])
    {
      var b := FillFromHex(path[i]);
      if b.None? { return None; }
      out := out + [b.value];
    }
    assert out == DecodePath(path).value;
    return Some(out);
  }

  function TagA(errors: seq<SthError>): seq<EqError> { seq(|errors|, i requires 0 <= i < |errors| => FromA(errors[i])) }

  function TagB(errors: seq<SthError>): seq<EqError> { seq(|errors|, i requires 0 <= i < |errors| => FromB(errors[i])) }

  /** The consistency verifier's answer for two heads whose roots are hex. */
  ghost predicate PathAccepted(h: Hasher<Digest>, older: SignedTreeHead, newer: SignedTreeHead, path: seq<bytes>) {
    && HexToBytes(older.root).Some? && HexToBytes(newer.root).Some?
    && ConsistencyAccepts(h, older.treeSize, HexToBytes(older.root).value, newer.treeSize, HexToBytes(newer.root).value,
                          path)
  }

  /** The verdict on heads of different sizes. */
  ghost function AdjudicatePath(h: Hasher<Digest>, older: SignedTreeHead, newer: SignedTreeHead,
                                path: Option<seq<string>>, out: EquivocationResult): EquivocationResult {
    if path.None? then out.(reason := NoPathSupplied)
    else
      var nodes := DecodePath(path.value);
      if nodes.None? then out.(errors := out.errors + [MalformedPath], reason := PathUndecodable)
      else if PathAccepted(h, older, newer, nodes.value) then
        out.(consistencyVerified := Some(true), reason := PathVerifies)
      else
        out.(consistencyVerified := Some(false), errors := out.errors + [PathFails], reason := PathDoesNotVerify)
  }

  /** The part for two heads that verify; before is the result filled in so far. */
  ghost function CompareHeads(h: Hasher<Digest>, a: SignedTreeHead, b: SignedTreeHead, keyA: Option<bytes>,
                              keyB: Option<bytes>,
                              path: Option<seq<string>>, before: EquivocationResult): EquivocationResult {
    var out := before.(crossKey := keyA.Some? && keyB.Some? && keyA != keyB);
    if a.logId != b.logId then out.(reason := DifferentLogs)
    else if a.treeSize == b.treeSize then
      if Clean(a.root) == Clean(b.root) then out.(reason := SameRoot)
      else out.(equivocation := true, reason := DifferentRoots, proof := Some(Bundle(a, b, keyA, keyB)))
    else if a.treeSize < b.treeSize then AdjudicatePath(h, a, b, path, out)
    else AdjudicatePath(h, b, a, path, out)
  }

  /** The verdict from the two verification results. */
  ghost function Judge(h: Hasher<Digest>, a: SignedTreeHead, b: SignedTreeHead, resA: SthResult, resB: SthResult,
                       path: Option<seq<string>>): EquivocationResult {
    var errors := (if resA.valid then [] else TagA(resA.errors)) + (if resB.valid then [] else TagB(resB.errors));
    var out := EquivocationResult(false, NotAttributable, errors, false, None, None);
    if !resA.valid || !resB.valid then out
    else CompareHeads(h, a, b, Present(resA.keyId), Present(resB.keyId), path, out)
  }

  /** The result checkEquivocation fills in. */
  ghost function CheckEquivocation(h: Hasher<Digest>, c: Crypto, a: SignedTreeHead, b: SignedTreeHead,
                                   trusted: Trusted, path: Option<seq<string>>): EquivocationResult {
    Judge(h, a, b, VerifySth(c, a, trusted), VerifySth(c, b, trusted), path)
  }

  lemma ValidRoot(c: Crypto, s: SignedTreeHead, trusted: Trusted)
    requires VerifySth(c, s, trusted).valid
    ensures HexToBytes(s.root).Some? && |HexToBytes(s.root).value| == 32
    ensures 0 <= s.treeSize <= MAX_SAFE
    ensures Present(VerifySth(c, s, trusted).keyId) == s.keyId
  {
    VerifySthExact(c, s, trusted);
  }

  method RunAdjudicatePath(h: Hasher<Digest>, older: SignedTreeHead, newer: SignedTreeHead,
                           path: Option<seq<string>>, before: EquivocationResult) returns (out: EquivocationResult)
    requires HexToBytes(older.root).Some? && HexToBytes(newer.root).Some?
    ensures out == AdjudicatePath(h, older, newer, path, before)
  {
    out := before;
    if path.None? { return out.(reason := NoPathSupplied); }
    var nodes := RunDecodePath(path.value);
    if nodes.None? { return out.(errors := out.errors + [MalformedPath], reason := PathUndecodable); }
    var older32 := FillFromHex(older.root);
    var newer32 := FillFromHex(newer.root);
    var ok := VerifyConsistency(h, older.treeSize, older32.value, newer.treeSize, newer32.value, nodes.value);
    if ok { return out.(consistencyVerified := Some(true), reason := PathVerifies); }
    out := out.(consistencyVerified := Some(false), errors := out.errors + [PathFails], reason := PathDoesNotVerify);
  }

  method RunCompareHeads(h: Hasher<Digest>, a: SignedTreeHead, b: SignedTreeHead, keyA: Option<bytes>,
                         keyB: Option<bytes>,
                         path: Option<seq<string>>, before: EquivocationResult) returns (out: EquivocationResult)
    requires HexToBytes(a.root).Some? && HexToBytes(b.root).Some?
    ensures out == CompareHeads(h, a, b, keyA, keyB, path, before)
  {
    out := before.(crossKey := keyA.Some? && keyB.Some? && keyA != keyB);
    if a.logId != b.logId { return out.(reason := DifferentLogs); }
    if a.treeSize == b.treeSize {
      if Clean(a.root) == Clean(b.root) { return out.(reason := SameRoot); }
      return out.(equivocation := true, reason := DifferentRoots, proof := Some(Bundle(a, b, keyA, keyB)));
    }
    if a.treeSize < b.treeSize {
      out := RunAdjudicatePath(h, a, b, path, out);
    } else {
      out := RunAdjudicatePath(h, b, a, path, out);
    }
  }

  method RunJudge(h: Hasher<Digest>, a: SignedTreeHead, b: SignedTreeHead, resA: SthResult, resB: SthResult,
                  path: Option<seq<string>>) returns (out: EquivocationResult)
    requires resA.valid ==> HexToBytes(a.root).Some?
    requires resB.valid ==> HexToBytes(b.root).Some?
    ensures out == Judge(h, a, b, resA, resB, path)
  {
    out := EquivocationResult(false, NotAttributable, [], false, None, None);
    if !resA.valid { out := out.(errors := out.errors + TagA(resA.errors)); }
    if !resB.valid { out := out.(errors := out.errors + TagB(resB.errors)); }
    if !resA.valid || !resB.valid { return; }
    out := RunCompareHeads(h, a, b, Present(resA.keyId), Present(resB.keyId), path, out);
  }

  /** Verifies both heads, then judges them. */
  method RunCheckEquivocation(h: Hasher<Digest>, c: Crypto, a: SignedTreeHead, b: SignedTreeHead,
                              trusted: Trusted, path: Option<seq<string>>) returns (out: EquivocationResult)
    ensures out == CheckEquivocation(h, c, a, b, trusted, path)
  {
    var resA := RunVerifySth(c, a, trusted);
    var resB := RunVerifySth(c, b, trusted);
    if resA.valid { ValidRoot(c, a, trusted); }
    if resB.valid { ValidRoot(c, b, trusted); }
    out := RunJudge(h, a, b, resA, resB, path);
  }

  // ---------------------------------------------------------------- what a conviction means

  /** Both heads verify for one log and size, and sign different roots. */
  ghost predicate Contradict(c: Crypto, a: SignedTreeHead, b: SignedTreeHead, trusted: Trusted) {
    && VerifySth(c, a, trusted).valid && VerifySth(c, b, trusted).valid
    && a.logId == b.logId && a.treeSize == b.treeSize
    && HexToBytes(a.root) != HexToBytes(b.root)
  }

  lemma JudgeConvicts(h: Hasher<Digest>, a: SignedTreeHead, b: SignedTreeHead, resA: SthResult, resB: SthResult,
                      path: Option<seq<string>>)
    requires resA.valid && resB.valid ==>
               && HexToBytes(a.root).Some? && HexToBytes(b.root).Some?
               && Present(resA.keyId) == a.keyId && Present(resB.keyId) == b.keyId
    ensures var v := Judge(h, a, b, resA, resB, path);
            && (v.equivocation <==> resA.valid && resB.valid && a.logId == b.logId && a.treeSize == b.treeSize
                                    && HexToBytes(a.root) != HexToBytes(b.root))
            && (v.equivocation ==> v.proof == Some(Bundle(a, b, a.keyId, b.keyId)) && v.consistencyVerified.None?)
            && (!v.equivocation ==> v.proof.None?)
  {
    if resA.valid && resB.valid {
      CleanDecides(a.root, b.root);
    }
  }

  /**
   * The verdict convicts, and carries a bundle of exactly these two heads, when
   * they contradict each other and never otherwise, whatever the path.
   */
  lemma ConvictsExactly(h: Hasher<Digest>, c: Crypto, a: SignedTreeHead, b: SignedTreeHead, trusted: Trusted,
                        path: Option<seq<string>>)
    ensures var v := CheckEquivocation(h, c, a, b, trusted, path);
            && (v.equivocation <==> Contradict(c, a, b, trusted))
            && (v.equivocation ==> v.proof == Some(Bundle(a, b, a.keyId, b.keyId)) && v.consistencyVerified.None?)
            && (!v.equivocation ==> v.proof.None?)
  {
    if VerifySth(c, a, trusted).valid && VerifySth(c, b, trusted).valid {
      ValidRoot(c, a, trusted);
      ValidRoot(c, b, trusted);
    }
    JudgeConvicts(h, a, b, VerifySth(c, a, trusted), VerifySth(c, b, trusted), path);
  }

  /** The verdict does not depend on the order of the heads or on any path. */
  lemma ConvictionSymmetric(h: Hasher<Digest>, c: Crypto, a: SignedTreeHead, b: SignedTreeHead, trusted: Trusted,
                            path: Option<seq<string>>, other: Option<seq<string>>)
    ensures CheckEquivocation(h, c, a, b, trusted, path).equivocation
         == CheckEquivocation(h, c, b, a, trusted, other).equivocation
  {
    ConvictsExactly(h, c, a, b, trusted, path);
    ConvictsExactly(h, c, b, a, trusted, other);
  }

  /** The head signs the size and root of the list. */
  ghost predicate HeadOf(h: Hasher<Digest>, s: SignedTreeHead, entries: seq<bytes>) {
    && s.treeSize == |entries|
    && HexToBytes(s.root) == Some(MerkleRoot<Digest>(h, entries))
  }

  /** Signed histories of one length that differ always convict, unless a collision is exhibited. */
  lemma DivergedHistoriesConvict(h: Hasher<Digest>, c: Crypto, a: SignedTreeHead, b: SignedTreeHead, trusted: Trusted,
                                 path: Option<seq<string>>, ea: seq<bytes>, eb: seq<bytes>, inputs: set<Input<Digest>>)
    requires VerifySth(c, a, trusted).valid && VerifySth(c, b, trusted).valid && a.logId == b.logId
    requires HeadOf(h, a, ea) && HeadOf(h, b, eb) && |ea| == |eb| && ea != eb
    requires TreeHashed<Digest>(h, ea, 0, |ea|, inputs) && TreeHashed<Digest>(h, eb, 0, |eb|, inputs)
    ensures CheckEquivocation(h, c, a, b, trusted, path).equivocation || Collides(h, inputs)
  {
    ConvictsExactly(h, c, a, b, trusted, path);
    if HexToBytes(a.root) == HexToBytes(b.root) {
      RootDeterminesList<Digest>(h, ea, eb, inputs);
    }
  }

  /** Heads of prefixes of one list never convict. */
  lemma HonestHeadsNeverConvict(h: Hasher<Digest>, c: Crypto, a: SignedTreeHead, b: SignedTreeHead, trusted: Trusted,
                                path: Option<seq<string>>, entries: seq<bytes>, m: nat, n: nat)
    requires m <= |entries| && n <= |entries| && HeadOf(h, a, entries[..m]) && HeadOf(h, b, entries[..n])
    ensures !CheckEquivocation(h, c, a, b, trusted, path).equivocation
  {
    ConvictsExactly(h, c, a, b, trusted, path);
  }
}
