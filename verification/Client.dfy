/** Offline verification of the inclusion block a paid response carries, and its permanence. */
module Client {
  import opened Bytes
  import opened Codec
  import opened Merkle
  import opened RootDown
  import opened Exactness
  import opened Verifiers
  import opened Soundness
  import opened Depth
  import opened KeyDir
  import opened Sth
  import opened Equivocation
  import opened Adjudication
  import opened Pinning
  import opened PinRuns

  /** The fields of the document the check reads; an absent or empty leaf names nothing. */
  datatype InclusionDoc = InclusionDoc(
    receiptLeaf: Option<string>, blockLeaf: Option<string>, leafIndex: int, treeSize: Option<int>,
    auditPath: seq<string>, sth: Option<SignedTreeHead>)

  datatype InclusionError = NoLeaf | LeafMismatch | BadLeaf | NoSth | BadIndex | SthInvalid(e: SthError)
                          | WrongTreeSize | MalformedPath | InclusionFails

  datatype InclusionResult = InclusionResult(
    valid: bool, errors: seq<InclusionError>, leaf: string, sthValid: bool, inclusionValid: bool, treeSize: Option<int>)

  // ---------------------------------------------------------------- what a receipt must show

  /** A leaf field that names something: absent and empty ones do not. */
  predicate Given(leaf: Option<string>) { leaf.Some? && leaf.value != "" }

  /** Somebody names a leaf, and everybody who does spells these 32 bytes in hex. */
  ghost predicate Agreed(callerLeaf: Option<string>, doc: InclusionDoc, leaf: bytes) {
    && |leaf| == 32 && (callerLeaf.Some? || Given(doc.receiptLeaf) || Given(doc.blockLeaf))
    && (callerLeaf.Some? ==> HexToBytes(callerLeaf.value) == Some(leaf))
    && (Given(doc.receiptLeaf) ==> HexToBytes(doc.receiptLeaf.value) == Some(leaf))
    && (Given(doc.blockLeaf) ==> HexToBytes(doc.blockLeaf.value) == Some(leaf))
  }

  /** The proof and the head's root are hex. */
  ghost predicate ProofDecodes(doc: InclusionDoc, s: SignedTreeHead) {
    DecodePath(doc.auditPath).Some? && HexToBytes(s.root).Some?
  }

  /** The proof is for the head's size and places the leaf at its index under the head's root. */
  ghost predicate ProofAccepted(h: Hasher<Digest>, leaf: bytes, doc: InclusionDoc, s: SignedTreeHead) {
    && (doc.treeSize.Some? ==> doc.treeSize.value == s.treeSize) && ProofDecodes(doc, s)
    && InclusionAccepts(h, leaf, doc.leafIndex, s.treeSize, DecodePath(doc.auditPath).value, HexToBytes(s.root).value)
  }

  /** The leaf is the one every party names and its proof verifies against the authenticated head. */
  ghost predicate LogInclusionValid(h: Hasher<Digest>, c: Crypto, callerLeaf: Option<string>, doc: InclusionDoc,
                                    trusted: Trusted, leaf: bytes) {
    && Agreed(callerLeaf, doc, leaf) && doc.sth.Some? && doc.leafIndex >= 0
    && VerifySth(c, doc.sth.value, trusted).valid && ProofAccepted(h, leaf, doc, doc.sth.value)
  }

  // ---------------------------------------------------------------- the names, listed

  /** The leaves the caller, the receipt and the block name, cleaned. */
  function NamedLeaves(callerLeaf: Option<string>, doc: InclusionDoc): seq<string> {
    (if callerLeaf.Some? then [Clean(callerLeaf.value)] else [])
    + (if Given(doc.receiptLeaf) then [Clean(doc.receiptLeaf.value)] else [])
    + (if Given(doc.blockLeaf) then [Clean(doc.blockLeaf.value)] else [])
  }

  /** Every name agrees with the first. */
  predicate AllAgree(named: seq<string>) {
    forall i :: 0 <= i < |named| ==> named[i] == named[0]
  }

  /** Every party names one leaf, and it is a hash in hex. */
  predicate LeafAgreed(named: seq<string>) {
    named != [] && AllAgree(named) && |named[0]| == 64 && IsHex(named[0])
  }

  /** Adds the names not yet listed, in order. */
  function AddDistinct(listed: seq<string>, names: seq<string>): (r: seq<string>)
    ensures listed <= r
    ensures |r| == |listed| <==> forall i :: 0 <= i < |names| ==> names[i] in listed
    decreases |names|
  {
    if names == [] then listed
    else if names[0] in listed then AddDistinct(listed, names[1..])
    else AddDistinct(listed + [names[0]], names[1..])
  }

  /** One distinct leaf is named exactly when every name agrees. */
  lemma DistinctDecides(named: seq<string>)
    ensures var r := AddDistinct([], named);
            && (|r| == 0 <==> named == [])
            && (|r| == 1 <==> named != [] && AllAgree(named))
            && (named != [] ==> r[0] == named[0])
  {
    if named != [] {
      var r := AddDistinct([named[0]], named[1..]);
      assert [] + [named[0]] == [named[0]];
      assert AddDistinct([], named) == r;
      assert forall i :: 0 <= i < |named| - 1 ==> named[1..][i] == named[i + 1];
      assert named[0] in [named[0]];
      if AllAgree(named) {
        assert forall i :: 0 <= i < |named[1..]| ==> named[1..][i] in [named[0]];
      }
      if |r| == 1 {
        forall i | 0 <= i < |named| ensures named[i] == named[0] {
          if i > 0 { assert named[1..][i - 1] in [named[0]]; }
        }
      }
    }
  }

  /** A clean name of 64 hex digits spells its bytes, and so does any string it is the clean form of. */
  lemma CleanSpells(name: string, leaf: bytes)
    requires |leaf| == 32
    ensures HexToBytes(name) == Some(leaf)
       <==> |Clean(name)| == 64 && IsHex(Clean(name)) && DecodeHex(Clean(name)) == leaf
    ensures HexToBytes(name) == Some(leaf) ==> Clean(name) == BytesToHex(leaf)
  {
    if HexToBytes(name) == Some(leaf) {
      EncodeDecodedHex(Clean(name));
    }
  }

  lemma NamesInOrder(callerLeaf: Option<string>, doc: InclusionDoc)
    ensures var named := NamedLeaves(callerLeaf, doc);
            && (named != [] <==> callerLeaf.Some? || Given(doc.receiptLeaf) || Given(doc.blockLeaf))
            && (AllAgree(named) <==>
                  && (callerLeaf.Some? && Given(doc.receiptLeaf) ==>
                      Clean(callerLeaf.value) == Clean(doc.receiptLeaf.value))
                  && (callerLeaf.Some? && Given(doc.blockLeaf) ==> Clean(callerLeaf.value) == Clean(doc.blockLeaf.value))
                  && (Given(doc.receiptLeaf) && Given(doc.blockLeaf) ==>
                        Clean(doc.receiptLeaf.value) == Clean(doc.blockLeaf.value)))
            && (callerLeaf.Some? ==> named[0] == Clean(callerLeaf.value))
            && (callerLeaf.None? && Given(doc.receiptLeaf) ==> named[0] == Clean(doc.receiptLeaf.value))
            && (callerLeaf.None? && !Given(doc.receiptLeaf) && Given(doc.blockLeaf) ==>
                named[0] == Clean(doc.blockLeaf.value))
  {
    var named := NamedLeaves(callerLeaf, doc);
    var r: nat := if callerLeaf.Some? then 1 else 0;
    var b := if Given(doc.receiptLeaf) then r + 1 else r;
    assert Given(doc.receiptLeaf) ==> named[r] == Clean(doc.receiptLeaf.value);
    assert Given(doc.blockLeaf) ==> named[b] == Clean(doc.blockLeaf.value);
  }

  /** The listed names agree on a hash exactly when every party spells the same 32 bytes. */
  lemma NamesAgree(callerLeaf: Option<string>, doc: InclusionDoc, leaf: bytes)
    requires |leaf| == 32
    ensures var named := NamedLeaves(callerLeaf, doc);
            Agreed(callerLeaf, doc, leaf) <==> LeafAgreed(named) && DecodeHex(named[0]) == leaf
  {
    var named := NamedLeaves(callerLeaf, doc);
    if callerLeaf.Some? { CleanSpells(callerLeaf.value, leaf); }
    if Given(doc.receiptLeaf) { CleanSpells(doc.receiptLeaf.value, leaf); }
    if Given(doc.blockLeaf) { CleanSpells(doc.blockLeaf.value, leaf); }
    NamesInOrder(callerLeaf, doc);
  }

  // ---------------------------------------------------------------- the check

  /** What the proof adds to the errors. */
  ghost function ProofErrors(doc: InclusionDoc, s: SignedTreeHead, accepted: bool): seq<InclusionError> {
    if doc.treeSize.Some? && doc.treeSize.value != s.treeSize then [WrongTreeSize]
    else if !ProofDecodes(doc, s) then [InclusionError.MalformedPath]
    else if !accepted then [InclusionFails]
    else []
  }

  /** The last checks: the proof is for the head's size and places the leaf under its root. */
  method CheckProof(h: Hasher<Digest>, leaf: string, doc: InclusionDoc, sth: SignedTreeHead, treeSize: int,
                    before: InclusionResult) returns (out: InclusionResult)
    requires IsHex(leaf) && |leaf| == 64 && treeSize == if doc.treeSize.Some? then doc.treeSize.value else sth.treeSize
    requires !before.valid && !before.inclusionValid && (before.sthValid <==> before.errors == [])
    ensures out.inclusionValid <==> ProofAccepted(h, DecodeHex(leaf), doc, sth)
    ensures out.valid <==> before.sthValid && out.inclusionValid
    ensures out.errors == before.errors + ProofErrors(doc, sth, out.inclusionValid)
    ensures out.sthValid == before.sthValid && out.leaf == before.leaf && out.treeSize == before.treeSize
  {
    out := before;
    if treeSize != sth.treeSize { return out.(errors := out.errors + [WrongTreeSize]); }
    var path := RunDecodePath(doc.auditPath);
    var root := FillFromHex(sth.root);
    if path.None? || root.None? { return out.(errors := out.errors + [InclusionError.MalformedPath]); }
    var ok := VerifyInclusion(h, DecodeHex(leaf), doc.leafIndex, treeSize, path.value, root.value);
    out := out.(inclusionValid := ok);
    if !ok { out := out.(errors := out.errors + [InclusionFails]); }
    out := out.(valid := out.sthValid && out.inclusionValid && out.errors == []);
  }

  lemma InvalidSignatureHasErrors(c: Crypto, s: SignedTreeHead, preimage: bytes, before: SthResult)
    requires !before.valid
    ensures var r := CheckSignature(c, s, preimage, before); !r.valid ==> r.errors != []
  {
  }

  lemma InvalidSthHasErrors(c: Crypto, s: SignedTreeHead, trusted: Trusted)
    ensures VerifySth(c, s, trusted).valid <==> VerifySth(c, s, trusted).errors == []
  {
    VerifySthExact(c, s, trusted);
    if EncodeSthPreimage(s).Some? {
      var preimage := EncodeSthPreimage(s).value;
      if trusted.SingleKey? {
        InvalidSignatureHasErrors(c, s, preimage, SthResult(false, [], trusted.key, s.keyId, None));
      } else if s.keyId.Some? && FindKey(trusted.dir.keys, s.keyId.value).Some? {
        var e := FindKey(trusted.dir.keys, s.keyId.value).value;
        var errors := if KeyCoversTimestamp(e, s.timestamp as real) then [] else [OutsideWindow];
        InvalidSignatureHasErrors(c, s, preimage, SthResult(false, errors, e.publicKey, Some(e.keyId), Some(e.mode)));
      }
    }
  }

  function TagSth(errors: seq<SthError>): seq<InclusionError> {
    seq(|errors|, i requires 0 <= i < |errors| => SthInvalid(errors[i]))
  }

  /** What a head that does not verify adds to the errors. */
  function HeadErrors(res: SthResult): seq<InclusionError> { if res.valid then [] else TagSth(res.errors) }

  /** Everything reported once the leaf, the head and the index are there. */
  ghost function LateErrors(res: SthResult, doc: InclusionDoc, sth: SignedTreeHead, accepted: bool): seq<InclusionError> {
    HeadErrors(res) + ProofErrors(doc, sth, accepted)
  }

  lemma LateErrorsAre(res: SthResult, doc: InclusionDoc, sth: SignedTreeHead, accepted: bool)
    ensures forall e :: e in LateErrors(res, doc, sth, accepted) ==>
              e !in {NoLeaf, LeafMismatch, BadLeaf, NoSth, BadIndex}
  {
    assert forall e :: e in TagSth(res.errors) ==> e.SthInvalid?;
  }

  /** The head's own check, then the proof's. */
  method CheckHead(h: Hasher<Digest>, c: Crypto, leaf: string, doc: InclusionDoc, sth: SignedTreeHead, treeSize: int,
                   trusted: Trusted, before: InclusionResult) returns (out: InclusionResult)
    requires IsHex(leaf) && |leaf| == 64 && treeSize == if doc.treeSize.Some? then doc.treeSize.value else sth.treeSize
    requires !before.valid && !before.inclusionValid && before.errors == []
    ensures out.sthValid == VerifySth(c, sth, trusted).valid
    ensures out.inclusionValid <==> ProofAccepted(h, DecodeHex(leaf), doc, sth)
    ensures out.valid <==> out.sthValid && out.inclusionValid
    ensures out.valid <==> out.errors == []
    ensures out.errors == LateErrors(VerifySth(c, sth, trusted), doc, sth, out.inclusionValid)
    ensures out.leaf == before.leaf && out.treeSize == before.treeSize
  {
    var res := RunVerifySth(c, sth, trusted);
    InvalidSthHasErrors(c, sth, trusted);
    out := before.(sthValid := res.valid);
    if !res.valid { out := out.(errors := out.errors + TagSth(res.errors)); }
    out := CheckProof(h, leaf, doc, sth, treeSize, out);
  }

  /** The first checks: everybody who names a leaf names the same 32 bytes. */
  method AgreeOnLeaf(callerLeaf: Option<string>, doc: InclusionDoc) returns (leaf: string, error: Option<InclusionError>)
    ensures error.None? ==> |leaf| == 64 && IsHex(leaf)
    ensures forall b :: Agreed(callerLeaf, doc, b) <==> error.None? && b == DecodeHex(leaf)
    ensures error == Some(NoLeaf) <==> callerLeaf.None? && !Given(doc.receiptLeaf) && !Given(doc.blockLeaf)
    ensures error == Some(LeafMismatch)
       <==> || (callerLeaf.Some? && Given(doc.receiptLeaf) && Clean(callerLeaf.value) != Clean(doc.receiptLeaf.value))
            || (callerLeaf.Some? && Given(doc.blockLeaf) && Clean(callerLeaf.value) != Clean(doc.blockLeaf.value))
            || (Given(doc.receiptLeaf) && Given(doc.blockLeaf)
                && Clean(doc.receiptLeaf.value) != Clean(doc.blockLeaf.value))
    ensures error in {None, Some(NoLeaf), Some(LeafMismatch), Some(BadLeaf)}
  {
    var named := NamedLeaves(callerLeaf, doc);
    var distinct := AddDistinct([], named);
    DistinctDecides(named);
    NamesInOrder(callerLeaf, doc);
    forall b: bytes | |b| == 32
      ensures Agreed(callerLeaf, doc, b) <==> LeafAgreed(named) && DecodeHex(named[0]) == b
    {
      NamesAgree(callerLeaf, doc, b);
    }
    if |distinct| == 0 { return "", Some(NoLeaf); }
    leaf := distinct[0];
    if |distinct| > 1 { return leaf, Some(LeafMismatch); }
    if |leaf| != 64 || !IsHex(leaf) { return leaf, Some(BadLeaf); }
    return leaf, None;
  }

  ghost predicate OneLeaf(callerLeaf: Option<string>, doc: InclusionDoc) { exists leaf :: Agreed(callerLeaf, doc, leaf) }

  /** Which of the late errors is reported when. */
  lemma LateErrorsExactly(res: SthResult, doc: InclusionDoc, sth: SignedTreeHead, accepted: bool)
    ensures var errors := LateErrors(res, doc, sth, accepted);
            var sized := doc.treeSize.Some? ==> doc.treeSize.value == sth.treeSize;
            var decodes := DecodePath(doc.auditPath).Some? && HexToBytes(sth.root).Some?;
            && (forall e :: SthInvalid(e) in errors <==> !res.valid && e in res.errors)
            && (WrongTreeSize in errors <==> !sized)
            && (InclusionError.MalformedPath in errors <==> sized && !decodes)
            && (InclusionFails in errors <==> sized && decodes && !accepted)
  {
    var tags := TagSth(res.errors);
    assert forall e :: e in tags ==> e.SthInvalid?;
    forall e | e in res.errors ensures SthInvalid(e) in tags {
      var i :| 0 <= i < |res.errors| && res.errors[i] == e;
      assert tags[i] == SthInvalid(e);
    }
  }

  lemma AgreedIsPlaced(h: Hasher<Digest>, c: Crypto, callerLeaf: Option<string>, doc: InclusionDoc, trusted: Trusted,
                       agreed: bool, leaf: bytes)
    requires forall b :: Agreed(callerLeaf, doc, b) <==> agreed && b == leaf
    ensures (exists b :: LogInclusionValid(h, c, callerLeaf, doc, trusted, b))
       <==> agreed && LogInclusionValid(h, c, callerLeaf, doc, trusted, leaf)
    ensures OneLeaf(callerLeaf, doc) <==> agreed
  {
    if agreed {
      assert Agreed(callerLeaf, doc, leaf);
    }
  }

  /** Checks a receipt: one result record filled step by step, left as it is when a check ends the call. */
  method VerifyLogInclusion(h: Hasher<Digest>, c: Crypto, callerLeaf: Option<string>, doc: InclusionDoc, trusted: Trusted)
    returns (out: InclusionResult)
    ensures out.valid <==> exists leaf :: LogInclusionValid(h, c, callerLeaf, doc, trusted, leaf)
    ensures out.valid ==> && out.errors == [] && out.sthValid && out.inclusionValid && HexToBytes(out.leaf).Some?
                          && LogInclusionValid(h, c, callerLeaf, doc, trusted, HexToBytes(out.leaf).value)
    ensures out.valid ==> && doc.sth.Some? && VerifySth(c, doc.sth.value, trusted).valid && doc.leafIndex >= 0
                          && (doc.treeSize.Some? ==> doc.treeSize.value == doc.sth.value.treeSize)
    ensures out.valid ==> (callerLeaf.Some? ==> HexToBytes(callerLeaf.value) == HexToBytes(out.leaf))
    ensures out.valid && doc.receiptLeaf.Some? && doc.receiptLeaf.value != "" ==>
              HexToBytes(doc.receiptLeaf.value) == HexToBytes(out.leaf)
    ensures out.valid && doc.blockLeaf.Some? && doc.blockLeaf.value != "" ==>
              HexToBytes(doc.blockLeaf.value) == HexToBytes(out.leaf)
    ensures out.valid <==> out.errors == []
    ensures NoLeaf in out.errors
       <==> callerLeaf.None? && doc.receiptLeaf in {None, Some("")} && doc.blockLeaf in {None, Some("")}
    ensures LeafMismatch in out.errors
       <==> || (callerLeaf.Some? && Given(doc.receiptLeaf) && Clean(callerLeaf.value) != Clean(doc.receiptLeaf.value))
            || (callerLeaf.Some? && Given(doc.blockLeaf) && Clean(callerLeaf.value) != Clean(doc.blockLeaf.value))
            || (Given(doc.receiptLeaf) && Given(doc.blockLeaf)
                && Clean(doc.receiptLeaf.value) != Clean(doc.blockLeaf.value))
    ensures OneLeaf(callerLeaf, doc) <==> NoLeaf !in out.errors && LeafMismatch !in out.errors && BadLeaf !in out.errors
    ensures NoSth in out.errors <==> OneLeaf(callerLeaf, doc) && doc.sth.None?
    ensures BadIndex in out.errors <==> OneLeaf(callerLeaf, doc) && doc.sth.Some? && doc.leafIndex < 0
    ensures OneLeaf(callerLeaf, doc) && doc.sth.Some? && doc.leafIndex >= 0 ==>
              && out.sthValid == VerifySth(c, doc.sth.value, trusted).valid
              && out.errors == LateErrors(VerifySth(c, doc.sth.value, trusted), doc, doc.sth.value, out.inclusionValid)
  {
    var leaf, error := AgreeOnLeaf(callerLeaf, doc);
    out := InclusionResult(false, [], leaf, false, false, None);
    ghost var bytes := if error.None? then DecodeHex(leaf) else [];
    AgreedIsPlaced(h, c, callerLeaf, doc, trusted, error.None?, bytes);
    if error.Some? { return out.(errors := [error.value]); }
    if doc.sth.None? { return out.(errors := [NoSth]); }
    var sth := doc.sth.value;
    var treeSize := if doc.treeSize.Some? then doc.treeSize.value else sth.treeSize;
    out := out.(treeSize := Some(treeSize));
    if doc.leafIndex < 0 { return out.(errors := [BadIndex]); }
    EncodeDecodedHex(leaf);
    HexRoundTrip(DecodeHex(leaf));
    LateErrorsAre(VerifySth(c, sth, trusted), doc, sth, ProofAccepted(h, bytes, doc, sth));
    out := CheckHead(h, c, leaf, doc, sth, treeSize, trusted, out);
  }

  // ---------------------------------------------------------------- what a valid answer shows

  /** `inputs` covers the list and the run of the verifier on the document's proof of the leaf. */
  ghost predicate ReceiptHashed(h: Hasher<Digest>, doc: InclusionDoc, leaf: bytes, n: nat, inputs: set<Input<Digest>>) {
    && LeafInput(leaf) in inputs && 0 <= doc.leafIndex < n && DecodePath(doc.auditPath).Some?
    && AllDigests(DecodePath(doc.auditPath).value)
    && RebuildHashed<Digest>(h, doc.leafIndex, n, Roots(LeafHash<Digest>(h, leaf), LeafHash<Digest>(h, leaf)),
                             DecodePath(doc.auditPath).value, inputs)
  }

  /** What a valid answer says about the parties, the head and the index. */
  lemma ReceiptMeans(h: Hasher<Digest>, c: Crypto, callerLeaf: Option<string>, doc: InclusionDoc, trusted: Trusted,
                     leaf: bytes)
    requires LogInclusionValid(h, c, callerLeaf, doc, trusted, leaf)
    ensures |leaf| == 32 && doc.sth.Some? && VerifySth(c, doc.sth.value, trusted).valid
    ensures 0 <= doc.leafIndex < doc.sth.value.treeSize
    ensures doc.treeSize.Some? ==> doc.treeSize.value == doc.sth.value.treeSize
    ensures || callerLeaf.Some? || (doc.receiptLeaf.Some? && doc.receiptLeaf.value != "")
            || (doc.blockLeaf.Some? && doc.blockLeaf.value != "")
    ensures callerLeaf.Some? ==> HexToBytes(callerLeaf.value) == Some(leaf)
    ensures doc.receiptLeaf.Some? && doc.receiptLeaf.value != "" ==> HexToBytes(doc.receiptLeaf.value) == Some(leaf)
    ensures doc.blockLeaf.Some? && doc.blockLeaf.value != "" ==> HexToBytes(doc.blockLeaf.value) == Some(leaf)
  {
  }

  /** If the document's head is the head of a list, the list holds the leaf at the index, or a collision is exhibited. */
  lemma ReceiptShows(h: Hasher<Digest>, c: Crypto, callerLeaf: Option<string>, doc: InclusionDoc, trusted: Trusted,
                     leaf: bytes, entries: seq<bytes>, inputs: set<Input<Digest>>)
    requires LogInclusionValid(h, c, callerLeaf, doc, trusted, leaf) && HeadOf(h, doc.sth.value, entries)
    requires TreeHashed<Digest>(h, entries, 0, |entries|, inputs) && ReceiptHashed(h, doc, leaf, |entries|, inputs)
    ensures Collides(h, inputs) || (doc.leafIndex < |entries| && entries[doc.leafIndex] == leaf)
  {
    InclusionSound(h, entries, leaf, doc.leafIndex, DecodePath(doc.auditPath).value, inputs);
  }

  /**
   * And every document made from a list of up to 2^32 entries is valid: its entry named, its head signed, its own
   * proof.
   */
  lemma HonestReceiptValid(h: Hasher<Digest>, c: Crypto, callerLeaf: Option<string>, doc: InclusionDoc, trusted: Trusted,
                           s: SignedTreeHead, entries: seq<bytes>, index: nat)
    requires index < |entries| <= 0x1_0000_0000 && |entries[index]| == 32
    requires VerifySth(c, s, trusted).valid && HeadOf(h, s, entries)
    requires doc.sth == Some(s) && doc.leafIndex == index && doc.treeSize in {None, Some(s.treeSize)}
    requires doc.auditPath == PathToHex(InclusionProof<Digest>(h, entries, index).value)
    requires callerLeaf in {None, Some(BytesToHex(entries[index])), Some("0x" + BytesToHex(entries[index]))}
    requires doc.receiptLeaf in {None, Some(""), Some(BytesToHex(entries[index])), Some("0x" + BytesToHex(entries[index]))}
    requires doc.blockLeaf in {None, Some(""), Some(BytesToHex(entries[index])), Some("0x" + BytesToHex(entries[index]))}
    requires callerLeaf.Some? || doc.receiptLeaf !in {None, Some("")} || doc.blockLeaf !in {None, Some("")}
    ensures LogInclusionValid(h, c, callerLeaf, doc, trusted, entries[index])
  {
    HexRoundTrip(entries[index]);
    PathToHexDecodes(InclusionProof<Digest>(h, entries, index).value);
    InclusionWithinLimit(h, entries, index);
  }

  // ---------------------------------------------------------------- permanence

  /**
   * Permanence of a verified receipt. A receipt is verified under a head, a pin
   * store holds that head, and any observations follow. If the pin the run ends
   * with is the head of a list, that list holds the receipt's leaf at its index,
   * or a collision among the inputs hashed on the way is exhibited.
   */
  lemma ReceiptPermanent(h: Hasher<Digest>, c: Crypto, callerLeaf: Option<string>, doc: InclusionDoc, trusted: Trusted,
                         leaf: bytes, p: PinnedHead, obs: seq<Observation>, entries: seq<bytes>,
                         inputs: set<Input<Digest>>)
    requires LogInclusionValid(h, c, callerLeaf, doc, trusted, leaf)
    requires FromVerified(c, trusted, p) && p.sth == doc.sth.value
    requires var q := RunPin(h, c, trusted, Some(p), obs); q.Some? && HeadOf(h, q.value.sth, entries)
    requires RunHashed(h, c, trusted, Some(p), obs, inputs) && PrefixesHashed(h, entries, inputs)
    requires ReceiptHashed(h, doc, leaf, p.treeSize, inputs)
    ensures || Collides(h, inputs)
            || (&& 0 <= doc.leafIndex < |entries| && entries[doc.leafIndex] == leaf
                && (callerLeaf.Some? ==> HexToBytes(callerLeaf.value) == Some(entries[doc.leafIndex]))
                && (doc.receiptLeaf.Some? && doc.receiptLeaf.value != "" ==>
                      HexToBytes(doc.receiptLeaf.value) == Some(entries[doc.leafIndex]))
                && (doc.blockLeaf.Some? && doc.blockLeaf.value != "" ==>
                      HexToBytes(doc.blockLeaf.value) == Some(entries[doc.leafIndex])))
  {
    if !Collides(h, inputs) {
      PinSafety(h, c, trusted, p, obs, entries, inputs);
      var list := entries[..p.treeSize];
      TreeHashedLocal<Digest>(h, entries, list, 0, |list|, inputs);
      ReceiptShows(h, c, callerLeaf, doc, trusted, leaf, list, inputs);
    }
  }
}
