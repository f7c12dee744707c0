/** Signed tree heads: the signed byte preimage and signature verification. */
module Sth {
  import opened Bytes
  import opened Codec
  import opened KeyDir

  const MAX_LOG_ID_UTF8 := 256

  /** "TWZRD:RECEIPT_LOG_STH_V1" in ASCII; version 2 differs in its last byte. */
  const DOMAIN_STEM: bytes := [84, 87, 90, 82, 68, 58, 82, 69, 67, 69, 73, 80, 84, 95, 76, 79, 71, 95, 83, 84, 72, 95, 86]
  const DOMAIN_V1: bytes := DOMAIN_STEM + [49]
  const DOMAIN_V2: bytes := DOMAIN_STEM + [50]

  /** A signed head. Strings that are signed over are held as their UTF-8 bytes. */
  datatype SignedTreeHead = SignedTreeHead(
    domain: bytes, logId: bytes, keyId: Option<bytes>, treeSize: int, timestamp: int, root: string,
    signature: string, signingPubkey: Option<string>)

  // ---------------------------------------------------------------- the preimage

  lemma DomainsDiffer()
    ensures DOMAIN_V1 != DOMAIN_V2
  {
    assert DOMAIN_V1[23] != DOMAIN_V2[23];
  }

  /** A 16-bit length and the value; None for an empty or overlong value. */
  function LenPrefixed(value: bytes, max: nat): Option<bytes> {
    if value == [] || |value| > max || |value| > 0xFFFF then None
    else Some(LeBytes(|value|, 2) + value)
  }

  function Preimage(domain: bytes, log: bytes, key: bytes, size: bytes, time: bytes, root: bytes): bytes {
    domain + (log + (key + (size + (time + root))))
  }

  /** The preimage as one expression; None for a head that cannot be encoded. */
  function EncodeSthPreimage(s: SignedTreeHead): Option<bytes> {
    if s.domain != DOMAIN_V1 && s.domain != DOMAIN_V2 then None
    else if s.domain == DOMAIN_V1 && s.keyId.Some? then None
    else if s.domain == DOMAIN_V2 && s.keyId.None? then None
    else
      var root := HexToBytes(s.root);
      if root.None? || |root.value| != 32 then None else
      var log := LenPrefixed(s.logId, MAX_LOG_ID_UTF8);
      if log.None? then None else
      var key := if s.keyId.Some? then LenPrefixed(s.keyId.value, MAX_KEY_ID_UTF8) else Some([]);
      if key.None? then None else
      var size := U64le(s.treeSize);
      var time := U64le(s.timestamp);
      if size.None? || time.None? then None
      else Some(Preimage(s.domain, log.value, key.value, size.value, time.value, root.value))
  }

  lemma FlattenThree(a: bytes, b: bytes, c: bytes)
    ensures Flatten([a, b, c]) == a + (b + c)
  {
    assert [a, b, c] == [a] + ([b] + ([c] + []));
    FlattenCons(c, []);
    FlattenCons(b, [c] + []);
    FlattenCons(a, [b] + ([c] + []));
    assert c + [] == c;
  }

  /** The parts are pushed one by one and concatenated at the end. */
  method PushSthPreimage(s: SignedTreeHead) returns (r: Option<bytes>)
    ensures r == EncodeSthPreimage(s)
  {
    if s.domain != DOMAIN_V1 && s.domain != DOMAIN_V2 { return None; }
    var isV2 := s.domain == DOMAIN_V2;
    DomainsDiffer();
    if !isV2 && s.keyId.Some? { return None; }
    if isV2 && s.keyId.None? { return None; }
    var root := FillFromHex(s.root);
    if root.None? || |root.value| != 32 { return None; }
    var log := LenPrefixed(s.logId, MAX_LOG_ID_UTF8);
    if log.None? { return None; }
    var parts := [s.domain, log.value];
    var key: bytes := [];
    if isV2 {
      var k := LenPrefixed(s.keyId.value, MAX_KEY_ID_UTF8);
      if k.None? { return None; }
      key := k.value;
      parts := parts + [key];
    }
    var size := FillU64le(s.treeSize);
    var time := FillU64le(s.timestamp);
    if size.None? || time.None? { return None; }
    parts := parts + [size.value, time.value, root.value];
    var b := ConcatBytes(parts);
    ghost var tail := [size.value, time.value, root.value];
    FlattenThree(size.value, time.value, root.value);
    if isV2 {
      assert parts == [s.domain] + ([log.value] + ([key] + tail));
      FlattenCons(key, tail);
      FlattenCons(log.value, [key] + tail);
      FlattenCons(s.domain, [log.value] + ([key] + tail));
    } else {
      assert parts == [s.domain] + ([log.value] + tail);
      FlattenCons(log.value, tail);
      FlattenCons(s.domain, [log.value] + tail);
      assert key + Flatten(tail) == Flatten(tail);
    }
    assert b == s.domain + (log.value + (key + Flatten(tail)));
    assert b == Preimage(s.domain, log.value, key, size.value, time.value, root.value);
    return Some(b);
  }

  // ---------------------------------------------------------------- and its decoder

  /** The signed fields, with the root as bytes. */
  datatype SignedFields = SignedFields(domain: bytes, logId: bytes, keyId: Option<bytes>, treeSize: nat, timestamp: nat,
                                       root: bytes)

  /** Reads a length-prefixed value and returns what follows it. */
  function ReadPrefixed(b: bytes): Option<(bytes, bytes)> {
    if |b| < 2 then None
    else
      var n := LeValue(b[..2]);
      if |b| < 2 + n then None else Some((b[2..2 + n], b[2 + n..]))
  }

  function DecodeTail(domain: bytes, logId: bytes, keyId: Option<bytes>, b: bytes): Option<SignedFields> {
    if |b| != 48 then None
    else Some(SignedFields(domain, logId, keyId, LeValue(b[..8]), LeValue(b[8..16]), b[16..]))
  }

  /** Recovers the signed fields from a preimage. */
  function DecodeSthPreimage(b: bytes): Option<SignedFields> {
    if |b| < 24 then None
    else
      var domain := b[..24];
      if domain != DOMAIN_V1 && domain != DOMAIN_V2 then None else
      var log := ReadPrefixed(b[24..]);
      if log.None? then None
      else if domain == DOMAIN_V1 then DecodeTail(domain, log.value.0, None, log.value.1)
      else
        var key := ReadPrefixed(log.value.1);
        if key.None? then None else DecodeTail(domain, log.value.0, Some(key.value.0), key.value.1)
  }

  lemma ReadPrefixedUndoes(value: bytes, max: nat, rest: bytes)
    requires LenPrefixed(value, max).Some?
    ensures ReadPrefixed(LenPrefixed(value, max).value + rest) == Some((value, rest))
  {
    var p := LeBytes(|value|, 2);
    var b := p + value + rest;
    assert b[..2] == p;
    U16leReads(|value|);
    assert b[2..2 + |value|] == value && b[2 + |value|..] == rest;
  }

  lemma DecodeTailUndoes(domain: bytes, logId: bytes, keyId: Option<bytes>, size: int, time: int, root: bytes)
    requires 0 <= size <= MAX_SAFE && 0 <= time <= MAX_SAFE && |root| == 32
    ensures DecodeTail(domain, logId, keyId, U64le(size).value + (U64le(time).value + root))
         == Some(SignedFields(domain, logId, keyId, size, time, root))
  {
    var a, c := U64le(size).value, U64le(time).value;
    var b := a + (c + root);
    U64leReads(size);
    U64leReads(time);
    assert b[..8] == a && b[8..16] == c && b[16..] == root;
  }

  /** What the preimage of a head says about the head. */
  function FieldsOf(s: SignedTreeHead): SignedFields
    requires EncodeSthPreimage(s).Some?
  {
    SignedFields(s.domain, s.logId, s.keyId, s.treeSize, s.timestamp, HexToBytes(s.root).value)
  }

  /** The decoder undoes the encoder on every head that can be encoded. */
  lemma PreimageRoundTrip(s: SignedTreeHead)
    requires EncodeSthPreimage(s).Some?
    ensures DecodeSthPreimage(EncodeSthPreimage(s).value) == Some(FieldsOf(s))
  {
    var root := HexToBytes(s.root).value;
    var log := LenPrefixed(s.logId, MAX_LOG_ID_UTF8).value;
    var tail := U64le(s.treeSize).value + (U64le(s.timestamp).value + root);
    var key := if s.keyId.Some? then LenPrefixed(s.keyId.value, MAX_KEY_ID_UTF8).value else [];
    var b := EncodeSthPreimage(s).value;
    assert b == s.domain + (log + (key + tail));
    assert |s.domain| == 24;
    assert b[..24] == s.domain && b[24..] == log + (key + tail);
    ReadPrefixedUndoes(s.logId, MAX_LOG_ID_UTF8, key + tail);
    if s.keyId.Some? {
      ReadPrefixedUndoes(s.keyId.value, MAX_KEY_ID_UTF8, tail);
    } else {
      assert key + tail == tail;
    }
    DomainsDiffer();
    DecodeTailUndoes(s.domain, s.logId, s.keyId, s.treeSize, s.timestamp, root);
  }

  /** Equal preimages mean equal signed fields, so no V1 preimage is a V2 preimage. */
  lemma PreimageInjective(s: SignedTreeHead, t: SignedTreeHead)
    requires EncodeSthPreimage(s).Some? && EncodeSthPreimage(s) == EncodeSthPreimage(t)
    ensures FieldsOf(s) == FieldsOf(t)
  {
    PreimageRoundTrip(s);
    PreimageRoundTrip(t);
  }

  // ---------------------------------------------------------------- verification

  /** The library calls: base58 decoding and the Ed25519 check of (preimage, signature, key). */
  datatype Crypto = Crypto(b58: Base58, ed25519: (bytes, bytes, bytes) -> bool)

  /** What a relying party pins: one key or a key directory. */
  datatype Trusted = SingleKey(key: string) | Directory(dir: LogKeyDirectory)

  datatype SthError = Unencodable | WrongLog | NoKeyId | UnknownKeyId | OutsideWindow | PubkeyMismatch
                    | MalformedBase58 | BadKeyLength | BadSignatureLength | BadSignature

  datatype SthResult = SthResult(valid: bool, errors: seq<SthError>, trustedPubkey: string,
                                 keyId: Option<bytes>, keyMode: Option<KeyMode>)

  /** The signature check once the key has been resolved. */
  function CheckSignature(c: Crypto, s: SignedTreeHead, preimage: bytes, res: SthResult): SthResult {
    var key := res.trustedPubkey;
    if s.signingPubkey.Some? && s.signingPubkey.value != "" && s.signingPubkey.value != key then
      res.(errors := res.errors + [PubkeyMismatch])
    else
      var pk, sig := c.b58(key), c.b58(s.signature);
      if pk.None? || sig.None? then res.(errors := res.errors + [MalformedBase58])
      else if |pk.value| != PUBKEY_LEN then res.(errors := res.errors + [BadKeyLength])
      else if |sig.value| != SIGNATURE_LEN then res.(errors := res.errors + [BadSignatureLength])
      else
        var ok := c.ed25519(preimage, sig.value, pk.value);
        var errors := if ok then res.errors else res.errors + [BadSignature];
        res.(errors := errors, valid := ok && errors == [])
  }

  /** Finds the directory's key for the head and whether its window covers the head. */
  function VerifyByDirectory(c: Crypto, s: SignedTreeHead, preimage: bytes, dir: LogKeyDirectory): SthResult {
    var res := SthResult(false, [], "", None, None);
    if dir.logId != s.logId then res.(errors := [WrongLog])
    else if s.keyId.None? || s.keyId.value == [] then res.(errors := [NoKeyId])
    else
      var entry := FindKey(dir.keys, s.keyId.value);
      if entry.None? then res.(errors := [UnknownKeyId])
      else
        var errors := if KeyCoversTimestamp(entry.value, s.timestamp as real) then [] else [OutsideWindow];
        CheckSignature(c, s, preimage,
                       SthResult(false, errors, entry.value.publicKey, Some(entry.value.keyId), Some(entry.value.mode)))
  }

  /** The result verifySth fills in. */
  function VerifySth(c: Crypto, s: SignedTreeHead, trusted: Trusted): SthResult {
    var preimage := EncodeSthPreimage(s);
    match trusted
    case SingleKey(key) =>
      var res := SthResult(false, [], key, None, None);
      if preimage.None? then res.(errors := [Unencodable])
      else CheckSignature(c, s, preimage.value, res.(keyId := s.keyId))
    case Directory(dir) =>
      if preimage.None? then SthResult(false, [Unencodable], "", None, None)
      else VerifyByDirectory(c, s, preimage.value, dir)
  }

  /** The checks on a resolved key: the advisory key, the encodings and the signature. */
  method RunCheckSignature(c: Crypto, s: SignedTreeHead, preimage: bytes, before: SthResult) returns (out: SthResult)
    requires !before.valid
    ensures out == CheckSignature(c, s, preimage, before)
  {
    out := before;
    var key := out.trustedPubkey;
    if s.signingPubkey.Some? && |s.signingPubkey.value| != 0 && s.signingPubkey.value != key {
      return out.(errors := out.errors + [PubkeyMismatch]);
    }
    var pk, sig := c.b58(key), c.b58(s.signature);
    if pk.None? || sig.None? { return out.(errors := out.errors + [MalformedBase58]); }
    if |pk.value| != PUBKEY_LEN { return out.(errors := out.errors + [BadKeyLength]); }
    if |sig.value| != SIGNATURE_LEN { return out.(errors := out.errors + [BadSignatureLength]); }
    var ok := c.ed25519(preimage, sig.value, pk.value);
    if !ok { out := out.(errors := out.errors + [BadSignature]); }
    out := out.(valid := ok && out.errors == []);
  }

  /** Resolves the key in the directory and checks its window and signature. */
  method RunVerifyByDirectory(c: Crypto, s: SignedTreeHead, preimage: bytes,
                              dir: LogKeyDirectory) returns (out: SthResult)
    ensures out == VerifyByDirectory(c, s, preimage, dir)
  {
    out := SthResult(false, [], "", None, None);
    if dir.logId != s.logId { return out.(errors := out.errors + [WrongLog]); }
    if s.keyId.None? || |s.keyId.value| == 0 { return out.(errors := out.errors + [NoKeyId]); }
    var entry := FindKey(dir.keys, s.keyId.value);
    if entry.None? { return out.(errors := out.errors + [UnknownKeyId]); }
    out := out.(keyId := Some(entry.value.keyId), keyMode := Some(entry.value.mode));
    if !KeyCoversTimestamp(entry.value, s.timestamp as real) { out := out.(errors := out.errors + [OutsideWindow]); }
    out := out.(trustedPubkey := entry.value.publicKey);
    out := RunCheckSignature(c, s, preimage, out);
  }

  /** Verifies a head: one result record filled step by step, left as it is when a check ends the call. */
  method RunVerifySth(c: Crypto, s: SignedTreeHead, trusted: Trusted) returns (out: SthResult)
    ensures out == VerifySth(c, s, trusted)
  {
    out := SthResult(false, [], if trusted.Directory? then "" else trusted.key, None, None);
    var preimage := PushSthPreimage(s);
    if preimage.None? { return out.(errors := out.errors + [Unencodable]); }
    if trusted.Directory? {
      out := RunVerifyByDirectory(c, s, preimage.value, trusted.dir);
    } else {
      if s.keyId.Some? { out := out.(keyId := s.keyId); }
      out := RunCheckSignature(c, s, preimage.value, out);
    }
  }

  /** A head verifies exactly when it encodes and the key its pin allows signed that encoding. */
  ghost predicate SignedBy(c: Crypto, s: SignedTreeHead, key: string) {
    && EncodeSthPreimage(s).Some?
    && (s.signingPubkey.Some? ==> s.signingPubkey.value in {"", key})
    && c.b58(key).Some? && |c.b58(key).value| == PUBKEY_LEN
    && c.b58(s.signature).Some? && |c.b58(s.signature).value| == SIGNATURE_LEN
    && c.ed25519(EncodeSthPreimage(s).value, c.b58(s.signature).value, c.b58(key).value)
  }

  lemma VerifySthExact(c: Crypto, s: SignedTreeHead, trusted: Trusted)
    ensures VerifySth(c, s, trusted).valid <==>
              match trusted
              case SingleKey(key) => SignedBy(c, s, key)
              case Directory(dir) =>
                && dir.logId == s.logId && s.keyId.Some? && s.keyId.value != []
                && var e := FindKey(dir.keys, s.keyId.value);
                   e.Some? && KeyCoversTimestamp(e.value, s.timestamp as real) && SignedBy(c, s, e.value.publicKey)
    ensures VerifySth(c, s, trusted).valid ==> VerifySth(c, s, trusted).errors == []
    ensures VerifySth(c, s, trusted).valid ==> VerifySth(c, s, trusted).keyId == s.keyId
  {
    if trusted.Directory? && s.keyId.Some? {
      var e := FindKey(trusted.dir.keys, s.keyId.value);
    }
  }

  // ---------------------------------------------------------------- what a valid directory gives

  lemma FindKeyIndex(keys: seq<LogKeyEntry>, keyId: bytes) returns (i: nat)
    requires FindKey(keys, keyId).Some?
    ensures i < |keys| && keys[i] == FindKey(keys, keyId).value
  {
    i :| 0 <= i < |keys| && keys[i] == FindKey(keys, keyId).value;
  }

  /** Under a valid directory two heads with one timestamp were signed by one key. */
  lemma OneSignerPerInstant(c: Crypto, dir: LogKeyDirectory, s: SignedTreeHead, t: SignedTreeHead)
    requires DirectoryOk(c.b58, dir)
    requires VerifySth(c, s, Directory(dir)).valid && VerifySth(c, t, Directory(dir)).valid
    requires s.timestamp == t.timestamp
    ensures s.keyId == t.keyId
    ensures VerifySth(c, s, Directory(dir)).trustedPubkey == VerifySth(c, t, Directory(dir)).trustedPubkey
  {
    VerifySthExact(c, s, Directory(dir));
    VerifySthExact(c, t, Directory(dir));
    var i := FindKeyIndex(dir.keys, s.keyId.value);
    var j := FindKeyIndex(dir.keys, t.keyId.value);
    assert i < j ==> Disjoint(dir.keys[i], dir.keys[j]);
    assert j < i ==> Disjoint(dir.keys[j], dir.keys[i]);
  }

  /** Closing the signer at `at`, retiring it, and adding a fresh open-ended signer. */
  function Rotate(dir: LogKeyDirectory, signer: nat, at: real, successor: LogKeyEntry): LogKeyDirectory
    requires signer < |dir.keys|
  {
    var retired := dir.keys[signer].(mode := VerifyOnly, notAfter := Some(at));
    dir.(keys := dir.keys[signer := retired] + [successor])
  }

  ghost predicate Rotatable(b58: Base58, dir: LogKeyDirectory, signer: nat, at: real, successor: LogKeyEntry) {
    && DirectoryOk(b58, dir) && signer < |dir.keys|
    && dir.keys[signer].mode == Sign && dir.keys[signer].notAfter.None? && dir.keys[signer].notBefore < at
    && EntryOk(b58, successor) && successor.mode == Sign && successor.notBefore == at && successor.notAfter.None?
    && forall i :: 0 <= i < |dir.keys| ==> dir.keys[i].keyId != successor.keyId
  }

  lemma RotateSeparates(b58: Base58, dir: LogKeyDirectory, signer: nat, at: real, successor: LogKeyEntry, i: nat)
    requires Rotatable(b58, dir, signer, at, successor) && i < |dir.keys| && i != signer
    ensures Disjoint(dir.keys[i], successor)
  {
    var e, former := dir.keys[i], dir.keys[signer];
    assert EntryOk(b58, e) && EntryOk(b58, former);
    assert i < signer ==> Disjoint(dir.keys[i], dir.keys[signer]);
    assert signer < i ==> Disjoint(dir.keys[signer], dir.keys[i]);
    forall t: real ensures !(KeyCoversTimestamp(e, t) && KeyCoversTimestamp(successor, t)) {
      assert !(KeyCoversTimestamp(e, t) && KeyCoversTimestamp(former, t));
    }
  }

  /** A rotated directory is valid. */
  lemma RotateValid(b58: Base58, dir: LogKeyDirectory, signer: nat, at: real, successor: LogKeyEntry)
    requires Rotatable(b58, dir, signer, at, successor)
    ensures DirectoryOk(b58, Rotate(dir, signer, at, successor))
  {
    var keys, n := Rotate(dir, signer, at, successor).keys, |dir.keys|;
    assert EntryOk(b58, dir.keys[signer]);
    assert EntriesOk(b58, keys);
    forall i, j | 0 <= i < j < |keys| ensures !(keys[i].mode == Sign && keys[j].mode == Sign) {
      if j < n {
        assert !(dir.keys[i].mode == Sign && dir.keys[j].mode == Sign);
      } else if i != signer {
        assert dir.keys[i].mode != Sign;
      }
    }
    forall i, j | 0 <= i < j < |keys| ensures Disjoint(keys[i], keys[j]) {
      if j < n {
        assert Disjoint(dir.keys[i], dir.keys[j]);
      } else if i != signer {
        RotateSeparates(b58, dir, signer, at, successor, i);
      }
    }
  }

  lemma {:induction false} FindKeySnoc(keys: seq<LogKeyEntry>, successor: LogKeyEntry, keyId: bytes)
    requires keyId != successor.keyId
    ensures FindKey(keys + [successor], keyId) == FindKey(keys, keyId)
  {
    if keys != [] {
      assert (keys + [successor])[1..] == keys[1..] + [successor];
      FindKeySnoc(keys[1..], successor, keyId);
    } else {
      assert [successor][1..] == [];
    }
  }

  lemma {:induction false} FindKeyAfterRotate(keys: seq<LogKeyEntry>, signer: nat, retired: LogKeyEntry,
                                              successor: LogKeyEntry, keyId: bytes)
    requires signer < |keys| && retired.keyId == keys[signer].keyId && keyId != successor.keyId
    requires DistinctIds(keys)
    ensures var r, r' := FindKey(keys, keyId), FindKey(keys[signer := retired] + [successor], keyId);
            r' == if keyId == keys[signer].keyId then Some(retired) else r
  {
    var now := keys[signer := retired] + [successor];
    if signer == 0 {
      assert now[1..] == keys[1..] + [successor];
      FindKeySnoc(keys[1..], successor, keyId);
    } else {
      assert now[1..] == keys[1..][signer - 1 := retired] + [successor];
      assert forall i :: 0 <= i < |keys| - 1 ==> keys[1..][i] == keys[i + 1];
      FindKeyAfterRotate(keys[1..], signer - 1, retired, successor, keyId);
    }
  }

  /** Neither directory accepts the successor's key id for an instant before the rotation. */
  lemma SuccessorTooLate(b58: Base58, dir: LogKeyDirectory, signer: nat, at: real, successor: LogKeyEntry, t: real)
    requires Rotatable(b58, dir, signer, at, successor) && t < at
    ensures FindKey(dir.keys, successor.keyId).None?
    ensures var e := FindKey(Rotate(dir, signer, at, successor).keys, successor.keyId);
            e.Some? ==> !KeyCoversTimestamp(e.value, t)
  {
    var keys := Rotate(dir, signer, at, successor).keys;
    if FindKey(keys, successor.keyId).Some? {
      var i := FindKeyIndex(keys, successor.keyId);
    }
  }

  lemma FindKeyUnique(keys: seq<LogKeyEntry>, i: nat, keyId: bytes)
    requires DistinctIds(keys) && i < |keys| && keys[i].keyId == keyId
    ensures FindKey(keys, keyId) == Some(keys[i])
  {
    var j := FindKeyIndex(keys, keyId);
  }

  /** Rotation is not retroactive: no verdict on a head dated before it changes. */
  lemma RotationKeepsVerdicts(c: Crypto, dir: LogKeyDirectory, signer: nat, at: real, successor: LogKeyEntry,
                              s: SignedTreeHead)
    requires Rotatable(c.b58, dir, signer, at, successor) && s.timestamp as real < at
    ensures VerifySth(c, s, Directory(dir)).valid
       <==> VerifySth(c, s, Directory(Rotate(dir, signer, at, successor))).valid
  {
    var rotated := Rotate(dir, signer, at, successor);
    VerifySthExact(c, s, Directory(dir));
    VerifySthExact(c, s, Directory(rotated));
    if s.keyId.Some? {
      var keyId := s.keyId.value;
      if keyId == successor.keyId {
        SuccessorTooLate(c.b58, dir, signer, at, successor, s.timestamp as real);
      } else {
        FindKeyAfterRotate(dir.keys, signer, dir.keys[signer].(mode := VerifyOnly, notAfter := Some(at)), successor,
                           keyId);
        if keyId == dir.keys[signer].keyId {
          FindKeyUnique(dir.keys, signer, keyId);
        }
      }
    }
  }
}
