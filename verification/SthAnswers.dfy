/** What signature verification answers, in every case, and exactly which heads have a preimage. */
module SthAnswers {
  import opened Bytes
  import opened Codec
  import opened KeyDir
  import opened Sth

  // ---------------------------------------------------------------- the preimage

  /** The bytes of ASCII text. */
  function Ascii(s: string): bytes
    requires forall i :: 0 <= i < |s| ==> s[i] < 128 as char
  {
    seq(|s|, i requires 0 <= i < |s| => s[i] as int)
  }

  lemma DomainsSpelled()
    ensures DOMAIN_V1 == Ascii("TWZRD:RECEIPT_LOG_STH_V1") && DOMAIN_V2 == Ascii("TWZRD:RECEIPT_LOG_STH_V2")
  {
  }

  /** A key id in version 2 only, identifiers of 1 to 256 bytes, safe integers, and a root of 32 bytes in hex. */
  ghost predicate Encodable(s: SignedTreeHead) {
    && (if s.domain == DOMAIN_V1 then s.keyId.None?
        else s.domain == DOMAIN_V2 && s.keyId.Some? && 1 <= |s.keyId.value| <= 256)
    && 1 <= |s.logId| <= 256
    && 0 <= s.treeSize <= 0x1F_FFFF_FFFF_FFFF && 0 <= s.timestamp <= 0x1F_FFFF_FFFF_FFFF
    && HexToBytes(s.root).Some? && |HexToBytes(s.root).value| == 32
  }

  lemma EncodesExactly(s: SignedTreeHead)
    ensures EncodeSthPreimage(s).Some? <==> Encodable(s)
  {
    DomainsDiffer();
  }

  /** A value after its length in two bytes, the low one first. */
  function Prefixed(value: bytes): bytes
    requires |value| < 0x1_0000
  {
    [|value| % 256, |value| / 256] + value
  }

  lemma PrefixedIs(value: bytes)
    requires 1 <= |value| <= 256
    ensures LenPrefixed(value, 256) == Some(Prefixed(value))
  {
    var n := |value|;
    LeStep(n, 2);
    LeStep(n / 256, 1);
    assert LeBytes(n / 256 / 256, 0) == [];
    assert n / 256 % 256 == n / 256;
    assert LeBytes(n, 2) == [n % 256, n / 256];
  }

  lemma PartsInRow(a: bytes, b: bytes, c: bytes, d: bytes, e: bytes, f: bytes)
    ensures a + (b + (c + (d + (e + f)))) == a + b + c + d + e + f
  {
  }

  lemma PreimageOfParts(s: SignedTreeHead, log: bytes, key: bytes, size: bytes, time: bytes, root: bytes)
    requires Encodable(s) && LenPrefixed(s.logId, MAX_LOG_ID_UTF8) == Some(log)
    requires if s.keyId.Some? then LenPrefixed(s.keyId.value, MAX_KEY_ID_UTF8) == Some(key) else key == []
    requires U64le(s.treeSize) == Some(size) && U64le(s.timestamp) == Some(time) && HexToBytes(s.root) == Some(root)
    ensures EncodeSthPreimage(s) == Some(Preimage(s.domain, log, key, size, time, root))
  {
    DomainsDiffer();
  }

  /** The signed bytes: domain, log id, in version 2 the key id, then size, timestamp and root. */
  lemma LayoutExactly(s: SignedTreeHead)
    requires Encodable(s)
    ensures EncodeSthPreimage(s)
         == Some(s.domain + Prefixed(s.logId) + (if s.keyId.Some? then Prefixed(s.keyId.value) else [])
                 + LeBytes(s.treeSize, 8) + LeBytes(s.timestamp, 8) + HexToBytes(s.root).value)
  {
    PrefixedIs(s.logId);
    if s.keyId.Some? { PrefixedIs(s.keyId.value); }
    var log, key := Prefixed(s.logId), if s.keyId.Some? then Prefixed(s.keyId.value) else [];
    var size, time, root := LeBytes(s.treeSize, 8), LeBytes(s.timestamp, 8), HexToBytes(s.root).value;
    PreimageOfParts(s, log, key, size, time, root);
    PartsInRow(s.domain, log, key, size, time, root);
  }

  // ---------------------------------------------------------------- the key

  /** A key that hands over to the next at an instant: every instant from its start on is covered by exactly one. */
  lemma HandoverCoversOnce(key: LogKeyEntry, next: LogKeyEntry, t: real)
    requires key.notAfter == Some(next.notBefore) && key.notBefore <= next.notBefore && next.notAfter.None?
    ensures KeyCoversTimestamp(key, t) || KeyCoversTimestamp(next, t) <==> key.notBefore <= t
    ensures !(KeyCoversTimestamp(key, t) && KeyCoversTimestamp(next, t))
    ensures KeyCoversTimestamp(next, t) <==> next.notBefore <= t
  {
  }

  /** Of several entries with one id the first is found. */
  lemma {:induction false} FirstEntryFound(keys: seq<LogKeyEntry>, keyId: bytes) returns (i: nat)
    requires FindKey(keys, keyId).Some?
    ensures i < |keys| && FindKey(keys, keyId) == Some(keys[i]) && forall j :: 0 <= j < i ==> keys[j].keyId != keyId
  {
    if keys[0].keyId == keyId {
      i := 0;
    } else {
      i := FirstEntryFound(keys[1..], keyId);
      i := i + 1;
    }
  }

  /** The directory's entry for the head, when the head is of its log and names a key. */
  ghost function EntryFor(s: SignedTreeHead, dir: LogKeyDirectory): Option<LogKeyEntry> {
    if dir.logId != s.logId || s.keyId.None? || s.keyId.value == [] then None else FindKey(dir.keys, s.keyId.value)
  }

  /** The key the head has to be signed with, if one can be told. */
  ghost function KeyFor(s: SignedTreeHead, trusted: Trusted): Option<string> {
    match trusted
    case SingleKey(key) => Some(key)
    case Directory(dir) => if EntryFor(s, dir).Some? then Some(EntryFor(s, dir).value.publicKey) else None
  }

  /** The head claims another key than the one trusted. */
  predicate Claims(s: SignedTreeHead, key: string) {
    s.signingPubkey.Some? && s.signingPubkey.value != "" && s.signingPubkey.value != key
  }

  /** What the signature check adds to the errors. */
  lemma SignatureErrors(c: Crypto, s: SignedTreeHead, preimage: bytes, before: SthResult)
    requires !before.valid && forall e :: e in before.errors ==> e == OutsideWindow
    ensures var r, key := CheckSignature(c, s, preimage, before), before.trustedPubkey;
            var pk, sig := c.b58(key), c.b58(s.signature);
            var decode := pk.Some? && sig.Some?;
            && (OutsideWindow in r.errors <==> OutsideWindow in before.errors)
            && (PubkeyMismatch in r.errors <==> Claims(s, key))
            && (MalformedBase58 in r.errors <==> !Claims(s, key) && !decode)
            && (BadKeyLength in r.errors <==> !Claims(s, key) && decode && |pk.value| != 32)
            && (BadSignatureLength in r.errors <==> !Claims(s, key) && decode && |pk.value| == 32 && |sig.value| != 64)
            && (BadSignature in r.errors <==>
                  && !Claims(s, key) && decode && |pk.value| == 32 && |sig.value| == 64
                  && !c.ed25519(preimage, sig.value, pk.value))
            && (forall e :: e in {Unencodable, WrongLog, NoKeyId, UnknownKeyId} ==> e !in r.errors)
            && r.trustedPubkey == key && r.keyId == before.keyId && r.keyMode == before.keyMode
  {
  }

  /** The result so far, once the key is found and before the signature is checked. */
  ghost function Found(s: SignedTreeHead, trusted: Trusted): SthResult
    requires KeyFor(s, trusted).Some?
  {
    match trusted
    case SingleKey(key) => SthResult(false, [], key, s.keyId, None)
    case Directory(dir) =>
      var e := EntryFor(s, dir).value;
      SthResult(false, if KeyCoversTimestamp(e, s.timestamp as real) then [] else [OutsideWindow],
                e.publicKey, Some(e.keyId), Some(e.mode))
  }

  lemma ChecksKey(c: Crypto, s: SignedTreeHead, trusted: Trusted)
    requires EncodeSthPreimage(s).Some? && KeyFor(s, trusted).Some?
    ensures VerifySth(c, s, trusted) == CheckSignature(c, s, EncodeSthPreimage(s).value, Found(s, trusted))
    ensures Found(s, trusted).trustedPubkey == KeyFor(s, trusted).value
  {
  }

  lemma ChecksNoKey(c: Crypto, s: SignedTreeHead, trusted: Trusted)
    requires EncodeSthPreimage(s).None? || KeyFor(s, trusted).None?
    ensures VerifySth(c, s, trusted)
         == SthResult(false, [if EncodeSthPreimage(s).None? then Unencodable
                              else if trusted.dir.logId != s.logId then WrongLog
                              else if s.keyId.None? || s.keyId.value == [] then NoKeyId else UnknownKeyId],
                      if trusted.SingleKey? then trusted.key else "", None, None)
  {
  }

  /** What ends the call before a key is found is the only error; a window that does not cover the head is not the end. */
  lemma ResolutionErrors(c: Crypto, s: SignedTreeHead, trusted: Trusted)
    ensures var r, encodes := VerifySth(c, s, trusted), Encodable(s);
            && (Unencodable in r.errors <==> !encodes)
            && (WrongLog in r.errors <==> encodes && trusted.Directory? && trusted.dir.logId != s.logId)
            && (NoKeyId in r.errors <==>
                  encodes && trusted.Directory? && trusted.dir.logId == s.logId && s.keyId.None?)
            && (UnknownKeyId in r.errors <==>
                  && encodes && trusted.Directory? && trusted.dir.logId == s.logId && s.keyId.Some?
                  && forall e :: e in trusted.dir.keys ==> e.keyId != s.keyId.value)
            && (OutsideWindow in r.errors <==>
                  && encodes && trusted.Directory? && EntryFor(s, trusted.dir).Some?
                  && !KeyCoversTimestamp(EntryFor(s, trusted.dir).value, s.timestamp as real))
  {
    EncodesExactly(s);
    if EncodeSthPreimage(s).Some? && KeyFor(s, trusted).Some? {
      ChecksKey(c, s, trusted);
      SignatureErrors(c, s, EncodeSthPreimage(s).value, Found(s, trusted));
    } else {
      ChecksNoKey(c, s, trusted);
    }
  }

  /** Once a key is found: each error of the key and of the signature, with its own condition. */
  lemma KeyErrors(c: Crypto, s: SignedTreeHead, trusted: Trusted)
    requires Encodable(s) && KeyFor(s, trusted).Some?
    ensures EncodeSthPreimage(s).Some?
    ensures var r, key, preimage := VerifySth(c, s, trusted), KeyFor(s, trusted).value, EncodeSthPreimage(s).value;
            var pk, sig := c.b58(key), c.b58(s.signature);
            var decode := !Claims(s, key) && pk.Some? && sig.Some?;
            && (PubkeyMismatch in r.errors <==> Claims(s, key))
            && (MalformedBase58 in r.errors <==> !Claims(s, key) && (pk.None? || sig.None?))
            && (BadKeyLength in r.errors <==> decode && |pk.value| != 32)
            && (BadSignatureLength in r.errors <==> decode && |pk.value| == 32 && |sig.value| != 64)
            && (BadSignature in r.errors <==>
                  decode && |pk.value| == 32 && |sig.value| == 64 && !c.ed25519(preimage, sig.value, pk.value))
  {
    EncodesExactly(s);
    ChecksKey(c, s, trusted);
    SignatureErrors(c, s, EncodeSthPreimage(s).value, Found(s, trusted));
  }

  /** Without a key there are none of these. */
  lemma NoKeyErrors(c: Crypto, s: SignedTreeHead, trusted: Trusted)
    requires !Encodable(s) || KeyFor(s, trusted).None?
    ensures forall e :: e in VerifySth(c, s, trusted).errors ==> e in {Unencodable, WrongLog, NoKeyId, UnknownKeyId}
  {
    EncodesExactly(s);
    ChecksNoKey(c, s, trusted);
  }

  /** The key, its id and its mode that the result names. */
  lemma NamesKey(c: Crypto, s: SignedTreeHead, trusted: Trusted)
    ensures var r := VerifySth(c, s, trusted);
            match trusted
            case SingleKey(key) =>
              r.trustedPubkey == key && r.keyMode == None && r.keyId == if Encodable(s) then s.keyId else None
            case Directory(dir) =>
              var e := if Encodable(s) then EntryFor(s, dir) else None;
              && r.trustedPubkey == (if e.Some? then e.value.publicKey else "")
              && r.keyId == (if e.Some? then Some(e.value.keyId) else None)
              && r.keyMode == (if e.Some? then Some(e.value.mode) else None)
  {
    EncodesExactly(s);
    if EncodeSthPreimage(s).Some? && KeyFor(s, trusted).Some? {
      ChecksKey(c, s, trusted);
      SignatureErrors(c, s, EncodeSthPreimage(s).value, Found(s, trusted));
    } else {
      ChecksNoKey(c, s, trusted);
    }
  }
}
