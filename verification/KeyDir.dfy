/** The log's signing-key directory: which key could sign, and when. */
module KeyDir {
  import opened Bytes

  const MAX_KEY_ID_UTF8 := 256

  /** OtherMode stands for any value that is neither "sign" nor "verify-only". */
  datatype KeyMode = Sign | VerifyOnly | OtherMode

  /** A key and its window [notBefore, notAfter), whose bounds may be fractional; no end means open-ended. */
  datatype LogKeyEntry = LogKeyEntry(keyId: bytes, publicKey: string, mode: KeyMode, notBefore: real,
                                     notAfter: Option<real>)

  datatype LogKeyDirectory = LogKeyDirectory(logId: bytes, keys: seq<LogKeyEntry>)

  datatype DirError = EmptyLogId | NoKeys | EmptyKeyId | LongKeyId | DuplicateKeyId | BadPublicKey | BadMode
                    | BadNotBefore | BadNotAfter | EmptyWindow | ManySigners | OverlappingWindows

  /** base58 decoding, a library call: None is a malformed string. */
  type Base58 = string -> Option<bytes>

  predicate KeyCoversTimestamp(entry: LogKeyEntry, timestamp: real) {
    entry.notBefore <= timestamp && (entry.notAfter.None? || timestamp < entry.notAfter.value)
  }

  /** First entry with the key id. */
  function FindKey(keys: seq<LogKeyEntry>, keyId: bytes): (r: Option<LogKeyEntry>)
    ensures r.Some? ==> r.value in keys && r.value.keyId == keyId
    ensures r.None? ==> forall e :: e in keys ==> e.keyId != keyId
  {
    if keys == [] then None
    else if keys[0].keyId == keyId then Some(keys[0])
    else FindKey(keys[1..], keyId)
  }

  // ---------------------------------------------------------------- what a valid directory is

  ghost predicate EntryUsable(b58: Base58, e: LogKeyEntry) {
    && b58(e.publicKey).Some? && |b58(e.publicKey).value| == PUBKEY_LEN
    && (e.mode == Sign || e.mode == VerifyOnly)
    && e.notBefore >= 0.0
    && (e.notAfter.Some? ==> e.notAfter.value > e.notBefore)
  }

  ghost predicate EntryOk(b58: Base58, e: LogKeyEntry) {
    0 < |e.keyId| <= MAX_KEY_ID_UTF8 && EntryUsable(b58, e)
  }

  ghost predicate EntriesOk(b58: Base58, keys: seq<LogKeyEntry>) {
    forall i :: 0 <= i < |keys| ==> EntryOk(b58, keys[i])
  }

  ghost predicate DistinctIds(keys: seq<LogKeyEntry>) {
    forall i, j :: 0 <= i < j < |keys| ==> keys[i].keyId != keys[j].keyId
  }

  ghost predicate OneSigner(keys: seq<LogKeyEntry>) {
    forall i, j :: 0 <= i < j < |keys| ==> !(keys[i].mode == Sign && keys[j].mode == Sign)
  }

  /** No instant lies in both windows. */
  ghost predicate Disjoint(a: LogKeyEntry, b: LogKeyEntry) {
    forall t: real :: !(KeyCoversTimestamp(a, t) && KeyCoversTimestamp(b, t))
  }

  ghost predicate WindowsDisjoint(keys: seq<LogKeyEntry>) {
    forall i, j :: 0 <= i < j < |keys| ==> Disjoint(keys[i], keys[j])
  }

  ghost predicate DirectoryOk(b58: Base58, dir: LogKeyDirectory) {
    && dir.logId != [] && dir.keys != []
    && EntriesOk(b58, dir.keys) && DistinctIds(dir.keys) && OneSigner(dir.keys) && WindowsDisjoint(dir.keys)
  }

  // ---------------------------------------------------------------- the adjacent-pair check

  /** Inserts by start, after entries with the same start, as a stable sort does. */
  function InsertByStart(e: LogKeyEntry, keys: seq<LogKeyEntry>): seq<LogKeyEntry> {
    if keys == [] then [e]
    else if e.notBefore < keys[0].notBefore then [e] + keys
    else [keys[0]] + InsertByStart(e, keys[1..])
  }

  /** The windows in order of their start. */
  function SortByStart(keys: seq<LogKeyEntry>): seq<LogKeyEntry> {
    if keys == [] then []
    else InsertByStart(keys[|keys| - 1], SortByStart(keys[..|keys| - 1]))
  }

  ghost predicate StartsOrdered(keys: seq<LogKeyEntry>) {
    forall i, j :: 0 <= i < j < |keys| ==> keys[i].notBefore <= keys[j].notBefore
  }

  lemma {:induction false} InsertPermutes(e: LogKeyEntry, keys: seq<LogKeyEntry>)
    ensures multiset(InsertByStart(e, keys)) == multiset(keys) + multiset{e}
  {
    if keys != [] {
      assert keys == [keys[0]] + keys[1..];
      if e.notBefore >= keys[0].notBefore {
        InsertPermutes(e, keys[1..]);
      }
    }
  }

  lemma {:induction false} InsertOrders(e: LogKeyEntry, keys: seq<LogKeyEntry>)
    requires StartsOrdered(keys)
    ensures StartsOrdered(InsertByStart(e, keys))
  {
    if keys != [] && e.notBefore >= keys[0].notBefore {
      var r := InsertByStart(e, keys[1..]);
      InsertOrders(e, keys[1..]);
      InsertPermutes(e, keys[1..]);
      forall i | 0 <= i < |r| ensures keys[0].notBefore <= r[i].notBefore {
        assert r[i] in multiset(r);
      }
    }
  }

  lemma {:induction false} SortKeeps(keys: seq<LogKeyEntry>)
    ensures StartsOrdered(SortByStart(keys))
    ensures multiset(SortByStart(keys)) == multiset(keys)
  {
    if keys != [] {
      var last := |keys| - 1;
      assert keys == keys[..last] + [keys[last]];
      SortKeeps(keys[..last]);
      InsertPermutes(keys[last], SortByStart(keys[..last]));
      InsertOrders(keys[last], SortByStart(keys[..last]));
    }
  }

  /** The condition the overlap scan reports on a neighbouring pair. */
  predicate Overlaps(earlier: LogKeyEntry, later: LogKeyEntry) {
    earlier.notAfter.None? || later.notBefore < earlier.notAfter.value
  }

  ghost predicate NoNeighbourOverlap(sorted: seq<LogKeyEntry>) {
    forall i :: 1 <= i < |sorted| ==> !Overlaps(sorted[i - 1], sorted[i])
  }

  /** With ordered starts and non-empty windows, checking neighbours separates every pair. */
  lemma {:induction false} NeighboursSeparateAll(sorted: seq<LogKeyEntry>, i: nat, j: nat)
    requires NoNeighbourOverlap(sorted) && i < j < |sorted|
    requires forall k :: 0 <= k < |sorted| && sorted[k].notAfter.Some? ==> sorted[k].notAfter.value > sorted[k].notBefore
    ensures sorted[i].notAfter.Some? && sorted[i].notAfter.value <= sorted[j].notBefore
    decreases j
  {
    assert !Overlaps(sorted[j - 1], sorted[j]);
    if i < j - 1 {
      NeighboursSeparateAll(sorted, i, j - 1);
    }
  }

  lemma DisjointDecided(a: LogKeyEntry, b: LogKeyEntry)
    requires a.notBefore <= b.notBefore
    requires b.notAfter.Some? ==> b.notAfter.value > b.notBefore
    ensures Disjoint(a, b) <==> !Overlaps(a, b)
    ensures Disjoint(b, a) <==> Disjoint(a, b)
  {
    assert KeyCoversTimestamp(b, b.notBefore);
    if Disjoint(a, b) {
      assert !KeyCoversTimestamp(a, b.notBefore);
    }
  }

  lemma PositionIn(sorted: seq<LogKeyEntry>, keys: seq<LogKeyEntry>, e: LogKeyEntry) returns (i: nat)
    requires multiset(sorted) == multiset(keys) && e in keys
    ensures i < |sorted| && sorted[i] == e
  {
    assert e in multiset(keys);
    assert e in sorted;
    i :| 0 <= i < |sorted| && sorted[i] == e;
  }

  lemma {:induction false} OccursOnce(keys: seq<LogKeyEntry>, e: LogKeyEntry)
    requires DistinctIds(keys)
    ensures multiset(keys)[e] <= 1
  {
    if keys != [] {
      var rest := keys[1..];
      assert keys == [keys[0]] + rest;
      OccursOnce(rest, e);
      if e == keys[0] {
        assert forall j :: 0 <= j < |rest| ==> rest[j] == keys[j + 1];
        assert e !in rest;
      }
    }
  }

  lemma OccursTwice(s: seq<LogKeyEntry>, i: nat, j: nat)
    requires i < j < |s| && s[i] == s[j]
    ensures multiset(s)[s[i]] >= 2
  {
    assert s == s[..i] + [s[i]] + s[i + 1..j] + [s[j]] + s[j + 1..];
  }

  /** Sorting keeps different positions on different entries. */
  lemma SortedDistinct(sorted: seq<LogKeyEntry>, keys: seq<LogKeyEntry>, i: nat, j: nat)
    requires multiset(sorted) == multiset(keys) && DistinctIds(keys) && i < j < |sorted|
    ensures sorted[i] != sorted[j]
  {
    OccursOnce(keys, sorted[i]);
    if sorted[i] == sorted[j] {
      OccursTwice(sorted, i, j);
    }
  }

  lemma ScanSeparates(b58: Base58, keys: seq<LogKeyEntry>, sorted: seq<LogKeyEntry>, a: LogKeyEntry, b: LogKeyEntry)
    requires EntriesOk(b58, keys) && multiset(sorted) == multiset(keys) && StartsOrdered(sorted)
    requires NoNeighbourOverlap(sorted) && a in keys && b in keys && a != b
    ensures Disjoint(a, b)
  {
    forall k | 0 <= k < |sorted| ensures EntryOk(b58, sorted[k]) {
      assert sorted[k] in multiset(sorted);
      assert sorted[k] in keys;
    }
    var p := PositionIn(sorted, keys, a);
    var q := PositionIn(sorted, keys, b);
    if p < q {
      NeighboursSeparateAll(sorted, p, q);
    } else {
      NeighboursSeparateAll(sorted, q, p);
    }
  }

  lemma NeighboursDisjoint(b58: Base58, keys: seq<LogKeyEntry>, sorted: seq<LogKeyEntry>, i: nat)
    requires EntriesOk(b58, keys) && DistinctIds(keys) && WindowsDisjoint(keys)
    requires multiset(sorted) == multiset(keys) && StartsOrdered(sorted) && 1 <= i < |sorted|
    ensures !Overlaps(sorted[i - 1], sorted[i])
  {
    var a, b := sorted[i - 1], sorted[i];
    SortedDistinct(sorted, keys, i - 1, i);
    assert a in multiset(sorted) && b in multiset(sorted);
    assert a in keys && b in keys;
    var p :| 0 <= p < |keys| && keys[p] == a;
    var q :| 0 <= q < |keys| && keys[q] == b;
    assert EntryOk(b58, keys[q]);
    DisjointDecided(a, b);
    assert p < q ==> Disjoint(keys[p], keys[q]);
    assert q < p ==> Disjoint(keys[q], keys[p]);
  }

  /** Scanning neighbours of the sorted windows decides whether all windows are disjoint. */
  lemma ScanDecidesDisjoint(b58: Base58, keys: seq<LogKeyEntry>)
    requires EntriesOk(b58, keys) && DistinctIds(keys)
    ensures NoNeighbourOverlap(SortByStart(keys)) <==> WindowsDisjoint(keys)
  {
    var sorted := SortByStart(keys);
    SortKeeps(keys);
    if NoNeighbourOverlap(sorted) {
      forall i, j | 0 <= i < j < |keys| ensures Disjoint(keys[i], keys[j]) {
        ScanSeparates(b58, keys, sorted, keys[i], keys[j]);
      }
    }
    if WindowsDisjoint(keys) {
      forall i | 1 <= i < |sorted| ensures !Overlaps(sorted[i - 1], sorted[i]) {
        NeighboursDisjoint(b58, keys, sorted, i);
      }
    }
  }

  // ---------------------------------------------------------------- validation

  /** What can be wrong with one entry, apart from the others. */
  ghost predicate EntryFault(b58: Base58, e: LogKeyEntry, x: DirError) {
    match x
    case EmptyKeyId => e.keyId == []
    case LongKeyId => |e.keyId| > 256
    case BadPublicKey => b58(e.publicKey).None? || |b58(e.publicKey).value| != 32
    case BadMode => e.mode != Sign && e.mode != VerifyOnly
    case BadNotBefore => e.notBefore < 0.0
    case BadNotAfter => e.notAfter.Some? && e.notAfter.value < 0.0
    case EmptyWindow => e.notAfter.Some? && 0.0 <= e.notAfter.value <= e.notBefore
    case _ => false
  }

  /** Some entry has the fault. */
  ghost predicate HasFault(b58: Base58, keys: seq<LogKeyEntry>, x: DirError) {
    exists i :: 0 <= i < |keys| && EntryFault(b58, keys[i], x)
  }

  lemma OtherFaults(b58: Base58, keys: seq<LogKeyEntry>)
    ensures !HasFault(b58, keys, EmptyLogId) && !HasFault(b58, keys, NoKeys) && !HasFault(b58, keys, ManySigners)
    ensures !HasFault(b58, keys, OverlappingWindows)
  {
  }

  /** Two entries share an id that is neither empty nor too long. */
  ghost predicate SharesId(keys: seq<LogKeyEntry>) {
    exists i, j :: 0 <= i < j < |keys| && keys[i].keyId == keys[j].keyId && 1 <= |keys[j].keyId| <= 256
  }

  lemma FaultStep(b58: Base58, keys: seq<LogKeyEntry>, i: nat)
    requires i < |keys|
    ensures forall x :: HasFault(b58, keys[..i + 1], x) <==> HasFault(b58, keys[..i], x) || EntryFault(b58, keys[i], x)
  {
    var a, b := keys[..i], keys[..i + 1];
    assert forall j :: 0 <= j < i ==> a[j] == b[j];
    assert b[i] == keys[i];
    forall x | HasFault(b58, a, x) ensures HasFault(b58, b, x) {
      var j :| 0 <= j < |a| && EntryFault(b58, a[j], x);
      assert EntryFault(b58, b[j], x);
    }
  }

  /** The ids that are neither empty nor too long. */
  ghost function GoodIds(keys: seq<LogKeyEntry>): set<bytes> {
    set i | 0 <= i < |keys| && 1 <= |keys[i].keyId| <= 256 :: keys[i].keyId
  }

  lemma IdsStep(keys: seq<LogKeyEntry>, i: nat)
    requires i < |keys|
    ensures var e, ids := keys[i], GoodIds(keys[..i]);
            && GoodIds(keys[..i + 1]) == (if 1 <= |e.keyId| <= 256 then ids + {e.keyId} else ids)
            && (1 <= |e.keyId| <= 256 ==> (e.keyId in ids <==> exists j :: 0 <= j < i && keys[j].keyId == e.keyId))
  {
    var a, b := keys[..i], keys[..i + 1];
    assert forall j :: 0 <= j < i ==> a[j] == keys[j] == b[j];
    assert b[i] == keys[i];
  }

  lemma ShareStep(keys: seq<LogKeyEntry>, i: nat)
    requires i < |keys|
    ensures SharesId(keys[..i + 1])
       <==> || SharesId(keys[..i])
            || (1 <= |keys[i].keyId| <= 256 && exists j :: 0 <= j < i && keys[j].keyId == keys[i].keyId)
  {
    var a, b := keys[..i], keys[..i + 1];
    assert forall j :: 0 <= j < i ==> a[j] == keys[j] == b[j];
    assert b[i] == keys[i];
  }

  lemma StepSigners(keys: seq<LogKeyEntry>, i: nat)
    requires i < |keys|
    ensures OneSigner(keys[..i + 1]) <==>
              OneSigner(keys[..i]) && (keys[i].mode == Sign ==> forall j :: 0 <= j < i ==> keys[j].mode != Sign)
  {
    var a, b := keys[..i], keys[..i + 1];
    assert forall j :: 0 <= j < i ==> a[j] == keys[j] == b[j];
    assert b[i] == keys[i];
  }

  /** The keys that may sign. */
  method CountSigners(keys: seq<LogKeyEntry>) returns (signers: nat)
    ensures signers <= 1 <==> OneSigner(keys)
  {
    signers := 0;
    for i := 0 to |keys|
      invariant signers == 0 <==> forall j :: 0 <= j < i ==> keys[j].mode != Sign
      invariant signers <= 1 <==> OneSigner(keys[..i])
    {
      StepSigners(keys, i);
      if keys[i].mode == Sign { signers := signers + 1; }
    }
    assert keys[..|keys|] == keys;
  }

  /** The checks of one entry's id, which is remembered when it is new. */
  method ValidateKeyId(e: LogKeyEntry, before: set<bytes>, errorsBefore: seq<DirError>)
    returns (errors: seq<DirError>, seen: set<bytes>)
    ensures forall x :: x in errors <==> || x in errorsBefore || (x == EmptyKeyId && e.keyId == [])
                                         || (x == LongKeyId && |e.keyId| > 256)
                                         || (x == DuplicateKeyId && 1 <= |e.keyId| <= 256 && e.keyId in before)
    ensures errors == [] <==> errorsBefore == [] && 0 < |e.keyId| <= MAX_KEY_ID_UTF8 && e.keyId !in before
    ensures seen == if 1 <= |e.keyId| <= 256 then before + {e.keyId} else before
  {
    errors, seen := errorsBefore, before;
    if |e.keyId| == 0 { errors := errors + [EmptyKeyId]; }
    else if |e.keyId| > MAX_KEY_ID_UTF8 { errors := errors + [LongKeyId]; }
    else if e.keyId in seen { errors := errors + [DuplicateKeyId]; }
    else { seen := seen + {e.keyId}; }
  }

  /** The checks of one entry's key, mode and window. */
  method ValidateEntry(b58: Base58, e: LogKeyEntry, before: seq<DirError>) returns (errors: seq<DirError>)
    ensures forall x :: x in errors <==> x in before || (x !in {EmptyKeyId, LongKeyId} && EntryFault(b58, e, x))
    ensures errors == [] <==> before == [] && EntryUsable(b58, e)
  {
    errors := before;
    var pk := b58(e.publicKey);
    if pk.None? || |pk.value| != PUBKEY_LEN { errors := errors + [BadPublicKey]; }
    if e.mode != Sign && e.mode != VerifyOnly { errors := errors + [BadMode]; }
    if e.notBefore < 0.0 { errors := errors + [BadNotBefore]; }
    if e.notAfter.Some? {
      if e.notAfter.value < 0.0 { errors := errors + [BadNotAfter]; }
      else if e.notAfter.value <= e.notBefore { errors := errors + [EmptyWindow]; }
    }
  }

  lemma NeighbourStep(sorted: seq<LogKeyEntry>, i: nat)
    requires 1 <= i < |sorted|
    ensures NoNeighbourOverlap(sorted[..i + 1])
       <==> NoNeighbourOverlap(sorted[..i]) && !Overlaps(sorted[i - 1], sorted[i])
  {
    var a, b := sorted[..i], sorted[..i + 1];
    assert forall j :: 0 <= j < i ==> a[j] == sorted[j] == b[j];
    assert b[i] == sorted[i];
    if NoNeighbourOverlap(b) {
      assert !Overlaps(b[i - 1], b[i]);
      forall j | 1 <= j < |a| ensures !Overlaps(a[j - 1], a[j]) {
        assert !Overlaps(b[j - 1], b[j]);
      }
    }
    if NoNeighbourOverlap(a) && !Overlaps(sorted[i - 1], sorted[i]) {
      forall j | 1 <= j < |b| ensures !Overlaps(b[j - 1], b[j]) {
        if j < i { assert !Overlaps(a[j - 1], a[j]); }
      }
    }
  }

  /** The scan of neighbouring windows. */
  method ScanOverlaps(sorted: seq<LogKeyEntry>, before: seq<DirError>) returns (errors: seq<DirError>)
    ensures errors == [] <==> before == [] && NoNeighbourOverlap(sorted)
    ensures forall x :: x in errors <==> x in before || (x == OverlappingWindows && !NoNeighbourOverlap(sorted))
  {
    errors := before;
    if |sorted| == 0 { return; }
    for i := 1 to |sorted|
      invariant errors == [] <==> before == [] && NoNeighbourOverlap(sorted[..i])
      invariant forall x :: x in errors <==> x in before || (x == OverlappingWindows && !NoNeighbourOverlap(sorted[..i]))
    {
      if Overlaps(sorted[i - 1], sorted[i]) { errors := errors + [OverlappingWindows]; }
      NeighbourStep(sorted, i);
    }
    assert sorted[..|sorted|] == sorted;
  }

  lemma StepEntries(b58: Base58, keys: seq<LogKeyEntry>, i: nat)
    requires i < |keys|
    ensures EntriesOk(b58, keys[..i + 1]) <==> EntriesOk(b58, keys[..i]) && EntryOk(b58, keys[i])
    ensures DistinctIds(keys[..i + 1])
       <==> DistinctIds(keys[..i]) && forall j :: 0 <= j < i ==> keys[j].keyId != keys[i].keyId
  {
    var a, b := keys[..i], keys[..i + 1];
    assert b == a + [keys[i]];
    assert forall j :: 0 <= j < i ==> a[j] == keys[j] == b[j];
    assert b[i] == keys[i];
  }

  /** The faults of the entries and the shared ids, and nothing else, have been added to the errors. */
  ghost predicate Collected(b58: Base58, keys: seq<LogKeyEntry>, before: seq<DirError>, errors: seq<DirError>) {
    && (DuplicateKeyId in errors <==> SharesId(keys))
    && (forall x :: x != DuplicateKeyId ==> (x in errors <==> x in before || HasFault(b58, keys, x)))
    && (errors == [] <==> before == [] && EntriesOk(b58, keys) && DistinctIds(keys))
  }

  lemma CollectStep(b58: Base58, keys: seq<LogKeyEntry>, i: nat, before: seq<DirError>, errors: seq<DirError>,
                    next: seq<DirError>)
    requires i < |keys| && Collected(b58, keys[..i], before, errors)
    requires forall x :: x in next <==> || x in errors || EntryFault(b58, keys[i], x)
                                        || (x == DuplicateKeyId && 1 <= |keys[i].keyId| <= 256
                                            && keys[i].keyId in GoodIds(keys[..i]))
    requires next == [] <==> errors == [] && EntryOk(b58, keys[i]) && keys[i].keyId !in GoodIds(keys[..i])
    ensures Collected(b58, keys[..i + 1], before, next)
  {
    StepEntries(b58, keys, i);
    FaultStep(b58, keys, i);
    ShareStep(keys, i);
    IdsStep(keys, i);
  }

  /** The loop over the entries: what each of them adds, and the ids seen. */
  method ValidateEntries(b58: Base58, keys: seq<LogKeyEntry>, before: seq<DirError>) returns (errors: seq<DirError>)
    requires DuplicateKeyId !in before
    ensures Collected(b58, keys, before, errors)
  {
    errors := before;
    var seen: set<bytes> := {};
    for i := 0 to |keys|
      invariant seen == GoodIds(keys[..i]) && Collected(b58, keys[..i], before, errors)
    {
      ghost var errorsBefore := errors;
      errors, seen := ValidateKeyId(keys[i], seen, errors);
      errors := ValidateEntry(b58, keys[i], errors);
      CollectStep(b58, keys, i, before, errorsBefore, errors);
      IdsStep(keys, i);
    }
    assert keys[..|keys|] == keys;
  }

  /** Collects every problem; there is none exactly when the directory is valid. */
  method ValidateLogKeyDirectory(b58: Base58, dir: LogKeyDirectory) returns (errors: seq<DirError>)
    ensures errors == [] <==> DirectoryOk(b58, dir)
    ensures EmptyLogId in errors <==> dir.logId == []
    ensures NoKeys in errors <==> dir.keys == []
    ensures dir.keys == [] ==> forall x :: x in errors ==> x in {EmptyLogId, NoKeys}
    ensures DuplicateKeyId in errors <==> SharesId(dir.keys)
    ensures ManySigners in errors <==> !OneSigner(dir.keys)
    ensures OverlappingWindows in errors <==> !NoNeighbourOverlap(SortByStart(dir.keys))
    ensures forall x :: x in {EmptyKeyId, LongKeyId, BadPublicKey, BadMode, BadNotBefore, BadNotAfter, EmptyWindow} ==>
                          (x in errors <==> HasFault(b58, dir.keys, x))
  {
    errors := [];
    if |dir.logId| == 0 { errors := errors + [EmptyLogId]; }
    if |dir.keys| == 0 { return errors + [NoKeys]; }
    errors := ValidateEntries(b58, dir.keys, errors);
    OtherFaults(b58, dir.keys);
    var signers := CountSigners(dir.keys);
    if signers > 1 { errors := errors + [ManySigners]; }
    ghost var before := errors;
    errors := ScanOverlaps(SortByStart(dir.keys), errors);
    if before == [] {
      ScanDecidesDisjoint(b58, dir.keys);
    }
  }
}
