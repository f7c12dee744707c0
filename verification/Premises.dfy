/**
 * The premises of the soundness theorems can be met. The inputs a verification
 * hashes form a finite set, which is computed here, and every list has heads that verify.
 */
module Premises {
  import opened Bytes
  import opened Codec
  import opened Merkle
  import opened RootDown
  import opened Pow2Test
  import opened Exactness
  import opened Soundness
  import opened Sth
  import opened Equivocation
  import opened Pinning
  import opened PinRuns

  // ---------------------------------------------------------------- the inputs hashed

  /** Every input hashed for the tree of a range. */
  function TreeInputs<D(==)>(h: Hasher<D>, entries: seq<bytes>, start: nat, end: nat): set<Input<D>>
    requires start <= end <= |entries|
    decreases end - start
  {
    if start == end then {EmptyInput}
    else if end - start == 1 then {LeafInput(entries[start])}
    else
      var mid := start + Split(end - start);
      {NodeInput(Mth(h, entries, start, mid), Mth(h, entries, mid, end))}
      + TreeInputs(h, entries, start, mid) + TreeInputs(h, entries, mid, end)
  }

  lemma NodeCovered<T>(node: T, left: set<T>, right: set<T>, s: set<T>)
    ensures {node} + left + right <= s <==> node in s && left <= s && right <= s
  {
    if {node} + left + right <= s {
      assert node in {node} + left + right && left <= {node} + left + right && right <= {node} + left + right;
    }
  }

  /** They are the least set that covers the tree. */
  lemma {:induction false} TreeCovered<D>(h: Hasher<D>, entries: seq<bytes>, start: nat, end: nat, inputs: set<Input<D>>)
    requires start <= end <= |entries|
    ensures TreeInputs(h, entries, start, end) <= inputs <==> TreeHashed(h, entries, start, end, inputs)
    decreases end - start
  {
    if end - start > 1 {
      var mid := start + Split(end - start);
      var node := NodeInput(Mth(h, entries, start, mid), Mth(h, entries, mid, end));
      NodeCovered(node, TreeInputs(h, entries, start, mid), TreeInputs(h, entries, mid, end), inputs);
      TreeCovered(h, entries, start, mid, inputs);
      TreeCovered(h, entries, mid, end, inputs);
    }
  }

  /** The nodes hashed along an inclusion path. */
  function RebuildInputs<D(==)>(h: Hasher<D>, i: nat, n: nat, seed: Roots<D>, path: seq<D>): set<Input<D>>
    requires i < n
    decreases n
  {
    if n == 1 || path == [] then {}
    else
      var k, rest, top := Split(n), path[..|path| - 1], path[|path| - 1];
      if i < k then
        var r := Rebuild(h, i, k, seed, rest);
        (if r.Some? then {NodeInput(r.value.newer, top)} else {}) + RebuildInputs(h, i, k, seed, rest)
      else
        var r := Rebuild(h, i - k, n - k, seed, rest);
        (if r.Some? then {NodeInput(top, r.value.newer)} else {}) + RebuildInputs(h, i - k, n - k, seed, rest)
  }

  lemma {:induction false} RebuildCovered<D>(h: Hasher<D>, i: nat, n: nat, seed: Roots<D>, path: seq<D>,
                                             inputs: set<Input<D>>)
    requires i < n
    ensures RebuildInputs(h, i, n, seed, path) <= inputs <==> RebuildHashed(h, i, n, seed, path, inputs)
    decreases n
  {
    if n > 1 && path != [] {
      var k, rest := Split(n), path[..|path| - 1];
      if i < k {
        RebuildCovered(h, i, k, seed, rest, inputs);
      } else {
        RebuildCovered(h, i - k, n - k, seed, rest, inputs);
      }
    }
  }

  /** The nodes hashed towards the newer root by a consistency check. */
  function ReconcileInputs<D(==)>(h: Hasher<D>, m: nat, n: nat, nodes: seq<D>): set<Input<D>>
    requires 1 <= m <= n
    decreases n
  {
    if m == n || nodes == [] then {}
    else
      var k, rest, top := Split(n), nodes[..|nodes| - 1], nodes[|nodes| - 1];
      if m <= k then
        var r := Reconcile(h, m, k, rest);
        (if r.Some? then {NodeInput(r.value.newer, top)} else {}) + ReconcileInputs(h, m, k, rest)
      else
        var r := Reconcile(h, m - k, n - k, rest);
        (if r.Some? then {NodeInput(top, r.value.newer)} else {}) + ReconcileInputs(h, m - k, n - k, rest)
  }

  lemma {:induction false} ReconcileCovered<D>(h: Hasher<D>, m: nat, n: nat, nodes: seq<D>, inputs: set<Input<D>>)
    requires 1 <= m <= n
    ensures ReconcileInputs(h, m, n, nodes) <= inputs <==> ReconcileHashed(h, m, n, nodes, inputs)
    decreases n
  {
    if m < n && nodes != [] {
      var k, rest := Split(n), nodes[..|nodes| - 1];
      if m <= k {
        ReconcileCovered(h, m, k, rest, inputs);
      } else {
        ReconcileCovered(h, m - k, n - k, rest, inputs);
      }
    }
  }

  /** Exactly the inputs of one inclusion check and of the list it is about. */
  lemma InclusionCovered(h: Hasher<Digest>, entries: seq<bytes>, entry: bytes, index: nat, path: seq<Digest>)
    returns (inputs: set<Input<Digest>>)
    requires index < |entries|
    ensures var leaf := LeafHash<Digest>(h, entry);
            inputs == TreeInputs<Digest>(h, entries, 0, |entries|) + {LeafInput(entry)}
                      + RebuildInputs<Digest>(h, index, |entries|, Roots(leaf, leaf), path)
    ensures forall s :: InclusionHashed(h, entries, entry, index, path, s) <==> inputs <= s
  {
    var leaf := LeafHash<Digest>(h, entry);
    var tree, nodes := TreeInputs<Digest>(h, entries, 0, |entries|),
        RebuildInputs<Digest>(h, index, |entries|, Roots(leaf, leaf), path);
    inputs := tree + {LeafInput(entry)} + nodes;
    forall s ensures InclusionHashed(h, entries, entry, index, path, s) <==> inputs <= s {
      TreeCovered<Digest>(h, entries, 0, |entries|, s);
      RebuildCovered<Digest>(h, index, |entries|, Roots(leaf, leaf), path, s);
    }
  }

  /** Exactly the inputs of one consistency check and of the list it is about. */
  lemma ConsistencyCovered(h: Hasher<Digest>, entries: seq<bytes>, m: nat, firstRoot: Digest, path: seq<Digest>)
    returns (inputs: set<Input<Digest>>)
    requires 1 <= m <= |entries|
    ensures inputs == TreeInputs<Digest>(h, entries, 0, |entries|)
                      + ReconcileInputs<Digest>(h, m, |entries|, Seeded<Digest>(LooksLikePow2(m), firstRoot, path))
    ensures forall s :: ConsistencyHashed(h, entries, m, firstRoot, path, s) <==> inputs <= s
  {
    var nodes := Seeded<Digest>(LooksLikePow2(m), firstRoot, path);
    inputs := TreeInputs<Digest>(h, entries, 0, |entries|) + ReconcileInputs<Digest>(h, m, |entries|, nodes);
    forall s ensures ConsistencyHashed(h, entries, m, firstRoot, path, s) <==> inputs <= s {
      TreeCovered<Digest>(h, entries, 0, |entries|, s);
      ReconcileCovered<Digest>(h, m, |entries|, nodes, s);
    }
  }

  /** The inputs of the trees of the first k entries and of fewer. */
  function PrefixInputs(h: Hasher<Digest>, entries: seq<bytes>, k: nat): set<Input<Digest>>
    requires k <= |entries|
  {
    TreeInputs<Digest>(h, entries, 0, k) + (if k == 0 then {} else PrefixInputs(h, entries, k - 1))
  }

  lemma {:induction false} PrefixInputsHold(h: Hasher<Digest>, entries: seq<bytes>, j: nat, k: nat)
    requires j <= k <= |entries|
    ensures TreeInputs<Digest>(h, entries, 0, j) <= PrefixInputs(h, entries, k)
  {
    if j < k {
      PrefixInputsHold(h, entries, j, k - 1);
    }
  }

  lemma {:induction false} PrefixInputsLeast(h: Hasher<Digest>, entries: seq<bytes>, k: nat, inputs: set<Input<Digest>>)
    requires k <= |entries| && PrefixesHashed(h, entries, inputs)
    ensures PrefixInputs(h, entries, k) <= inputs
  {
    TreeCovered<Digest>(h, entries, 0, k, inputs);
    if k > 0 {
      PrefixInputsLeast(h, entries, k - 1, inputs);
    }
  }

  lemma PrefixesCovered(h: Hasher<Digest>, entries: seq<bytes>, inputs: set<Input<Digest>>)
    ensures PrefixInputs(h, entries, |entries|) <= inputs <==> PrefixesHashed(h, entries, inputs)
  {
    if PrefixInputs(h, entries, |entries|) <= inputs {
      forall k | 0 <= k <= |entries| ensures TreeHashed<Digest>(h, entries, 0, k, inputs) {
        PrefixInputsHold(h, entries, k, |entries|);
        TreeCovered<Digest>(h, entries, 0, k, inputs);
      }
    } else if PrefixesHashed(h, entries, inputs) {
      PrefixInputsLeast(h, entries, |entries|, inputs);
    }
  }

  lemma UnionCovered<T>(a: set<T>, b: set<T>, s: set<T>)
    ensures a + b <= s <==> a <= s && b <= s
  {
    if a + b <= s {
      assert a <= a + b && b <= a + b;
    }
  }

  ghost function StepInputs(h: Hasher<Digest>, a: PinnedHead, b: PinnedHead, path: seq<bytes>): set<Input<Digest>>
    requires ProvenStep(h, a, b, path)
  {
    if a.treeSize < 1 then {}
    else ReconcileInputs<Digest>(h, a.treeSize, b.treeSize,
                                 Seeded<Digest>(LooksLikePow2(a.treeSize), HexToBytes(a.sth.root).value, path))
  }

  /** The inputs of every accepted consistency check of a run. */
  ghost function RunInputs(h: Hasher<Digest>, c: Crypto, trusted: Trusted, pin: Option<PinnedHead>,
                           obs: seq<Observation>): set<Input<Digest>>
    requires PinOk(c, trusted, pin)
    decreases |obs|
  {
    if obs == [] then {}
    else
      var (now, r) := ObserveOnce(h, c, trusted, pin, obs[0].s, obs[0].fetcher, obs[0].now);
      ObserveMoves(h, c, trusted, pin, obs[0]);
      (if r.status == Advanced then StepInputs(h, pin.value, now.value, DecodePath(r.path.value).value) else {})
      + RunInputs(h, c, trusted, now, obs[1..])
  }

  lemma {:induction false} RunCovered(h: Hasher<Digest>, c: Crypto, trusted: Trusted, pin: Option<PinnedHead>,
                                      obs: seq<Observation>, inputs: set<Input<Digest>>)
    requires PinOk(c, trusted, pin)
    ensures RunInputs(h, c, trusted, pin, obs) <= inputs <==> RunHashed(h, c, trusted, pin, obs, inputs)
    decreases |obs|
  {
    if obs != [] {
      var (now, r) := ObserveOnce(h, c, trusted, pin, obs[0].s, obs[0].fetcher, obs[0].now);
      ObserveMoves(h, c, trusted, pin, obs[0]);
      if r.status == Advanced && pin.value.treeSize >= 1 {
        var p, path := pin.value, DecodePath(r.path.value).value;
        ReconcileCovered<Digest>(h, p.treeSize, now.value.treeSize,
                                 Seeded<Digest>(LooksLikePow2(p.treeSize), HexToBytes(p.sth.root).value, path), inputs);
      }
      RunCovered(h, c, trusted, now, obs[1..], inputs);
    }
  }

  /** Exactly the inputs of a whole run of a pin store and of every prefix of a list. */
  lemma PinRunCovered(h: Hasher<Digest>, c: Crypto, trusted: Trusted, pin: Option<PinnedHead>, obs: seq<Observation>,
                      entries: seq<bytes>)
    returns (inputs: set<Input<Digest>>)
    requires PinOk(c, trusted, pin)
    ensures inputs == RunInputs(h, c, trusted, pin, obs) + PrefixInputs(h, entries, |entries|)
    ensures forall s :: RunHashed(h, c, trusted, pin, obs, s) && PrefixesHashed(h, entries, s) <==> inputs <= s
  {
    var run, prefixes := RunInputs(h, c, trusted, pin, obs), PrefixInputs(h, entries, |entries|);
    inputs := run + prefixes;
    forall s ensures RunHashed(h, c, trusted, pin, obs, s) && PrefixesHashed(h, entries, s) <==> inputs <= s {
      RunCovered(h, c, trusted, pin, obs, s);
      PrefixesCovered(h, entries, s);
      UnionCovered(run, prefixes, s);
    }
  }

  // ---------------------------------------------------------------- heads that verify

  /** A signature scheme that accepts every signature. */
  function AcceptAll(): Crypto {
    Crypto((s: string) => Some(seq(if s == "" then 32 else 64, _ => 0)), (m: bytes, s: bytes, k: bytes) => true)
  }

  /** The head of the first m entries. */
  function HeadFor(h: Hasher<Digest>, logId: bytes, entries: seq<bytes>, m: nat): SignedTreeHead
    requires m <= |entries|
  {
    SignedTreeHead(DOMAIN_V1, logId, None, m, 0, BytesToHex(MerkleRoot<Digest>(h, entries[..m])), "signature", None)
  }

  lemma HeadForEncodes(h: Hasher<Digest>, logId: bytes, entries: seq<bytes>, m: nat)
    requires 0 < |logId| <= MAX_LOG_ID_UTF8 && m <= |entries| && m <= MAX_SAFE
    ensures EncodeSthPreimage(HeadFor(h, logId, entries, m)).Some?
  {
    DomainsDiffer();
    HexRoundTrip(MerkleRoot<Digest>(h, entries[..m]));
  }

  /** Under some scheme every list has a verified head of every size, so honest logs and diverged histories exist. */
  lemma HeadForIsHonest(h: Hasher<Digest>, logId: bytes, entries: seq<bytes>, m: nat)
    requires 0 < |logId| <= MAX_LOG_ID_UTF8 && m <= |entries| && m <= MAX_SAFE
    ensures HonestHead(h, AcceptAll(), SingleKey(""), HeadFor(h, logId, entries, m), logId, entries)
    ensures FromVerified(AcceptAll(), SingleKey(""), ToPinned(HeadFor(h, logId, entries, m), None, 0))
  {
    var s := HeadFor(h, logId, entries, m);
    HexRoundTrip(MerkleRoot<Digest>(h, entries[..m]));
    HeadForEncodes(h, logId, entries, m);
    assert SignedBy(AcceptAll(), s, "");
    VerifySthExact(AcceptAll(), s, SingleKey(""));
  }
}
