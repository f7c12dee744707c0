/**
 * The Merkle tree of section 2.1 of RFC 6962: tree hash and proof generators,
 * written as the recursive definitions they are. The digest type is a parameter
 * here; Keccak.dfy fixes it to the 32-byte outputs of a hash over byte strings.
 */
module Merkle {
  import opened Bytes

  const MAX_PROOF_DEPTH := 32

  /** What a tree hashes: nothing, an entry, or two child digests. */
  datatype Input<D> = EmptyInput | LeafInput(entry: bytes) | NodeInput(left: D, right: D)

  /** A hash over tree inputs. Nothing is assumed about it. */
  type Hasher<!D> = Input<D> -> D

  function EmptyRoot<D>(h: Hasher<D>): D { h(EmptyInput) }

  function LeafHash<D>(h: Hasher<D>, entry: bytes): D { h(LeafInput(entry)) }

  function NodeHash<D>(h: Hasher<D>, left: D, right: D): D { h(NodeInput(left, right)) }

  ghost predicate CollidingPair<D>(h: Hasher<D>, x: Input<D>, y: Input<D>) {
    x != y && h(x) == h(y)
  }

  /** Two distinct members of `inputs` hash to the same value. */
  ghost predicate Collides<D>(h: Hasher<D>, inputs: set<Input<D>>) {
    exists x, y {:trigger CollidingPair(h, x, y)} | x in inputs && y in inputs :: CollidingPair(h, x, y)
  }

  /** Without a collision among `inputs`, equal hashes mean equal inputs. */
  lemma SameHash<D>(h: Hasher<D>, inputs: set<Input<D>>, x: Input<D>, y: Input<D>)
    requires !Collides(h, inputs)
    requires x in inputs && y in inputs && h(x) == h(y)
    ensures x == y
  {
    assert !CollidingPair(h, x, y);
  }

  // ---------------------------------------------------------------- split point

  predicate IsPow2(n: nat) {
    n == 1 || (n > 1 && n % 2 == 0 && IsPow2(n / 2))
  }

  /** Doubles k until the next doubling would reach n. */
  function SplitFrom(k: nat, n: nat): (r: nat)
    requires 1 <= k < n
    ensures k <= r < n <= 2 * r
    decreases n - k
  {
    if k * 2 < n then SplitFrom(k * 2, n) else k
  }

  /** Largest power of two strictly less than n. */
  function Split(n: nat): (k: nat)
    requires n >= 2
    ensures 1 <= k < n <= 2 * k
  {
    SplitFrom(1, n)
  }

  lemma {:induction false} SplitFromIsPow2(k: nat, n: nat)
    requires 1 <= k < n && IsPow2(k)
    ensures IsPow2(SplitFrom(k, n))
    decreases n - k
  {
    if k * 2 < n {
      SplitFromIsPow2(k * 2, n);
    }
  }

  lemma SplitIsPow2(n: nat)
    requires n >= 2
    ensures IsPow2(Split(n))
  {
    SplitFromIsPow2(1, n);
  }

  /** Two powers of two are never less than a factor of two apart. */
  lemma {:induction false} Pow2Gap(k: nat, m: nat)
    requires IsPow2(k) && k < m < 2 * k
    ensures !IsPow2(m)
  {
    if IsPow2(m) {
      if k > 1 {
        Pow2Gap(k / 2, m / 2);
      }
    }
  }

  lemma SplitUnique(n: nat, k: nat)
    requires n >= 2 && IsPow2(k) && k < n <= 2 * k
    ensures k == Split(n)
  {
    var s := Split(n);
    SplitIsPow2(n);
    if k < s {
      Pow2Gap(k, s);
    } else if s < k {
      Pow2Gap(s, k);
    }
  }

  /** The doubling loop computes the split point. */
  method SplitPoint(n: nat) returns (k: nat)
    requires n >= 2
    ensures k == Split(n)
  {
    k := 1;
    while k * 2 < n
      invariant 1 <= k < n && SplitFrom(k, n) == Split(n)
    {
      k := k * 2;
    }
  }

  // ---------------------------------------------------------------- tree hash

  /** Merkle tree hash of entries[start..end]. */
  function Mth<D>(h: Hasher<D>, entries: seq<bytes>, start: nat, end: nat): D
    requires start <= end <= |entries|
    decreases end - start
  {
    var n := end - start;
    if n == 0 then EmptyRoot(h)
    else if n == 1 then LeafHash(h, entries[start])
    else
      var k := Split(n);
      NodeHash(h, Mth(h, entries, start, start + k), Mth(h, entries, start + k, end))
  }

  function MerkleRoot<D>(h: Hasher<D>, entries: seq<bytes>): D {
    Mth(h, entries, 0, |entries|)
  }

  /** The tree hash of a range depends on that range alone. */
  lemma {:induction false} MthLocal<D>(h: Hasher<D>, a: seq<bytes>, b: seq<bytes>, start: nat, end: nat)
    requires start <= end <= |a| && end <= |b|
    requires forall i :: start <= i < end ==> a[i] == b[i]
    ensures Mth(h, a, start, end) == Mth(h, b, start, end)
    decreases end - start
  {
    var n := end - start;
    if n > 1 {
      var k := Split(n);
      MthLocal(h, a, b, start, start + k);
      MthLocal(h, a, b, start + k, end);
    }
  }

  lemma PrefixRoot<D>(h: Hasher<D>, entries: seq<bytes>, m: nat)
    requires m <= |entries|
    ensures MerkleRoot(h, entries[..m]) == Mth(h, entries, 0, m)
  {
    MthLocal(h, entries[..m], entries, 0, m);
  }

  /** Nor does it depend on where the range stands. */
  lemma {:induction false} MthShifted<D>(h: Hasher<D>, a: seq<bytes>, b: seq<bytes>, start: nat, end: nat, shift: nat)
    requires start <= end <= |a| && end + shift <= |b|
    requires forall i :: start <= i < end ==> a[i] == b[i + shift]
    ensures Mth(h, a, start, end) == Mth(h, b, start + shift, end + shift)
    decreases end - start
  {
    var n := end - start;
    if n > 1 {
      var mid := start + Split(n);
      MthShifted(h, a, b, start, mid, shift);
      MthShifted(h, a, b, mid, end, shift);
    }
  }

  /** The root of a list is the node over the roots of its two parts, cut at the split point. */
  lemma RootOfParts<D>(h: Hasher<D>, left: seq<bytes>, right: seq<bytes>)
    requires IsPow2(|left|) && 1 <= |right| <= |left|
    ensures MerkleRoot(h, left + right) == NodeHash(h, MerkleRoot(h, left), MerkleRoot(h, right))
  {
    SplitUnique(|left + right|, |left|);
    MthLocal(h, left + right, left, 0, |left|);
    MthShifted(h, right, left + right, 0, |right|, |left|);
  }

  /** `inputs` holds every byte string hashed while computing Mth over entries[start..end]. */
  ghost predicate TreeHashed<D>(h: Hasher<D>, entries: seq<bytes>, start: nat, end: nat, inputs: set<Input<D>>)
    requires start <= end <= |entries|
    decreases end - start
  {
    var n := end - start;
    if n == 0 then EmptyInput in inputs
    else if n == 1 then LeafInput(entries[start]) in inputs
    else
      var k := Split(n);
      && NodeInput(Mth(h, entries, start, start + k), Mth(h, entries, start + k, end)) in inputs
      && TreeHashed(h, entries, start, start + k, inputs)
      && TreeHashed(h, entries, start + k, end, inputs)
  }

  lemma TreeHashedNode<D>(h: Hasher<D>, entries: seq<bytes>, start: nat, mid: nat, end: nat, inputs: set<Input<D>>)
    requires start + 2 <= end <= |entries| && mid == start + Split(end - start)
    ensures TreeHashed(h, entries, start, end, inputs) <==>
              && NodeInput(Mth(h, entries, start, mid), Mth(h, entries, mid, end)) in inputs
              && TreeHashed(h, entries, start, mid, inputs) && TreeHashed(h, entries, mid, end, inputs)
  {
  }

  lemma {:induction false} TreeHashedLocal<D>(h: Hasher<D>, a: seq<bytes>, b: seq<bytes>,
                                           start: nat, end: nat, inputs: set<Input<D>>)
    requires start <= end <= |a| && end <= |b|
    requires forall i :: start <= i < end ==> a[i] == b[i]
    requires TreeHashed(h, a, start, end, inputs)
    ensures TreeHashed(h, b, start, end, inputs)
    decreases end - start
  {
    if end - start > 1 {
      var mid := start + Split(end - start);
      TreeHashedNode(h, a, start, mid, end, inputs);
      TreeHashedNode(h, b, start, mid, end, inputs);
      TreeHashedLocal(h, a, b, start, mid, inputs);
      TreeHashedLocal(h, a, b, mid, end, inputs);
      MthLocal(h, a, b, start, mid);
      MthLocal(h, a, b, mid, end);
    }
  }

  lemma MthInjectiveStep<D>(h: Hasher<D>, inputs: set<Input<D>>, a: seq<bytes>, b: seq<bytes>, start: nat, mid: nat,
                            end: nat)
    requires start + 2 <= end <= |a| && end <= |b| && mid == start + Split(end - start)
    requires TreeHashed(h, a, start, end, inputs) && TreeHashed(h, b, start, end, inputs)
    requires !Collides(h, inputs)
    requires Mth(h, a, start, end) == Mth(h, b, start, end)
    ensures TreeHashed(h, a, start, mid, inputs) && TreeHashed(h, b, start, mid, inputs)
    ensures TreeHashed(h, a, mid, end, inputs) && TreeHashed(h, b, mid, end, inputs)
    ensures Mth(h, a, start, mid) == Mth(h, b, start, mid) && Mth(h, a, mid, end) == Mth(h, b, mid, end)
  {
    SameHash(h, inputs, NodeInput(Mth(h, a, start, mid), Mth(h, a, mid, end)),
             NodeInput(Mth(h, b, start, mid), Mth(h, b, mid, end)));
  }

  /**
   * Two lists with the same tree hash over a range agree on that range, unless
   * two of the byte strings hashed on the way collide.
   */
  lemma {:induction false} MthInjective<D>(h: Hasher<D>, inputs: set<Input<D>>,
                                        a: seq<bytes>, b: seq<bytes>, start: nat, end: nat)
    requires start <= end <= |a| && end <= |b|
    requires TreeHashed(h, a, start, end, inputs) && TreeHashed(h, b, start, end, inputs)
    requires !Collides(h, inputs)
    requires Mth(h, a, start, end) == Mth(h, b, start, end)
    ensures forall i :: start <= i < end ==> a[i] == b[i]
    decreases end - start
  {
    var n := end - start;
    if n == 1 {
      SameHash(h, inputs, LeafInput(a[start]), LeafInput(b[start]));
    } else if n > 1 {
      var mid := start + Split(n);
      MthInjectiveStep(h, inputs, a, b, start, mid, end);
      MthInjective(h, inputs, a, b, start, mid);
      MthInjective(h, inputs, a, b, mid, end);
    }
  }

  /** Equally long lists with one root are equal, or two of the inputs hashed for them collide. */
  lemma RootDeterminesList<D>(h: Hasher<D>, a: seq<bytes>, b: seq<bytes>, inputs: set<Input<D>>)
    requires |a| == |b| && MerkleRoot(h, a) == MerkleRoot(h, b)
    requires TreeHashed(h, a, 0, |a|, inputs) && TreeHashed(h, b, 0, |b|, inputs)
    ensures a == b || Collides(h, inputs)
  {
    if !Collides(h, inputs) {
      MthInjective(h, inputs, a, b, 0, |a|);
    }
  }

  // ---------------------------------------------------------------- proof generators

  /** Audit path of entry start+m within entries[start..end], leaf-adjacent node first. */
  function Path<D>(h: Hasher<D>, entries: seq<bytes>, start: nat, end: nat, m: nat): seq<D>
    requires start + m < end <= |entries|
    decreases end - start
  {
    var n := end - start;
    if n == 1 then []
    else
      var k := Split(n);
      if m < k then Path(h, entries, start, start + k, m) + [Mth(h, entries, start + k, end)]
      else Path(h, entries, start + k, end, m - k) + [Mth(h, entries, start, start + k)]
  }

  /** None for an index or size out of range. */
  function InclusionProof<D>(h: Hasher<D>, entries: seq<bytes>, index: int): Option<seq<D>> {
    if 0 <= index < |entries| then Some(Path(h, entries, 0, |entries|, index)) else None
  }

  function SubProof<D>(h: Hasher<D>, entries: seq<bytes>, m: nat, start: nat, end: nat, complete: bool): seq<D>
    requires 1 <= m && start + m <= end <= |entries|
    decreases end - start
  {
    var size := end - start;
    if m == size then (if complete then [] else [Mth(h, entries, start, end)])
    else
      var k := Split(size);
      if m <= k then SubProof(h, entries, m, start, start + k, complete) + [Mth(h, entries, start + k, end)]
      else SubProof(h, entries, m - k, start + k, end, false) + [Mth(h, entries, start, start + k)]
  }

  /** None for an index or size out of range. */
  function ConsistencyProof<D>(h: Hasher<D>, entries: seq<bytes>, oldSize: int): Option<seq<D>> {
    var n := |entries|;
    if oldSize < 0 || oldSize > n then None
    else if oldSize == 0 || oldSize == n then Some([])
    else Some(SubProof(h, entries, oldSize, 0, n, true))
  }

  /** Appending the same right sibling keeps the relation between the two forms of a sub-proof. */
  lemma OmitStep<D>(h: Hasher<D>, entries: seq<bytes>, m: nat, start: nat, mid: nat, end: nat, root: seq<D>)
    requires 1 <= m && start + 2 <= end <= |entries| && mid == start + Split(end - start) && start + m <= mid
    requires SubProof(h, entries, m, start, mid, false) == root + SubProof(h, entries, m, start, mid, true)
    ensures SubProof(h, entries, m, start, end, false) == root + SubProof(h, entries, m, start, end, true)
  {
    var kept := SubProof(h, entries, m, start, mid, true);
    var sibling := [Mth(h, entries, mid, end)];
    assert (root + kept) + sibling == root + (kept + sibling);
  }

  /**
   * The generator omits its first node exactly when the old size is a power of
   * two, and the omitted node is then the old root itself.
   */
  lemma {:induction false} CompleteOmitsOldRoot<D>(h: Hasher<D>, entries: seq<bytes>, m: nat, start: nat, end: nat)
    requires 1 <= m && start + m <= end <= |entries|
    requires start + m == end ==> IsPow2(m)
    ensures SubProof(h, entries, m, start, end, false)
         == (if IsPow2(m) then [Mth(h, entries, start, start + m)] else [])
            + SubProof(h, entries, m, start, end, true)
    decreases end - start
  {
    var size := end - start;
    if m < size {
      var mid := start + Split(size);
      SplitIsPow2(size);
      if start + m <= mid {
        CompleteOmitsOldRoot(h, entries, m, start, mid);
        OmitStep(h, entries, m, start, mid, end,
                 if IsPow2(m) then [Mth(h, entries, start, start + m)] else []);
      } else {
        Pow2Gap(Split(size), m);
      }
    }
  }
}
