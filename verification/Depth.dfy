/** The proof depth limit of 32: sufficient up to a size, and tight beyond it. */
module Depth {
  import opened Bytes
  import opened Merkle
  import opened Pow2Test
  import opened Verifiers
  import opened Soundness

  lemma {:induction false} Pow2IsPow2(d: nat)
    ensures IsPow2(Pow2(d))
  {
    if d > 0 {
      Pow2IsPow2(d - 1);
    }
  }

  /** The split point of n lies on the same side of 2^d as n does of 2^d and 2^(d+1). */
  lemma SplitBound(n: nat, d: nat)
    requires n >= 2
    ensures n <= 2 * Pow2(d) ==> Split(n) <= Pow2(d)
    ensures n > Pow2(d) ==> Split(n) >= Pow2(d)
  {
    var k, p := Split(n), Pow2(d);
    SplitIsPow2(n);
    Pow2IsPow2(d);
    if n <= 2 * p && k > p {
      Pow2Gap(p, k);
    }
    if n > p && k < p {
      Pow2Gap(k, p);
    }
  }

  /** The two halves of a range that fits 2^d fit 2^(d-1). */
  lemma HalvesFit(n: nat, d: nat)
    requires 2 <= n <= Pow2(d)
    ensures d >= 1 && Split(n) <= Pow2(d - 1) && n - Split(n) <= Pow2(d - 1)
  {
    SplitBound(n, d - 1);
  }

  lemma {:induction false} PathAtMost<D>(h: Hasher<D>, entries: seq<bytes>, start: nat, end: nat, m: nat, d: nat)
    requires start + m < end <= |entries| && end - start <= Pow2(d)
    ensures |Path(h, entries, start, end, m)| <= d
    decreases d
  {
    if end - start > 1 {
      var mid := start + Split(end - start);
      HalvesFit(end - start, d);
      if start + m < mid {
        PathAtMost(h, entries, start, mid, m, d - 1);
      } else {
        PathAtMost(h, entries, mid, end, start + m - mid, d - 1);
      }
    }
  }

  lemma {:induction false} FirstPathAtLeast<D>(h: Hasher<D>, entries: seq<bytes>, start: nat, end: nat, d: nat)
    requires start < end <= |entries| && end - start > Pow2(d)
    ensures |Path(h, entries, start, end, 0)| >= d + 1
    decreases d
  {
    var k := Split(end - start);
    SplitBound(end - start, d);
    if d > 0 {
      FirstPathAtLeast(h, entries, start, start + k, d - 1);
    }
  }

  lemma {:induction false} SubProofAtMost<D>(h: Hasher<D>, entries: seq<bytes>, m: nat, start: nat, end: nat,
                                             complete: bool, d: nat)
    requires 1 <= m && start + m <= end <= |entries| && end - start <= Pow2(d)
    ensures |SubProof(h, entries, m, start, end, complete)| <= d + 1
    decreases d
  {
    if start + m < end {
      var mid := start + Split(end - start);
      HalvesFit(end - start, d);
      if start + m <= mid {
        SubProofAtMost(h, entries, m, start, mid, complete, d - 1);
      } else {
        SubProofAtMost(h, entries, start + m - mid, mid, end, false, d - 1);
      }
    }
  }

  lemma {:induction false} ThirdSubProofAtLeast<D>(h: Hasher<D>, entries: seq<bytes>, start: nat, end: nat, d: nat)
    requires start + 4 <= end <= |entries| && d >= 1 && end - start > Pow2(d)
    ensures |SubProof(h, entries, 3, start, end, true)| >= d + 2
    decreases end - start
  {
    var n := end - start;
    var k := Split(n);
    if n == 4 {
      SplitUnique(4, 2);
      assert SubProof(h, entries, 1, start + 2, end, false)
          == SubProof(h, entries, 1, start + 2, start + 3, false) + [Mth(h, entries, start + 3, end)];
    } else {
      SplitBound(n, 2);
      SplitBound(n, d);
      ThirdSubProofAtLeast(h, entries, start, start + k, if d > 1 then d - 1 else 1);
    }
  }

  /** Every generated inclusion proof is accepted up to 2^32 entries. */
  lemma InclusionWithinLimit(h: Hasher<Digest>, entries: seq<bytes>, index: nat)
    requires index < |entries| <= 0x1_0000_0000
    ensures InclusionAccepts(h, entries[index], index, |entries|,
                             Path<Digest>(h, entries, 0, |entries|, index), MerkleRoot<Digest>(h, entries))
  {
    Pow2Of32();
    PathAtMost<Digest>(h, entries, 0, |entries|, index, 32);
    InclusionComplete(h, entries, index);
  }

  /** Beyond 2^32 entries the generated proof of the first entry is refused. */
  lemma InclusionBeyondLimit(h: Hasher<Digest>, entries: seq<bytes>)
    requires |entries| > 0x1_0000_0000
    ensures !InclusionAccepts(h, entries[0], 0, |entries|,
                              Path<Digest>(h, entries, 0, |entries|, 0), MerkleRoot<Digest>(h, entries))
  {
    Pow2Of32();
    FirstPathAtLeast<Digest>(h, entries, 0, |entries|, 32);
    InclusionComplete(h, entries, 0);
  }

  /** Every generated consistency proof is accepted up to 2^31 entries. */
  lemma ConsistencyWithinLimit(h: Hasher<Digest>, entries: seq<bytes>, m: nat)
    requires 1 <= m < |entries| <= 0x8000_0000
    ensures ConsistencyAccepts(h, m, MerkleRoot<Digest>(h, entries[..m]), |entries|, MerkleRoot<Digest>(h, entries),
                               SubProof<Digest>(h, entries, m, 0, |entries|, true))
  {
    Pow2Of32();
    SubProofAtMost<Digest>(h, entries, m, 0, |entries|, true, 31);
    Pow2TestExact(m);
    ConsistencyComplete(h, entries, m);
  }

  /** Beyond 2^31 entries the generated proof from size 3 is refused. */
  lemma ConsistencyBeyondLimit(h: Hasher<Digest>, entries: seq<bytes>)
    requires |entries| > 0x8000_0000
    ensures !ConsistencyAccepts(h, 3, MerkleRoot<Digest>(h, entries[..3]), |entries|, MerkleRoot<Digest>(h, entries),
                                SubProof<Digest>(h, entries, 3, 0, |entries|, true))
  {
    Pow2Of32();
    ThirdSubProofAtLeast<Digest>(h, entries, 0, |entries|, 31);
    ConsistencyComplete(h, entries, 3);
  }

  /**
   * From 2^32 on the power-of-two test can err: above 3 * 2^32 and up to 2^34
   * entries the generated proof from 3 * 2^32 has three nodes, and it is refused.
   */
  lemma Pow2TestRefusesHonestLog(h: Hasher<Digest>, entries: seq<bytes>)
    requires 0x3_0000_0000 < |entries| <= 0x4_0000_0000
    ensures var m := 0x3_0000_0000;
            var path := SubProof<Digest>(h, entries, m, 0, |entries|, true);
            && |path| == 3
            && !ConsistencyAccepts(h, m, MerkleRoot<Digest>(h, entries[..m]), |entries|, MerkleRoot<Digest>(h, entries),
                                   path)
  {
    var m, half, quarter := 0x3_0000_0000, 0x2_0000_0000, 0x1_0000_0000;
    Pow2Of32();
    Pow2IsPow2(32);
    assert IsPow2(half);
    SplitUnique(|entries|, half);
    SplitUnique(|entries| - half, quarter);
    assert |SubProof<Digest>(h, entries, quarter, half, |entries|, false)| == 2;
    Pow2Gap(half, m);
    ConsistencyComplete(h, entries, m);
  }
}
