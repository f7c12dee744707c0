/**
 * What the byte-level verifiers accept, measured against the generators: sound up
 * to an explicit collision, complete within the depth limit, and how far that
 * limit and the 32-bit power-of-two test reach.
 */
module Soundness {
  import opened Bytes
  import opened Merkle
  import opened RootDown
  import opened Pow2Test
  import opened Exactness
  import opened Verifiers

  // ---------------------------------------------------------------- inclusion

  /** `inputs` covers the tree of `entries` and one run of the inclusion verifier. */
  ghost predicate InclusionHashed(h: Hasher<Digest>, entries: seq<bytes>, entry: bytes, index: nat,
                                  path: seq<Digest>, inputs: set<Input<Digest>>)
    requires index < |entries|
  {
    && TreeHashed<Digest>(h, entries, 0, |entries|, inputs)
    && LeafInput(entry) in inputs
    && var leaf := LeafHash<Digest>(h, entry);
       RebuildHashed<Digest>(h, index, |entries|, Roots(leaf, leaf), path, inputs)
  }

  /**
   * An accepted inclusion proof against the root of a list is for the entry the
   * list holds at that index, and its path is the generated one.
   */
  lemma InclusionSound(h: Hasher<Digest>, entries: seq<bytes>, entry: bytes, index: nat, path: seq<bytes>,
                       inputs: set<Input<Digest>>)
    requires InclusionAccepts(h, entry, index, |entries|, path, MerkleRoot<Digest>(h, entries))
    requires InclusionHashed(h, entries, entry, index, path, inputs)
    ensures || (entry == entries[index] && path == Path<Digest>(h, entries, 0, |entries|, index))
            || Collides(h, inputs)
  {
    if !Collides(h, inputs) {
      var leaf := LeafHash<Digest>(h, entry);
      RebuildSound<Digest>(h, inputs, entries, 0, |entries|, index, Roots(leaf, leaf), path);
      TreeHashedLeaf<Digest>(h, entries, 0, |entries|, index, inputs);
      SameHash<Digest>(h, inputs, LeafInput(entry), LeafInput(entries[index]));
    }
  }

  /** The generated proof of an entry is accepted exactly when it is not too deep. */
  lemma InclusionComplete(h: Hasher<Digest>, entries: seq<bytes>, index: nat)
    requires index < |entries|
    ensures var path := InclusionProof<Digest>(h, entries, index).value;
            InclusionAccepts(h, entries[index], index, |entries|, path, MerkleRoot<Digest>(h, entries))
            <==> |path| <= MAX_PROOF_DEPTH
  {
    var leaf := LeafHash<Digest>(h, entries[index]);
    var _, _ := RebuildComplete<Digest>(h, entries, 0, |entries|, index, Roots(leaf, leaf));
  }

  // ---------------------------------------------------------------- consistency

  /** `inputs` covers the tree of `entries` and one run of the consistency verifier. */
  ghost predicate ConsistencyHashed(h: Hasher<Digest>, entries: seq<bytes>, m: nat, firstRoot: Digest,
                                    path: seq<Digest>, inputs: set<Input<Digest>>)
    requires 1 <= m <= |entries|
  {
    && TreeHashed<Digest>(h, entries, 0, |entries|, inputs)
    && ReconcileHashed<Digest>(h, m, |entries|, Seeded<Digest>(LooksLikePow2(m), firstRoot, path), inputs)
  }

  /**
   * An accepted consistency proof against the root of a list shows the root of
   * that list's prefix, the whole list included; where the power-of-two test is
   * right, the path is the generated one as well.
   */
  lemma ConsistencySound(h: Hasher<Digest>, entries: seq<bytes>, m: nat, firstRoot: bytes, path: seq<bytes>,
                         inputs: set<Input<Digest>>)
    requires 1 <= m <= |entries|
    requires ConsistencyAccepts(h, m, firstRoot, |entries|, MerkleRoot<Digest>(h, entries), path)
    requires ConsistencyHashed(h, entries, m, firstRoot, path, inputs)
    ensures firstRoot == MerkleRoot<Digest>(h, entries[..m]) || Collides(h, inputs)
    ensures (LooksLikePow2(m) ==> IsPow2(m)) ==>
              path == SubProof<Digest>(h, entries, m, 0, |entries|, true) || Collides(h, inputs)
  {
    if m == |entries| {
      assert entries[..m] == entries;
    } else if !Collides(h, inputs) {
      if IsPow2(m) { Pow2TestPasses(m); }
      SeededSound<Digest>(h, inputs, entries, m, LooksLikePow2(m), firstRoot, path);
      PrefixRoot<Digest>(h, entries, m);
    }
  }

  /** Between two different sizes, neither of them 0. */
  lemma GrowingComplete(h: Hasher<Digest>, entries: seq<bytes>, m: nat)
    requires 1 <= m < |entries|
    ensures var path := ConsistencyProof<Digest>(h, entries, m).value;
            ConsistencyAccepts(h, m, MerkleRoot<Digest>(h, entries[..m]), |entries|, MerkleRoot<Digest>(h, entries), path)
            <==> |path| <= MAX_PROOF_DEPTH && (LooksLikePow2(m) ==> IsPow2(m))
  {
    PrefixRoot<Digest>(h, entries, m);
    SeededComplete<Digest>(h, entries, m, |entries|,
      Seeded<Digest>(IsPow2(m), Mth<Digest>(h, entries, 0, m), SubProof<Digest>(h, entries, m, 0, |entries|, true)));
    if IsPow2(m) {
      Pow2TestPasses(m);
    } else {
      WronglySeeded<Digest>(h, entries, m, MerkleRoot<Digest>(h, entries[..m]));
    }
  }

  /**
   * The generated proof between any two sizes of one list is accepted exactly when
   * it is not too deep and, where the test for a power of two is made at all, the
   * test tells the truth about the old size.
   */
  lemma ConsistencyComplete(h: Hasher<Digest>, entries: seq<bytes>, m: nat)
    requires m <= |entries|
    ensures var path := ConsistencyProof<Digest>(h, entries, m).value;
            ConsistencyAccepts(h, m, MerkleRoot<Digest>(h, entries[..m]), |entries|, MerkleRoot<Digest>(h, entries), path)
            <==> |path| <= MAX_PROOF_DEPTH && (0 < m < |entries| && LooksLikePow2(m) ==> IsPow2(m))
  {
    if 0 < m < |entries| {
      GrowingComplete(h, entries, m);
    } else if m == |entries| {
      assert entries[..m] == entries;
    }
  }

  // ---------------------------------------------------------------- equal sizes

  /** At a list's own size only its own root is accepted, with the empty path and no other; the empty list included. */
  lemma EqualSizesExactly(h: Hasher<Digest>, entries: seq<bytes>, firstRoot: bytes, path: seq<bytes>)
    ensures ConsistencyAccepts(h, |entries|, firstRoot, |entries|, MerkleRoot<Digest>(h, entries), path)
       <==> firstRoot == MerkleRoot<Digest>(h, entries) && path == []
  {
  }

  /** The roots of two different lists of one length are never consistent, whatever the path, or a collision. */
  lemma EqualSizesTellListsApart(h: Hasher<Digest>, a: seq<bytes>, b: seq<bytes>, path: seq<bytes>,
                                 inputs: set<Input<Digest>>)
    requires |a| == |b| && a != b
    requires TreeHashed<Digest>(h, a, 0, |a|, inputs) && TreeHashed<Digest>(h, b, 0, |b|, inputs)
    ensures !ConsistencyAccepts(h, |a|, MerkleRoot<Digest>(h, a), |b|, MerkleRoot<Digest>(h, b), path)
         || Collides(h, inputs)
  {
    if MerkleRoot<Digest>(h, a) == MerkleRoot<Digest>(h, b) {
      RootDeterminesList<Digest>(h, a, b, inputs);
    }
  }

  // ---------------------------------------------------------------- from the empty tree

  /** From size 0 the first root is not looked at: the empty path is accepted with any two digests, and no other path. */
  lemma FromSizeZero(h: Hasher<Digest>, firstRoot: bytes, secondSize: int, secondRoot: bytes, path: seq<bytes>)
    requires secondSize >= 1
    ensures ConsistencyAccepts(h, 0, firstRoot, secondSize, secondRoot, path)
       <==> |firstRoot| == 32 && |secondRoot| == 32 && path == []
  {
  }

  /** So a step from size 0 shows the root of the list's empty prefix exactly when the first root is the empty root. */
  lemma FromSizeZeroShows(h: Hasher<Digest>, entries: seq<bytes>, firstRoot: bytes, secondRoot: bytes, path: seq<bytes>)
    requires entries != [] && ConsistencyAccepts(h, 0, firstRoot, |entries|, secondRoot, path)
    ensures firstRoot == MerkleRoot<Digest>(h, entries[..0]) <==> firstRoot == EmptyRoot<Digest>(h)
    ensures forall other: Digest :: ConsistencyAccepts(h, 0, other, |entries|, secondRoot, path)
  {
  }
}
