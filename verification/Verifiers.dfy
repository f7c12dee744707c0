/**
 * The iterative proof verifiers (sections 2.1.3.2 and 2.1.4.2 of RFC 9162) over
 * byte strings, each proved equal to the root-down reference verifier.
 */
module Verifiers {
  import opened Bytes
  import opened Merkle
  import opened RootDown
  import opened Pow2Test

  /** The inner loop: shift past the levels on which the last node has no sibling. */
  method ShiftRagged<D>(h: Hasher<D>, fn0: nat, sn0: nat, ghost seed: Roots<D>, ghost path: seq)
    returns (fn: nat, sn: nat)
    requires 0 < fn0 == sn0
    ensures fn == sn && fn % 2 == 1
    ensures Rebuild(h, fn, sn + 1, seed, path) == Rebuild(h, fn0, sn0 + 1, seed, path)
  {
    fn, sn := fn0, sn0;
    while fn % 2 == 0 && fn != 0
      invariant 0 < fn == sn
      invariant Rebuild(h, fn, sn + 1, seed, path) == Rebuild(h, fn0, sn0 + 1, seed, path)
    {
      Promote(h, fn / 2, seed, path);
      fn, sn := fn / 2, sn / 2;
    }
  }

  /** What the inclusion loop decides. */
  ghost predicate InclusionAccepts(h: Hasher<Digest>, entry: bytes, index: int, treeSize: int, path: seq<bytes>,
                                   root: bytes) {
    && 0 <= index < treeSize
    && |path| <= MAX_PROOF_DEPTH && |root| == 32 && AllDigests(path)
    && var leaf := LeafHash(h, entry);
       var r := Rebuild<Digest>(h, index, treeSize, Roots(leaf, leaf), path);
       r.Some? && r.value.newer == root
  }

  /** One turn of the inclusion loop. */
  method InclusionTurn<D>(h: Hasher<D>, fn0: nat, sn0: nat, r0: D, p: D, ghost older0: D, ghost path: seq)
    returns (fn: nat, sn: nat, r: D, ghost older: D)
    requires fn0 <= sn0 && sn0 >= 1 && path != [] && path[0] == p
    ensures fn <= sn
    ensures Rebuild(h, fn0, sn0 + 1, Roots(older0, r0), path)
         == Rebuild(h, fn, sn + 1, Roots(older, r), path[1..])
  {
    ghost var seed := Roots(older0, r0);
    fn, sn, r, older := fn0, sn0, r0, older0;
    if fn % 2 == 1 || fn == sn {
      r, older := NodeHash(h, p, r), NodeHash(h, p, older);
      if fn % 2 == 0 {
        fn, sn := ShiftRagged(h, fn, sn, seed, path);
      }
    } else {
      r := NodeHash(h, r, p);
    }
    ClimbTurn(h, fn, sn, seed, path);
    fn, sn := fn / 2, sn / 2;
  }

  method VerifyInclusion(h: Hasher<Digest>, entry: bytes, index: int, treeSize: int, path: seq<bytes>, root: bytes)
    returns (ok: bool)
    ensures ok <==> InclusionAccepts(h, entry, index, treeSize, path, root)
    ensures ok ==> && 0 <= index < treeSize && |root| == 32
                   && |path| <= 32 && forall i :: 0 <= i < |path| ==> |path[i]| == 32
  {
    if index < 0 || treeSize < 1 || index >= treeSize { return false; }
    if |path| > MAX_PROOF_DEPTH { return false; }
    if |root| != 32 { return false; }

    var fn: nat, sn: nat := index, treeSize - 1;
    var r := LeafHash(h, entry);
    ghost var older := r;  // the root the reference verifier carries beside r
    ghost var target := if AllDigests(path) then Rebuild<Digest>(h, index, treeSize, Roots(r, r), path) else None;
    var i := 0;
    while i < |path|
      invariant 0 <= i <= |path| && fn <= sn
      invariant forall j :: 0 <= j < i ==> |path[j]| == 32
      invariant AllDigests(path) ==> target == Rebuild<Digest>(h, fn, sn + 1, Roots(older, r), path[i..])
    {
      var p := path[i];
      if |p| != 32 { return false; }
      if sn == 0 { return false; }
      ghost var rest: seq := if AllDigests(path) then path[i..] else [p];
      assert AllDigests(path) ==> rest[0] == p && rest[1..] == path[i + 1..];
      fn, sn, r, older := InclusionTurn<Digest>(h, fn, sn, r, p, older, rest);
      i := i + 1;
    }
    assert AllDigests(path);
    var same := BytesEq(r, root);
    return sn == 0 && same;
  }

  /** What the consistency loop decides. */
  ghost predicate ConsistencyAccepts(h: Hasher<Digest>, firstSize: int, firstRoot: bytes,
                                     secondSize: int, secondRoot: bytes, path: seq<bytes>) {
    && 0 <= firstSize <= secondSize
    && |firstRoot| == 32 && |secondRoot| == 32 && |path| <= MAX_PROOF_DEPTH && AllDigests(path)
    && if firstSize == secondSize then path == [] && firstRoot == secondRoot
       else if firstSize == 0 then path == []
       else
         && path != []
         && var r := Reconcile<Digest>(h, firstSize, secondSize,
                                       Seeded<Digest>(LooksLikePow2(firstSize), firstRoot, path));
            r.Some? && r.value.older == firstRoot && r.value.newer == secondRoot
  }

  /** The shift past the trailing ones of firstSize - 1. */
  method LastSubtree<D>(h: Hasher<D>, firstSize: nat, secondSize: nat, ghost nodes: seq) returns (fn: nat, sn: nat)
    requires 1 <= firstSize < secondSize && nodes != []
    ensures fn < sn && fn % 2 == 0
    ensures Reconcile(h, firstSize, secondSize, nodes) == Reconcile(h, fn + 1, sn + 1, nodes)
  {
    fn, sn := firstSize - 1, secondSize - 1;
    while fn % 2 == 1
      invariant fn < sn
      invariant Reconcile(h, firstSize, secondSize, nodes) == Reconcile(h, fn + 1, sn + 1, nodes)
      decreases fn
    {
      ShiftTurn(h, fn, sn, nodes);
      fn, sn := fn / 2, sn / 2;
    }
  }

  /** One turn of the consistency loop. */
  method ConsistencyTurn<D>(h: Hasher<D>, fn0: nat, sn0: nat, fr0: D, sr0: D, c: D, ghost path: seq)
    returns (fn: nat, sn: nat, fr: D, sr: D)
    requires fn0 <= sn0 && sn0 >= 1 && path != [] && path[0] == c
    ensures fn <= sn
    ensures Rebuild(h, fn0, sn0 + 1, Roots(fr0, sr0), path) == Rebuild(h, fn, sn + 1, Roots(fr, sr), path[1..])
  {
    ghost var seed := Roots(fr0, sr0);
    fn, sn, fr, sr := fn0, sn0, fr0, sr0;
    if fn % 2 == 1 || fn == sn {
      fr := NodeHash(h, c, fr);
      sr := NodeHash(h, c, sr);
      if fn % 2 == 0 {
        fn, sn := ShiftRagged(h, fn, sn, seed, path);
      }
    } else {
      sr := NodeHash(h, sr, c);
    }
    ClimbTurn(h, fn, sn, seed, path);
    fn, sn := fn / 2, sn / 2;
  }

  /** The loop that folds both roots. */
  method FoldConsistency<D>(h: Hasher<D>, firstSize: nat, secondSize: nat, nodes: seq<D>) returns (r: Option<Roots<D>>)
    requires 1 <= firstSize < secondSize && nodes != []
    ensures r == Reconcile(h, firstSize, secondSize, nodes)
  {
    var fn, sn := LastSubtree(h, firstSize, secondSize, nodes);
    SeedRoots(h, fn, sn, nodes);
    var fr, sr := nodes[0], nodes[0];
    var i := 1;
    while i < |nodes|
      invariant 1 <= i <= |nodes| && fn <= sn
      invariant Reconcile(h, firstSize, secondSize, nodes) == Rebuild(h, fn, sn + 1, Roots(fr, sr), nodes[i..])
    {
      var c := nodes[i];
      if sn == 0 { return None; }
      assert nodes[i..][1..] == nodes[i + 1..];
      fn, sn, fr, sr := ConsistencyTurn(h, fn, sn, fr, sr, c, nodes[i..]);
      i := i + 1;
    }
    return if sn == 0 then Some(Roots(fr, sr)) else None;
  }

  method VerifyConsistency(h: Hasher<Digest>, firstSize: int, firstRoot: bytes, secondSize: int, secondRoot: bytes,
                           path: seq<bytes>)
    returns (ok: bool)
    ensures ok <==> ConsistencyAccepts(h, firstSize, firstRoot, secondSize, secondRoot, path)
    ensures ok ==> && 0 <= firstSize <= secondSize && |firstRoot| == 32 == |secondRoot|
                   && |path| <= 32 && forall i :: 0 <= i < |path| ==> |path[i]| == 32
    ensures ok && firstSize == secondSize ==> firstRoot == secondRoot
  {
    if firstSize < 0 || secondSize < firstSize { return false; }
    if |firstRoot| != 32 || |secondRoot| != 32 { return false; }
    if |path| > MAX_PROOF_DEPTH { return false; }
    for i := 0 to |path|
      invariant forall j :: 0 <= j < i ==> |path[j]| == 32
    {
      if |path[i]| != 32 { return false; }
    }
    if firstSize == secondSize {
      var same := BytesEq(firstRoot, secondRoot);
      return |path| == 0 && same;
    }
    if firstSize == 0 { return |path| == 0; }
    if |path| == 0 { return false; }

    var nodes: seq := path;
    if LooksLikePow2(firstSize) {
      nodes := [firstRoot] + nodes;
    }
    var r := FoldConsistency<Digest>(h, firstSize, secondSize, nodes);
    if r.None? { return false; }
    var sameFirst := BytesEq(r.value.older, firstRoot);
    var sameSecond := BytesEq(r.value.newer, secondRoot);
    return sameFirst && sameSecond;
  }
}
