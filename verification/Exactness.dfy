/**
 * The verifiers accept exactly what the generators produce: soundness up to an
 * explicit collision, completeness within the depth limit, and the limit itself.
 */
module Exactness {
  import opened Bytes
  import opened Merkle
  import opened RootDown
  import opened Pow2Test

  // ---------------------------------------------------------------- what a verifier hashes

  /** `inputs` holds the inputs of every node Rebuild hashes on the way to the newer root. */
  ghost predicate RebuildHashed<D>(h: Hasher<D>, i: nat, n: nat, seed: Roots<D>, path: seq<D>, inputs: set<Input<D>>)
    requires i < n
    decreases n
  {
    n == 1 || path == [] ||
    var k, rest, top := Split(n), path[..|path| - 1], path[|path| - 1];
    if i < k then
      var r := Rebuild(h, i, k, seed, rest);
      && (r.Some? ==> NodeInput(r.value.newer, top) in inputs)
      && RebuildHashed(h, i, k, seed, rest, inputs)
    else
      var r := Rebuild(h, i - k, n - k, seed, rest);
      && (r.Some? ==> NodeInput(top, r.value.newer) in inputs)
      && RebuildHashed(h, i - k, n - k, seed, rest, inputs)
  }

  /** The same for Reconcile. */
  ghost predicate ReconcileHashed<D>(h: Hasher<D>, m: nat, n: nat, nodes: seq<D>, inputs: set<Input<D>>)
    requires 1 <= m <= n
    decreases n
  {
    m == n || nodes == [] ||
    var k, rest, top := Split(n), nodes[..|nodes| - 1], nodes[|nodes| - 1];
    if m <= k then
      var r := Reconcile(h, m, k, rest);
      && (r.Some? ==> NodeInput(r.value.newer, top) in inputs)
      && ReconcileHashed(h, m, k, rest, inputs)
    else
      var r := Reconcile(h, m - k, n - k, rest);
      && (r.Some? ==> NodeInput(top, r.value.newer) in inputs)
      && ReconcileHashed(h, m - k, n - k, rest, inputs)
  }

  // ---------------------------------------------------------------- inclusion

  /** One node of the argument below: without a collision the top sibling and the child's root are the tree's. */
  lemma BelowLeft<D>(h: Hasher<D>, inputs: set<Input<D>>, entries: seq<bytes>, start: nat, mid: nat, end: nat,
                     i: nat, seed: Roots<D>, path: seq<D>, top: D, rest: seq<D>)
    requires start + 2 <= end <= |entries| && mid == start + Split(end - start) && start + i < mid
    requires path != [] && top == path[|path| - 1] && rest == path[..|path| - 1]
    requires TreeHashed(h, entries, start, end, inputs) && !Collides(h, inputs)
    requires RebuildHashed(h, i, end - start, seed, path, inputs)
    requires var r := Rebuild(h, i, end - start, seed, path); r.Some? && r.value.newer == Mth(h, entries, start, end)
    ensures var r := Rebuild(h, i, mid - start, seed, rest); r.Some? && r.value.newer == Mth(h, entries, start, mid)
    ensures top == Mth(h, entries, mid, end)
    ensures TreeHashed(h, entries, start, mid, inputs) && RebuildHashed(h, i, mid - start, seed, rest, inputs)
  {
    var r := Rebuild(h, i, mid - start, seed, rest).value;
    SameHash(h, inputs, NodeInput(r.newer, top), NodeInput(Mth(h, entries, start, mid), Mth(h, entries, mid, end)));
  }

  lemma BelowRight<D>(h: Hasher<D>, inputs: set<Input<D>>, entries: seq<bytes>, start: nat, mid: nat, end: nat,
                      i: nat, below: nat, seed: Roots<D>, path: seq<D>, top: D, rest: seq<D>)
    requires start + 2 <= end <= |entries| && mid == start + Split(end - start) && i < end - start
             && below == start + i - mid
    requires path != [] && top == path[|path| - 1] && rest == path[..|path| - 1]
    requires TreeHashed(h, entries, start, end, inputs) && !Collides(h, inputs)
    requires RebuildHashed(h, i, end - start, seed, path, inputs)
    requires var r := Rebuild(h, i, end - start, seed, path); r.Some? && r.value.newer == Mth(h, entries, start, end)
    ensures var r := Rebuild(h, below, end - mid, seed, rest); r.Some? && r.value.newer == Mth(h, entries, mid, end)
    ensures top == Mth(h, entries, start, mid)
    ensures TreeHashed(h, entries, mid, end, inputs) && RebuildHashed(h, below, end - mid, seed, rest, inputs)
  {
    var r := Rebuild(h, below, end - mid, seed, rest).value;
    SameHash(h, inputs, NodeInput(top, r.newer), NodeInput(Mth(h, entries, start, mid), Mth(h, entries, mid, end)));
  }

  /** The top sibling and the path below it make the whole path. */
  lemma PathWhole<D>(h: Hasher<D>, entries: seq<bytes>, start: nat, mid: nat, end: nat, i: nat, path: seq<D>, top: D,
                     rest: seq<D>)
    requires start + 2 <= end <= |entries| && i < end - start && mid == start + Split(end - start)
    requires path != [] && top == path[|path| - 1] && rest == path[..|path| - 1]
    requires start + i < mid ==> rest == Path(h, entries, start, mid, i) && top == Mth(h, entries, mid, end)
    requires start + i >= mid ==>
               rest == Path(h, entries, mid, end, start + i - mid) && top == Mth(h, entries, start, mid)
    ensures path == Path(h, entries, start, end, i)
  {
    assert path == rest + [top];
  }

  lemma PathOfLeaf<D>(h: Hasher<D>, entries: seq<bytes>, start: nat, seed: Roots<D>, path: seq<D>)
    requires start < |entries|
    requires var r := Rebuild(h, 0, 1, seed, path); r.Some? && r.value.newer == Mth(h, entries, start, start + 1)
    ensures seed.newer == LeafHash(h, entries[start]) && path == Path(h, entries, start, start + 1, 0)
  {
  }

  lemma {:induction false} RebuildSound<D>(h: Hasher<D>, inputs: set<Input<D>>, entries: seq<bytes>, start: nat, end: nat,
                                           i: nat, seed: Roots<D>, path: seq<D>)
    requires start + i < end <= |entries|
    requires TreeHashed(h, entries, start, end, inputs) && !Collides(h, inputs)
    requires RebuildHashed(h, i, end - start, seed, path, inputs)
    requires var r := Rebuild(h, i, end - start, seed, path); r.Some? && r.value.newer == Mth(h, entries, start, end)
    ensures seed.newer == LeafHash(h, entries[start + i])
    ensures path == Path(h, entries, start, end, i)
    decreases end - start
  {
    if end - start == 1 {
      PathOfLeaf(h, entries, start, seed, path);
      return;
    }
    var rest, top := path[..|path| - 1], path[|path| - 1];
    var mid := start + Split(end - start);
    if start + i < mid {
      BelowLeft(h, inputs, entries, start, mid, end, i, seed, path, top, rest);
      RebuildSound(h, inputs, entries, start, mid, i, seed, rest);
    } else {
      var below := start + i - mid;
      BelowRight(h, inputs, entries, start, mid, end, i, below, seed, path, top, rest);
      RebuildSound(h, inputs, entries, mid, end, below, seed, rest);
    }
    PathWhole(h, entries, start, mid, end, i, path, top, rest);
  }

  lemma MthNode<D>(h: Hasher<D>, entries: seq<bytes>, start: nat, mid: nat, end: nat)
    requires start + 2 <= end <= |entries| && mid == start + Split(end - start)
    ensures Mth(h, entries, start, end) == NodeHash(h, Mth(h, entries, start, mid), Mth(h, entries, mid, end))
  {
  }

  lemma RebuildLeft<D>(h: Hasher<D>, i: nat, n: nat, k: nat, seed: Roots<D>, rest: seq<D>, top: D, below: Roots<D>)
    requires n >= 2 && i < k == Split(n) && Rebuild(h, i, k, seed, rest) == Some(below)
    ensures Rebuild(h, i, n, seed, rest + [top]) == Some(Roots(below.older, NodeHash(h, below.newer, top)))
  {
    assert (rest + [top])[..|rest|] == rest;
  }

  lemma RebuildRight<D>(h: Hasher<D>, i: nat, n: nat, k: nat, seed: Roots<D>, rest: seq<D>, top: D, below: Roots<D>)
    requires n >= 2 && k == Split(n) <= i < n && Rebuild(h, i - k, n - k, seed, rest) == Some(below)
    ensures Rebuild(h, i, n, seed, rest + [top]) == Some(Roots(NodeHash(h, top, below.older),
                                                               NodeHash(h, top, below.newer)))
  {
    assert (rest + [top])[..|rest|] == rest;
  }

  lemma PathLeft<D>(h: Hasher<D>, entries: seq<bytes>, start: nat, mid: nat, end: nat, i: nat)
    requires start + 2 <= end <= |entries| && mid == start + Split(end - start) && start + i < mid
    ensures Path(h, entries, start, end, i) == Path(h, entries, start, mid, i) + [Mth(h, entries, mid, end)]
  {
  }

  lemma PathRight<D>(h: Hasher<D>, entries: seq<bytes>, start: nat, mid: nat, end: nat, i: nat, j: nat)
    requires start + 2 <= end <= |entries| && mid == start + Split(end - start) && i < end - start && j == start + i - mid
    ensures Path(h, entries, start, end, i) == Path(h, entries, mid, end, j) + [Mth(h, entries, start, mid)]
  {
  }

  lemma CompleteLeft<D>(h: Hasher<D>, entries: seq<bytes>, start: nat, mid: nat, end: nat, i: nat, seed: Roots<D>,
                        rest: seq<D>, below: Roots<D>) returns (path: seq<D>, r: Roots<D>)
    requires start + 2 <= end <= |entries| && mid == start + Split(end - start) && start + i < mid
    requires rest == Path(h, entries, start, mid, i)
    requires Rebuild(h, i, mid - start, seed, rest) == Some(below) && below.newer == Mth(h, entries, start, mid)
    ensures path == Path(h, entries, start, end, i)
    ensures Rebuild(h, i, end - start, seed, path) == Some(r) && r.newer == Mth(h, entries, start, end)
  {
    var top := Mth(h, entries, mid, end);
    path, r := rest + [top], Roots(below.older, NodeHash(h, below.newer, top));
    PathLeft(h, entries, start, mid, end, i);
    RebuildLeft(h, i, end - start, mid - start, seed, rest, top, below);
    MthNode(h, entries, start, mid, end);
  }

  lemma CompleteRight<D>(h: Hasher<D>, entries: seq<bytes>, start: nat, mid: nat, end: nat, i: nat, j: nat,
                         seed: Roots<D>, rest: seq<D>, below: Roots<D>) returns (path: seq<D>, r: Roots<D>)
    requires start + 2 <= end <= |entries| && mid == start + Split(end - start) && i < end - start && j == start + i - mid
    requires rest == Path(h, entries, mid, end, j)
    requires Rebuild(h, j, end - mid, seed, rest) == Some(below) && below.newer == Mth(h, entries, mid, end)
    ensures path == Path(h, entries, start, end, i)
    ensures Rebuild(h, i, end - start, seed, path) == Some(r) && r.newer == Mth(h, entries, start, end)
  {
    var top := Mth(h, entries, start, mid);
    path, r := rest + [top], Roots(NodeHash(h, top, below.older), NodeHash(h, top, below.newer));
    PathRight(h, entries, start, mid, end, i, j);
    RebuildRight(h, i, end - start, mid - start, seed, rest, top, below);
    MthNode(h, entries, start, mid, end);
  }

  lemma {:induction false} RebuildComplete<D>(h: Hasher<D>, entries: seq<bytes>, start: nat, end: nat, i: nat,
                                              seed: Roots<D>)
    returns (path: seq<D>, r: Roots<D>)
    requires start + i < end <= |entries|
    requires seed.newer == LeafHash(h, entries[start + i])
    ensures path == Path(h, entries, start, end, i)
    ensures Rebuild(h, i, end - start, seed, path) == Some(r) && r.newer == Mth(h, entries, start, end)
    decreases end - start
  {
    if end - start == 1 {
      return [], seed;
    }
    var mid := start + Split(end - start);
    if start + i < mid {
      var rest, below := RebuildComplete(h, entries, start, mid, i, seed);
      path, r := CompleteLeft(h, entries, start, mid, end, i, seed, rest, below);
    } else {
      var j := start + i - mid;
      var rest, below := RebuildComplete(h, entries, mid, end, j, seed);
      path, r := CompleteRight(h, entries, start, mid, end, i, j, seed, rest, below);
    }
  }

  /** Every entry of a hashed range was itself hashed. */
  lemma {:induction false} TreeHashedLeaf<D>(h: Hasher<D>, entries: seq<bytes>, start: nat, end: nat, i: nat,
                                             inputs: set<Input<D>>)
    requires start <= i < end <= |entries|
    requires TreeHashed(h, entries, start, end, inputs)
    ensures LeafInput(entries[i]) in inputs
    decreases end - start
  {
    if end - start > 1 {
      var mid := start + Split(end - start);
      if i < mid {
        TreeHashedLeaf(h, entries, start, mid, i, inputs);
      } else {
        TreeHashedLeaf(h, entries, mid, end, i, inputs);
      }
    }
  }

  // ---------------------------------------------------------------- consistency

  /** Past the split point of n, every m up to n has the same split point. */
  lemma SplitShared(m: nat, n: nat)
    requires n >= 2 && Split(n) < m <= n
    ensures Split(m) == Split(n)
  {
    SplitIsPow2(n);
    SplitUnique(m, Split(n));
  }

  /** A proof for the whole of a range is its root. */
  lemma WholeProof<D>(h: Hasher<D>, entries: seq<bytes>, m: nat, start: nat, end: nat, nodes: seq<D>, r: Roots<D>)
    requires 1 <= m == end - start && end <= |entries|
    requires Reconcile(h, m, m, nodes) == Some(r) && r.newer == Mth(h, entries, start, end)
    ensures r.older == Mth(h, entries, start, end) && nodes == SubProof(h, entries, m, start, end, false)
  {
    assert nodes == [nodes[0]];
  }

  /** The tree of a prefix that passes the split point has the same left child. */
  lemma PrefixNode<D>(h: Hasher<D>, entries: seq<bytes>, start: nat, mid: nat, end: nat, m: nat)
    requires start + 2 <= end <= |entries| && mid == start + Split(end - start) && mid < start + m <= end
    ensures Mth(h, entries, start, start + m)
         == NodeHash(h, Mth(h, entries, start, mid), Mth(h, entries, mid, start + m))
  {
    SplitShared(m, end - start);
  }

  /** One node of the argument below: without a collision the top sibling and the child's root are the tree's. */
  lemma SoundLeft<D>(h: Hasher<D>, inputs: set<Input<D>>, entries: seq<bytes>, start: nat, mid: nat, end: nat,
                     m: nat, nodes: seq<D>, rest: seq<D>, top: D, r: Roots<D>) returns (below: Roots<D>)
    requires 1 <= m < end - start && end <= |entries| && mid == start + Split(end - start) && start + m <= mid
    requires TreeHashed(h, entries, start, end, inputs) && !Collides(h, inputs)
    requires nodes == rest + [top] && ReconcileHashed(h, m, end - start, nodes, inputs)
    requires Reconcile(h, m, end - start, nodes) == Some(r) && r.newer == Mth(h, entries, start, end)
    ensures Reconcile(h, m, mid - start, rest) == Some(below) && below.newer == Mth(h, entries, start, mid)
    ensures top == Mth(h, entries, mid, end) && r.older == below.older
    ensures TreeHashed(h, entries, start, mid, inputs) && ReconcileHashed(h, m, mid - start, rest, inputs)
  {
    assert nodes[..|nodes| - 1] == rest;
    below := Reconcile(h, m, mid - start, rest).value;
    SameHash(h, inputs, NodeInput(below.newer, top), NodeInput(Mth(h, entries, start, mid), Mth(h, entries, mid, end)));
  }

  lemma SoundRight<D>(h: Hasher<D>, inputs: set<Input<D>>, entries: seq<bytes>, start: nat, mid: nat, end: nat,
                      m: nat, below: nat, nodes: seq<D>, rest: seq<D>, top: D, r: Roots<D>) returns (b: Roots<D>)
    requires 1 <= m < end - start && end <= |entries| && mid == start + Split(end - start) && below == start + m - mid > 0
    requires TreeHashed(h, entries, start, end, inputs) && !Collides(h, inputs)
    requires nodes == rest + [top] && ReconcileHashed(h, m, end - start, nodes, inputs)
    requires Reconcile(h, m, end - start, nodes) == Some(r) && r.newer == Mth(h, entries, start, end)
    ensures Reconcile(h, below, end - mid, rest) == Some(b) && b.newer == Mth(h, entries, mid, end)
    ensures top == Mth(h, entries, start, mid) && r.older == NodeHash(h, top, b.older)
    ensures TreeHashed(h, entries, mid, end, inputs) && ReconcileHashed(h, below, end - mid, rest, inputs)
  {
    assert nodes[..|nodes| - 1] == rest;
    b := Reconcile(h, below, end - mid, rest).value;
    SameHash(h, inputs, NodeInput(top, b.newer), NodeInput(Mth(h, entries, start, mid), Mth(h, entries, mid, end)));
  }

  /** The roots and the node list are the tree's when those below the split are. */
  lemma LeftWhole<D>(h: Hasher<D>, entries: seq<bytes>, start: nat, mid: nat, end: nat, m: nat,
                     nodes: seq<D>, rest: seq<D>, top: D)
    requires 1 <= m < end - start && end <= |entries| && mid == start + Split(end - start) && start + m <= mid
    requires nodes == rest + [top] && rest == SubProof(h, entries, m, start, mid, false)
             && top == Mth(h, entries, mid, end)
    ensures nodes == SubProof(h, entries, m, start, end, false)
  {
  }

  lemma RightNodes<D>(h: Hasher<D>, entries: seq<bytes>, start: nat, mid: nat, end: nat, m: nat, below: nat,
                      nodes: seq<D>, rest: seq<D>, top: D)
    requires 1 <= m < end - start && end <= |entries| && mid == start + Split(end - start) && below == start + m - mid > 0
    requires nodes == rest + [top] && rest == SubProof(h, entries, below, mid, end, false)
             && top == Mth(h, entries, start, mid)
    ensures nodes == SubProof(h, entries, m, start, end, false)
  {
  }

  lemma RightOlder<D>(h: Hasher<D>, entries: seq<bytes>, start: nat, mid: nat, end: nat, m: nat, below: nat,
                      top: D, older: D, olderBelow: D)
    requires 1 <= m < end - start && end <= |entries| && mid == start + Split(end - start) && below == start + m - mid > 0
    requires top == Mth(h, entries, start, mid) && olderBelow == Mth(h, entries, mid, mid + below)
    requires older == NodeHash(h, top, olderBelow)
    ensures older == Mth(h, entries, start, start + m)
  {
    PrefixNode(h, entries, start, mid, end, m);
  }

  lemma {:induction false} ReconcileSound<D>(h: Hasher<D>, inputs: set<Input<D>>, entries: seq<bytes>, start: nat,
                                             end: nat, m: nat, nodes: seq<D>, r: Roots<D>)
    requires 1 <= m && start + m <= end <= |entries|
    requires TreeHashed(h, entries, start, end, inputs) && !Collides(h, inputs)
    requires ReconcileHashed(h, m, end - start, nodes, inputs)
    requires Reconcile(h, m, end - start, nodes) == Some(r) && r.newer == Mth(h, entries, start, end)
    ensures r.older == Mth(h, entries, start, start + m)
    ensures nodes == SubProof(h, entries, m, start, end, false)
    decreases end - start
  {
    if start + m == end {
      WholeProof(h, entries, m, start, end, nodes, r);
      return;
    }
    var rest, top := nodes[..|nodes| - 1], nodes[|nodes| - 1];
    var mid := start + Split(end - start);
    assert nodes == rest + [top];
    if start + m <= mid {
      var b := SoundLeft(h, inputs, entries, start, mid, end, m, nodes, rest, top, r);
      ReconcileSound(h, inputs, entries, start, mid, m, rest, b);
      LeftWhole(h, entries, start, mid, end, m, nodes, rest, top);
    } else {
      var below := start + m - mid;
      var b := SoundRight(h, inputs, entries, start, mid, end, m, below, nodes, rest, top, r);
      ReconcileSound(h, inputs, entries, mid, end, below, rest, b);
      RightNodes(h, entries, start, mid, end, m, below, nodes, rest, top);
      RightOlder(h, entries, start, mid, end, m, below, top, r.older, b.older);
    }
  }

  lemma ReconcileLeft<D>(h: Hasher<D>, m: nat, n: nat, k: nat, rest: seq<D>, top: D, below: Roots<D>)
    requires 1 <= m < n && m <= k == Split(n) && Reconcile(h, m, k, rest) == Some(below)
    ensures Reconcile(h, m, n, rest + [top]) == Some(Roots(below.older, NodeHash(h, below.newer, top)))
  {
    assert (rest + [top])[..|rest|] == rest;
  }

  lemma ReconcileRight<D>(h: Hasher<D>, m: nat, n: nat, k: nat, rest: seq<D>, top: D, below: Roots<D>)
    requires 1 <= m < n && m > k == Split(n) && Reconcile(h, m - k, n - k, rest) == Some(below)
    ensures Reconcile(h, m, n, rest + [top]) == Some(Roots(NodeHash(h, top, below.older), NodeHash(h, top, below.newer)))
  {
    assert (rest + [top])[..|rest|] == rest;
  }

  lemma WholeComplete<D>(h: Hasher<D>, entries: seq<bytes>, start: nat, end: nat, m: nat) returns (nodes: seq<D>,
                         r: Roots<D>)
    requires 1 <= m == end - start && end <= |entries|
    ensures nodes == SubProof(h, entries, m, start, end, false) && Reconcile(h, m, m, nodes) == Some(r)
    ensures r.older == Mth(h, entries, start, end) == r.newer
  {
    var root := Mth(h, entries, start, end);
    return [root], Roots(root, root);
  }

  /** The full list of a range and both its roots, from those below the split. */
  lemma FullLeft<D>(h: Hasher<D>, entries: seq<bytes>, start: nat, mid: nat, end: nat, m: nat, rest: seq<D>, b: Roots<D>)
    returns (nodes: seq<D>, r: Roots<D>)
    requires 1 <= m < end - start && end <= |entries| && mid == start + Split(end - start) && start + m <= mid
    requires rest == SubProof(h, entries, m, start, mid, false) && Reconcile(h, m, mid - start, rest) == Some(b)
    requires b.older == Mth(h, entries, start, start + m) && b.newer == Mth(h, entries, start, mid)
    ensures nodes == SubProof(h, entries, m, start, end, false) && Reconcile(h, m, end - start, nodes) == Some(r)
    ensures r.older == Mth(h, entries, start, start + m) && r.newer == Mth(h, entries, start, end)
  {
    var top := Mth(h, entries, mid, end);
    nodes, r := rest + [top], Roots(b.older, NodeHash(h, b.newer, top));
    MthNode(h, entries, start, mid, end);
    ReconcileLeft(h, m, end - start, mid - start, rest, top, b);
    LeftWhole(h, entries, start, mid, end, m, nodes, rest, top);
  }

  lemma FullRight<D>(h: Hasher<D>, entries: seq<bytes>, start: nat, mid: nat, end: nat, m: nat, below: nat,
                     rest: seq<D>, b: Roots<D>) returns (nodes: seq<D>, r: Roots<D>)
    requires 1 <= m < end - start && end <= |entries| && mid == start + Split(end - start) && below == start + m - mid > 0
    requires rest == SubProof(h, entries, below, mid, end, false) && Reconcile(h, below, end - mid, rest) == Some(b)
    requires b.older == Mth(h, entries, mid, mid + below) && b.newer == Mth(h, entries, mid, end)
    ensures nodes == SubProof(h, entries, m, start, end, false) && Reconcile(h, m, end - start, nodes) == Some(r)
    ensures r.older == Mth(h, entries, start, start + m) && r.newer == Mth(h, entries, start, end)
  {
    var top := Mth(h, entries, start, mid);
    nodes, r := rest + [top], Roots(NodeHash(h, top, b.older), NodeHash(h, top, b.newer));
    MthNode(h, entries, start, mid, end);
    ReconcileRight(h, m, end - start, mid - start, rest, top, b);
    RightNodes(h, entries, start, mid, end, m, below, nodes, rest, top);
    RightOlder(h, entries, start, mid, end, m, below, top, r.older, b.older);
  }

  lemma {:induction false} ReconcileComplete<D>(h: Hasher<D>, entries: seq<bytes>, start: nat, end: nat, m: nat)
    returns (nodes: seq<D>, r: Roots<D>)
    requires 1 <= m && start + m <= end <= |entries|
    ensures nodes == SubProof(h, entries, m, start, end, false)
    ensures Reconcile(h, m, end - start, nodes) == Some(r)
    ensures r.older == Mth(h, entries, start, start + m) && r.newer == Mth(h, entries, start, end)
    decreases end - start
  {
    if start + m == end {
      nodes, r := WholeComplete(h, entries, start, end, m);
      return;
    }
    var mid := start + Split(end - start);
    if start + m <= mid {
      var rest, b := ReconcileComplete(h, entries, start, mid, m);
      nodes, r := FullLeft(h, entries, start, mid, end, m, rest, b);
    } else {
      var below := start + m - mid;
      var rest, b := ReconcileComplete(h, entries, mid, end, below);
      nodes, r := FullRight(h, entries, start, mid, end, m, below, rest, b);
    }
  }

  /** A node list of the wrong length rebuilds nothing. */
  lemma {:induction false} ReconcileLength<D>(h: Hasher<D>, m: nat, n: nat, a: seq<D>, b: seq<D>)
    requires 1 <= m <= n
    requires Reconcile(h, m, n, a).Some? && Reconcile(h, m, n, b).Some?
    ensures |a| == |b|
    decreases n
  {
    if m < n {
      var k := Split(n);
      if m <= k {
        ReconcileLength(h, m, k, a[..|a| - 1], b[..|b| - 1]);
      } else {
        ReconcileLength(h, m - k, n - k, a[..|a| - 1], b[..|b| - 1]);
      }
    }
  }

  lemma Unseeded<D>(omitted: bool, a: D, path: seq<D>, b: D, generated: seq<D>)
    requires Seeded(omitted, a, path) == (if omitted then [b] else []) + generated
    ensures path == generated
  {
    if omitted {
      assert Seeded(omitted, a, path)[1..] == path && ([b] + generated)[1..] == generated;
    } else {
      assert [] + generated == generated;
    }
  }

  lemma SeededPath<D>(h: Hasher<D>, entries: seq<bytes>, m: nat, omitted: bool, firstRoot: D, path: seq<D>)
    requires 1 <= m < |entries| && omitted == IsPow2(m)
    requires Seeded(omitted, firstRoot, path) == SubProof(h, entries, m, 0, |entries|, false)
    ensures path == SubProof(h, entries, m, 0, |entries|, true)
  {
    CompleteOmitsOldRoot(h, entries, m, 0, |entries|);
    Unseeded(omitted, firstRoot, path, Mth(h, entries, 0, m), SubProof(h, entries, m, 0, |entries|, true));
  }

  lemma FullSound<D>(h: Hasher<D>, inputs: set<Input<D>>, entries: seq<bytes>, m: nat, firstRoot: D, nodes: seq<D>)
    requires 1 <= m < |entries| && !Collides(h, inputs)
    requires TreeHashed(h, entries, 0, |entries|, inputs) && ReconcileHashed(h, m, |entries|, nodes, inputs)
    requires Reconcile(h, m, |entries|, nodes) == Some(Roots(firstRoot, MerkleRoot(h, entries)))
    ensures firstRoot == Mth(h, entries, 0, m) && nodes == SubProof(h, entries, m, 0, |entries|, false)
  {
    ReconcileSound(h, inputs, entries, 0, |entries|, m, nodes, Roots(firstRoot, MerkleRoot(h, entries)));
  }

  /** An accepted node list against the root of a list shows its prefix's root and is the generated one. */
  lemma SeededSound<D>(h: Hasher<D>, inputs: set<Input<D>>, entries: seq<bytes>, m: nat, omitted: bool, firstRoot: D,
                       path: seq<D>)
    requires 1 <= m < |entries| && (IsPow2(m) ==> omitted)
    requires TreeHashed(h, entries, 0, |entries|, inputs)
    requires ReconcileHashed(h, m, |entries|, Seeded(omitted, firstRoot, path), inputs)
    requires !Collides(h, inputs)
    requires Reconcile(h, m, |entries|, Seeded(omitted, firstRoot, path))
             == Some(Roots(firstRoot, MerkleRoot(h, entries)))
    ensures firstRoot == Mth(h, entries, 0, m)
    ensures (omitted ==> IsPow2(m)) ==> path == SubProof(h, entries, m, 0, |entries|, true)
  {
    FullSound(h, inputs, entries, m, firstRoot, Seeded(omitted, firstRoot, path));
    if omitted == IsPow2(m) {
      SeededPath(h, entries, m, omitted, firstRoot, path);
    }
  }

  lemma SeededIsFull<D>(h: Hasher<D>, entries: seq<bytes>, m: nat, n: nat)
    requires 1 <= m < n == |entries|
    ensures Seeded(IsPow2(m), Mth(h, entries, 0, m), SubProof(h, entries, m, 0, n, true))
         == SubProof(h, entries, m, 0, n, false)
  {
    CompleteOmitsOldRoot(h, entries, m, 0, n);
  }

  lemma RootsAre<D>(r: Roots<D>, older: D, newer: D)
    requires r.older == older && r.newer == newer
    ensures r == Roots(older, newer)
  {
  }

  lemma FullComplete<D>(h: Hasher<D>, entries: seq<bytes>, m: nat) returns (full: seq<D>)
    requires 1 <= m < |entries|
    ensures full == SubProof(h, entries, m, 0, |entries|, false)
    ensures Reconcile(h, m, |entries|, full) == Some(Roots(Mth(h, entries, 0, m), Mth(h, entries, 0, |entries|)))
  {
    var r;
    full, r := ReconcileComplete(h, entries, 0, |entries|, m);
    RootsAre(r, Mth(h, entries, 0, m), Mth(h, entries, 0, |entries|));
  }

  /** The generated path, reseeded when the generator omitted the old root, rebuilds both roots. */
  lemma SeededComplete<D>(h: Hasher<D>, entries: seq<bytes>, m: nat, n: nat, nodes: seq<D>)
    requires 1 <= m < n == |entries|
    requires nodes == Seeded(IsPow2(m), Mth(h, entries, 0, m), SubProof(h, entries, m, 0, n, true))
    ensures Reconcile(h, m, n, nodes) == Some(Roots(Mth(h, entries, 0, m), Mth(h, entries, 0, n)))
  {
    SeededIsFull(h, entries, m, n);
    var full := FullComplete(h, entries, m);
    assert nodes == full;
  }

  lemma OtherLengthFails<D>(h: Hasher<D>, m: nat, n: nat, a: seq<D>, b: seq<D>)
    requires 1 <= m <= n && Reconcile(h, m, n, b).Some? && |a| != |b|
    ensures Reconcile(h, m, n, a) == None
  {
    if Reconcile(h, m, n, a).Some? {
      ReconcileLength(h, m, n, a, b);
    }
  }

  lemma NothingOmitted<D>(h: Hasher<D>, entries: seq<bytes>, m: nat)
    requires 1 <= m < |entries| && !IsPow2(m)
    ensures |SubProof(h, entries, m, 0, |entries|, true)| == |SubProof(h, entries, m, 0, |entries|, false)|
  {
    CompleteOmitsOldRoot(h, entries, m, 0, |entries|);
  }

  /** Reseeding a path whose generator omitted nothing leaves one node too many. */
  lemma WronglySeeded<D>(h: Hasher<D>, entries: seq<bytes>, m: nat, root: D)
    requires 1 <= m < |entries| && !IsPow2(m)
    ensures Reconcile(h, m, |entries|, [root] + SubProof(h, entries, m, 0, |entries|, true)) == None
  {
    NothingOmitted(h, entries, m);
    var full, _ := ReconcileComplete(h, entries, 0, |entries|, m);
    var path := SubProof(h, entries, m, 0, |entries|, true);
    OtherLengthFails(h, m, |entries|, [root] + path, full);
  }
}
