/**
 * Reference verifiers that follow a tree from its root down, and the lemmas that
 * take such a verifier one level up at its leaves, which is how the loops of
 * sections 2.1.3.2 and 2.1.4.2 of RFC 9162 walk.
 */
module RootDown {
  import opened Bytes
  import opened Merkle

  /** A pair of candidate roots: of the older tree and of the newer one. */
  datatype Roots<D> = Roots(older: D, newer: D)

  // ---------------------------------------------------------------- reference, root down

  /** Both trees gain a left sibling. */
  function UnderLeft<D>(h: Hasher<D>, sibling: D, r: Option<Roots<D>>): Option<Roots<D>> {
    match r
    case None => None
    case Some(r) => Some(Roots(NodeHash(h, sibling, r.older), NodeHash(h, sibling, r.newer)))
  }

  /** A right sibling lies beyond the older tree, so only the newer root changes. */
  function UnderRight<D>(h: Hasher<D>, r: Option<Roots<D>>, sibling: D): Option<Roots<D>> {
    match r
    case None => None
    case Some(r) => Some(Roots(r.older, NodeHash(h, r.newer, sibling)))
  }

  /**
   * Rebuilds two roots from node i of an n-node tree and a path that lists the
   * siblings from the node upwards.
   */
  function Rebuild<D>(h: Hasher<D>, i: nat, n: nat, seed: Roots<D>, path: seq<D>): Option<Roots<D>>
    requires i < n
    decreases n
  {
    if n == 1 then (if path == [] then Some(seed) else None)
    else if path == [] then None
    else
      var k, rest, top := Split(n), path[..|path| - 1], path[|path| - 1];
      if i < k then UnderRight(h, Rebuild(h, i, k, seed, rest), top)
      else UnderLeft(h, top, Rebuild(h, i - k, n - k, seed, rest))
  }

  /**
   * Rebuilds the roots of the m-leaf and the n-leaf tree from the node list of a
   * consistency proof whose first node covers the last complete subtree of the
   * older tree.
   */
  function Reconcile<D>(h: Hasher<D>, m: nat, n: nat, nodes: seq<D>): Option<Roots<D>>
    requires 1 <= m <= n
    decreases n
  {
    if m == n then (if |nodes| == 1 then Some(Roots(nodes[0], nodes[0])) else None)
    else if nodes == [] then None
    else
      var k, rest, top := Split(n), nodes[..|nodes| - 1], nodes[|nodes| - 1];
      if m <= k then UnderRight(h, Reconcile(h, m, k, rest), top)
      else UnderLeft(h, top, Reconcile(h, m - k, n - k, rest))
  }

  // ---------------------------------------------------------------- one level up

  /** m is half of n, rounded up. */
  predicate HalfUp(n: nat, m: nat) { 2 * m - 1 <= n <= 2 * m }

  /** j is half of i, rounded down. */
  predicate HalfDown(i: nat, j: nat) { 2 * j <= i <= 2 * j + 1 }

  lemma {:induction false} SplitFromDoubled(k: nat, n: nat, m: nat)
    requires HalfUp(n, m) && 1 <= k < m
    ensures 2 * k < n
    ensures SplitFrom(2 * k, n) == 2 * SplitFrom(k, m)
    decreases n - k
  {
    if 2 * k < m {
      SplitFromDoubled(2 * k, n, m);
    }
  }

  /** Pairing up the leaves of a tree of three or more halves its split point. */
  lemma SplitHalves(n: nat, m: nat)
    requires n >= 3 && HalfUp(n, m)
    ensures Split(n) == 2 * Split(m)
  {
    SplitFromDoubled(1, n, m);
  }

  /** The lowest sibling absorbed into the seed, given on which side it lies. */
  function Absorb<D>(h: Hasher<D>, onLeft: bool, seed: Roots<D>, sibling: D): Roots<D> {
    if onLeft then Roots(NodeHash(h, sibling, seed.older), NodeHash(h, sibling, seed.newer))
    else Roots(seed.older, NodeHash(h, seed.newer, sibling))
  }

  /** A last node without a sibling moves up a level unchanged. */
  lemma {:induction false} Promote<D>(h: Hasher<D>, j: nat, seed: Roots<D>, path: seq<D>)
    requires j >= 1
    ensures Rebuild(h, 2 * j, 2 * j + 1, seed, path) == Rebuild(h, j, j + 1, seed, path)
    decreases j
  {
    var k := Split(j + 1);
    SplitHalves(2 * j + 1, j + 1);
    if path != [] && j > k {
      Promote(h, j - k, seed, path[..|path| - 1]);
    }
  }

  /** Any other node moves up a level by absorbing the first sibling of its path. */
  lemma {:induction false} Climb<D>(h: Hasher<D>, i: nat, n: nat, j: nat, m: nat, seed: Roots<D>, path: seq<D>)
    requires i < n && n >= 2 && path != []
    requires HalfDown(i, j) && HalfUp(n, m)
    requires i == 2 * j + 1 || i + 1 < n
    ensures Rebuild(h, i, n, seed, path)
         == Rebuild(h, j, m, Absorb(h, i == 2 * j + 1, seed, path[0]), path[1..])
    decreases n
  {
    if n > 2 {
      var k, rest := Split(m), path[..|path| - 1];
      SplitHalves(n, m);
      if rest != [] {
        assert path[1..][..|path| - 2] == rest[1..];
        if i < 2 * k {
          Climb(h, i, 2 * k, j, k, seed, rest);
        } else {
          Climb(h, i - 2 * k, n - 2 * k, j - k, m - k, seed, rest);
        }
      }
    }
  }

  /** While the older size is even, its last complete subtree ends on the level above. */
  lemma {:induction false} ReconcileHalves<D>(h: Hasher<D>, m: nat, n: nat, n': nat, nodes: seq<D>)
    requires 1 <= m && 2 * m <= n && HalfUp(n, n')
    ensures Reconcile(h, 2 * m, n, nodes) == Reconcile(h, m, n', nodes)
    decreases n
  {
    if 2 * m < n && nodes != [] {
      var k, rest := Split(n'), nodes[..|nodes| - 1];
      SplitHalves(n, n');
      if m <= k {
        ReconcileHalves(h, m, 2 * k, k, rest);
      } else {
        ReconcileHalves(h, m - k, n - 2 * k, n' - k, rest);
      }
    }
  }

  /** Once the older size is odd, its last leaf is the seed of both roots. */
  lemma {:induction false} ReconcileOdd<D>(h: Hasher<D>, j: nat, n: nat, nodes: seq<D>)
    requires 2 * j + 1 < n || (j == 0 && n == 1)
    requires nodes != []
    ensures Reconcile(h, 2 * j + 1, n, nodes) == Rebuild(h, 2 * j, n, Roots(nodes[0], nodes[0]), nodes[1..])
    decreases n
  {
    if n > 1 {
      var k, rest := Split(n), nodes[..|nodes| - 1];
      if rest != [] {
        assert nodes[1..][..|nodes| - 2] == rest[1..];
        if n > 2 {
          var n' := (n + 1) / 2;
          SplitHalves(n, n');
          if 2 * j + 1 <= k {
            ReconcileOdd(h, j, k, rest);
          } else {
            ReconcileOdd(h, j - Split(n'), n - k, rest);
          }
        }
      }
    }
  }

  // ---------------------------------------------------------------- turns of the loops

  /** Climb as one turn of the loops takes it. */
  lemma ClimbTurn<D>(h: Hasher<D>, fn: nat, sn: nat, seed: Roots<D>, path: seq<D>)
    requires fn <= sn && sn >= 1 && path != []
    requires fn % 2 == 1 || fn < sn
    ensures fn / 2 <= sn / 2
    ensures Rebuild(h, fn, sn + 1, seed, path)
         == Rebuild(h, fn / 2, sn / 2 + 1, Absorb(h, fn % 2 == 1, seed, path[0]), path[1..])
  {
    assert fn % 2 == 1 <==> fn == 2 * (fn / 2) + 1;
    Climb(h, fn, sn + 1, fn / 2, sn / 2 + 1, seed, path);
  }

  lemma ShiftTurn<D>(h: Hasher<D>, fn: nat, sn: nat, nodes: seq<D>)
    requires fn < sn && fn % 2 == 1
    ensures fn / 2 < sn / 2
    ensures Reconcile(h, fn + 1, sn + 1, nodes) == Reconcile(h, fn / 2 + 1, sn / 2 + 1, nodes)
  {
    var j := fn / 2;
    assert fn + 1 == 2 * (j + 1);
    ReconcileHalves(h, j + 1, sn + 1, sn / 2 + 1, nodes);
  }

  lemma SeedRoots<D>(h: Hasher<D>, fn: nat, sn: nat, nodes: seq<D>)
    requires fn < sn && fn % 2 == 0 && nodes != []
    ensures Reconcile(h, fn + 1, sn + 1, nodes)
         == Rebuild(h, fn, sn + 1, Roots(nodes[0], nodes[0]), nodes[1..])
  {
    var j := fn / 2;
    assert fn == 2 * j;
    ReconcileOdd(h, j, sn + 1, nodes);
  }
}
