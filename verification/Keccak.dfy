/** The tree hash at the byte level: one hash over prefixed byte strings. */
module Keccak {
  import opened Bytes
  import opened Merkle

  /** The hash backend. Nothing is assumed about it beyond its output length. */
  type KeccakFn = bytes -> Digest

  /** The byte string hashed for a tree input; the first byte separates entries from nodes. */
  function Encode(x: Input<Digest>): bytes {
    match x
    case EmptyInput => []
    case LeafInput(entry) => [0] + entry
    case NodeInput(left, right) => [1] + left + right
  }

  /** No byte string is the encoding of two tree inputs, so a leaf is never read as a node. */
  lemma EncodeInjective(x: Input<Digest>, y: Input<Digest>)
    requires Encode(x) == Encode(y)
    ensures x == y
  {
    var s := Encode(x);
    match x
    case EmptyInput =>
    case LeafInput(entry) =>
      assert s[0] == 0 && s[1..] == entry && Encode(y)[1..] == y.entry;
    case NodeInput(left, right) =>
      assert s[0] == 1 && s[1..33] == left && s[33..] == right;
      assert Encode(y)[1..33] == y.left && Encode(y)[33..] == y.right;
  }

  /** The tree hash the hash backend gives. */
  function TreeHash(k: KeccakFn): Hasher<Digest> { (x: Input<Digest>) => k(Encode(x)) }

  /** What is hashed for an entry and for two digests. */
  lemma HashedBytes(k: KeccakFn, entry: bytes, left: Digest, right: Digest)
    ensures EmptyRoot<Digest>(TreeHash(k)) == k([])
    ensures LeafHash<Digest>(TreeHash(k), entry) == k([0x00] + entry)
    ensures NodeHash<Digest>(TreeHash(k), left, right) == k([0x01] + left + right)
  {
    assert TreeHash(k)(EmptyInput) == k(Encode(EmptyInput));
    assert TreeHash(k)(LeafInput(entry)) == k(Encode(LeafInput(entry)));
    assert TreeHash(k)(NodeInput(left, right)) == k(Encode(NodeInput(left, right)));
  }

  /**
   * The root of a list in bytes, as section 2.1 of RFC 6962 defines it: nothing, one
   * entry, or the roots of the two parts, the first as long as the largest power of
   * two below the whole.
   */
  lemma RootBytes(k: KeccakFn, left: seq<bytes>, right: seq<bytes>)
    requires IsPow2(|left|) && 1 <= |right| <= |left|
    ensures MerkleRoot<Digest>(TreeHash(k), []) == k([])
    ensures MerkleRoot<Digest>(TreeHash(k), [left[0]]) == k([0x00] + left[0])
    ensures MerkleRoot<Digest>(TreeHash(k), left + right)
         == k([0x01] + MerkleRoot<Digest>(TreeHash(k), left) + MerkleRoot<Digest>(TreeHash(k), right))
  {
    RootOfParts<Digest>(TreeHash(k), left, right);
    HashedBytes(k, left[0], MerkleRoot<Digest>(TreeHash(k), left), MerkleRoot<Digest>(TreeHash(k), right));
  }

  /** Two different byte strings of `strings` have one hash. */
  ghost predicate ByteCollision(k: KeccakFn, strings: set<bytes>) {
    exists s, t | s in strings && t in strings :: s != t && k(s) == k(t)
  }

  /** A collision between tree inputs is a collision of the hash backend on their encodings. */
  lemma CollisionIsByteCollision(k: KeccakFn, inputs: set<Input<Digest>>)
    requires Collides(TreeHash(k), inputs)
    ensures ByteCollision(k, set x | x in inputs :: Encode(x))
  {
    var x, y :| x in inputs && y in inputs && CollidingPair(TreeHash(k), x, y);
    if Encode(x) == Encode(y) {
      EncodeInjective(x, y);
    }
    assert Encode(x) in (set x | x in inputs :: Encode(x)) && Encode(y) in (set x | x in inputs :: Encode(x));
  }
}
