/** The consistency verifier's 32-bit test for a power of two, and how far it is right. */
module Pow2Test {
  import opened Bytes
  import opened Merkle

  /** The test for a power of two: a bitwise AND of 32-bit integers. */
  predicate LooksLikePow2(n: nat)
    requires n >= 1
  {
    And(n % 0x1_0000_0000, (n - 1) % 0x1_0000_0000) == 0
  }

  /** The node list the loop runs over: the first root is put back when the test says it was omitted. */
  function Seeded<D>(omitted: bool, firstRoot: D, path: seq<D>): seq<D> {
    if omitted then [firstRoot] + path else path
  }

  lemma {:induction false} Pow2Sum(a: nat, b: nat)
    ensures Pow2(a + b) == Pow2(a) * Pow2(b)
  {
    if a > 0 {
      Pow2Sum(a - 1, b);
    }
  }

  lemma Pow2Of32()
    ensures Pow2(32) == 0x1_0000_0000
  {
    assert Pow2(8) == 256;
    Pow2Sum(8, 8);
    Pow2Sum(16, 16);
  }

  lemma {:induction false} AndSelf(n: nat)
    ensures And(n, n) == n
  {
    if n > 0 {
      AndSelf(n / 2);
    }
  }

  lemma {:induction false} AndPredecessor(n: nat)
    requires n >= 1
    ensures And(n, n - 1) == 0 <==> IsPow2(n)
  {
    var half := n / 2;
    if n == 2 * half {
      assert (n - 1) / 2 == half - 1;
      AndPredecessor(half);
    } else {
      assert (n - 1) / 2 == half;
      AndSelf(half);
    }
  }

  lemma SmallMod(n: nat)
    requires n < 0x1_0000_0000
    ensures n % 0x1_0000_0000 == n
  {
  }

  /** Below 2^32 the 32-bit test is exact. */
  lemma Pow2TestExact(n: nat)
    requires 1 <= n < 0x1_0000_0000
    ensures LooksLikePow2(n) <==> IsPow2(n)
  {
    SmallMod(n);
    SmallMod(n - 1);
    AndPredecessor(n);
  }

  /** A power of two no smaller than 2^e is a multiple of it. */
  lemma {:induction false} Pow2Multiple(n: nat, e: nat) returns (q: nat)
    requires IsPow2(n) && n >= Pow2(e)
    ensures n == q * Pow2(e)
  {
    if e == 0 {
      q := n;
    } else {
      q := Pow2Multiple(n / 2, e - 1);
      assert 2 * (q * Pow2(e - 1)) == q * (2 * Pow2(e - 1));
    }
  }

  lemma LowPredecessor(n: nat)
    requires n % 0x1_0000_0000 > 0
    ensures (n - 1) % 0x1_0000_0000 == n % 0x1_0000_0000 - 1
  {
  }

  /** The sizes that pass: those whose low 32 bits are zero or a power of two. */
  lemma PassesExactly(n: nat)
    requires n >= 1
    ensures LooksLikePow2(n) <==> n % 0x1_0000_0000 == 0 || IsPow2(n % 0x1_0000_0000)
  {
    var low := n % 0x1_0000_0000;
    if low > 0 {
      LowPredecessor(n);
      AndPredecessor(low);
    }
  }

  lemma ModOfMultiple(q: nat)
    ensures (q * 0x1_0000_0000) % 0x1_0000_0000 == 0
  {
  }

  /** The test never misses a power of two; from 2^32 on it can only err by passing other sizes. */
  lemma Pow2TestPasses(n: nat)
    requires IsPow2(n)
    ensures LooksLikePow2(n)
  {
    if n < 0x1_0000_0000 {
      Pow2TestExact(n);
    } else {
      Pow2Of32();
      var q := Pow2Multiple(n, 32);
      ModOfMultiple(q);
    }
  }
}
