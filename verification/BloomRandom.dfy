/**
The random generator behind Bloom signatures (contrib/bloom/blutils.c): Park and
Miller's "minimal standard" generator, computed in 32-bit signed arithmetic.
 */
module BloomRandom {
  import opened CIntegers

  /** The modulus, 2^31 - 1. */
  const MODULUS: int := 0x7fff_ffff

  /** The multiplicative inverse of 16807 modulo 2^31 - 1. */
  const INVERSE: int := 1407677000

  /** What the generator is meant to compute: one step of x := 7^5 * x mod (2^31 - 1). */
  function Step(n: int): int {
    (16807 * n) % MODULUS
  }

  /** The generator state `k` steps after state `n`. */
  function Steps(n: int, k: nat): int {
    if k == 0 then n else Step(Steps(n, k - 1))
  }

  /** The state that seeding with the 32-bit number `seed` leaves behind. */
  function Seeded(seed: int): int
    requires 0 <= seed < TWO_TO_THE_32
  {
    TruncMod(ToInt32(seed), 0x7fff_fffe) + 1
  }

  predicate InRange(n: int) {
    1 <= n <= MODULUS - 1
  }

  /** Every state after n is in range. */
  ghost predicate StaysInRange(n: int) {
    forall k: nat | k > 0 :: InRange(Steps(n, k))
  }

  ghost predicate StaysZero(n: int) {
    forall k: nat :: Steps(n, k) == 0
  }

  /** The static variable `next` of blutils.c with the two routines that update it. */
  class Generator {
    var next: Int32

    constructor ()
      ensures next == 0
    {
      next := 0;
    }

    /** `myRand`: no intermediate result overflows, whatever `next` is. */
    method Rand() returns (r: Int32)
      modifies this
      ensures next as int == Step(old(next) as int)
      ensures r as int == Step(old(next) as int) - 1
    {
      var n := next as int;
      var hi := TruncDiv(n, 127773) as Int32;
      var lo := TruncMod(n, 127773) as Int32;
      var x := 16807 * lo - 2836 * hi;
      SchrageResidue(n, hi as int, lo as int);
      if x < 0 {
        x := x + 0x7fff_ffff;
      }
      next := x;
      return x - 1;
    }

    /**
    `mySrand`: the seed is stored in a signed variable before it is reduced. All seeds but two
    give a state from which every later one is in [1, 2^31 - 2].
     */
    method Srand(seed: int)
      requires 0 <= seed < TWO_TO_THE_32
      modifies this
      ensures next as int == Seeded(seed) && -(MODULUS - 1) < next as int <= MODULUS - 1
      ensures next == 0 <==> seed == 0xFFFF_FFFF || seed == 0x8000_0001
      ensures next != 0 ==> StaysInRange(next as int)
      ensures next == 0 ==> StaysZero(next as int)
    {
      var n := ToInt32(seed);
      next := (TruncMod(n, 0x7fff_fffe) + 1) as Int32;
      SeededZeroIff(seed);
      StateForever(Seeded(seed));
    }
  }

  /** Schrage's decomposition: the 32-bit expression is congruent to 7^5 * n. */
  lemma SchrageResidue(n: int, hi: int, lo: int)
    requires -TWO_TO_THE_31 <= n < TWO_TO_THE_31
    requires hi == TruncDiv(n, 127773) && lo == TruncMod(n, 127773)
    ensures var x := 16807 * lo - 2836 * hi;
            -MODULUS < x < MODULUS &&
            Step(n) == (if x < 0 then x + MODULUS else x)
  {
    var x := 16807 * lo - 2836 * hi;
    assert 16807 * n == MODULUS * hi + x;
    ResidueUnique(16807 * n, hi, x);
  }

  /** The residue of m * q + x for x one modulus either side of zero. */
  lemma ResidueUnique(a: int, q: int, x: int)
    requires a == MODULUS * q + x
    requires -MODULUS < x < MODULUS
    ensures a % MODULUS == (if x < 0 then x + MODULUS else x)
  {
  }

  /** One step can be undone, so the generator is a permutation of the residues. */
  lemma StepInvertible(n: int)
    ensures (INVERSE * Step(n)) % MODULUS == n % MODULUS
  {
    var q := (16807 * n) / MODULUS;
    assert Step(n) == 16807 * n - MODULUS * q;
    assert INVERSE * 16807 == 1 + MODULUS * 11017;
    var t := n / MODULUS;
    assert INVERSE * Step(n) == MODULUS * (11017 * n - INVERSE * q + t) + n % MODULUS;
    ResidueUnique(INVERSE * Step(n), 11017 * n - INVERSE * q + t, n % MODULUS);
  }

  /** A state that is not a multiple of the modulus stays in [1, 2^31 - 2] for ever. */
  lemma {:induction false} StepsInRange(n: int, k: nat)
    requires n % MODULUS != 0
    requires k > 0
    ensures 1 <= Steps(n, k) <= MODULUS - 1
  {
    var prev := Steps(n, k - 1);
    if k > 1 {
      StepsInRange(n, k - 1);
      assert prev % MODULUS == prev;
    }
    StepInvertible(prev);
  }

  /** The zero state is the one the generator never leaves. */
  lemma {:induction false} StepsFromZero(k: nat)
    ensures Steps(0, k) == 0
  {
    if k > 0 {
      StepsFromZero(k - 1);
    }
  }

  /** What seeding stores: one more than the remainder of the seed, read as a signed number. */
  lemma {:induction false} SeededIs(seed: int)
    requires 0 <= seed < TWO_TO_THE_32
    ensures var n := if seed < TWO_TO_THE_31 then seed else seed - TWO_TO_THE_32;
            && (Seeded(seed) - 1 - n) % 0x7fff_fffe == 0
            && (if n >= 0 then 1 <= Seeded(seed) <= 0x7fff_fffe else -0x7fff_fffd < Seeded(seed) <= 1)
  {
    var n := ToInt32(seed);
    var r := TruncMod(n, 0x7fff_fffe);
    assert r - n == 0x7fff_fffe * -TruncDiv(n, 0x7fff_fffe);
  }

  /** What a state leads to, for ever. */
  lemma StateForever(n: int)
    ensures n % MODULUS != 0 ==> StaysInRange(n)
    ensures n == 0 ==> StaysZero(n)
  {
    forall k: nat
      ensures n == 0 ==> Steps(n, k) == 0
      ensures n % MODULUS != 0 && k > 0 ==> InRange(Steps(n, k))
    {
      StepsFromZero(k);
      if n % MODULUS != 0 && k > 0 {
        StepsInRange(n, k);
      }
    }
  }

  /** Exactly two of the 2^32 seeds leave the generator in the zero state. */
  lemma SeededZeroIff(seed: int)
    requires 0 <= seed < TWO_TO_THE_32
    ensures Seeded(seed) == 0 <==> seed == 0xFFFF_FFFF || seed == 0x8000_0001
    ensures Seeded(seed) % MODULUS == 0 <==> Seeded(seed) == 0
  {
    var n := ToInt32(seed);
    assert n == if seed < TWO_TO_THE_31 then seed else seed - TWO_TO_THE_32;
    var r := TruncMod(n, 0x7fff_fffe);
    if r == -1 {
      assert n == 0x7fff_fffe * TruncDiv(n, 0x7fff_fffe) - 1;
      assert -2 < TruncDiv(n, 0x7fff_fffe) < 2;
    }
    assert TruncMod(-1, 0x7fff_fffe) == -1;
    assert TruncMod(-0x7fff_ffff, 0x7fff_fffe) == -1;
    if Seeded(seed) != 0 {
      var s := Seeded(seed);
      ResidueUnique(s, 0, s);
    }
  }
}
