/** Rounding addresses to powers of two, as the firmware and its build script do. */
module Rounding {
  import opened Basics

  /** `ALIGN_DOWN`, which for a power of two clears the low bits. */
  function AlignDown(x: nat, align: nat): (r: nat)
    requires align > 0
    ensures r <= x < r + align
  {
    x - Rem(x, align)
  }

  /** A multiple of `align`. */
  predicate Aligned(x: nat, align: nat)
    requires align > 0
  {
    Rem(x, align) == 0
  }

  lemma {:induction false} AlignDownIsAligned(x: nat, align: nat)
    requires align > 0
    ensures Aligned(AlignDown(x, align), align)
    decreases x
  {
    if x >= align {
      AlignDownIsAligned(x - align, align);
      assert AlignDown(x, align) == AlignDown(x - align, align) + align;
    }
  }

  lemma {:induction false} AlignDownIsGreatest(x: nat, y: nat, align: nat)
    requires align > 0 && y <= x && Aligned(y, align)
    ensures y <= AlignDown(x, align)
    decreases x
  {
    if x >= align && y >= align {
      AlignDownIsGreatest(x - align, y - align, align);
    }
  }

  /** The alignments the source works with. */
  ghost predicate PowerOfTwo(align: nat) {
    exists k: nat :: align == Pow2(k)
  }

  lemma {:induction false} RemHalves(x: nat, d: nat)
    requires d > 0
    ensures Rem(x, 2 * d) == 2 * Rem(x / 2, d) + x % 2
    decreases x
  {
    if x >= 2 * d {
      RemHalves(x - 2 * d, d);
      assert (x - 2 * d) / 2 == x / 2 - d;
    }
  }

  /** `x & ~(align - 1)`: the low `k` bits shifted out and back in as zeros. */
  lemma {:induction false} AlignDownMasks(x: nat, k: nat)
    ensures AlignDown(x, Pow2(k)) == Doubled(Shr(x, k), k)
    decreases k
  {
    if k > 0 {
      AlignDownMasks(x / 2, k - 1);
      ShrFirst(x, k - 1);
      RemHalves(x, Pow2(k - 1));
    } else {
      RemOfOne(x);
    }
  }

  lemma {:induction false} RemOfOne(x: nat)
    ensures Rem(x, 1) == 0
    decreases x
  {
    if x > 0 { RemOfOne(x - 1); }
  }

  lemma {:induction false} RemOfMultiple(d: nat, q: nat)
    requires d > 0
    ensures Rem(Mul(d, q), d) == 0
    decreases q
  {
    if q > 0 { RemOfMultiple(d, q - 1); }
  }

  /** `ALIGN` and `alignpos`: the same, upwards. */
  function AlignUp(x: nat, align: nat): (r: nat)
    requires align > 0
    ensures x <= r < x + align
  {
    AlignDown(x + (align - 1), align)
  }

  lemma AlignUpIsLeast(x: nat, align: nat)
    requires align > 0
    ensures Aligned(AlignUp(x, align), align)
    ensures forall y: nat | x <= y && Aligned(y, align) :: AlignUp(x, align) <= y
  {
    AlignDownIsAligned(x + (align - 1), align);
    forall y: nat | x <= y && Aligned(y, align)
      ensures AlignUp(x, align) <= y
    {
      NextMultiple(y, AlignUp(x, align), align);
    }
  }

  /** Two multiples less than `align` apart are the same. */
  lemma {:induction false} NextMultiple(y: nat, z: nat, align: nat)
    requires align > 0 && Aligned(y, align) && Aligned(z, align) && z < y + align
    ensures z <= y
    decreases y
  {
    if y >= align && z >= align { NextMultiple(y - align, z - align, align); }
  }

  lemma {:induction false} AlignedSum(x: nat, y: nat, align: nat)
    requires align > 0 && Aligned(x, align)
    ensures Rem(x + y, align) == Rem(y, align)
    decreases x
  {
    if x >= align { AlignedSum(x - align, y, align); }
  }

  /** Rounding commutes with moving by a multiple. */
  lemma AlignUpShift(base: nat, x: nat, align: nat)
    requires align > 0 && Aligned(base, align)
    ensures AlignUp(base + x, align) == base + AlignUp(x, align)
  {
    AlignedSum(base, x + (align - 1), align);
  }

  /** A multiple of a power of two is one of every smaller power. */
  lemma {:induction false} AlignedForLess(x: nat, j: nat, k: nat)
    requires j <= k && Aligned(x, Pow2(k))
    ensures Aligned(x, Pow2(j))
    decreases k
  {
    if j < k {
      HalfAligned(x, Pow2(k - 1));
      AlignedForLess(x, j, k - 1);
    }
  }

  lemma {:induction false} HalfAligned(x: nat, d: nat)
    requires d > 0 && Aligned(x, 2 * d)
    ensures Aligned(x, d)
    decreases x
  {
    if x >= 2 * d {
      HalfAligned(x - 2 * d, d);
      assert Rem(x, d) == Rem(x - d, d) == Rem(x - 2 * d, d);
    }
  }

  lemma Pow2Ordered(j: nat, k: nat)
    requires Pow2(j) <= Pow2(k)
    ensures j <= k
  {
    if j > k { Pow2Monotone(k + 1, j); }
  }
}
