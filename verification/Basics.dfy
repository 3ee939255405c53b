/** Machine-sized numbers and the few arithmetic facts the models share. */
module Basics {

  type Bit = x: int | 0 <= x < 2
  type Byte = x: int | 0 <= x < 0x100

  const WORD := 0x1_0000_0000
  type Word = x: int | 0 <= x < WORD

  datatype Option<+T> = None | Some(value: T)

  function Pow2(n: nat): (p: nat)
    ensures p > 0
  {
    if n == 0 then 1 else 2 * Pow2(n - 1)
  }

  lemma Pow2Small()
    ensures Pow2(0) == 1 && Pow2(1) == 2 && Pow2(2) == 4 && Pow2(3) == 8 && Pow2(4) == 16
    ensures Pow2(5) == 32 && Pow2(6) == 64 && Pow2(7) == 128 && Pow2(8) == 256
  {
    assert Pow2(1) == 2 * Pow2(0);
    assert Pow2(2) == 2 * Pow2(1);
    assert Pow2(3) == 2 * Pow2(2);
    assert Pow2(4) == 2 * Pow2(3);
    assert Pow2(5) == 2 * Pow2(4);
    assert Pow2(6) == 2 * Pow2(5);
    assert Pow2(7) == 2 * Pow2(6);
    assert Pow2(8) == 2 * Pow2(7);
  }

  lemma {:induction false} Pow2Add(a: nat, b: nat)
    ensures Pow2(a + b) == Pow2(a) * Pow2(b)
  {
    if a == 0 {
    } else {
      Pow2Add(a - 1, b);
      assert Pow2(a + b) == 2 * Pow2(a - 1 + b);
      assert Pow2(a) * Pow2(b) == 2 * (Pow2(a - 1) * Pow2(b));
    }
  }

  lemma ProductMonotone(a: int, b: int, d: nat)
    ensures a <= b ==> a * d <= b * d
  {
    assert a <= b ==> (b - a) * d >= 0;
  }

  lemma DivModUnique(i: nat, d: nat, q: nat, r: nat)
    requires d > 0 && r < d && i == q * d + r
    ensures i / d == q && i % d == r
  {
    ProductMonotone(q + 1, i / d, d);
    ProductMonotone(i / d + 1, q, d);
  }

  lemma ModLess(i: nat, d: nat)
    requires 0 < d <= i
    ensures (i - d) % d == i % d
  {
    var q := (i - d) / d;
    assert i - d == q * d + (i - d) % d;
    assert (q + 1) * d == q * d + d;
    DivModUnique(i, d, q + 1, (i - d) % d);
  }

  /** The remainder by repeated subtraction. */
  function Rem(i: nat, d: nat): (r: nat)
    requires d > 0
    ensures r < d && r <= i
  {
    if i < d then i else Rem(i - d, d)
  }

  lemma {:induction false} RemIsMod(i: nat, d: nat)
    requires d > 0
    ensures Rem(i, d) == i % d
  {
    if i >= d {
      RemIsMod(i - d, d);
      ModLess(i, d);
    }
  }

  /** `x` doubled `k` times. */
  function Doubled(x: nat, k: nat): nat
    decreases x, k
  {
    if k == 0 then x else 2 * Doubled(x, k - 1)
  }

  lemma {:induction false} DoubledRow(x: nat, j: nat, k: nat)
    requires Pow2(j) <= x < 2 * Pow2(j)
    ensures Pow2(j + k) <= Doubled(x, k) < 2 * Pow2(j + k)
    decreases k
  {
    if k > 0 { DoubledRow(x, j, k - 1); }
  }

  lemma {:induction false} DoubledBelow(x: nat, j: nat, k: nat)
    requires x < Pow2(j)
    ensures Doubled(x, k) < Pow2(j + k)
    decreases k
  {
    if k > 0 { DoubledBelow(x, j, k - 1); }
  }

  lemma {:induction false} Pow2Monotone(a: nat, b: nat)
    requires a <= b
    ensures Pow2(a) <= Pow2(b)
    decreases b
  {
    if a < b { Pow2Monotone(a, b - 1); }
  }

  lemma {:induction false} DoubledFirst(x: nat, k: nat)
    ensures Doubled(2 * x, k) == Doubled(x, k + 1)
    decreases k
  {
    if k > 0 { DoubledFirst(x, k - 1); }
  }

  lemma {:induction false} DoubledNext(x: nat, k: nat)
    ensures Doubled(x + 1, k) == Doubled(x, k) + Pow2(k)
    decreases k
  {
    if k > 0 { DoubledNext(x, k - 1); }
  }

  /** Multiplication by repeated addition.  Definitions that every proof unfolds
      use it so that no product of two variables reaches those proofs. */
  function Mul(a: nat, b: nat): nat
    decreases a, b
  {
    if b == 0 then 0 else a + Mul(a, b - 1)
  }

  lemma {:induction false} MulIsProduct(a: nat, b: nat)
    ensures Mul(a, b) == a * b
    decreases b
  {
    if b > 0 {
      MulIsProduct(a, b - 1);
      assert a * b == a + a * (b - 1);
    }
  }

  lemma {:induction false} MulMonotone(a: nat, b: nat, c: nat)
    requires b <= c
    ensures Mul(a, b) <= Mul(a, c)
    decreases c
  {
    if b < c { MulMonotone(a, b, c - 1); }
  }

  /** `x` shifted right by `k` bits. */
  function Shr(x: nat, k: nat): nat
    decreases x, k
  {
    if k == 0 then x else Shr(x, k - 1) / 2
  }

  lemma {:induction false} ShrIsQuotient(x: nat, k: nat)
    ensures Shr(x, k) == x / Pow2(k)
    decreases k
  {
    if k > 0 {
      ShrIsQuotient(x, k - 1);
      HalfOfQuotient(x, Pow2(k - 1));
    }
  }

  lemma HalfOfQuotient(x: nat, d: nat)
    requires d > 0
    ensures x / d / 2 == x / (2 * d)
  {
    var q, r := x / d, x % d;
    TwiceAsWide(q / 2, q % 2, d);
    assert x == q * d + r;
    DivModUnique(x, 2 * d, q / 2, q % 2 * d + r);
  }

  lemma TwiceAsWide(h: nat, b: nat, d: nat)
    requires b < 2
    ensures (2 * h + b) * d == h * (2 * d) + b * d
    ensures b * d <= d
  {
    ProductMonotone(b, 1, d);
  }

  lemma {:induction false} DoubledIsProduct(x: nat, k: nat)
    ensures Doubled(x, k) == x * Pow2(k)
    decreases k
  {
    if k > 0 {
      DoubledIsProduct(x, k - 1);
      assert x * Pow2(k) == 2 * (x * Pow2(k - 1));
    }
  }

  lemma {:induction false} ShrBelow(x: nat, j: nat, k: nat)
    requires x < Pow2(j) && k <= j
    ensures Shr(x, k) < Pow2(j - k)
    decreases k
  {
    if k > 0 { ShrBelow(x, j, k - 1); }
  }

  lemma {:induction false} DoubledPlus(a: nat, j: nat, b: nat, k: nat)
    requires a < Pow2(j) && b < Pow2(k)
    ensures Doubled(a, k) + b < Pow2(k + j)
    decreases k
  {
    if k == 0 {
    } else {
      DoubledPlus(a, j, b / 2, k - 1);
    }
  }

  lemma {:induction false} ShrShrinks(x: nat, k: nat)
    ensures Shr(x, k) <= x
    decreases k
  {
    if k > 0 { ShrShrinks(x, k - 1); }
  }

  lemma {:induction false} ShrFirst(x: nat, k: nat)
    ensures Shr(x / 2, k) == Shr(x, k + 1)
    decreases k
  {
    if k > 0 { ShrFirst(x, k - 1); }
  }

  lemma {:induction false} ShrBetween(x: nat, a: nat, n: nat)
    requires Doubled(a, n) <= x < Doubled(a, n) + Pow2(n)
    ensures Shr(x, n) == a
    decreases n
  {
    if n > 0 {
      ShrFirst(x, n - 1);
      ShrBetween(x / 2, a, n - 1);
    }
  }
}
