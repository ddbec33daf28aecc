/** Powers of two, as natural numbers (shifts) and as exact reals (binary exponents). */
module Powers {

  lemma MulLe(a: int, b: int, c: int)
    requires a <= b && c >= 0
    ensures a * c <= b * c
  {
  }

  lemma DivUnique(q: int, r: int, d: int, m: int, b: int)
    requires q * b + r == d * b + m
    requires 0 <= r < b && 0 <= m < b
    ensures q == d && r == m
  {
    if d > q {
      MulLe(q + 1, d, b);
    } else if d < q {
      MulLe(d + 1, q, b);
    }
  }

  /** Quotient and remainder are the only way to split a number by b. */
  lemma DivMod(q: int, r: int, b: int)
    requires 0 <= r < b
    ensures (q * b + r) / b == q && (q * b + r) % b == r
  {
    var n := q * b + r;
    DivUnique(n / b, n % b, q, r, b);
  }

  /** 2 to the n: the factor of a shift by n places. */
  function Pow2(n: nat): (r: nat)
    ensures r >= 1
  {
    if n == 0 then 1 else 2 * Pow2(n - 1)
  }

  lemma {:induction false} Pow2Add(a: nat, b: nat)
    ensures Pow2(a + b) == Pow2(a) * Pow2(b)
  {
    if b > 0 {
      Pow2Add(a, b - 1);
      assert Pow2(a + b) == 2 * Pow2(a + (b - 1));
    }
  }

  lemma {:induction false} Pow2Monotone(a: nat, b: nat)
    requires a <= b
    ensures Pow2(a) <= Pow2(b)
  {
    if a < b {
      Pow2Monotone(a, b - 1);
    }
  }

  /** The powers of two whose values the word sizes and field widths need. */
  lemma Pow2Small()
    ensures Pow2(0) == 1 && Pow2(1) == 2 && Pow2(2) == 4 && Pow2(3) == 8 && Pow2(4) == 16
    ensures Pow2(5) == 32 && Pow2(7) == 128 && Pow2(8) == 0x100
  {
  }

  lemma Pow2Values()
    ensures Pow2(16) == 0x1_0000 && Pow2(23) == 0x80_0000 && Pow2(24) == 0x100_0000
    ensures Pow2(29) == 0x2000_0000 && Pow2(31) == 0x8000_0000 && Pow2(32) == 0x1_0000_0000
  {
    Pow2Small();
    Pow2Add(8, 8);
    Pow2Add(16, 7);
    Pow2Add(16, 8);
    Pow2Add(24, 5);
    Pow2Add(24, 7);
    Pow2Add(16, 16);
  }

  lemma Pow2WideValues()
    ensures Pow2(52) == 0x10_0000_0000_0000 && Pow2(53) == 0x20_0000_0000_0000
    ensures Pow2(63) == 0x8000_0000_0000_0000 && Pow2(64) == 0x1_0000_0000_0000_0000
  {
    Pow2Values();
    Pow2Add(29, 23);
    Pow2Add(29, 24);
    Pow2Add(32, 31);
    Pow2Add(32, 32);
  }

  /** y * 2^k for any integer k. Defined by doubling and halving, so that facts about it
      follow by induction in linear arithmetic. */
  ghost function Scaled(y: real, k: int): (r: real)
    decreases if k < 0 then -k else k
  {
    if k == 0 then y else if k > 0 then 2.0 * Scaled(y, k - 1) else Scaled(y, k + 1) / 2.0
  }

  lemma ScaledStep(y: real, k: int)
    ensures Scaled(y, k + 1) == 2.0 * Scaled(y, k)
  {
  }

  lemma {:induction false} ScaledOrder(y: real, z: real, k: int)
    ensures y < z <==> Scaled(y, k) < Scaled(z, k)
    ensures y == z <==> Scaled(y, k) == Scaled(z, k)
    decreases if k < 0 then -k else k
  {
    if k > 0 {
      ScaledOrder(y, z, k - 1);
    } else if k < 0 {
      ScaledOrder(y, z, k + 1);
    }
  }

  lemma {:induction false} ScaledSum(y: real, z: real, k: int)
    ensures Scaled(y + z, k) == Scaled(y, k) + Scaled(z, k)
    ensures Scaled(y - z, k) == Scaled(y, k) - Scaled(z, k)
    ensures Scaled(0.0, k) == 0.0
    decreases if k < 0 then -k else k
  {
    if k > 0 {
      ScaledSum(y, z, k - 1);
    } else if k < 0 {
      ScaledSum(y, z, k + 1);
    }
  }

  lemma {:induction false} ScaledTwice(y: real, j: int, k: int)
    ensures Scaled(Scaled(y, j), k) == Scaled(y, j + k)
    decreases if k < 0 then -k else k
  {
    if k > 0 {
      ScaledTwice(y, j, k - 1);
      ScaledStep(y, j + k - 1);
    } else if k < 0 {
      ScaledTwice(y, j, k + 1);
      ScaledStep(y, j + k);
    }
  }

  lemma {:induction false} ScaledGrows(y: real, j: int, k: int)
    requires y > 0.0 && j < k
    ensures 2.0 * Scaled(y, j) <= Scaled(y, k)
    ensures 0.0 < Scaled(y, j)
    decreases k - j
  {
    ScaledOrder(0.0, y, j);
    ScaledSum(y, y, j);
    ScaledStep(y, k - 1);
    if j < k - 1 {
      ScaledGrows(y, j, k - 1);
    }
  }

  lemma RealAssoc(a: real, b: real, c: real)
    ensures a * (b * c) == (a * b) * c
  {
  }

  lemma {:induction false} ScaledLeft(y: real, z: real, j: int)
    ensures Scaled(y, j) * z == Scaled(y * z, j)
    decreases if j < 0 then -j else j
  {
    if j > 0 {
      ScaledLeft(y, z, j - 1);
      RealAssoc(2.0, Scaled(y, j - 1), z);
    } else if j < 0 {
      ScaledLeft(y, z, j + 1);
      RealAssoc(2.0, Scaled(y, j), z);
    }
  }

  lemma ScaledTimes(y: real, z: real, j: int, k: int)
    ensures Scaled(y, j) * Scaled(z, k) == Scaled(y * z, j + k)
  {
    ScaledLeft(y, Scaled(z, k), j);
    ScaledLeft(z, y, k);
    assert y * z == z * y;
    assert y * Scaled(z, k) == Scaled(y * z, k);
    ScaledTwice(y * z, k, j);
  }

  /** Order facts about products, kept apart so that no other proof multiplies variables. */
  lemma MulOrder(a: real, b: real, s: real)
    requires s > 0.0
    ensures a < b <==> a * s < b * s
    ensures a == b <==> a * s == b * s
  {
    assert (b - a) * s == b * s - a * s;
    if a < b {
      assert (b - a) * s > 0.0;
    } else if a > b {
      assert (a - b) * s > 0.0;
    }
  }

  lemma Quotient(x: real, s: real) returns (y: real)
    requires s > 0.0
    ensures y * s == x
  {
    y := x / s;
  }
}
