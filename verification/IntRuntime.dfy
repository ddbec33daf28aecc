/** runtime/builtins.c: division, multiplication and 64-bit shifts for a machine that has
    neither. Words are numbers below a power of two; every C operation that could lose a high
    bit is written with its remainder. */
module IntRuntime {
  import opened Words
  import opened CDivision
  import opened Powers
  import opened Bits

  // Shift-subtract division.

  /** One step of long division: bring down a bit, subtract if possible. */
  lemma BringDown(prefix: nat, q: nat, r: nat, b: nat, bit: nat)
    requires prefix == q * b + r && r < b && bit <= 1
    ensures if 2 * r + bit >= b
            then 2 * prefix + bit == (2 * q + 1) * b + (2 * r + bit - b) && 2 * r + bit - b < b
            else 2 * prefix + bit == 2 * q * b + (2 * r + bit)
  {
    assert 2 * q * b == 2 * (q * b) && (2 * q + 1) * b == 2 * (q * b) + b;
  }

  /** The part of a already divided: the bits above i. */
  lemma NextBit(a: u32, i: nat)
    requires i < 32
    ensures Shr(a, i) == 2 * Shr(a, i + 1) + Shr(a, i) % 2
  {
    ShrShr(a, i, 1);
    assert Shr(Shr(a, i), 1) == Shr(a, i) / 2;
  }

  /** A remainder is no larger than the bits divided so far, so with a bit still to come its
      top bit is clear and the shift loses nothing, however large the divisor. */
  lemma ShiftKeepsAll(a: u32, i: nat, q: nat, r: nat, b: nat)
    requires i < 32 && Shr(a, i + 1) == q * b + r
    ensures 2 * r < W32
  {
    ShrMonotone(a, W32 - 1, i + 1, 1);
    MulLe(0, q, b);
  }

  /** Quotient digits: setting bit i of a quotient whose lower bits are still clear. */
  lemma SetDigit(q: nat, i: nat)
    ensures Or(q * Pow2(i + 1), Pow2(i)) == (2 * q + 1) * Pow2(i)
    ensures q * Pow2(i + 1) == 2 * q * Pow2(i)
  {
    OrDisjoint(q, Pow2(i), i + 1);
    Regroup(q, Pow2(i));
  }

  lemma Regroup(q: nat, p: nat)
    ensures q * (2 * p) == 2 * q * p && 2 * q * p + p == (2 * q + 1) * p
  {
  }

  /** State of the 32-bit loop before bit i is brought down. */
  ghost predicate Dividing(a: u32, b: nat, i: int, digits: nat, q: nat, r: nat) {
    && -1 <= i < 32 && Shr(a, i + 1) == digits * b + r && r < b && q == digits * Pow2(i + 1)
  }

  lemma DivideStep(a: u32, b: u32, i: nat, digits: nat, q: nat, r: nat) returns (next: nat)
    requires Dividing(a, b, i, digits, q, r)
    ensures 2 * r < W32 && r * 2 % W32 == 2 * r
    ensures var s := 2 * r + Shr(a, i) % 2;
            if s >= b then Dividing(a, b, i - 1, next, Or(q, Pow2(i)), s - b) else Dividing(a, b, i - 1, next, q, s)
  {
    hide Shr, Or;
    NextBit(a, i);
    ShiftKeepsAll(a, i, digits, r, b);
    BringDown(Shr(a, i + 1), digits, r, b, Shr(a, i) % 2);
    SetDigit(digits, i);
    next := if 2 * r + Shr(a, i) % 2 >= b then 2 * digits + 1 else 2 * digits;
  }

  lemma DivideStart(a: u32, b: u32)
    requires b > 0
    ensures Dividing(a, b, 31, 0, 0, 0)
  {
    Pow2Values();
    Fits(a, 32);
  }

  lemma DivideEnd(a: u32, b: u32, digits: nat, q: nat, r: nat)
    requires Dividing(a, b, -1, digits, q, r)
    ensures q == a / b && r == a % b
  {
    DivMod(digits, r, b);
  }

  /** __udivsi3 */
  method UDiv32(a: u32, b: u32) returns (q: u32)
    requires b > 0
    ensures q == a / b
  {
    hide Shr, Or, Dividing, Pow2;
    var q0: nat, r: nat := 0, 0;
    var i := 31;
    ghost var digits := 0;
    DivideStart(a, b);
    while i >= 0
      invariant Dividing(a, b, i, digits, q0, r) && i >= -1
    {
      digits := DivideStep(a, b, i, digits, q0, r);
      r := r * 2 % W32 + Shr(a, i) % 2;
      if r >= b {
        r := r - b;
        q0 := Or(q0, Pow2(i));
      }
      i := i - 1;
    }
    DivideEnd(a, b, digits, q0, r);
    q := q0;
  }

  /** __umodsi3 */
  method UMod32(a: u32, b: u32) returns (rem: u32)
    requires b > 0
    ensures rem == a % b
  {
    hide Shr, Or, Dividing, Pow2;
    var r: nat := 0;
    var i := 31;
    ghost var digits, q0 := 0, 0;
    DivideStart(a, b);
    while i >= 0
      invariant Dividing(a, b, i, digits, q0, r) && i >= -1
    {
      digits := DivideStep(a, b, i, digits, q0, r);
      r := r * 2 % W32 + Shr(a, i) % 2;
      if r >= b {
        r := r - b;
        q0 := Or(q0, Pow2(i));
      }
      i := i - 1;
    }
    DivideEnd(a, b, digits, q0, r);
    rem := r;
  }

  /** State of the 64-bit loop after i bits of n0 were shifted out of n. */
  ghost predicate Dividing64(n0: u64, d: nat, i: nat, prefix: nat, n: nat, q: nat, r: nat) {
    && i <= 64 && n0 * Pow2(i) == prefix * W64 + n && n < W64 && prefix < Pow2(i)
    && prefix == q * d + r && r < d
  }

  /** Shifting the dividend left moves its top bit into the prefix. */
  lemma ShiftOut(scaled: nat, prefix: nat, n: u64)
    requires scaled == prefix * W64 + n
    ensures 2 * scaled == (2 * prefix + n / 0x8000_0000_0000_0000) * W64 + n * 2 % W64
  {
  }

  lemma RemainderFits(prefix: nat, q: nat, d: nat, r: nat, i: nat)
    requires prefix == q * d + r && r < d && prefix < Pow2(i) && i < 64
    ensures 2 * r < W64 && 2 * q < W64
  {
    Pow2WideValues();
    Pow2Monotone(i, 63);
    MulLe(1, d, q);
    MulLe(0, q, d);
  }

  lemma Divide64Step(n0: u64, d: u64, i: nat, prefix: nat, n: u64, q: nat, r: nat)
    requires Dividing64(n0, d, i, prefix, n, q, r) && i < 64
    ensures 2 * r < W64 && 2 * q < W64 && r * 2 % W64 == 2 * r && q * 2 % W64 == 2 * q
    ensures var bit := n / 0x8000_0000_0000_0000;
            var s := 2 * r + bit;
            if s >= d then Dividing64(n0, d, i + 1, 2 * prefix + bit, n * 2 % W64, 2 * q + 1, s - d)
            else Dividing64(n0, d, i + 1, 2 * prefix + bit, n * 2 % W64, 2 * q, s)
  {
    var bit := n / 0x8000_0000_0000_0000;
    RemainderFits(prefix, q, d, r, i);
    BringDown(prefix, q, r, d, bit);
    ShiftOut(n0 * Pow2(i), prefix, n);
    DoubleRight(n0, Pow2(i));
    TwiceFits(r);
    TwiceFits(q);
  }

  lemma TwiceFits(x: nat)
    requires 2 * x < W64
    ensures x * 2 % W64 == 2 * x
  {
  }

  lemma DoubleRight(n: nat, p: nat)
    ensures n * (2 * p) == 2 * (n * p)
  {
  }

  lemma Divide64Start(n0: u64, d: u64)
    requires d > 0
    ensures Dividing64(n0, d, 0, 0, n0, 0, 0)
  {
  }

  lemma Divide64End(n0: u64, d: u64, prefix: nat, n: nat, q: nat, r: nat)
    requires Dividing64(n0, d, 64, prefix, n, q, r)
    ensures q == n0 / d && r == n0 % d
  {
    Pow2WideValues();
    DivUnique(n0, 0, prefix, n, W64);
    DivMod(q, r, d);
  }

  /** udivmod: quotient and remainder of 64-bit words. */
  method UDivMod64(n0: u64, d: u64) returns (q: u64, rem: u64)
    requires d > 0
    ensures q == n0 / d && rem == n0 % d
  {
    hide Dividing64;
    var q0: nat, r: nat, n: u64 := 0, 0, n0;
    ghost var prefix: nat := 0;
    Divide64Start(n0, d);
    for i := 0 to 64
      invariant Dividing64(n0, d, i, prefix, n, q0, r)
    {
      Divide64Step(n0, d, i, prefix, n, q0, r);
      prefix := 2 * prefix + n / 0x8000_0000_0000_0000;
      r := r * 2 % W64 + n / 0x8000_0000_0000_0000;
      n := n * 2 % W64;
      q0 := q0 * 2 % W64;
      if r >= d {
        r := r - d;
        q0 := q0 + 1;
      }
    }
    Divide64End(n0, d, prefix, n, q0, r);
    q, rem := q0, r;
  }

  // Signed division: magnitudes divided, signs put back, in 64-bit two's complement.

  /** (u64)x */
  function Unsigned(x: int): u64 { x % W64 }

  /** (s64)x */
  function Signed(x: u64): s64 { if x < 0x8000_0000_0000_0000 then x else x - W64 }

  /** The exact quotient fits in 64 bits except when the smallest number is divided by -1. */
  lemma QuotientFits(a: s64, b: s64)
    requires b != 0
    ensures -0x8000_0000_0000_0000 <= TruncDiv(a, b) < 0x8000_0000_0000_0000
            <==> !(a == -0x8000_0000_0000_0000 && b == -1)
  {
    QuotientSize(Magnitude(a), Magnitude(b));
  }

  lemma QuotientSize(m: nat, d: nat)
    requires d > 0
    ensures if d == 1 then m / d == m else 2 * (m / d) <= m
  {
    if d > 1 {
      MulLe(2, d, m / d);
      assert m == d * (m / d) + m % d;
    }
  }

  /** ua = a < 0 ? -(u64)a : (u64)a */
  function Absolute(a: s64): (u: u64)
    ensures u == Magnitude(a)
  {
    if a < 0 then Unsigned(-(Unsigned(a) as int)) else Unsigned(a)
  }

  /** -(s64)q, wrapping */
  function NegateSigned(q: u64): s64 { Signed(Unsigned(-(Signed(q) as int))) }

  /** __divdi3 */
  method Div64(a: s64, b: s64) returns (q: s64)
    requires b != 0
    ensures q == Signed(Unsigned(TruncDiv(a, b)))
    ensures !(a == -0x8000_0000_0000_0000 && b == -1) ==> q == TruncDiv(a, b)
  {
    var uq, r := UDivMod64(Absolute(a), Absolute(b));
    q := if (a < 0) != (b < 0) then NegateSigned(uq) else Signed(uq);
    QuotientFits(a, b);
    SignsBack(uq);
    SignedRoundTrip(TruncDiv(a, b));
  }

  lemma SignsBack(x: u64)
    ensures NegateSigned(x) == Signed(Unsigned(-(x as int))) && Signed(x) == Signed(Unsigned(x))
  {
    if x >= 0x8000_0000_0000_0000 {
      UnsignedAround(-(x as int));
    }
    assert Unsigned(x) == x;
    hide Unsigned;
  }

  lemma UnsignedAround(x: int)
    ensures Unsigned(x + W64) == Unsigned(x)
  {
  }

  lemma SignedRoundTrip(x: int)
    ensures -0x8000_0000_0000_0000 <= x < 0x8000_0000_0000_0000 ==> Signed(Unsigned(x)) == x
  {
  }

  /** __moddi3 */
  method Mod64(a: s64, b: s64) returns (r: s64)
    requires b != 0
    ensures r == TruncMod(a, b)
  {
    var q, ur := UDivMod64(Absolute(a), Absolute(b));
    r := if a < 0 then NegateSigned(ur) else Signed(ur);
    SignsBack(ur);
    RemainderSize(a, b);
    SignedRoundTrip(TruncMod(a, b));
  }

  lemma RemainderSize(a: s64, b: s64)
    requires b != 0
    ensures -0x8000_0000_0000_0000 <= TruncMod(a, b) < 0x8000_0000_0000_0000
  {
  }

  // Multiplication.

  /** mul32: the full 64-bit product from 16-bit halves. */
  method Mul32(a: u32, b: u32) returns (p: u64)
    ensures p == a * b
  {
    var al, ah, bl, bh := a % 0x1_0000, a / 0x1_0000, b % 0x1_0000, b / 0x1_0000;
    Halves(a, b, al, ah, bl, bh);
    var ll, lh, hl, hh := al * bl % W32, al * bh % W32, ah * bl % W32, ah * bh % W32;
    p := (ll + lh * 0x1_0000 + hl * 0x1_0000 + hh * W32) % W64;
  }

  lemma Halves(a: u32, b: u32, al: nat, ah: nat, bl: nat, bh: nat)
    requires a == ah * 0x1_0000 + al && b == bh * 0x1_0000 + bl
    requires al < 0x1_0000 && ah < 0x1_0000 && bl < 0x1_0000 && bh < 0x1_0000
    ensures (al * bl % W32 + al * bh % W32 * 0x1_0000 + ah * bl % W32 * 0x1_0000 + ah * bh % W32 * W32) % W64 == a * b
  {
    HalfProducts(a, b, al, ah, bl, bh);
    NoWrap(al * bl, al * bh, ah * bl, ah * bh, a * b);
  }

  lemma NoWrap(ll: int, lh: int, hl: int, hh: int, total: int)
    requires 0 <= ll < W32 && 0 <= lh < W32 && 0 <= hl < W32 && 0 <= hh < W32 && 0 <= total < W64
    requires total == hh * W32 + hl * 0x1_0000 + lh * 0x1_0000 + ll
    ensures (ll % W32 + lh % W32 * 0x1_0000 + hl % W32 * 0x1_0000 + hh % W32 * W32) % W64 == total
  {
    SmallWord(ll);
    SmallWord(lh);
    SmallWord(hl);
    SmallWord(hh);
    SmallLong(total);
  }

  lemma SmallWord(x: int)
    requires 0 <= x < W32
    ensures x % W32 == x
  {
  }

  lemma SmallLong(x: int)
    requires 0 <= x < W64
    ensures x % W64 == x
  {
  }

  lemma HalfProducts(a: u32, b: u32, al: nat, ah: nat, bl: nat, bh: nat)
    requires a == ah * 0x1_0000 + al && b == bh * 0x1_0000 + bl
    requires al < 0x1_0000 && ah < 0x1_0000 && bl < 0x1_0000 && bh < 0x1_0000
    ensures 0 <= al * bl < W32 && 0 <= al * bh < W32 && 0 <= ah * bl < W32 && 0 <= ah * bh < W32
    ensures a * b == ah * bh * W32 + ah * bl * 0x1_0000 + al * bh * 0x1_0000 + al * bl
    ensures 0 <= a * b < W64
  {
    HalfBound(al, bl, 0xffff);
    HalfBound(al, bh, 0xffff);
    HalfBound(ah, bl, 0xffff);
    HalfBound(ah, bh, 0xffff);
    HalfBound(a, b, 0xffff_ffff);
    Expand(ah, al, bh, bl, 0x1_0000);
  }

  lemma HalfBound(x: nat, y: nat, m: nat)
    requires x <= m && y <= m
    ensures 0 <= x * y <= m * m
  {
    MulLe(x, m, y);
    MulLe(y, m, m);
  }

  lemma Expand(ah: nat, al: nat, bh: nat, bl: nat, w: nat)
    ensures (ah * w + al) * (bh * w + bl) == ah * bh * (w * w) + ah * bl * w + al * bh * w + al * bl
  {
    assert (ah * w + al) * (bh * w + bl) == ah * w * (bh * w + bl) + al * (bh * w + bl);
    assert ah * w * (bh * w) == ah * bh * (w * w) by {
      assert ah * w * (bh * w) == ah * (w * bh) * w;
      assert ah * (bh * w) * w == ah * bh * (w * w);
    }
    assert ah * w * bl == ah * bl * w;
    assert al * (bh * w) == al * bh * w;
  }

  /** __muldi3: the product modulo 2^64. */
  method Mul64(a: u64, b: u64) returns (p: u64)
    ensures p == a * b % W64
  {
    var al, ah, bl, bh := a % W32, a / W32, b % W32, b / W32;
    var low := Mul32(al, bl);
    var cross := (al * bh % W32 + ah * bl % W32) % W32;
    p := (low + cross * W32) % W64;
    LowHalf(a, b, al, ah, bl, bh);
  }

  lemma LowHalf(a: u64, b: u64, al: nat, ah: nat, bl: nat, bh: nat)
    requires a == ah * W32 + al && b == bh * W32 + bl
    ensures (al * bl + (al * bh % W32 + ah * bl % W32) % W32 * W32) % W64 == a * b % W64
  {
    Expand(ah, al, bh, bl, W32);
    Cross(al * bl, al * bh, ah * bl, ah * bh);
  }

  lemma Cross(ll: nat, lh: nat, hl: nat, hh: nat)
    ensures (ll + (lh % W32 + hl % W32) % W32 * W32) % W64 == (hh * W64 + hl * W32 + lh * W32 + ll) % W64
  {
    var c := (lh % W32 + hl % W32) % W32;
    var k := (lh + hl - c) / W32;
    assert lh + hl == k * W32 + c;
    assert hh * W64 + hl * W32 + lh * W32 + ll == (hh + k) * W64 + (ll + c * W32);
  }
}
