/** The 64-bit shifts of runtime/builtins.c, put together from 32-bit halves. */
module IntShifts {
  import opened Words
  import opened Powers
  import opened Bits
  import opened IntRuntime

  /** x << n on a 32-bit word */
  function Shl32(x: u32, n: nat): u32 { x * Pow2(n) % W32 }

  lemma {:induction false} OrCommutes(v: nat, w: nat)
    ensures Or(v, w) == Or(w, v)
    decreases v + w
  {
    if v != 0 || w != 0 {
      OrCommutes(v / 2, w / 2);
    }
  }

  lemma Complement(b: nat)
    requires b <= 32
    ensures Pow2(b) * Pow2(32 - b) == W32
  {
    hide Pow2;
    Pow2Values();
    var n := 32;
    Pow2Add(b, n - b);
  }

  /** x * p modulo p * q keeps x's residue modulo q. */
  lemma Residue(x: nat, p: nat, q: nat, w: nat)
    requires p * q == w && p > 0 && q > 0
    ensures x % q < q && w > 0 && x * p == x / q * w + x % q * p && x % q * p < w && x * p % w == x % q * p
  {
    MulLe(x % q + 1, q, p);
    var d, r := x / q, x % q;
    assert x == d * q + r;
    Spread(d, q, r, p);
    DivMod(d, r * p, w);
  }

  lemma Spread(d: nat, q: nat, r: nat, p: nat)
    ensures (d * q + r) * p == d * (p * q) + r * p
  {
    assert d * q * p == d * (q * p);
  }

  /** A left shift that crosses the middle: the halves' pieces make up the product. */
  lemma CrossLeft(hi: u32, lo: u32, b: nat)
    requires 0 < b < 32
    ensures var rh := Or(Shl32(hi, b), Shr(lo, 32 - b));
            rh < W32 && rh * W32 + Shl32(lo, b) == (hi * W32 + lo) * Pow2(b) % W64
  {
    hide Or, Shr;
    var p, q := Pow2(b), Pow2(32 - b);
    Complement(b);
    Residue(hi, p, q, W32);
    Residue(lo, p, q, W32);
    ShiftsAreDivisions(lo, 32 - b);
    hide Pow2;
    QuotientBound(lo, p, q, W32);
    OrDisjoint(hi % q, lo / q, b);
    Below(hi % q, q, lo / q, p);
    LeftSum(hi, lo, p, hi / q, hi % q * p, lo / q, lo % q * p);
  }

  lemma QuotientBound(x: nat, p: nat, q: nat, w: nat)
    requires p * q == w && q > 0 && x < w
    ensures x / q < p
  {
    var d := x / q;
    assert x == d * q + x % q;
    if d >= p {
      MulLe(p, d, q);
    }
  }

  /** A number in mixed radix: r digits of p each plus x. */
  lemma Below(r: nat, q: nat, x: nat, p: nat)
    requires r < q && x < p
    ensures r * p + x < q * p
  {
    MulLe(r + 1, q, p);
  }

  lemma LeftSum(hi: nat, lo: nat, p: nat, u: nat, v: nat, x: nat, y: nat)
    requires hi * p == u * W32 + v && lo * p == x * W32 + y && v + x < W32 && y < W32
    ensures (v + x) * W32 + y == (hi * W32 + lo) * p % W64
  {
    assert (hi * W32 + lo) * p == hi * p * W32 + lo * p;
    DivMod(u, (v + x) * W32 + y, W64);
  }

  /** __ashldi3 */
  method ShiftLeft(a: u64, b: int) returns (r: u64)
    requires 0 <= b < 64
    ensures r == a * Pow2(b) % W64
  {
    hide Or, Shr, Pow2;
    var lo: u32, hi: u32 := a % W32, a / W32;
    if b == 0 {
      ZeroShift(a);
      return a;
    }
    if b >= 32 {
      FarLeft(hi, lo, b);
      r := Shl32(lo, b - 32) * W32;
    } else {
      CrossLeft(hi, lo, b);
      r := Or(Shl32(hi, b), Shr(lo, 32 - b)) * W32 + Shl32(lo, b);
    }
  }

  lemma ZeroShift(a: u64)
    ensures a * Pow2(0) % W64 == a
  {
  }

  lemma FarLeft(hi: u32, lo: u32, b: nat)
    requires 32 <= b < 64
    ensures Shl32(lo, b - 32) * W32 == (hi * W32 + lo) * Pow2(b) % W64
  {
    hide Pow2;
    Pow2Add(b - 32, 32);
    Pow2Values();
    var p := Pow2(b - 32);
    FarProduct(hi, lo, p);
    FarResidue(hi * p, lo * p);
  }

  lemma FarProduct(hi: nat, lo: nat, p: nat)
    ensures (hi * W32 + lo) * (p * W32) == hi * p * W64 + lo * p * W32
  {
  }

  /** What is shifted beyond the top is lost; the low word keeps its residue. */
  lemma FarResidue(h: nat, l: nat)
    ensures l % W32 * W32 == (h * W64 + l * W32) % W64
  {
    DivMod(h + l / W32, l % W32 * W32, W64);
  }

  // Right shifts.

  /** The low half of a right shift that crosses the middle. */
  lemma CrossRight(hi: u32, lo: u32, b: nat)
    requires 0 < b < 32
    ensures var rl := Or(Shr(lo, b), Shl32(hi, 32 - b));
            rl < W32 && rl == hi % Pow2(b) * Pow2(32 - b) + lo / Pow2(b)
  {
    hide Or, Shr;
    var p, q := Pow2(b), Pow2(32 - b);
    Complement(b);
    assert q * p == W32;
    Residue(hi, q, p, W32);
    ShiftsAreDivisions(lo, b);
    hide Pow2;
    QuotientBound(lo, q, p, W32);
    OrDisjoint(hi % p, lo / p, 32 - b);
    Below(hi % p, p, lo / p, q);
    OrCommutes(lo / p, hi % p * q);
  }

  /** Floor division of a two-word number: hi may be negative. */
  lemma RightSum(hi: int, lo: nat, p: nat, q: nat)
    requires p * q == W32 && p > 0
    ensures (hi * W32 + lo) / p == hi / p * W32 + hi % p * q + lo / p
  {
    var h1, h0, l1, l0 := hi / p, hi % p, lo / p, lo % p;
    assert hi == h1 * p + h0 && lo == l1 * p + l0;
    RightExpand(h1, h0, l1, p, q);
    DivModInt(h1 * W32 + h0 * q + l1, l0, p);
  }

  lemma RightExpand(h1: int, h0: int, l1: int, p: int, q: int)
    requires p * q == W32
    ensures (h1 * p + h0) * W32 + l1 * p == (h1 * W32 + h0 * q + l1) * p
  {
    assert (h1 * W32 + h0 * q + l1) * p == h1 * W32 * p + h0 * q * p + l1 * p;
    assert h0 * q * p == h0 * (p * q);
    assert h1 * W32 * p == h1 * p * W32;
  }

  lemma DivModInt(q: int, r: int, b: int)
    requires 0 <= r < b
    ensures (q * b + r) / b == q
  {
    var n := q * b + r;
    DivUnique(n / b, n % b, q, r, b);
  }

  /** __lshrdi3 */
  method ShiftRight(a: u64, b: int) returns (r: u64)
    requires 0 <= b < 64
    ensures r == a / Pow2(b)
  {
    hide Or, Shr, Pow2;
    var lo: u32, hi: u32 := a % W32, a / W32;
    if b == 0 {
      assert a / Pow2(0) == a by { ShrZero(a); }
      return a;
    }
    if b >= 32 {
      FarRight(hi, lo, b);
      ShiftsAreDivisions(hi, b - 32);
      FloorBetween(hi, Pow2(b - 32));
      r := Shr(hi, b - 32);
    } else {
      NearRight(hi, lo, b);
      r := Shr(hi, b) * W32 + Or(Shr(lo, b), Shl32(hi, 32 - b));
    }
  }

  lemma NearRight(hi: u32, lo: u32, b: nat)
    requires 0 < b < 32
    ensures var rl := Or(Shr(lo, b), Shl32(hi, 32 - b));
            rl < W32 && Shr(hi, b) < W32 && Shr(hi, b) * W32 + rl == (hi * W32 + lo) / Pow2(b)
  {
    hide Or, Shr, Pow2, Shl32;
    CrossRight(hi, lo, b);
    Complement(b);
    RightSum(hi, lo, Pow2(b), Pow2(32 - b));
    ShiftsAreDivisions(hi, b);
    FloorBetween(hi, Pow2(b));
  }

  lemma ShrZero(a: int)
    ensures a / Pow2(0) == a
  {
  }

  lemma FarRight(hi: int, lo: nat, b: nat)
    requires lo < W32 && 32 <= b < 64
    ensures (hi * W32 + lo) / Pow2(b) == hi / Pow2(b - 32)
  {
    hide Pow2;
    Pow2Add(b - 32, 32);
    Pow2Values();
    FarQuotient(hi, lo, Pow2(b - 32));
  }

  lemma FarQuotient(hi: int, lo: nat, p: nat)
    requires lo < W32 && p > 0
    ensures (hi * W32 + lo) / (p * W32) == hi / p
  {
    var d, r := hi / p, hi % p;
    assert hi == d * p + r;
    assert (d * p + r) * W32 + lo == d * (p * W32) + (r * W32 + lo);
    Below(r, p, lo, W32);
    DivModInt(d, r * W32 + lo, p * W32);
  }

  /** __ashrdi3: the sign is copied in from the left. */
  method ShiftRightSigned(a: s64, b: int) returns (r: s64)
    requires 0 <= b < 64
    ensures r == a / Pow2(b)
  {
    hide Or, Shr, Pow2;
    var lo: u32, hi: int := Unsigned(a) % W32, Int32(a / W32);
    SignedHalves(a, lo, hi);
    if b == 0 {
      assert a / Pow2(0) == a by { ShrZero(a); }
      return a;
    }
    if b >= 32 {
      FarRight(hi, lo, b);
      FarSigned(hi, b);
      r := Signed(hi / Pow2(31) % W32 * W32 + hi / Pow2(b - 32) % W32);
    } else {
      var rl := NearLow(lo, hi, b);
      NearSigned(hi, lo, b, rl);
      r := Signed(hi / Pow2(b) % W32 * W32 + rl);
    }
  }

  method NearLow(lo: u32, hi: int, b: nat) returns (rl: u32)
    requires 0 < b < 32 && -0x8000_0000 <= hi < 0x8000_0000
    ensures rl == hi % Pow2(b) * Pow2(32 - b) + lo / Pow2(b)
  {
    hide Or, Shr, Pow2;
    CrossRight(hi % W32, lo, b);
    SameResidue(hi, b);
    rl := Or(Shr(lo, b), Shl32(hi % W32, 32 - b));
  }

  lemma SignedHalves(a: s64, lo: u32, hi: int)
    requires lo == Unsigned(a) % W32 && hi == Int32(a / W32)
    ensures a == hi * W32 + lo && -0x8000_0000 <= hi < 0x8000_0000
  {
  }

  lemma SameResidue(hi: int, b: nat)
    requires b <= 32
    ensures hi % W32 % Pow2(b) == hi % Pow2(b)
  {
    hide Pow2;
    Complement(b);
    var p, q, k := Pow2(b), Pow2(32 - b), hi / W32;
    var w := hi % W32;
    assert hi == k * (p * q) + w;
    assert k * (p * q) == (k * q) * p;
    var d, r := w / p, w % p;
    assert w == d * p + r;
    assert hi == (k * q + d) * p + r;
    var n := hi;
    DivUnique(n / p, n % p, k * q + d, r, p);
  }

  lemma FarSigned(hi: int, b: nat)
    requires 32 <= b < 64 && -0x8000_0000 <= hi < 0x8000_0000
    ensures Signed(hi / Pow2(31) % W32 * W32 + hi / Pow2(b - 32) % W32) == hi / Pow2(b - 32)
  {
    hide Pow2;
    Pow2Values();
    FloorBetween(hi, Pow2(b - 32));
    FloorTop(hi);
    SignAbove(if hi < 0 then -1 else 0, hi / Pow2(b - 32));
  }

  lemma FloorTop(hi: int)
    requires -0x8000_0000 <= hi < 0x8000_0000
    ensures hi / 0x8000_0000 == if hi < 0 then -1 else 0
  {
  }

  /** A high half that repeats the sign of the low half. */
  lemma SignAbove(top: int, x: int)
    requires -0x8000_0000 <= x < 0x8000_0000 && top == if x < 0 then -1 else 0
    ensures Signed(top % W32 * W32 + x % W32) == x
  {
  }

  lemma FloorBetween(x: int, p: nat)
    requires p > 0
    ensures if x < 0 then x <= x / p < 0 else 0 <= x / p <= x
  {
    var d := x / p;
    assert x == d * p + x % p;
    Between(x, d, p, x % p);
  }

  lemma Between(x: int, d: int, p: nat, r: nat)
    requires x == d * p + r && r < p
    ensures if x < 0 then x <= d < 0 else 0 <= d <= x
  {
    if d >= 0 {
      MulLe(1, p, d);
    } else {
      MulLe(1, -d, p - 1);
      assert -d * (p - 1) == d - d * p;
    }
  }

  lemma NearSigned(hi: int, lo: u32, b: nat, rl: u32)
    requires 0 < b < 32 && -0x8000_0000 <= hi < 0x8000_0000
    requires rl == hi % Pow2(b) * Pow2(32 - b) + lo / Pow2(b)
    ensures Signed(hi / Pow2(b) % W32 * W32 + rl) == (hi * W32 + lo) / Pow2(b)
  {
    hide Pow2;
    Complement(b);
    RightSum(hi, lo, Pow2(b), Pow2(32 - b));
    FloorBetween(hi, Pow2(b));
    Assemble(hi / Pow2(b), rl);
  }

  lemma Assemble(rh: int, rl: u32)
    requires -0x8000_0000 <= rh < 0x8000_0000
    ensures Signed(rh % W32 * W32 + rl) == rh * W32 + rl
  {
  }
}
