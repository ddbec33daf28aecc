/** Multiplication of runtime/softfloat.c: the single product fits a 64-bit word, the double
    product is built from four partial products by mul64. */
module FloatMul {
  import opened Words
  import opened Powers
  import opened Rounding
  import opened Bits
  import opened FloatWord
  import opened Guard
  import opened SoftFloat

  /** Rounding an integer at bit n by comparing the lost bits with one half is correct. */
  lemma RemainderDecides(x: real, N: nat, n: nat, t: int)
    requires n > 0 && x == Scaled(N as real, t - n)
    ensures Decides(x, Shr(N, n), t, AboveHalf(N, n))
  {
    var s, rem, half := Shr(N, n), Low(N, n), Pow2(n - 1);
    var z := Scaled(N as real, -(n as int));
    ScaledTwice(N as real, -(n as int), t);
    Split(N, n);
    Unshift(s, n);
    assert N as real == (s * Pow2(n)) as real + rem as real;
    ScaledSum((s * Pow2(n)) as real, rem as real, -(n as int));
    var d := Scaled(rem as real, -(n as int));
    assert z == s as real + d;
    HalfUnit(n);
    ScaledSum(0.0, 0.0, -(n as int));
    ScaledOrder(rem as real, half as real, -(n as int));
    ScaledOrder(rem as real, Pow2(n) as real, -(n as int));
    ScaledOrder(rem as real, 0.0, -(n as int));
    DecidesByFraction(x, z, s, t, AboveHalf(N, n));
  }

  lemma HalfUnit(n: nat)
    requires n > 0
    ensures Scaled(Pow2(n - 1) as real, -(n as int)) == 0.5
    ensures Scaled(Pow2(n) as real, -(n as int)) == 1.0
  {
    ScaledInteger(1, n - 1);
    ScaledTwice(1.0, n - 1, -(n as int));
    assert Scaled(1.0, -1) == 0.5;
    Unshift(1, n);
  }

  /** rem > half || (rem == half && (sig & 1)) */
  predicate AboveHalf(N: nat, n: nat)
    requires n > 0
  {
    Low(N, n) > Pow2(n - 1) || (Low(N, n) == Pow2(n - 1) && Shr(N, n) % 2 == 1)
  }

  function SpecialProduct(f: Format, a: nat, b: nat): nat {
    var s := (Sign(f, a) + Sign(f, b)) % 2;
    if Exp(f, a) == f.ExpMax() then
      if Frac(f, a) != 0 then Quiet(f, a)
      else if Exp(f, b) == 0 && Frac(f, b) == 0 then DefaultNaN(f) else Inf(f, s)
    else if Frac(f, b) != 0 then Quiet(f, b)
    else if Exp(f, a) == 0 && Frac(f, a) == 0 then DefaultNaN(f) else Inf(f, s)
  }

  /** The product of two words; for finite operands the exact product correctly rounded. */
  ghost predicate IsProduct(f: Format, a: nat, b: nat, r: nat) {
    if IsFinite(f, a) && IsFinite(f, b) then
      RoundsTo(f, Value(f, a) * Value(f, b), (Sign(f, a) + Sign(f, b)) % 2, r)
    else
      r == SpecialProduct(f, a, b)
  }

  /** The 128-bit product of two 64-bit words, from 32-bit halves: no carry is lost. */
  method Mul64(a: u64, b: u64) returns (hi: u64, lo: u64)
    ensures hi * 0x1_0000_0000_0000_0000 + lo == a * b
  {
    var al, ah, bl, bh := a % 0x1_0000_0000, a / 0x1_0000_0000, b % 0x1_0000_0000, b / 0x1_0000_0000;
    MulBound(al, bl, 0xffff_ffff);
    MulBound(al, bh, 0xffff_ffff);
    MulBound(ah, bl, 0xffff_ffff);
    MulBound(ah, bh, 0xffff_ffff);
    var ll: u64, lh: u64, hl: u64, hh: u64 := al * bl, al * bh, ah * bl, ah * bh;
    PartialProducts(a, b, al, ah, bl, bh);
    MulBound(a, b, 0xffff_ffff_ffff_ffff);
    hi, lo := Recombine(ll, lh, hl, hh, a * b);
  }

  method Recombine(ll: u64, lh: u64, hl: u64, hh: u64, ghost product: int) returns (hi: u64, lo: u64)
    requires product == hh * 0x1_0000_0000_0000_0000 + (lh + hl) * 0x1_0000_0000 + ll
    requires product < 0x1_0000_0000_0000_0000 * 0x1_0000_0000_0000_0000
    ensures hi * 0x1_0000_0000_0000_0000 + lo == product
  {
    var mid: u64 := ll / 0x1_0000_0000 + lh % 0x1_0000_0000 + hl % 0x1_0000_0000;
    lo := ll % 0x1_0000_0000 + mid * 0x1_0000_0000 % 0x1_0000_0000_0000_0000;
    assert mid * 0x1_0000_0000 % 0x1_0000_0000_0000_0000 == mid % 0x1_0000_0000 * 0x1_0000_0000 by {
      DivMod(mid / 0x1_0000_0000, mid % 0x1_0000_0000 * 0x1_0000_0000, 0x1_0000_0000_0000_0000);
    }
    hi := hh + lh / 0x1_0000_0000 + hl / 0x1_0000_0000 + mid / 0x1_0000_0000;
  }

  lemma MulBound(x: int, y: int, m: int)
    requires 0 <= x <= m && 0 <= y <= m
    ensures 0 <= x * y <= m * m
  {
    MulLe(x, m, y);
    MulLe(y, m, m);
  }

  lemma PartialProducts(a: int, b: int, al: int, ah: int, bl: int, bh: int)
    requires a == ah * 0x1_0000_0000 + al && b == bh * 0x1_0000_0000 + bl
    ensures a * b == ah * bh * 0x1_0000_0000_0000_0000 + (al * bh + ah * bl) * 0x1_0000_0000 + al * bl
  {
    var W := 0x1_0000_0000;
    assert a * b == ah * W * b + al * b;
    assert al * b == al * bh * W + al * bl;
    assert ah * W * b == W * (ah * b);
    assert ah * b == ah * bh * W + ah * bl;
  }

  lemma Squares(h: int, ma: int, mb: int)
    requires 0 < h <= ma < 2 * h && h <= mb < 2 * h
    ensures h * h <= ma * mb < 4 * (h * h)
  {
    MulLe(h, ma, mb);
    MulLe(h, mb, h);
    MulBound(ma, mb, 2 * h - 1);
    assert (2 * h - 1) * (2 * h - 1) == 4 * (h * h) - 4 * h + 1;
  }

  /** A product of two full significands has one of two lengths. */
  ghost predicate Product(f: Format, prod: nat) {
    Pow2(2 * f.FracBits()) <= prod < 4 * Pow2(2 * f.FracBits())
  }

  lemma ProductLength(f: Format, ma: nat, mb: nat)
    requires Normal(f, ma) && Normal(f, mb)
    ensures Product(f, ma * mb)
  {
    FormatSizes(f);
    Squares(f.Hidden(), ma, mb);
    Pow2Add(f.FracBits(), f.FracBits());
  }

  /** Its top bit says which, and which shift leaves a full significand. */
  lemma ProductNormalises(f: Format, prod: nat, top: bool)
    requires Product(f, prod) && top == Bit(prod, 2 * f.FracBits() + 1)
    ensures Normal(f, Shr(prod, f.FracBits() + (if top then 1 else 0)))
  {
    var n := f.FracBits();
    FormatSizes(f);
    TopBit(prod, 2 * n + 1);
    ShiftedRange(prod, n + (if top then 1 else 0), n);
  }

  lemma ShiftedRange(w: nat, n: nat, k: nat)
    requires Pow2(k + n) <= w < 2 * Pow2(k + n)
    ensures Pow2(k) <= Shr(w, n) < 2 * Pow2(k)
  {
    Pow2Add(k, n);
    Split(w, n);
    QuotientRange(w, Pow2(n), Shr(w, n), Low(w, n), Pow2(k));
  }

  lemma QuotientRange(w: int, p: int, q: int, r: int, lo: int)
    requires w == q * p + r && 0 <= r < p
    requires lo * p <= w < 2 * (lo * p)
    ensures lo <= q < 2 * lo
  {
    if q < lo {
      MulLe(q + 1, lo, p);
    }
    if q >= 2 * lo {
      MulLe(2 * lo, q, p);
    }
  }

  /** The exact product of two grid points, as an integer at a common exponent. */
  lemma ExactProduct(f: Format, ma: nat, mb: nat, ea: int, eb: int)
    ensures Grid(ma, ea - f.Shift()) * Grid(mb, eb - f.Shift())
            == Scaled((ma * mb) as real, ea + eb - 2 * f.Shift())
  {
    hide Scaled;
    ScaledTimes(ma as real, mb as real, ea - f.Shift(), eb - f.Shift());
    assert (ma * mb) as real == ma as real * mb as real;
  }

  /** Normal operands of __mulsf3, from the 48-bit product on */
  method MulSingle(s: nat, prod: u64, ea: nat, eb: nat, ghost x: real) returns (r: nat)
    requires s <= 1 && Product(Single, prod)
    requires x == Scaled(prod as real, ea + eb - 2 * Single.Shift())
    ensures Delivers(Single, s, x, r)
  {
    var n := Single.FracBits();
    var exp := ea + eb - 127;
    var shift := n;
    ProductNormalises(Single, prod, Bit(prod, 2 * n + 1));
    if Bit(prod, 2 * n + 1) {
      exp := exp + 1;
      shift := n + 1;
    }
    RemainderDecides(x, prod, shift, exp - Single.Shift());
    GuardSizes(Single);
    Fits(Shr(prod, shift), n + 1);
    var sig := Low(Shr(prod, shift), n + 1);
    var rem, half := Low(prod, shift), Pow2(shift - 1);
    r := RoundAndPack(Single, s, exp, sig, rem > half || (rem == half && sig % 2 == 1), x);
  }

  /** Shifting a two-word number right by at most 64 places. */
  lemma WideShift(hi: nat, lo: nat, prod: nat, shift: nat)
    requires prod == hi * 0x1_0000_0000_0000_0000 + lo
    requires shift <= 64
    ensures Shr(prod, shift) == hi * Pow2(64 - shift) + Shr(lo, shift)
    ensures Low(prod, shift) == Low(lo, shift)
  {
    Pow2WideValues();
    Pow2Add(64 - shift, shift);
    WideFields(hi, lo, prod, shift, Pow2(64 - shift), Pow2(shift));
  }

  lemma WideFields(hi: nat, lo: nat, prod: nat, shift: nat, p: nat, q: nat)
    requires q == Pow2(shift) && prod == hi * (p * q) + lo
    ensures Shr(prod, shift) == hi * p + Shr(lo, shift)
    ensures Low(prod, shift) == Low(lo, shift)
  {
    hide Shr, Low, Pow2;
    Split(lo, shift);
    var s, r := Shr(lo, shift), Low(lo, shift);
    Factor(hi, p, q, s, r);
    TwoFields(prod, hi * p + s, r, q, shift);
  }

  lemma TwoFields(w: nat, hi: nat, lo: nat, q: nat, n: nat)
    requires q == Pow2(n) && w == hi * q + lo && lo < q
    ensures Shr(w, n) == hi && Low(w, n) == lo
  {
    hide Shr, Low, Pow2;
    Fields(hi, lo, n);
  }

  lemma Factor(hi: int, p: int, q: int, s: int, r: int)
    ensures hi * (p * q) + (s * q + r) == (hi * p + s) * q + r
  {
    assert hi * (p * q) == hi * p * q;
  }

  /** Normal operands of __muldf3, from the two words of the 106-bit product on */
  method MulDouble(s: nat, hi: u64, lo: u64, ea: nat, eb: nat, ghost prod: nat, ghost x: real)
    returns (r: nat)
    requires s <= 1 && Product(Double, prod)
    requires prod == hi * 0x1_0000_0000_0000_0000 + lo
    requires x == Scaled(prod as real, ea + eb - 2 * Double.Shift())
    ensures Delivers(Double, s, x, r)
  {
    var n := Double.FracBits();
    var exp := ea + eb - 1023;
    var shift := n;
    HighBit(hi, lo, prod);
    ProductNormalises(Double, prod, Bit(hi, 41));
    if Bit(hi, 41) {
      exp := exp + 1;
      shift := n + 1;
    }
    WideShift(hi, lo, prod, shift);
    r := RoundWide(s, hi, lo, shift, exp, prod, x);
  }

  method RoundWide(s: nat, hi: u64, lo: u64, shift: nat, exp: int, ghost prod: nat, ghost x: real)
    returns (r: nat)
    requires s <= 1 && 0 < shift <= 64
    requires Shr(prod, shift) == hi * Pow2(64 - shift) + Shr(lo, shift)
    requires Low(prod, shift) == Low(lo, shift)
    requires Normal(Double, Shr(prod, shift))
    requires x == Scaled(prod as real, exp - Double.Shift() - shift)
    ensures Delivers(Double, s, x, r)
  {
    RemainderDecides(x, prod, shift, exp - Double.Shift());
    var sig := hi * Pow2(64 - shift) + Shr(lo, shift);
    var g, half := Low(lo, shift), Pow2(shift - 1);
    r := RoundAndPack(Double, s, exp, sig, g > half || (g == half && sig % 2 == 1), x);
  }

  lemma HighBit(hi: nat, lo: nat, prod: nat)
    requires prod == hi * 0x1_0000_0000_0000_0000 + lo && lo < 0x1_0000_0000_0000_0000
    ensures Bit(hi, 41) == Bit(prod, 2 * Double.FracBits() + 1)
  {
    Pow2WideValues();
    Fields(hi, lo, 64);
    BitShr(prod, 64, 41);
  }

  lemma {:induction false} BitShr(w: nat, m: nat, n: nat)
    ensures Bit(Shr(w, m), n) == Bit(w, m + n)
    decreases m
  {
    if m > 0 {
      BitShr(w / 2, m - 1, n);
    }
  }

  lemma ZeroProduct(f: Format, a: nat, b: nat)
    requires Exp(f, a) == 0 || Exp(f, b) == 0
    requires IsFinite(f, a) && IsFinite(f, b)
    ensures IsProduct(f, a, b, Zero(f, (Sign(f, a) + Sign(f, b)) % 2))
  {
    assert Value(f, a) * Value(f, b) == 0.0;
  }

  lemma SignedProduct(s: nat, t: nat, x: real, y: real, p: real, v: real, w: real)
    requires s <= 1 && t <= 1 && p == x * y && v == Signed(s, x) && w == Signed(t, y)
    ensures v * w == Signed((s + t) % 2, p)
  {
    assert v * w == if s == t then x * y else -(x * y);
  }

  lemma ProductOfValues(f: Format, a: nat, b: nat, x: real, y: real, p: real)
    requires Word(f, a) && Word(f, b)
    requires x == Magnitude(f, a) && y == Magnitude(f, b) && p == x * y
    ensures Value(f, a) * Value(f, b) == Signed((Sign(f, a) + Sign(f, b)) % 2, p)
  {
    FieldBounds(f, a);
    FieldBounds(f, b);
    SignedProduct(Sign(f, a), Sign(f, b), x, y, p, Value(f, a), Value(f, b));
  }

  lemma NormalProduct(f: Format, a: nat, b: nat, p: real, r: nat)
    requires Word(f, a) && Word(f, b) && IsFinite(f, a) && IsFinite(f, b)
    requires p > 0.0 && Value(f, a) * Value(f, b) == Signed((Sign(f, a) + Sign(f, b)) % 2, p)
    requires Delivers(f, (Sign(f, a) + Sign(f, b)) % 2, p, r)
    ensures IsProduct(f, a, b, r)
  {
    var s := (Sign(f, a) + Sign(f, b)) % 2;
    SignedDelivery(f, s, p, r, Value(f, a) * Value(f, b), s);
  }

  lemma WordMagnitude(f: Format, a: nat, ma: nat)
    requires Word(f, a) && Exp(f, a) != 0 && ma == f.Hidden() + Frac(f, a)
    ensures Normal(f, ma) && Magnitude(f, a) == Grid(ma, Exp(f, a) - f.Shift())
    ensures Grid(ma, Exp(f, a) - f.Shift()) > 0.0
  {
    FieldBounds(f, a);
    GridPositive(f, ma, Exp(f, a) - f.Shift());
  }

  lemma PositiveProduct(x: real, y: real)
    requires x > 0.0 && y > 0.0
    ensures x * y > 0.0
  {
  }

  lemma MagnitudeProduct(f: Format, a: nat, b: nat, ma: nat, mb: nat) returns (p: real)
    requires Word(f, a) && Exp(f, a) != 0 && ma == f.Hidden() + Frac(f, a)
    requires Word(f, b) && Exp(f, b) != 0 && mb == f.Hidden() + Frac(f, b)
    ensures p == Magnitude(f, a) * Magnitude(f, b)
    ensures p == Scaled((ma * mb) as real, Exp(f, a) + Exp(f, b) - 2 * f.Shift())
  {
    hide Scaled, Grid, Exp, Frac;
    ExactProduct(f, ma, mb, Exp(f, a), Exp(f, b));
    p := Magnitude(f, a) * Magnitude(f, b);
  }

  lemma SignedWordProduct(f: Format, a: nat, b: nat, p: real)
    requires Word(f, a) && Exp(f, a) != 0
    requires Word(f, b) && Exp(f, b) != 0
    requires p == Magnitude(f, a) * Magnitude(f, b)
    ensures p > 0.0
    ensures Value(f, a) * Value(f, b) == Signed((Sign(f, a) + Sign(f, b)) % 2, p)
  {
    PositiveProduct(Magnitude(f, a), Magnitude(f, b));
    hide Value, Signed, Magnitude;
    ProductOfValues(f, a, b, Magnitude(f, a), Magnitude(f, b), p);
  }

  /** The exact product of two normal words. */
  lemma WordProduct(f: Format, a: nat, b: nat, ma: nat, mb: nat) returns (p: real)
    requires Word(f, a) && Exp(f, a) != 0 && ma == f.Hidden() + Frac(f, a)
    requires Word(f, b) && Exp(f, b) != 0 && mb == f.Hidden() + Frac(f, b)
    ensures p > 0.0
    ensures Value(f, a) * Value(f, b) == Signed((Sign(f, a) + Sign(f, b)) % 2, p)
    ensures p == Scaled((ma * mb) as real, Exp(f, a) + Exp(f, b) - 2 * f.Shift())
  {
    p := MagnitudeProduct(f, a, b, ma, mb);
    SignedWordProduct(f, a, b, p);
  }

  method MulNormals(f: Format, ghost a: nat, ghost b: nat, sign: nat, ma: u64, mb: u64, ea: nat, eb: nat)
    returns (r: nat)
    requires Word(f, a) && Word(f, b) && IsFinite(f, a) && IsFinite(f, b)
    requires Exp(f, a) != 0 && ma == f.Hidden() + Frac(f, a) && ea == Exp(f, a)
    requires Exp(f, b) != 0 && mb == f.Hidden() + Frac(f, b) && eb == Exp(f, b)
    requires sign == (Sign(f, a) + Sign(f, b)) % 2
    ensures IsProduct(f, a, b, r)
  {
    ghost var x := WordProduct(f, a, b, ma, mb);
    FieldBounds(f, a);
    FieldBounds(f, b);
    r := MulSignificands(f, sign, ma, mb, ea, eb, x);
    NormalProduct(f, a, b, x, r);
  }

  method MulSignificands(f: Format, sign: nat, ma: u64, mb: u64, ea: nat, eb: nat, ghost x: real)
    returns (r: nat)
    requires sign <= 1 && Normal(f, ma) && Normal(f, mb)
    requires x == Scaled((ma * mb) as real, ea + eb - 2 * f.Shift())
    ensures Delivers(f, sign, x, r)
  {
    ProductLength(f, ma, mb);
    if f.Single? {
      MulBound(ma, mb, 0xff_ffff);
      var prod: u64 := ma * mb;
      r := MulSingle(sign, prod, ea, eb, x);
    } else {
      var hi, lo := Mul64(ma, mb);
      r := MulDouble(sign, hi, lo, ea, eb, ma * mb, x);
    }
  }

  /** __mulsf3 and __muldf3 differ only in how normal significands are multiplied. */
  method Multiply(f: Format, a: nat, b: nat) returns (r: nat)
    requires Word(f, a) && Word(f, b)
    ensures IsProduct(f, a, b, r)
  {
    var aExp, bExp := Exp(f, a), Exp(f, b);
    var sign := (Sign(f, a) + Sign(f, b)) % 2;
    FieldBounds(f, a);
    FieldBounds(f, b);
    if aExp == f.ExpMax() || bExp == f.ExpMax() {
      return SpecialProduct(f, a, b);
    }
    if aExp == 0 || bExp == 0 {
      ZeroProduct(f, a, b);
      return Zero(f, sign);
    }
    r := MulNormals(f, a, b, sign, f.Hidden() + Frac(f, a), f.Hidden() + Frac(f, b), aExp, bExp);
  }
}
