/** Division of runtime/softfloat.c: one machine division for single precision, a restoring
    shift-subtract loop for double. */
module FloatDiv {
  import opened Words
  import opened Powers
  import opened Rounding
  import opened Bits
  import opened FloatWord
  import opened Guard
  import opened SoftFloat
  import FloatMul

  predicate ExactZero(f: Format, w: nat) { Exp(f, w) == 0 && Frac(f, w) == 0 }

  /** Quotients with an operand that is not finite, or with a divisor that reads as zero. */
  function SpecialQuotient(f: Format, a: nat, b: nat): nat {
    var s := (Sign(f, a) + Sign(f, b)) % 2;
    if Exp(f, a) == f.ExpMax() then
      if Frac(f, a) != 0 then Quiet(f, a)
      else if Exp(f, b) == f.ExpMax() then DefaultNaN(f) else Inf(f, s)
    else if Exp(f, b) == f.ExpMax() then
      if Frac(f, b) != 0 then Quiet(f, b) else Zero(f, s)
    else if ExactZero(f, b) then
      if ExactZero(f, a) then DefaultNaN(f) else Inf(f, s)
    else if Exp(f, a) == 0 then Zero(f, s)
    else Inf(f, s)
  }

  /** The quotient of two words; for finite operands and a divisor that does not read as
      zero, the exact quotient correctly rounded. */
  ghost predicate IsQuotient(f: Format, a: nat, b: nat, r: nat) {
    if IsFinite(f, a) && IsFinite(f, b) && Exp(f, b) != 0 then
      RoundsTo(f, Ratio(Value(f, a), Value(f, b)), (Sign(f, a) + Sign(f, b)) % 2, r)
    else
      r == SpecialQuotient(f, a, b)
  }

  ghost function Ratio(x: real, y: real): real { if y == 0.0 then 0.0 else x / y }

  lemma RatioIs(x: real, y: real, z: real)
    requires y != 0.0 && z * y == x
    ensures Ratio(x, y) == z
  {
  }

  /** Dividing with remainder leaves the integer part of the exact quotient. */
  lemma QuotientBounds(N: nat, d: nat, q: nat, r: nat, y: real)
    requires N == q * d + r && r < d && IsRatio(N as real, d as real, y)
    ensures q as real <= y < (q + 1) as real
    ensures y == q as real <==> r == 0
  {
    var p, p' := q * d, (q + 1) * d;
    assert p' == p + d;
    assert p as real == q as real * d as real;
    assert p' as real == (q + 1) as real * d as real;
    Between(q as real, y, (q + 1) as real, d as real, p as real, N as real, p' as real);
  }

  lemma Between(a: real, y: real, b: real, d: real, p: real, n: real, p': real)
    requires d > 0.0 && p == a * d && n == y * d && p' == b * d && p <= n < p'
    ensures a <= y < b && (y == a <==> n == p)
  {
    MulOrder(a, y, d);
    MulOrder(y, b, d);
  }

  /** y is num / d. Most proofs hide this definition and never see the product. */
  ghost predicate IsRatio(num: real, d: real, y: real) {
    d > 0.0 && y * d == num
  }

  lemma ScaledRatio(num: real, d: real, y: real, i: int, j: int, k: int)
    requires IsRatio(Scaled(num, i), d, y)
    ensures IsRatio(Scaled(num, i + j + k), Scaled(d, k), Scaled(y, j))
  {
    ScaledTimes(y, d, j, k);
    ScaledTwice(num, i, j + k);
    ScaledOrder(0.0, d, k);
    ScaledSum(0.0, 0.0, k);
  }

  lemma RatioExists(num: real, d: real) returns (y: real)
    requires num > 0.0 && d > 0.0
    ensures IsRatio(num, d, y) && y > 0.0
  {
    y := Quotient(num, d);
    MulOrder(0.0, y, d);
  }

  lemma DoubleRatio(num: real, d: real, y: real)
    requires IsRatio(num, d, y)
    ensures IsRatio(2.0 * num, d, 2.0 * y)
  {
    RealAssoc(2.0, y, d);
  }

  /** How an integer quotient and remainder approximate the exact quotient y. */
  ghost predicate Approximates(q: nat, rem: nat, y: real) {
    q as real <= y < (q + 1) as real && (y == q as real <==> rem == 0)
  }

  /** num / mb and num % mb */
  method DivRem(num: u64, mb: u64, ghost y: real) returns (q: u64, rem: u64)
    requires mb > 0 && IsRatio(num as real, mb as real, y)
    requires 0x200_0000 * mb <= num < 0x800_0000 * mb
    ensures Approximates(q, rem, y) && 0x200_0000 <= q < 0x800_0000
  {
    hide IsRatio;
    DivRemBounds(num, mb, num / mb, num % mb);
    q, rem := num / mb, num % mb;
    QuotientBounds(num, mb, q, rem, y);
  }

  lemma DivRemBounds(num: int, mb: int, q: int, rem: int)
    requires mb > 0 && num == q * mb + rem && 0 <= rem < mb
    requires 0x200_0000 * mb <= num < 0x800_0000 * mb
    ensures 0x200_0000 <= q < 0x800_0000
  {
    if q < 0x200_0000 {
      MulLe(q + 1, 0x200_0000, mb);
    }
    if q >= 0x800_0000 {
      MulLe(0x800_0000, q, mb);
    }
  }

  /** Normal operands of __divsf3 */
  method DivSingle(s: nat, ma: u64, mb: u64, ea: nat, eb: nat, ghost y: real, ghost x: real)
    returns (r: nat)
    requires s <= 1 && Normal(Single, ma) && Normal(Single, mb)
    requires IsRatio((ma * 0x400_0000) as real, mb as real, y) && x == Scaled(y, ea - eb - 26)
    ensures Delivers(Single, s, x, r)
  {
    hide IsRatio;
    var exp := ea - eb + 127;
    var num: u64 := ma * 0x400_0000;
    var q, rem := DivRem(num, mb, y);
    r := FinishDiv(s, q, rem, exp, y, x);
  }

  lemma JamDoubled(q: nat, rem: nat, y: real)
    requires Approximates(q, rem, y)
    ensures Jams(Jam(q, rem != 0), y, 1)
    ensures Jams(Jam(2 * q, rem != 0), 2.0 * y, 1)
  {
    JamSingly(q, rem, y);
    JamTwice(q, rem, y);
    hide Jams, Jam;
  }

  lemma JamSingly(q: nat, rem: nat, y: real)
    requires Approximates(q, rem, y)
    ensures Jams(Jam(q, rem != 0), y, 1)
  {
  }

  lemma JamTwice(q: nat, rem: nat, y: real)
    requires Approximates(q, rem, y)
    ensures Jams(Jam(2 * q, rem != 0), 2.0 * y, 1)
  {
  }

  lemma JamLow(q: nat, sticky: bool)
    ensures Jam(q, sticky) / 8 == q / 8 && Jam(q, sticky) % 8 == Jam(q % 8, sticky)
  {
  }

  method FinishDiv(s: nat, q0: nat, rem: nat, exp0: int, ghost y: real, ghost x: real) returns (r: nat)
    requires s <= 1 && 0x200_0000 <= q0 < 0x800_0000 && Approximates(q0, rem, y)
    requires x == Scaled(y, exp0 - Single.Shift() - 3)
    ensures Delivers(Single, s, x, r)
  {
    JamDoubled(q0, rem, y);
    var q: u64, exp := q0, exp0;
    if q < 0x400_0000 {
      Halve(y, exp - Single.Shift() - 3);
      q := q * 2;
      exp := exp - 1;
      r := RoundQuotient(Single, s, q, rem, exp, 2.0 * y, x);
    } else {
      r := RoundQuotient(Single, s, q, rem, exp, y, x);
    }
  }

  /** The remainder joins the three guard bits of q as a sticky bit. */
  method RoundQuotient(f: Format, s: nat, q: u64, rem: nat, exp: int, ghost y: real, ghost x: real)
    returns (r: nat)
    requires s <= 1 && 8 * f.Hidden() <= q < 16 * f.Hidden()
    requires Jams(Jam(q, rem != 0), y, 1) && x == Scaled(y, exp - f.Shift() - 3)
    ensures Delivers(f, s, x, r)
  {
    GuardSizes(f);
    Fits(q / 8, f.FracBits() + 1);
    JamLow(q, rem != 0);
    var sig, rnd := Low(q / 8, f.FracBits() + 1), q % 8;
    if rem != 0 {
      rnd := Jam(rnd, true);
    }
    GuardDecides(f, Jam(q, rem != 0), y, 1, x, exp - f.Shift());
    r := RoundAndPack(f, s, exp, sig, rnd > 4 || (rnd == 4 && sig % 2 == 1), x);
  }

  lemma TwiceTimes(m: nat, p: nat)
    ensures m * 2 * p == 2 * (m * p) && (2 * (m * p)) as real == 2.0 * (m * p) as real
  {
  }

  /** Normal operands of __divdf3 */
  method DivDouble(s: nat, ma0: u64, mb: u64, ea: nat, eb: nat, ghost y: real, ghost x: real)
    returns (r: nat)
    requires s <= 1 && Normal(Double, ma0) && Normal(Double, mb)
    requires IsRatio((ma0 * Pow2(55)) as real, mb as real, y) && x == Scaled(y, ea - eb - 55)
    ensures Delivers(Double, s, x, r)
  {
    hide IsRatio, Scaled, Delivers;
    var ma, exp := ma0, ea - eb + 1023;
    if ma < mb {
      Halve(y, ea - eb - 55);
      DoubleRatio((ma * Pow2(55)) as real, mb as real, y);
      TwiceTimes(ma, Pow2(55));
      ma := ma * 2;
      exp := exp - 1;
      r := DivideAndRound(s, ma, mb, exp, ma * Pow2(55), 2.0 * y, x);
    } else {
      r := DivideAndRound(s, ma, mb, exp, ma * Pow2(55), y, x);
    }
  }

  method DivideAndRound(s: nat, ma: u64, mb: u64, exp: int, ghost N: nat, ghost y: real, ghost x: real)
    returns (r: nat)
    requires s <= 1 && Normal(Double, mb) && mb <= ma < 2 * mb && N == ma * Pow2(55)
    requires IsRatio(N as real, mb as real, y) && x == Scaled(y, exp - Double.Shift() - 3)
    ensures Delivers(Double, s, x, r)
  {
    hide IsRatio;
    var q, rem := DivideSteps(ma, mb, N);
    QuotientBounds(N, mb, q, rem, y);
    JamDoubled(q, rem, y);
    Pow2WideValues();
    Pow2Add(53, 2);
    r := RoundQuotient(Double, s, q, rem, exp, y, x);
  }

  /** The 55-step restoring divider: quotient and remainder of ma * 2^55 by mb. */
  method DivideSteps(ma: u64, mb: u64, ghost N: nat) returns (q: u64, rem: u64)
    requires Normal(Double, mb) && mb <= ma < 2 * mb && N == ma * Pow2(55)
    ensures q * mb + rem == N && rem < mb
    ensures Pow2(55) <= q < 2 * Pow2(55)
  {
    q, rem := 1, ma - mb;
    Pow2WideValues();
    Pow2Add(53, 2);
    for i := 0 to 55
      invariant q * mb + rem == ma * Pow2(i) && rem < mb
      invariant Pow2(i) <= q < 2 * Pow2(i)
    {
      Pow2Monotone(i, 55);
      DivideStep(q, mb, rem, ma, i);
      q := q * 2;
      rem := rem * 2;
      if rem >= mb {
        rem := rem - mb;
        q := q + 1;
      }
    }
  }

  lemma DivideStep(q: nat, mb: nat, rem: nat, ma: nat, i: nat)
    requires q * mb + rem == ma * Pow2(i)
    ensures 2 * q * mb + 2 * rem == ma * Pow2(i + 1)
    ensures (2 * q + 1) * mb + (2 * rem - mb) == ma * Pow2(i + 1)
  {
  }

  lemma SignedRatio(s: nat, t: nat, x: real, y: real, z: real, v: real, w: real)
    requires s <= 1 && t <= 1 && IsRatio(x, y, z) && v == Signed(s, x) && w == Signed(t, y)
    ensures Ratio(v, w) == Signed((s + t) % 2, z)
  {
    var q := Signed((s + t) % 2, z);
    assert q * w == v by {
      assert (-z) * y == -(z * y);
      assert (-z) * (-y) == z * y;
      assert z * (-y) == -(z * y);
    }
    RatioIs(v, w, q);
  }

  lemma ZeroQuotient(f: Format, a: nat, b: nat)
    requires IsFinite(f, a) && IsFinite(f, b) && Exp(f, a) == 0 && Exp(f, b) != 0
    ensures IsQuotient(f, a, b, Zero(f, (Sign(f, a) + Sign(f, b)) % 2))
  {
    assert Value(f, b) != 0.0;
    RatioIs(0.0, Value(f, b), 0.0);
  }

  lemma NormalQuotient(f: Format, a: nat, b: nat, z: real, r: nat)
    requires Word(f, a) && Word(f, b) && IsFinite(f, a) && IsFinite(f, b)
    requires Exp(f, b) != 0 && z > 0.0 && IsRatio(Magnitude(f, a), Magnitude(f, b), z)
    requires Delivers(f, (Sign(f, a) + Sign(f, b)) % 2, z, r)
    ensures IsQuotient(f, a, b, r)
  {
    hide IsRatio;
    hide Ratio;
    FieldBounds(f, a);
    FieldBounds(f, b);
    var s := (Sign(f, a) + Sign(f, b)) % 2;
    SignedRatio(Sign(f, a), Sign(f, b), Magnitude(f, a), Magnitude(f, b), z, Value(f, a), Value(f, b));
    SignedDelivery(f, s, z, r, Ratio(Value(f, a), Value(f, b)), s);
  }

  /** The exact quotient of two normal words, in units in which the divider works. */
  lemma WordQuotient(f: Format, a: nat, b: nat, ma: nat, mb: nat, n: nat) returns (y: real, x: real)
    requires Word(f, a) && Exp(f, a) != 0 && ma == f.Hidden() + Frac(f, a)
    requires Word(f, b) && Exp(f, b) != 0 && mb == f.Hidden() + Frac(f, b)
    ensures Normal(f, ma) && Normal(f, mb)
    ensures IsRatio((ma * Pow2(n)) as real, mb as real, y)
    ensures x == Scaled(y, Exp(f, a) - Exp(f, b) - n)
    ensures x > 0.0 && IsRatio(Magnitude(f, a), Magnitude(f, b), x)
  {
    hide IsRatio;
    FloatMul.WordMagnitude(f, a, ma);
    FloatMul.WordMagnitude(f, b, mb);
    ScaledInteger(ma, n);
    assert ma * Pow2(n) > 0;
    y := RatioExists((ma * Pow2(n)) as real, mb as real);
    var j, k := Exp(f, a) - Exp(f, b) - n, Exp(f, b) - f.Shift();
    x := Scaled(y, j);
    ScaledRatio(ma as real, mb as real, y, n, j, k);
    ScaledOrder(0.0, y, j);
    ScaledSum(0.0, 0.0, j);
  }

  method DivNormals(f: Format, ghost a: nat, ghost b: nat, sign: nat, ma: u64, mb: u64, ea: nat, eb: nat)
    returns (r: nat)
    requires Word(f, a) && Word(f, b) && IsFinite(f, a) && IsFinite(f, b)
    requires Exp(f, a) != 0 && ma == f.Hidden() + Frac(f, a) && ea == Exp(f, a)
    requires Exp(f, b) != 0 && mb == f.Hidden() + Frac(f, b) && eb == Exp(f, b)
    requires sign == (Sign(f, a) + Sign(f, b)) % 2
    ensures IsQuotient(f, a, b, r)
  {
    hide IsRatio;
    ghost var y, x := WordQuotient(f, a, b, ma, mb, if f.Single? then 26 else 55);
    if f.Single? {
      Pow2Values();
      Pow2Add(24, 2);
      r := DivSingle(sign, ma, mb, ea, eb, y, x);
    } else {
      r := DivDouble(sign, ma, mb, ea, eb, y, x);
    }
    NormalQuotient(f, a, b, x, r);
  }

  /** __divsf3 and __divdf3 */
  method Divide(f: Format, a: nat, b: nat) returns (r: nat)
    requires Word(f, a) && Word(f, b)
    ensures IsQuotient(f, a, b, r)
  {
    var aExp, bExp := Exp(f, a), Exp(f, b);
    var sign := (Sign(f, a) + Sign(f, b)) % 2;
    FieldBounds(f, a);
    FieldBounds(f, b);
    if aExp == f.ExpMax() || bExp == f.ExpMax() || ExactZero(f, b) {
      return SpecialQuotient(f, a, b);
    }
    if aExp == 0 {
      if bExp != 0 {
        ZeroQuotient(f, a, b);
      }
      return Zero(f, sign);
    }
    if bExp == 0 {
      return Inf(f, sign);
    }
    r := DivNormals(f, a, b, sign, f.Hidden() + Frac(f, a), f.Hidden() + Frac(f, b), aExp, bExp);
  }
}
