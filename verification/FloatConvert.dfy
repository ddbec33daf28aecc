/** Conversions of runtime/softfloat.c between integers, single and double precision. */
module FloatConvert {
  import opened Words
  import opened Powers
  import opened Rounding
  import opened Bits
  import opened FloatWord
  import opened Guard
  import opened SoftFloat
  import FloatMul

  /** The loop that walks down from bit 31 to the highest set bit. */
  method HighestBit(u: u32) returns (e: nat)
    requires u != 0
    ensures e <= 31 && Pow2(e) <= u < 2 * Pow2(e)
  {
    e := 31;
    Pow2Values();
    TopBit(u, 31);
    while !Bit(u, e)
      invariant e <= 31 && u < 2 * Pow2(e) && (Bit(u, e) <==> u >= Pow2(e))
      decreases e
    {
      if e == 0 {
        assert false;
      }
      e := e - 1;
      TopBit(u, e);
    }
  }

  /** u << n is the significand of u when its highest bit moves to the hidden place. */
  lemma LeftAligned(f: Format, u: nat, e: nat)
    requires e <= f.FracBits() && Pow2(e) <= u < 2 * Pow2(e)
    ensures var n := f.FracBits() - e; Normal(f, u * Pow2(n)) && Grid(u * Pow2(n), -(n as int)) == u as real
  {
    var n := f.FracBits() - e;
    FormatSizes(f);
    Pow2Add(e, n);
    AlignedRange(u, Pow2(e), Pow2(n));
    Unshift(u, n);
  }

  lemma AlignedRange(u: int, p: int, q: int)
    requires p <= u < 2 * p && q > 0
    ensures p * q <= u * q < 2 * (p * q)
  {
    MulLe(p, u, q);
    MulLe(u + 1, 2 * p, q);
  }

  lemma ExactPack(f: Format, s: nat, x: real, m: nat, e: nat)
    requires s <= 1 && Normal(f, m) && 0 < e < f.ExpMax() && x == Grid(m, e - f.Shift())
    ensures Delivers(f, s, x, Pack(f, s, e, Low(m, f.FracBits())))
  {
    ExactIsNearest(f, m, e - f.Shift());
    FormatSizes(f);
    Fields(1, m - f.Hidden(), f.FracBits());
    assert NearestEven(f, x, m, e - f.Shift()) && Pack(f, s, e, Low(m, f.FracBits())) == Encode(f, s, m, e - f.Shift());
  }

  /** __floatsisf and __floatunsisf after the sign has been taken off. */
  method SingleFromMagnitude(s: nat, u: u32) returns (r: nat)
    requires s <= 1 && u != 0
    ensures Delivers(Single, s, u as real, r)
  {
    hide Delivers, Decides, Grid, Normal, Scaled;
    var e := HighestBit(u);
    var n := Single.FracBits();
    var exp, sig := 127 + e, 0;
    if e <= 23 {
      LeftAligned(Single, u, e);
      sig := u * Pow2(n - e);
      ExactPack(Single, s, u as real, sig, exp);
      r := Pack(Single, s, exp, Low(sig, n));
    } else {
      r := RoundedSingle(s, u, e, exp);
    }
  }

  method RoundedSingle(s: nat, u: u32, e: nat, exp: nat) returns (r: nat)
    requires s <= 1 && Pow2(e) <= u < 2 * Pow2(e) && e > 23 && exp == 127 + e
    ensures Delivers(Single, s, u as real, r)
  {
    hide Delivers, Decides, Grid, Scaled, Shr, Low;
    var n := Single.FracBits();
    var sh := e - n;
    FloatMul.ShiftedRange(u, sh, n);
    FullSignificand(Single, Shr(u, sh));
    ScaledZero(u as real);
    FloatMul.RemainderDecides(u as real, u, sh, exp - Single.Shift());
    var round, half := Low(u, sh), Pow2(sh - 1);
    var sig := Shr(u, sh);
    r := RoundAndPack(Single, s, exp, sig, round > half || (round == half && sig % 2 == 1), u as real);
  }

  lemma ScaledZero(x: real)
    ensures Scaled(x, 0) == x
  {
  }

  lemma FullSignificand(f: Format, sig: nat)
    requires Pow2(f.FracBits()) <= sig < 2 * Pow2(f.FracBits())
    ensures Normal(f, sig)
  {
    FormatSizes(f);
  }

  /** __floatsidf and __floatunsidf after the sign has been taken off: always exact. */
  method DoubleFromMagnitude(s: nat, u: u32) returns (r: nat)
    requires s <= 1 && u != 0
    ensures Delivers(Double, s, u as real, r)
  {
    hide Delivers, Grid, Normal;
    var e := HighestBit(u);
    var n := Double.FracBits();
    LeftAligned(Double, u, e);
    var sig := u * Pow2(n - e);
    ExactPack(Double, s, u as real, sig, 1023 + e);
    r := Pack(Double, s, 1023 + e, Low(sig, n));
  }

  method FromSigned(f: Format, i: s32) returns (r: nat)
    ensures RoundsTo(f, i as real, 0, r)
  {
    hide Delivers;
    if i == 0 {
      return 0;
    }
    var s := if i < 0 then 1 else 0;
    var u: u32 := if i < 0 then -(i as int) else i;
    if f.Single? {
      r := SingleFromMagnitude(s, u);
    } else {
      r := DoubleFromMagnitude(s, u);
    }
    SignedDelivery(f, s, u as real, r, i as real, 0);
  }

  method FromUnsigned(f: Format, u: u32) returns (r: nat)
    ensures RoundsTo(f, u as real, 0, r)
  {
    hide Delivers;
    if u == 0 {
      return 0;
    }
    if f.Single? {
      r := SingleFromMagnitude(0, u);
    } else {
      r := DoubleFromMagnitude(0, u);
    }
    SignedDelivery(f, 0, u as real, r, u as real, 0);
  }

  /** Every 32-bit integer is a double. */
  lemma DoubleIsExact(i: int, r: nat)
    requires -0x1_0000_0000 < i < 0x1_0000_0000 && RoundsTo(Double, i as real, 0, r)
    ensures Word(Double, r) && IsFinite(Double, r) && Value(Double, r) == i as real
  {
    if i == 0 {
      Unpack(Double, 0, 0, 0);
    } else {
      var u: u32 := if i < 0 then -i else i;
      var e := BitLength(u);
      var n := Double.FracBits() - e;
      LeftAligned(Double, u, e);
      var m, s := u * Pow2(n), SignOf(i as real);
      assert Abs(i as real) == u as real;
      ExactIsNearest(Double, m, -n);
      assert Delivers(Double, s, u as real, Encode(Double, s, m, -n)) by {
        assert NearestEven(Double, u as real, m, -n);
      }
      DeliveryIsUnique(Double, s, u as real, r, Encode(Double, s, m, -n));
      EncodedValue(Double, s, m, -n);
      Unpack(Double, s, -n + Double.Shift(), m - Double.Hidden());
    }
  }

  lemma BitLength(u: u32) returns (e: nat)
    requires u != 0
    ensures e <= 31 && Pow2(e) <= u < 2 * Pow2(e)
  {
    Pow2Values();
    e := 31;
    while u < Pow2(e)
      invariant e <= 31 && u < 2 * Pow2(e)
    {
      e := e - 1;
    }
  }

  ghost function Trunc(x: real): int { if x >= 0.0 then x.Floor else -((-x).Floor) }

  ghost function Clamp(n: int): int {
    if n > 0x7fff_ffff then 0x7fff_ffff else if n < -0x8000_0000 then -0x8000_0000 else n
  }

  /** Truncation toward zero, saturating; infinities and NaNs saturate by sign. */
  ghost predicate IsFix(f: Format, a: nat, r: int) {
    if IsFinite(f, a) then r == Clamp(Trunc(Value(f, a)))
    else r == if Sign(f, a) == 1 then -0x8000_0000 else 0x7fff_ffff
  }

  /** A value below one truncates to zero, and one of 2^31 or more saturates. */
  lemma FixRange(f: Format, m: nat, e: int)
    requires Normal(f, m)
    ensures Grid(m, e - f.FracBits()) > 0.0
    ensures e < 0 ==> Grid(m, e - f.FracBits()) < 1.0
    ensures e >= 31 ==> Grid(m, e - f.FracBits()) >= 0x8000_0000 as real
  {
    var n := f.FracBits();
    FormatSizes(f);
    GridPositive(f, m, e - n);
    Unshift(1, n + 1);
    Unshift(1, n);
    Pow2Values();
    ScaledInteger(1, 31);
    Stretch(m, 2 * f.Hidden(), e - n);
    Stretch(f.Hidden(), m, e - n);
    ScaledTwice((2 * f.Hidden()) as real, -(n as int) - 1, e + 1);
    ScaledTwice(f.Hidden() as real, -(n as int), e);
    if e < 0 {
      ScaledGrowsOrSame(e + 1, 0);
    }
    if e >= 31 {
      ScaledGrowsOrSame(31, e);
    }
  }

  lemma ScaledGrowsOrSame(j: int, k: int)
    requires j <= k
    ensures Scaled(1.0, j) <= Scaled(1.0, k)
  {
    if j < k {
      ScaledGrows(1.0, j, k);
    }
  }

  /** A left or right shift of the significand is the floor of the value. */
  lemma ShiftIsFloor(f: Format, m: nat, e: nat)
    ensures var n := f.FracBits();
            Grid(m, e - n).Floor == if e >= n then m * Pow2(e - n) else Shr(m, n - e)
  {
    var n := f.FracBits();
    if e >= n {
      ScaledInteger(m, e - n);
    } else {
      Split(m, n - e);
      ShiftBounds(m, n - e, Shr(m, n - e), Low(m, n - e));
    }
  }

  /** __fixsfsi and __fixdfsi */
  method Fix(f: Format, a: nat) returns (r: s32)
    requires Word(f, a)
    ensures IsFix(f, a, r)
  {
    hide Grid, Shr, Low;
    var exp := Exp(f, a);
    FieldBounds(f, a);
    var sig: u64 := f.Hidden() + Frac(f, a);
    FixRange(f, sig, exp - f.Bias());
    if exp < f.Bias() {
      return 0;
    }
    var e := exp - f.Bias();
    if e >= 31 {
      return if Sign(f, a) == 1 then -0x8000_0000 else 0x7fff_ffff;
    }
    FixBelow(f, sig, e);
    ShiftIsFloor(f, sig, e);
    var m := if e >= f.FracBits() then sig * Pow2(e - f.FracBits()) else Shr(sig, f.FracBits() - e);
    r := if Sign(f, a) == 1 then -(m as int) else m;
  }

  lemma FixBelow(f: Format, m: nat, e: int)
    requires Normal(f, m) && e < 31
    ensures Grid(m, e - f.FracBits()) < 0x8000_0000 as real
  {
    var n := f.FracBits();
    FormatSizes(f);
    Unshift(1, n + 1);
    Pow2Values();
    ScaledInteger(1, 31);
    Stretch(m, 2 * f.Hidden(), e - n);
    ScaledTwice((2 * f.Hidden()) as real, -(n as int) - 1, e + 1);
    ScaledGrowsOrSame(e + 1, 31);
  }

  /** __extendsfdf2 */
  function Extend(a: nat): nat
    requires Word(Single, a)
  {
    var e, frac, s := Exp(Single, a), Frac(Single, a), Sign(Single, a);
    if e == 0xff then Pack(Double, s, 0x7ff, frac * 0x2000_0000)
    else if e == 0 then Zero(Double, s)
    else Pack(Double, s, e - 127 + 1023, frac * 0x2000_0000)
  }

  /** Widening changes no value and no sign. */
  lemma ExtendIsExact(a: nat)
    requires Word(Single, a)
    ensures Word(Double, Extend(a)) && Sign(Double, Extend(a)) == Sign(Single, a)
    ensures IsFinite(Single, a) <==> IsFinite(Double, Extend(a))
    ensures IsNaN(Single, a) <==> IsNaN(Double, Extend(a))
    ensures IsFinite(Single, a) ==> Value(Double, Extend(a)) == Value(Single, a)
  {
    FieldBounds(Single, a);
    var e, frac, s := Exp(Single, a), Frac(Single, a), Sign(Single, a);
    Unpack(Double, s, 0x7ff, frac * 0x2000_0000);
    Unpack(Double, s, 0, 0);
    if 0 < e < 0xff {
      Unpack(Double, s, e + 896, frac * 0x2000_0000);
      WidenGrid(Single.Hidden() + frac, e - Single.Shift());
    }
  }

  lemma WidenGrid(m: nat, k: int)
    ensures Grid(m, k) == Grid(m * 0x2000_0000, k - 29)
  {
    Pow2Values();
    ScaledInteger(m, 29);
    ScaledTwice(m as real, 29, k - 29);
  }

  /** Narrowing: the double's value correctly rounded to single precision. */
  ghost predicate IsTruncation(a: nat, r: nat) {
    var s := Sign(Double, a);
    if IsFinite(Double, a) then RoundsTo(Single, Value(Double, a), s, r)
    else if IsInf(Double, a) then r == Inf(Single, s)
    else r == Pack(Single, s, 0xff, SetBit(Shr(Frac(Double, a), 29), 22))
  }

  /** __truncdfsf2 */
  method Truncate(a: nat) returns (r: nat)
    requires Word(Double, a)
    ensures IsTruncation(a, r)
  {
    hide Delivers, Decides, Grid, Scaled, Shr, Low, RoundsTo;
    var aExp, aSig := Exp(Double, a), Frac(Double, a);
    var sign := Sign(Double, a);
    FieldBounds(Double, a);
    if aExp == 0x7ff {
      return if aSig != 0 then Pack(Single, sign, 0xff, SetBit(Shr(aSig, 29), 22)) else Inf(Single, sign);
    }
    if aExp == 0 {
      TruncatedZero(a);
      return Zero(Single, sign);
    }
    var exp := aExp - 1023 + 127;
    var m: u64 := Double.Hidden() + aSig;
    FormatSizes(Double);
    Pow2Values();
    FloatMul.ShiftedRange(m, 29, Single.FracBits());
    FullSignificand(Single, Shr(m, 29));
    FloatMul.RemainderDecides(Grid(m, aExp - Double.Shift()), m, 29, exp - Single.Shift()) by {
      ScaledIsGrid(m, aExp - Double.Shift());
    }
    Fits(Shr(m, 29), 24);
    var sig := Low(Shr(m, 29), 24);
    var g, half := Low(m, 29), 0x1000_0000;
    r := RoundAndPack(Single, sign, exp, sig, g > half || (g == half && sig % 2 == 1), Grid(m, aExp - Double.Shift()));
    SignedDelivery(Single, sign, Magnitude(Double, a), r, Value(Double, a), sign);
  }

  lemma ScaledIsGrid(m: nat, k: int)
    ensures Grid(m, k) == Scaled(m as real, k)
  {
  }

  lemma TruncatedZero(a: nat)
    requires Exp(Double, a) == 0
    ensures IsTruncation(a, Zero(Single, Sign(Double, a)))
  {
  }

  /** Converting an integer to single directly, or through double, gives the same word. */
  lemma ConversionPathsAgree(i: s32, viaDouble: nat, narrowed: nat, direct: nat)
    requires RoundsTo(Double, i as real, 0, viaDouble)
    requires IsTruncation(viaDouble, narrowed)
    requires RoundsTo(Single, i as real, 0, direct)
    ensures narrowed == direct
  {
    hide Delivers;
    DoubleIsExact(i, viaDouble);
    if i == 0 {
      Unpack(Double, 0, 0, 0);
    } else {
      DeliveryIsUnique(Single, SignOf(i as real), Abs(i as real), narrowed, direct);
    }
  }

  /** An integer survives a trip through double precision. */
  lemma IntegerRoundTrip(i: s32, d: nat, r: int)
    requires RoundsTo(Double, i as real, 0, d) && IsFix(Double, d, r)
    ensures r == i
  {
    DoubleIsExact(i, d);
  }

  /** A single survives a trip through double precision, unless the trip changes it by
      design: subnormals are flushed and signalling NaNs are quieted. */
  lemma WidenRoundTrip(a: nat, r: nat)
    requires Word(Single, a) && IsTruncation(Extend(a), r)
    ensures r == a <==> !(Exp(Single, a) == 0 && Frac(Single, a) != 0) && !IsSignalling(Single, a)
  {
    hide Delivers;
    ExtendIsExact(a);
    Repack(Single, a);
    FieldBounds(Single, a);
    if Exp(Single, a) == 0xff {
      SpecialRoundTrip(a, r);
    } else if Exp(Single, a) != 0 {
      SelfDelivers(Single, a);
      DeliveryIsUnique(Single, Sign(Single, a), Magnitude(Single, a), r, a);
    }
  }

  lemma SpecialRoundTrip(a: nat, r: nat)
    requires Word(Single, a) && IsTruncation(Extend(a), r) && Exp(Single, a) == 0xff
    ensures r == a <==> !IsSignalling(Single, a)
  {
    Repack(Single, a);
    var frac, s := Frac(Single, a), Sign(Single, a);
    Unpack(Double, s, 0x7ff, frac * 0x2000_0000);
    Pow2Values();
    Fields(frac, 0, 29);
    assert Shr(Frac(Double, Extend(a)), 29) == frac;
  }
}
