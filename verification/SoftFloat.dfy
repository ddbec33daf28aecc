/** Addition and subtraction of runtime/softfloat.c. The single and double versions are the
    same text with different constants, so each is the instance of one method at a format. */
module SoftFloat {
  import opened Words
  import opened Powers
  import opened Rounding
  import opened Bits
  import opened FloatWord
  import opened Guard

  /** What the special operands of an addition give, in the order the C tests them. */
  function SpecialSum(f: Format, a: nat, b: nat): nat {
    if IsNaN(f, a) then Quiet(f, a)
    else if IsNaN(f, b) then Quiet(f, b)
    else if IsInf(f, a) && IsInf(f, b) then
      if Sign(f, a) != Sign(f, b) then DefaultNaN(f) else a
    else if IsInf(f, a) then a
    else b
  }

  /** r is the real x correctly rounded; an exact zero takes the given sign. */
  ghost predicate RoundsTo(f: Format, x: real, zeroSign: nat, r: nat) {
    if x == 0.0 then r == Zero(f, zeroSign) else Delivers(f, SignOf(x), Abs(x), r)
  }

  lemma SignedDelivery(f: Format, s: nat, m: real, r: nat, x: real, zeroSign: nat)
    requires s <= 1 && m >= 0.0 && x == Signed(s, m)
    requires if m == 0.0 then r == Zero(f, zeroSign) else Delivers(f, s, m, r)
    ensures RoundsTo(f, x, zeroSign, r)
  {
    if m > 0.0 {
      assert SignOf(x) == s;
      assert Abs(x) == m;
    }
  }

  /** The sum of two words: for finite operands the exact sum, correctly rounded, where
      an exact zero is negative only if both operands are negative zeros (section 6.3). */
  ghost predicate IsSum(f: Format, a: nat, b: nat, r: nat) {
    if IsFinite(f, a) && IsFinite(f, b) then
      var bothZero := Exp(f, a) == 0 && Exp(f, b) == 0;
      RoundsTo(f, Value(f, a) + Value(f, b), if bothZero && Sign(f, a) == 1 && Sign(f, b) == 1 then 1 else 0, r)
    else
      r == SpecialSum(f, a, b)
  }

  /** The rounding tail shared by every operation: bump the significand, renormalise,
      then saturate, flush or pack. */
  method RoundAndPack(f: Format, sign: nat, exp0: int, sig0: u64, up: bool, ghost x: real)
    returns (r: nat)
    requires sign <= 1 && Normal(f, sig0) && Decides(x, sig0, exp0 - f.Shift(), up)
    ensures Delivers(f, sign, x, r)
  {
    hide Delivers, Decides;
    var exp, sig := exp0, sig0;
    FormatSizes(f);
    if up {
      sig := sig + 1;
      TopBit(sig, f.FracBits() + 1);
      if Bit(sig, f.FracBits() + 1) {
        sig := sig / 2;
        exp := exp + 1;
      }
    }
    if exp >= f.ExpMax() {
      r := Inf(f, sign);
    } else if exp <= 0 {
      r := Zero(f, sign);
    } else {
      Fields(1, sig - f.Hidden(), f.FracBits());
      r := Pack(f, sign, exp, Low(sig, f.FracBits()));
    }
    DecidedDelivers(f, sign, x, sig0, exp0 - f.Shift(), up);
  }

  lemma DecidedDelivers(f: Format, s: nat, x: real, sig: nat, t: int, up: bool)
    requires Normal(f, sig) && Decides(x, sig, t, up)
    ensures var m := Rounded(f, sig, t, up); Delivers(f, s, x, Encode(f, s, m.0, m.1))
  {
    DecidedIsNearest(f, x, sig, t, up);
    var m := Rounded(f, sig, t, up);
    assert NearestEven(f, x, m.0, m.1);
  }

  /** The bound on the shifted operand that the normalisation loop relies on: a bit can only
      be lost when the operands are so far apart that one left shift renormalises. */
  lemma Aligned(f: Format, ma: nat, mb: nat, d: nat)
    requires Normal(f, ma) && Normal(f, mb) && (d == 0 ==> mb <= ma)
    ensures var q, lost := Shr(8 * mb, d), Low(8 * mb, d) != 0;
            && Jam(q, lost) <= 8 * ma
            && Jam(q, lost) < 16 * f.Hidden()
            && (lost ==> 8 * ma - Jam(q, lost) >= 4 * f.Hidden())
  {
    if d <= 3 {
      NothingLost(mb, d);
    } else {
      MostLost(mb, d);
    }
    hide Shr, Low, Pow2;
  }

  /** Up to three places only the guard bits, still zero, are shifted out. */
  lemma NothingLost(m: nat, d: nat)
    requires d <= 3
    ensures Low(8 * m, d) == 0
    ensures Shr(8 * m, d) == if d == 0 then 8 * m else if d == 1 then 4 * m else if d == 2 then 2 * m else m
  {
    if d > 0 {
      ShrDouble(4 * m, d - 1);
    }
    if d > 1 {
      ShrDouble(2 * m, d - 2);
    }
    if d > 2 {
      ShrDouble(m, 0);
    }
  }

  lemma MostLost(m: nat, d: nat)
    requires d > 3
    ensures Shr(8 * m, d) <= m / 2
  {
    ShrDouble(4 * m, d - 1);
    ShrDouble(2 * m, d - 2);
    ShrDouble(m, d - 3);
    ShrMonotone(m, m, d - 3, 1);
  }

  /** The exact sum or difference of the magnitudes, in units of the larger operand's guard bit. */
  lemma ExactMagnitude(ma: nat, mb: nat, t: int, d: nat)
    ensures var y := Scaled((8 * mb) as real, -(d as int));
            && Grid(ma, t) + Grid(mb, t - d) == Scaled((8 * ma) as real + y, t - 3)
            && Grid(ma, t) - Grid(mb, t - d) == Scaled((8 * ma) as real - y, t - 3)
  {
    var y := Scaled((8 * mb) as real, -(d as int));
    EightTimes(ma, t);
    EightTimes(mb, t - d);
    ScaledTwice((8 * mb) as real, -(d as int), t - 3);
    ScaledSum((8 * ma) as real, y, t - 3);
  }

  lemma EightTimes(m: nat, t: int)
    ensures Grid(m, t) == Scaled((8 * m) as real, t - 3)
  {
    Eighth((8 * m) as real, t);
    assert (8 * m) as real / 8.0 == m as real;
  }

  lemma GuardSizes(f: Format)
    ensures Pow2(f.FracBits() + 1) == 2 * f.Hidden()
    ensures Pow2(f.FracBits() + 3) == 8 * f.Hidden()
    ensures Pow2(f.FracBits() + 4) == 16 * f.Hidden()
  {
    FormatSizes(f);
  }

  /** The three guard bits of R are the low ones; the rest is the significand. */
  method Finish(f: Format, s: nat, exp: int, R: u64, ghost y: real, ghost g: int, ghost x: real)
    returns (r: nat)
    requires s <= 1 && 8 * f.Hidden() <= R < 16 * f.Hidden()
    requires (g == 1 || g == 2) && Jams(R, y, g) && x == Scaled(y, exp - f.Shift() - 3)
    ensures Delivers(f, s, x, r)
  {
    GuardDecides(f, R, y, g, x, exp - f.Shift());
    GuardSizes(f);
    Fits(R / 8, f.FracBits() + 1);
    var sig, rnd := Low(R / 8, f.FracBits() + 1), R % 8;
    r := RoundAndPack(f, s, exp, sig, rnd > 4 || (rnd == 4 && sig % 2 == 1), x);
  }

  method FinishSum(f: Format, s: nat, exp0: int, R0: u64, ghost y: real, ghost x: real)
    returns (r: nat)
    requires s <= 1 && 8 * f.Hidden() <= R0 < 32 * f.Hidden()
    requires Jams(R0, y, 1) && x == Scaled(y, exp0 - f.Shift() - 3)
    ensures Delivers(f, s, x, r)
  {
    var exp, R := exp0, R0;
    GuardSizes(f);
    TopBit(R, f.FracBits() + 4);
    if Bit(R, f.FracBits() + 4) {
      JamHalve(R, y);
      Halve(y, exp - f.Shift() - 3);
      R := Jam(R / 2, R % 2 != 0);
      exp := exp + 1;
      r := Finish(f, s, exp, R, y / 2.0, 1, x);
    } else {
      r := Finish(f, s, exp, R, y, 1, x);
    }
  }

  method AddMagnitudes(f: Format, s: nat, ma: u64, mb: u64, ea: nat, eb: nat, ghost x: real)
    returns (r: nat)
    requires s <= 1 && Normal(f, ma) && Normal(f, mb) && eb <= ea
    requires ea == eb ==> mb <= ma
    requires x == Grid(ma, ea - f.Shift()) + Grid(mb, eb - f.Shift())
    ensures Delivers(f, s, x, r)
  {
    hide Delivers, Grid, Scaled, Jams;
    var A, B, y := AlignOperands(f, ma, mb, ea - eb);
    SumFits(f, ma, A, B);
    JamAdd(A, B, y);
    var exp := ea;
    var R: u64 := A + B;
    SumOf(f, ma, mb, ea, eb, A, y);
    hide Normal;
    y := A as real + y;
    r := FinishSum(f, s, exp, R, y, x);
  }

  lemma SumFits(f: Format, ma: nat, A: nat, B: nat)
    requires Normal(f, ma) && A == 8 * ma && B < 16 * f.Hidden()
    ensures 8 * f.Hidden() <= A + B < 32 * f.Hidden() && A % 2 == 0
  {
    hide Pow2;
    SumSize(f.Hidden(), ma, A, B);
  }

  lemma SumSize(h: nat, m: nat, A: nat, B: nat)
    requires h <= m < 2 * h && A == 8 * m && B < 16 * h
    ensures 8 * h <= A + B < 32 * h && A % 2 == 0
  {
  }

  lemma SumOf(f: Format, ma: nat, mb: nat, ea: nat, eb: nat, A: nat, y: real)
    requires A == 8 * ma && eb <= ea && y == Scaled((8 * mb) as real, -((ea - eb) as int))
    ensures Grid(ma, ea - f.Shift()) + Grid(mb, eb - f.Shift()) == Scaled(A as real + y, ea - f.Shift() - 3)
  {
    hide Grid, Scaled;
    ExactMagnitude(ma, mb, ea - f.Shift(), ea - eb);
  }

  /** What the left-normalisation loop keeps: R still stands for the exact difference, and
      it can only be inexact when at most one more shift is needed. */
  ghost predicate Normalising(f: Format, R: nat, y: real, g: int) {
    && 0 < R < 16 * f.Hidden()
    && (g == 1 || g == 2) && Jams(R, y, g)
    && (y != R as real ==> if g == 1 then R >= 4 * f.Hidden() else R >= 8 * f.Hidden())
  }

  lemma ShiftLeft(f: Format, R: nat, y: real, g: int)
    requires Normalising(f, R, y, g) && R < 8 * f.Hidden()
    ensures Normalising(f, 2 * R, 2.0 * y, if y == R as real then g else 2)
  {
    if y != R as real {
      JamDouble(R, y);
    }
  }

  lemma StartsNormalising(f: Format, ma: nat, A: nat, B: nat, y: real)
    requires Normal(f, ma) && A == 8 * ma && B < A && Jams(A - B, A as real - y, 1)
    requires y != B as real ==> A - B >= 4 * f.Hidden()
    ensures Normalising(f, A - B, A as real - y, 1)
  {
    hide Jams, Pow2;
    SumSize(f.Hidden(), ma, A, 0);
  }

  lemma DifferenceOf(f: Format, ma: nat, mb: nat, ea: nat, eb: nat, A: nat, y: real)
    requires A == 8 * ma && eb <= ea && y == Scaled((8 * mb) as real, -((ea - eb) as int))
    ensures Grid(ma, ea - f.Shift()) - Grid(mb, eb - f.Shift()) == Scaled(A as real - y, ea - f.Shift() - 3)
  {
    hide Grid, Scaled;
    ExactMagnitude(ma, mb, ea - f.Shift(), ea - eb);
  }

  /** A jammed difference is zero or positive as the exact one is. */
  lemma SignOfDifference(R: nat, y: real, k: int)
    requires Jams(R, y, 1)
    ensures if R == 0 then Scaled(y, k) == 0.0 else Scaled(y, k) > 0.0
  {
    hide Scaled;
    ScaledSum(0.0, 0.0, k);
    ScaledOrder(0.0, y, k);
  }

  method SubMagnitudes(f: Format, s: nat, ma: u64, mb: u64, ea: nat, eb: nat, ghost x: real)
    returns (r: nat)
    requires s <= 1 && Normal(f, ma) && Normal(f, mb) && eb <= ea
    requires ea == eb ==> mb <= ma
    requires x == Grid(ma, ea - f.Shift()) - Grid(mb, eb - f.Shift())
    ensures x >= 0.0 && (if x == 0.0 then r == 0 else Delivers(f, s, x, r))
  {
    hide Delivers, Grid, Scaled, Jams, Normalising;
    var A, B, y := AlignOperands(f, ma, mb, ea - eb);
    var R: u64 := A - B;
    DifferenceOf(f, ma, mb, ea, eb, A, y);
    Difference(f, ma, A, B, y, ea - f.Shift() - 3);
    hide Normal;
    if R == 0 {
      return 0;
    }
    r := ShiftAndFinish(f, s, ea, R, A as real - y, x);
  }

  lemma Difference(f: Format, ma: nat, A: nat, B: nat, y: real, k: int)
    requires Normal(f, ma) && A == 8 * ma && B <= A && Jams(B, y, 1)
    requires y != B as real ==> A - B >= 4 * f.Hidden()
    ensures if B == A then Scaled(A as real - y, k) == 0.0
            else Scaled(A as real - y, k) > 0.0 && Normalising(f, A - B, A as real - y, 1)
  {
    hide Scaled, Jams, Normalising, Pow2;
    Even(ma);
    JamAdd(A, B, y);
    SignOfDifference(A - B, A as real - y, k);
    if B < A {
      StartsNormalising(f, ma, A, B, y);
    }
  }

  lemma Even(m: nat)
    ensures 8 * m % 2 == 0
  {
  }

  /** The left-normalisation loop and what follows it. */
  method ShiftAndFinish(f: Format, s: nat, exp0: int, R0: u64, ghost y0: real, ghost x: real) returns (r: nat)
    requires s <= 1 && Normalising(f, R0, y0, 1) && x == Scaled(y0, exp0 - f.Shift() - 3)
    ensures Delivers(f, s, x, r)
  {
    hide Delivers, Scaled, Bit;
    var exp, R := exp0, R0;
    ghost var g, y := 1, y0;
    GuardSizes(f);
    while !Bit(R, f.FracBits() + 3)
      invariant Normalising(f, R, y, g)
      invariant x == Scaled(y, exp - f.Shift() - 3)
      decreases 16 * f.Hidden() - R
    {
      TopBit(R, f.FracBits() + 3);
      ShiftLeft(f, R, y, g);
      Halve(y, exp - f.Shift() - 3);
      g := if y == R as real then g else 2;
      R, y := R * 2, 2.0 * y;
      exp := exp - 1;
    }
    TopBit(R, f.FracBits() + 3);
    r := Finish(f, s, exp, R, y, g, x);
  }

  /** A = ma << 3, and B = mb << 3 shifted right by diff with the lost bits jammed. */
  method AlignOperands(f: Format, ma: u64, mb: u64, diff: nat) returns (A: u64, B: u64, ghost y: real)
    requires Normal(f, ma) && Normal(f, mb) && (diff == 0 ==> mb <= ma)
    ensures A == 8 * ma && y == Scaled((8 * mb) as real, -(diff as int))
    ensures Jams(B, y, 1) && B <= A && B < 16 * f.Hidden()
    ensures y != B as real ==> A - B >= 4 * f.Hidden()
  {
    A, B, y := ma * 8, mb * 8, Scaled((8 * mb) as real, -(diff as int));
    Split(B, diff);
    JamShift(B, diff, Shr(B, diff), Low(B, diff));
    Aligned(f, ma, mb, diff);
    var sticky := false;
    if diff > 0 {
      if diff < 64 {
        sticky := Low(B, diff) != 0;
        B := Shr(B, diff);
      } else {
        Pow2WideValues();
        Pow2Monotone(64, diff);
        Fits(B, diff);
        sticky := B != 0;
        B := 0;
      }
    }
    B := Jam(B, sticky);
  }

  lemma GridPositive(f: Format, m: nat, k: int)
    requires Normal(f, m)
    ensures Grid(m, k) > 0.0
  {
    Stretch(0, m, k);
    ScaledSum(0.0, 0.0, k);
  }

  method AddNormals(f: Format, sa0: nat, ma0: u64, ea0: nat, sb0: nat, mb0: u64, eb0: nat)
    returns (r: nat)
    requires sa0 <= 1 && sb0 <= 1 && Normal(f, ma0) && Normal(f, mb0)
    ensures RoundsTo(f, Signed(sa0, Grid(ma0, ea0 - f.Shift())) + Signed(sb0, Grid(mb0, eb0 - f.Shift())), 0, r)
  {
    hide Delivers, Grid, RoundsTo;
    var sa, ma, ea := sa0, ma0, ea0;
    var sb, mb, eb := sb0, mb0, eb0;
    if ea < eb || (ea == eb && ma < mb) {
      ma, mb := mb, ma;
      ea, eb := eb, ea;
      sa, sb := sb, sa;
    }
    ghost var big, small := Grid(ma, ea - f.Shift()), Grid(mb, eb - f.Shift());
    GridPositive(f, ma, ea - f.Shift());
    GridPositive(f, mb, eb - f.Shift());
    ghost var x := Signed(sa0, Grid(ma0, ea0 - f.Shift())) + Signed(sb0, Grid(mb0, eb0 - f.Shift()));
    assert x == Signed(sa, big) + Signed(sb, small);
    ghost var m := if sa == sb then big + small else big - small;
    if sa == sb {
      r := AddMagnitudes(f, sa, ma, mb, ea, eb, m);
    } else {
      r := SubMagnitudes(f, sa, ma, mb, ea, eb, m);
    }
    SignsMatch(sa, sb, big, small, x, m);
    SignedDelivery(f, sa, m, r, x, 0);
  }

  lemma SignsMatch(sa: nat, sb: nat, big: real, small: real, x: real, m: real)
    requires sa <= 1 && sb <= 1 && x == Signed(sa, big) + Signed(sb, small)
    requires m == if sa == sb then big + small else big - small
    ensures x == Signed(sa, m)
  {
  }

  lemma BothZero(f: Format, a: nat, b: nat)
    requires Exp(f, a) == 0 && Exp(f, b) == 0
    ensures IsSum(f, a, b, Zero(f, if Sign(f, a) == 1 && Sign(f, b) == 1 then 1 else 0))
  {
    assert Value(f, a) == 0.0 && Value(f, b) == 0.0;
  }

  lemma LeftZero(f: Format, a: nat, b: nat)
    requires Word(f, a) && Word(f, b) && IsFinite(f, a) && IsFinite(f, b)
    requires Exp(f, a) == 0 && Exp(f, b) != 0
    ensures IsSum(f, a, b, b) && IsSum(f, b, a, b)
  {
    FieldBounds(f, b);
    SelfDelivers(f, b);
    assert Value(f, a) == 0.0;
    SignedDelivery(f, Sign(f, b), Magnitude(f, b), b, Value(f, a) + Value(f, b), 0);
    SignedDelivery(f, Sign(f, b), Magnitude(f, b), b, Value(f, b) + Value(f, a), 0);
  }

  lemma NormalSum(f: Format, a: nat, b: nat, r: nat)
    requires Word(f, a) && Word(f, b) && IsFinite(f, a) && IsFinite(f, b)
    requires Exp(f, a) != 0 && Exp(f, b) != 0
    requires RoundsTo(f, Signed(Sign(f, a), Grid(f.Hidden() + Frac(f, a), Exp(f, a) - f.Shift()))
                         + Signed(Sign(f, b), Grid(f.Hidden() + Frac(f, b), Exp(f, b) - f.Shift())), 0, r)
    ensures IsSum(f, a, b, r)
  {
    hide Delivers, RoundsTo, Grid;
    assert Value(f, a) == Signed(Sign(f, a), Grid(f.Hidden() + Frac(f, a), Exp(f, a) - f.Shift()));
    assert Value(f, b) == Signed(Sign(f, b), Grid(f.Hidden() + Frac(f, b), Exp(f, b) - f.Shift()));
  }

  /** __addsf3 and __adddf3 */
  method Add(f: Format, a: nat, b: nat) returns (r: nat)
    requires Word(f, a) && Word(f, b)
    ensures IsSum(f, a, b, r)
  {
    var aExp, bExp := Exp(f, a), Exp(f, b);
    FieldBounds(f, a);
    FieldBounds(f, b);
    if aExp == f.ExpMax() || bExp == f.ExpMax() {
      return SpecialSum(f, a, b);
    }
    r := AddFinite(f, a, b);
  }

  method AddNormalWords(f: Format, ghost a: nat, ghost b: nat,
                        sa: nat, ma: u64, ea: nat, sb: nat, mb: u64, eb: nat) returns (r: nat)
    requires Word(f, a) && Word(f, b) && IsFinite(f, a) && IsFinite(f, b)
    requires Exp(f, a) != 0 && sa == Sign(f, a) && ma == f.Hidden() + Frac(f, a) && ea == Exp(f, a)
    requires Exp(f, b) != 0 && sb == Sign(f, b) && mb == f.Hidden() + Frac(f, b) && eb == Exp(f, b)
    ensures IsSum(f, a, b, r)
  {
    hide Value, Delivers, Grid, Scaled, Pow2;
    FieldBounds(f, a);
    FieldBounds(f, b);
    r := AddNormals(f, sa, ma, ea, sb, mb, eb);
    NormalSum(f, a, b, r);
  }

  method AddFinite(f: Format, a: nat, b: nat) returns (r: nat)
    requires Word(f, a) && Word(f, b) && IsFinite(f, a) && IsFinite(f, b)
    ensures IsSum(f, a, b, r)
  {
    var aExp, bExp := Exp(f, a), Exp(f, b);
    FieldBounds(f, a);
    FieldBounds(f, b);
    var sa, sb := Sign(f, a), Sign(f, b);
    var ma: u64 := if aExp != 0 then f.Hidden() + Frac(f, a) else 0;
    var mb: u64 := if bExp != 0 then f.Hidden() + Frac(f, b) else 0;
    var ea := if aExp != 0 then aExp else 1;
    var eb := if bExp != 0 then bExp else 1;
    if ma == 0 && mb == 0 {
      BothZero(f, a, b);
      r := Zero(f, if sa == 1 && sb == 1 then 1 else 0);
    } else if ma == 0 {
      LeftZero(f, a, b);
      r := b;
    } else if mb == 0 {
      LeftZero(f, b, a);
      r := a;
    } else {
      r := AddNormalWords(f, a, b, sa, ma, ea, sb, mb, eb);
    }
  }

  /** __subsf3 and __subdf3 */
  method Subtract(f: Format, a: nat, b: nat) returns (r: nat)
    requires Word(f, a) && Word(f, b)
    ensures IsSum(f, a, Negate(f, b), r)
    ensures IsFinite(f, a) && IsFinite(f, b) && Value(f, a) != Value(f, b) ==>
              RoundsTo(f, Value(f, a) - Value(f, b), 0, r)
  {
    NegateFields(f, b);
    NegateValue(f, b);
    r := Add(f, a, Negate(f, b));
  }
}
