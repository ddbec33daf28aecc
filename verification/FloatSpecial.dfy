/** What the arithmetic of runtime/softfloat.c does with infinities, zeros, NaNs and results out
    of range, stated on what the words stand for. */
module FloatSpecial {
  import opened Powers
  import opened Rounding
  import opened Bits
  import opened FloatWord
  import opened SoftFloat
  import opened FloatMul
  import opened FloatDiv
  import opened FloatOrder

  datatype Reading = NotANumber | Infinite(negative: bool) | Number(x: real, negative: bool)

  /** What IEEE 754 takes a word for, subnormals included; of a zero the sign is told apart. */
  ghost function Read(f: Format, w: nat): Reading {
    var negative := Sign(f, w) == 1;
    if IsFinite(f, w) then Number(Signed(Sign(f, w), FullMagnitude(f, w)), negative)
    else if Frac(f, w) == 0 then Infinite(negative)
    else NotANumber
  }

  lemma ReadZero(f: Format, s: nat)
    requires s <= 1
    ensures Word(f, Zero(f, s)) && Read(f, Zero(f, s)) == Number(0.0, s == 1)
  {
    Unpack(f, s, 0, 0);
    ScaledSum(0.0, 0.0, 1 - f.Shift());
  }

  lemma ReadInf(f: Format, s: nat)
    requires s <= 1
    ensures Word(f, Inf(f, s)) && Read(f, Inf(f, s)) == Infinite(s == 1)
    ensures Word(f, DefaultNaN(f)) && Read(f, DefaultNaN(f)) == NotANumber
  {
    Unpack(f, s, f.ExpMax(), 0);
    Unpack(f, 0, f.ExpMax(), f.Hidden() / 2);
  }

  /** A quieted NaN is a quiet NaN, and nothing else of it has changed. */
  lemma ReadQuiet(f: Format, w: nat)
    requires Word(f, w) && IsNaN(f, w)
    ensures var q := Quiet(f, w);
            && Word(f, q) && Read(f, q) == NotANumber && !IsSignalling(f, q)
            && Sign(f, q) == Sign(f, w) && Frac(f, q) % (f.Hidden() / 2) == Frac(f, w) % (f.Hidden() / 2)
    ensures !IsSignalling(f, w) ==> Quiet(f, w) == w
  {
    hide Shr, Low, Bit;
    var n, frac, s := f.FracBits() - 1, Frac(f, w), Sign(f, w);
    Repack(f, w);
    HalfHidden(f);
    LowBit(w, f.FracBits(), n);
    TopBit(frac, n);
    if !Bit(w, n) {
      Unpack(f, s, f.ExpMax(), frac + Pow2(n));
      TopBit(frac + Pow2(n), n);
      ModAdd(frac, Pow2(n));
    }
  }

  lemma HalfHidden(f: Format)
    ensures Pow2(f.FracBits() - 1) == f.Hidden() / 2 && f.Hidden() == 2 * Pow2(f.FracBits() - 1)
  {
    Pow2Small();
    Pow2Values();
    Pow2WideValues();
    FormatSizes(f);
    assert Pow2(f.FracBits()) == 2 * Pow2(f.FracBits() - 1);
  }

  lemma {:induction false} LowBit(w: nat, m: nat, n: nat)
    requires n < m
    ensures Bit(Low(w, m), n) <==> Bit(w, n)
    decreases m
  {
    if n > 0 {
      LowBit(w / 2, m - 1, n - 1);
    }
  }

  lemma ModAdd(x: nat, p: nat)
    requires p > 0
    ensures (x + p) % p == x % p
  {
    var q, r := x / p, x % p;
    assert x == q * p + r;
    DivMod(q + 1, r, p);
    assert (q + 1) * p == q * p + p;
  }

  /** The bit patterns in question, and where the reals are anchored. */
  lemma Anchors()
    ensures Inf(Single, 0) == 0x7f80_0000 && Inf(Single, 1) == 0xff80_0000
    ensures Inf(Double, 0) == 0x7ff0_0000_0000_0000 && Inf(Double, 1) == 0xfff0_0000_0000_0000
    ensures DefaultNaN(Single) == 0x7fc0_0000 && DefaultNaN(Double) == 0x7ff8_0000_0000_0000
    ensures Zero(Single, 1) == 0x8000_0000 && Zero(Double, 1) == 0x8000_0000_0000_0000
    ensures Value(Single, 0x3f80_0000) == 1.0 && Value(Double, 0x3ff0_0000_0000_0000) == 1.0
  {
    One(Single);
    One(Double);
  }

  lemma One(f: Format)
    ensures Value(f, Pack(f, 0, f.Bias(), 0)) == 1.0
  {
    FormatSizes(f);
    Unpack(f, 0, f.Bias(), 0);
    hide Exp, Frac, Sign;
    HiddenIsOne(f.Hidden(), f.FracBits());
  }

  lemma HiddenIsOne(h: nat, n: nat)
    requires h == Pow2(n)
    ensures Scaled(h as real, -(n as int)) == 1.0
  {
    Unit(n);
    ScaledTwice(1.0, n, -(n as int));
  }

  lemma {:induction false} Unit(n: nat)
    ensures Scaled(1.0, n) == Pow2(n) as real
    decreases n
  {
    if n > 0 {
      Unit(n - 1);
    }
  }

  /** Sums with an infinity or a NaN. */
  lemma SumRules(f: Format, a: nat, b: nat, r: nat)
    requires Word(f, a) && Word(f, b) && IsSum(f, a, b, r)
    ensures var x, y, z := Read(f, a), Read(f, b), Read(f, r);
            && (x.NotANumber? || y.NotANumber? ==> z == NotANumber)
            && (x.Infinite? && y.Infinite? ==> z == if x.negative == y.negative then x else NotANumber)
            && (x.Infinite? && y.Number? ==> z == x)
            && (x.Number? && y.Infinite? ==> z == y)
  {
    hide RoundsTo, Quiet, FullMagnitude, Word, Sign, Exp, Frac, Inf, DefaultNaN, Value, Signed;
    FieldBounds(f, a);
    FieldBounds(f, b);
    ReadInf(f, 0);
    if IsNaN(f, a) {
      ReadQuiet(f, a);
    } else if IsNaN(f, b) {
      ReadQuiet(f, b);
    }
  }

  /** Products with an infinity or a NaN: as the standard has it, but for an infinity times a
      NaN on the right. */
  lemma ProductRules(f: Format, a: nat, b: nat, r: nat)
    requires Word(f, a) && Word(f, b) && IsProduct(f, a, b, r)
    ensures var x, y, z := Read(f, a), Read(f, b), Read(f, r);
            && (x.NotANumber? ==> z == NotANumber)
            && (x.Number? && y.NotANumber? ==> z == NotANumber)
            && (x.Infinite? && y.Number? ==> z == if y.x == 0.0 then NotANumber else Infinite(x.negative != y.negative))
            && (x.Number? && y.Infinite? ==> z == if x.x == 0.0 then NotANumber else Infinite(x.negative != y.negative))
            && (x.Infinite? && y.Infinite? ==> z == Infinite(x.negative != y.negative))
            && (x.Infinite? && y.NotANumber? ==> z == Infinite(x.negative != (Sign(f, b) == 1)))
  {
    hide RoundsTo, Quiet, FullMagnitude, Word, Sign, Exp, Frac, Inf, DefaultNaN, Value, Signed;
    Prepare(f, a, b);
    if IsNaN(f, a) {
      ReadQuiet(f, a);
    } else if IsNaN(f, b) {
      ReadQuiet(f, b);
    }
  }

  /** Quotients with an infinity, a NaN, or a zero or subnormal divisor. A number divided by zero
      is an infinity; a subnormal divisor counts as zero under a normal number, and divides a
      subnormal one to zero. */
  lemma QuotientRules(f: Format, a: nat, b: nat, r: nat)
    requires Word(f, a) && Word(f, b) && IsQuotient(f, a, b, r)
    ensures var x, y, z := Read(f, a), Read(f, b), Read(f, r);
            && (x.NotANumber? || y.NotANumber? ==> z == NotANumber)
            && (x.Infinite? && y.Infinite? ==> z == NotANumber)
            && (x.Infinite? && y.Number? ==> z == Infinite(x.negative != y.negative))
            && (x.Number? && y.Infinite? ==> z == Number(0.0, x.negative != y.negative))
            && (x.Number? && y.Number? && y.x == 0.0 ==>
                  z == if x.x == 0.0 then NotANumber else Infinite(x.negative != y.negative))
            && (x.Number? && y.Number? && y.x != 0.0 && Exp(f, b) == 0 ==>
                  z == if Exp(f, a) == 0 then Number(0.0, x.negative != y.negative)
                       else Infinite(x.negative != y.negative))
  {
    hide RoundsTo, Quiet, FullMagnitude, Ratio, Value, Word, Sign, Exp, Frac, Inf, DefaultNaN, Zero, Signed;
    Prepare(f, a, b);
    ReadZero(f, (Sign(f, a) + Sign(f, b)) % 2);
    if IsNaN(f, a) {
      ReadQuiet(f, a);
    } else if IsNaN(f, b) {
      ReadQuiet(f, b);
    }
  }

  lemma Prepare(f: Format, a: nat, b: nat)
    requires Word(f, a) && Word(f, b)
    ensures Sign(f, a) <= 1 && Sign(f, b) <= 1
    ensures IsFinite(f, a) <==> Exp(f, a) != f.ExpMax()
    ensures IsFinite(f, b) <==> Exp(f, b) != f.ExpMax()
    ensures IsFinite(f, a) ==> (Read(f, a).x == 0.0 <==> ExactZero(f, a))
    ensures IsFinite(f, b) ==> (Read(f, b).x == 0.0 <==> ExactZero(f, b))
    ensures var s := (Sign(f, a) + Sign(f, b)) % 2;
            && s <= 1 && Read(f, Inf(f, s)) == Infinite((Sign(f, a) == 1) != (Sign(f, b) == 1))
            && Read(f, DefaultNaN(f)) == NotANumber
  {
    hide Word, Sign, Exp, Frac, Inf, DefaultNaN, FullMagnitude;
    FieldBounds(f, a);
    FieldBounds(f, b);
    ReadInf(f, (Sign(f, a) + Sign(f, b)) % 2);
    if IsFinite(f, a) {
      ZeroIsExact(f, a);
    }
    if IsFinite(f, b) {
      ZeroIsExact(f, b);
    }
  }

  lemma ZeroIsExact(f: Format, a: nat)
    requires Word(f, a) && IsFinite(f, a)
    ensures FullMagnitude(f, a) == 0.0 <==> ExactZero(f, a)
  {
    hide FullMagnitude;
    MagnitudeSign(f, a);
    Repack(f, a);
    SignFree(f, Sign(f, a), Exp(f, a), Frac(f, a));
  }

  /** 2 to the n, for any integer n. */
  ghost function TwoTo(n: int): real { Scaled(1.0, n) }

  /** From where on a rounded magnitude is an infinity, and from where down a zero. */
  function Top(f: Format): int { if f.Single? then 128 else 1024 }

  function Bottom(f: Format): int { if f.Single? then -126 else -1022 }

  /** A rounded magnitude of 2^128 or more (2^1024 in double precision) becomes infinite, one
      below 2^-126 (2^-1022) becomes zero, and any between is delivered exactly. */
  lemma EncodeRange(f: Format, s: nat, m: nat, k: int)
    requires s <= 1 && Normal(f, m)
    ensures var r := Read(f, Encode(f, s, m, k));
            if Grid(m, k) >= TwoTo(Top(f)) then r == Infinite(s == 1)
            else if Grid(m, k) < TwoTo(Bottom(f)) then r == Number(0.0, s == 1)
            else r == Number(Signed(s, Grid(m, k)), s == 1)
  {
    hide Scaled, Grid, TwoTo, Read, Inf, Zero, Pack;
    ReadInf(f, s);
    ReadZero(f, s);
    PowerOnGrid(f, Top(f));
    PowerOnGrid(f, Bottom(f));
    BinadeOrder(f, m, k, f.ExpMax() - f.Shift());
    BinadeOrder(f, m, k, 1 - f.Shift());
    if 0 < k + f.Shift() < f.ExpMax() {
      ReadPacked(f, s, m, k);
    }
  }

  lemma ReadPacked(f: Format, s: nat, m: nat, k: int)
    requires s <= 1 && Normal(f, m) && 0 < k + f.Shift() < f.ExpMax()
    ensures Read(f, Pack(f, s, k + f.Shift(), m - f.Hidden())) == Number(Signed(s, Grid(m, k)), s == 1)
  {
    hide Grid, Sign, Exp, Frac, Pack, Word;
    Unpack(f, s, k + f.Shift(), m - f.Hidden());
  }

  lemma PowerOnGrid(f: Format, n: int)
    ensures TwoTo(n) == Grid(f.Hidden(), n - f.FracBits())
  {
    FormatSizes(f);
    Unit(f.FracBits());
    ScaledTwice(1.0, f.FracBits(), n - f.FracBits());
  }

  lemma BinadeOrder(f: Format, m: nat, k: int, j: int)
    requires Normal(f, m)
    ensures Grid(m, k) >= Grid(f.Hidden(), j) <==> k >= j
  {
    if k < j {
      GridOrder(f, m, k, f.Hidden(), j);
    } else if k > j {
      GridOrder(f, f.Hidden(), j, m, k);
    } else {
      Stretch(m, f.Hidden(), k);
    }
  }
}
