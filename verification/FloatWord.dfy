/** Floating-point words as C unsigned integers: fields, the reals they stand for,
    and what it means for a word to deliver a real result. */
module FloatWord {
  import opened Powers
  import opened Rounding
  import opened Bits

  ghost predicate Word(f: Format, w: nat) {
    w < 2 * f.SignBit()
  }

  function Sign(f: Format, w: nat): nat { Shr(w, f.FracBits() + f.ExpBits()) }

  function Exp(f: Format, w: nat): nat { Low(Shr(w, f.FracBits()), f.ExpBits()) }

  function Frac(f: Format, w: nat): nat { Low(w, f.FracBits()) }

  /** sign << (width - 1) | e << fraction bits | frac, for fields that fit. */
  function Pack(f: Format, s: nat, e: nat, frac: nat): nat {
    match f
    case Single => s * 0x8000_0000 + e * 0x80_0000 + frac
    case Double => s * 0x8000_0000_0000_0000 + e * 0x10_0000_0000_0000 + frac
  }

  lemma FormatSizes(f: Format)
    ensures Pow2(f.FracBits()) == f.Hidden() && Pow2(f.ExpBits()) == f.ExpMax() + 1
    ensures Pow2(f.FracBits() + f.ExpBits()) == f.SignBit() == (f.ExpMax() + 1) * f.Hidden()
  {
    Pow2Small();
    Pow2Values();
    Pow2WideValues();
    Pow2Add(8, 3);
  }

  lemma Unpack(f: Format, s: nat, e: nat, frac: nat)
    requires s <= 1 && e <= f.ExpMax() && frac < f.Hidden()
    ensures var w := Pack(f, s, e, frac);
            Word(f, w) && Sign(f, w) == s && Exp(f, w) == e && Frac(f, w) == frac
  {
    hide Shr, Low;
    FormatSizes(f);
    Fields(s, e * f.Hidden() + frac, f.FracBits() + f.ExpBits());
    Fields(s * (f.ExpMax() + 1) + e, frac, f.FracBits());
    Fields(s, e, f.ExpBits());
  }

  lemma Repack(f: Format, w: nat)
    requires Word(f, w)
    ensures w == Pack(f, Sign(f, w), Exp(f, w), Frac(f, w))
    ensures Sign(f, w) <= 1 && Exp(f, w) <= f.ExpMax() && Frac(f, w) < f.Hidden()
  {
    FormatSizes(f);
    Split(w, f.FracBits());
    Split(Shr(w, f.FracBits()), f.ExpBits());
    ShrShr(w, f.FracBits(), f.ExpBits());
    Split(w, f.FracBits() + f.ExpBits());
    Nested(w, Sign(f, w), f.ExpMax() + 1, Exp(f, w), f.Hidden(), Frac(f, w));
    SignIsBit(Sign(f, w), f.SignBit(), Low(w, f.FracBits() + f.ExpBits()));
  }

  lemma FieldBounds(f: Format, w: nat)
    requires Word(f, w)
    ensures Sign(f, w) <= 1 && Exp(f, w) <= f.ExpMax() && Frac(f, w) < f.Hidden()
  {
    Repack(f, w);
  }

  lemma Nested(w: nat, s: nat, n: nat, e: nat, h: nat, frac: nat)
    requires w == (s * n + e) * h + frac
    ensures w == s * (n * h) + e * h + frac
  {
  }

  lemma SignIsBit(s: nat, b: nat, low: nat)
    requires s * b + low < 2 * b
    ensures s <= 1
  {
    if s >= 2 {
      MulLe(2, s, b);
    }
  }

  function Zero(f: Format, s: nat): nat { Pack(f, s, 0, 0) }

  function Inf(f: Format, s: nat): nat { Pack(f, s, f.ExpMax(), 0) }

  /** The default NaN: SNAN or DNAN in the C. */
  function DefaultNaN(f: Format): nat { Pack(f, 0, f.ExpMax(), f.Hidden() / 2) }

  predicate IsFinite(f: Format, w: nat) { Exp(f, w) < f.ExpMax() }

  predicate IsNaN(f: Format, w: nat) { Exp(f, w) == f.ExpMax() && Frac(f, w) != 0 }

  predicate IsInf(f: Format, w: nat) { Exp(f, w) == f.ExpMax() && Frac(f, w) == 0 }

  predicate IsSignalling(f: Format, w: nat) { IsNaN(f, w) && !Bit(Frac(f, w), f.FracBits() - 1) }

  /** w with the quiet bit set. */
  function Quiet(f: Format, w: nat): nat { SetBit(w, f.FracBits() - 1) }

  /** w with its sign bit flipped. */
  function Negate(f: Format, w: nat): nat {
    if w < f.SignBit() then w + f.SignBit() else w - f.SignBit()
  }

  ghost function Signed(s: nat, x: real): real { if s == 0 then x else -x }

  ghost function Abs(x: real): real { if x < 0.0 then -x else x }

  ghost function SignOf(x: real): nat { if x < 0.0 then 1 else 0 }

  /** The magnitude of a finite word; a zero exponent field reads as zero. */
  ghost function Magnitude(f: Format, w: nat): (x: real)
    ensures x >= 0.0
    ensures x == 0.0 <==> Exp(f, w) == 0
  {
    if Exp(f, w) == 0 then
      0.0
    else
      ScaledOrder(0.0, (f.Hidden() + Frac(f, w)) as real, Exp(f, w) - f.Shift());
      ScaledSum(0.0, 0.0, Exp(f, w) - f.Shift());
      Grid(f.Hidden() + Frac(f, w), Exp(f, w) - f.Shift())
  }

  ghost function Value(f: Format, w: nat): real { Signed(Sign(f, w), Magnitude(f, w)) }

  /** The word for +-m * 2^k: infinity when the exponent is too large (section 7.4),
      and, unlike the standard, signed zero when it is too small for a normal number. */
  function Encode(f: Format, s: nat, m: nat, k: int): nat
    requires f.Hidden() <= m
  {
    var e := k + f.Shift();
    if e >= f.ExpMax() then Inf(f, s)
    else if e <= 0 then Zero(f, s)
    else Pack(f, s, e, m - f.Hidden())
  }

  /** r is x > 0, with sign s, correctly rounded. */
  ghost predicate Delivers(f: Format, s: nat, x: real, r: nat) {
    exists m: nat, k: int :: NearestEven(f, x, m, k) && r == Encode(f, s, m, k)
  }

  lemma DeliveryIsUnique(f: Format, s: nat, x: real, r: nat, r': nat)
    requires x > 0.0 && Delivers(f, s, x, r) && Delivers(f, s, x, r')
    ensures r == r'
  {
    var m: nat, k: int :| NearestEven(f, x, m, k) && r == Encode(f, s, m, k);
    var m': nat, k': int :| NearestEven(f, x, m', k') && r' == Encode(f, s, m', k');
    NearestIsUnique(f, x, m, k, m', k');
  }

  lemma DeliveryExists(f: Format, s: nat, x: real) returns (r: nat)
    requires x > 0.0
    ensures Delivers(f, s, x, r)
  {
    var m, k := NearestExists(f, x);
    r := Encode(f, s, m, k);
  }

  /** A normal word delivers its own value. */
  lemma SelfDelivers(f: Format, w: nat)
    requires Word(f, w) && IsFinite(f, w) && Exp(f, w) != 0
    ensures Magnitude(f, w) > 0.0 && Delivers(f, Sign(f, w), Magnitude(f, w), w)
  {
    Repack(f, w);
    var m, k := f.Hidden() + Frac(f, w), Exp(f, w) - f.Shift();
    ExactIsNearest(f, m, k);
    assert NearestEven(f, Magnitude(f, w), m, k) && w == Encode(f, Sign(f, w), m, k);
  }

  /** An encoding inside the normal range is exact, so rounding is the only error. */
  lemma EncodedValue(f: Format, s: nat, m: nat, k: int)
    requires s <= 1 && Normal(f, m) && 0 < k + f.Shift() < f.ExpMax()
    ensures Word(f, Encode(f, s, m, k))
    ensures Value(f, Encode(f, s, m, k)) == Signed(s, Grid(m, k))
  {
    Unpack(f, s, k + f.Shift(), m - f.Hidden());
  }

  lemma NegateIsPack(f: Format, w: nat, s: nat, e: nat, frac: nat)
    requires s <= 1 && e <= f.ExpMax() && frac < f.Hidden() && w == Pack(f, s, e, frac)
    ensures Negate(f, w) == Pack(f, 1 - s, e, frac)
  {
  }

  lemma NegateFields(f: Format, w: nat)
    requires Word(f, w)
    ensures Word(f, Negate(f, w))
    ensures Sign(f, Negate(f, w)) == 1 - Sign(f, w)
    ensures Exp(f, Negate(f, w)) == Exp(f, w) && Frac(f, Negate(f, w)) == Frac(f, w)
  {
    Repack(f, w);
    NegateIsPack(f, w, Sign(f, w), Exp(f, w), Frac(f, w));
    Unpack(f, 1 - Sign(f, w), Exp(f, w), Frac(f, w));
  }

  lemma NegateValue(f: Format, w: nat)
    requires Word(f, w)
    ensures Value(f, Negate(f, w)) == -Value(f, w)
  {
    NegateFields(f, w);
    assert Magnitude(f, Negate(f, w)) == Magnitude(f, w);
  }
}
